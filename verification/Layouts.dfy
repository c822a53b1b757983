/** The formats, byte by byte and bit by bit: what the encoders put where, said without the encoders' own parts. */
module Layouts {
  import opened Bytes
  import opened Words
  import opened Packing
  import opened Deltas
  import S = Simple8b
  import I = IntegerCoder
  import T = TimestampCoder
  import B = BooleanCoder
  import G = Gorilla
  import X = TsmIndex
  import F = TsmFile

  // ------------------------------------------------------------------------ numbers

  lemma QuotQuot(x: nat, a: nat, b: nat)
    requires a > 0 && b > 0
    ensures a * b > 0 && Quot(Quot(x, a), b) == Quot(x, a * b)
  {
    hide Quot;
    var q, r := DivideBy(x, a);
    var p, s := DivideBy(q, b);
    Regrouped(a, b, p, s, r);
    BoundStep(r, s, a, b);
    QuotOf(r + a * s, p, a * b);
  }

  lemma DivideBy(x: nat, m: nat) returns (q: nat, r: nat)
    requires m > 0
    ensures q == Quot(x, m) && r < m && x == m * q + r
  {
    q, r := Quot(x, m), x % m;
  }

  lemma Regrouped(a: nat, b: nat, p: nat, s: nat, r: nat)
    ensures a * (b * p + s) + r == (r + a * s) + (a * b) * p
  {
    assert a * (b * p + s) == a * (b * p) + a * s;
    assert a * (b * p) == (a * b) * p;
  }

  lemma QuotOf(low: nat, q: nat, m: nat)
    requires low < m
    ensures Quot(low + m * q, m) == q
  {
    DivMod(low, q, m);
  }

  /** Highest byte first: byte `i` of `n` is what is left of 256^(n - 1 - i), modulo 256. */
  lemma {:induction false} BigEndian(x: nat, n: nat, i: nat)
    requires i < n
    ensures ToBe(x, n)[i] == Quot(x, Pow256(n - 1 - i)) % 256
  {
    hide Quot, Pow256;
    if i < n - 1 {
      BigEndian(x / 256, n - 1, i);
      PowStep(n - 1 - i);
      QuotQuot(x, 256, Pow256(n - 2 - i));
      QuotIs(x, 256);
    } else {
      PowStep(0);
      QuotIs(x, 1);
    }
  }

  lemma PowStep(n: nat)
    ensures Pow256(0) == 1 && (n > 0 ==> Pow256(n) == 256 * Pow256(n - 1))
  {
  }

  lemma QuotIs(x: nat, m: nat)
    requires m > 0
    ensures Quot(x, m) == x / m && (m == 1 ==> Quot(x, m) == x)
  {
  }

  function Pow128(n: nat): (r: nat)
    ensures r > 0
  {
    if n == 0 then 1 else 128 * Pow128(n - 1)
  }

  /** Seven bits a byte, the lowest first; all bytes but the last have the top bit set; no byte is there needlessly. */
  lemma {:induction false} VarBytes(x: nat, i: nat)
    requires i < |Var(x)|
    ensures Var(x)[i] % 128 == Quot(x, Pow128(i)) % 128
    ensures Var(x)[i] >= 128 <==> i < |Var(x)| - 1
    ensures |Var(x)| > 1 ==> Var(x)[|Var(x)| - 1] != 0
    decreases x
  {
    hide Quot, Pow128;
    if x >= 128 {
      VarBytes(x / 128, if i == 0 then 0 else i - 1);
      QuotIs(x, 128);
      if i > 0 {
        QuotQuot(x, 128, Pow128(i - 1));
        SevenStep(i);
      }
    }
    SevenStep(0);
    QuotIs(x, 1);
  }

  lemma SevenStep(n: nat)
    ensures Pow128(0) == 1 && (n > 0 ==> Pow128(n) == 128 * Pow128(n - 1))
  {
  }

  /** A whole number made one of 64 bits, unsigned */
  function Mod64(x: int): U64 {
    x % 0x1_0000_0000_0000_0000
  }

  // ------------------------------------------------------------------------ simple8b

  /** The rows are all ways to have as many values as fit, as wide as fits, in 60 bits; the most values first. */
  lemma Table(row: nat)
    requires row < 14
    ensures S.Ints(row) == 60 / S.Width(row) && S.Width(row) == 60 / S.Ints(row)
    ensures S.Width(0) == 1 && (row > 0 ==> S.Width(row - 1) < S.Width(row))
    ensures forall w :: 1 <= w <= 60 && 60 / (60 / w) == w ==> exists k :: 0 <= k < 14 && S.Width(k) == w
  {
    forall w | 1 <= w <= 60 && 60 / (60 / w) == w ensures exists k :: 0 <= k < 14 && S.Width(k) == w {
      Widths(w);
    }
  }

  lemma Widths(w: nat)
    requires 1 <= w <= 60 && 60 / (60 / w) == w
    ensures exists k :: 0 <= k < 14 && S.Width(k) == w
  {
    var n := 60 / w;
    assert w == 60 / n;
    var k := if w <= 8 then w - 1 else if w == 10 then 8 else if w == 12 then 9 else if w == 15 then 10
             else if w == 20 then 11 else if w == 30 then 12 else 13;
    assert S.Width(k) == w;
  }

  lemma {:induction false} UnpackAt(x: nat, n: nat, w: nat, k: nat)
    requires k < n
    ensures Unpack(x, n, w)[k] == Quot(x, Pow2(k * w)) % Pow2(w)
    decreases n
  {
    hide Quot, Pow2;
    if k == 0 {
      NoShift(x);
    } else {
      UnpackAt(Quot(x, Pow2(w)), n - 1, w, k - 1);
      QuotQuot(x, Pow2(w), Pow2((k - 1) * w));
      assert w + (k - 1) * w == k * w;
      Pow2Add(w, (k - 1) * w);
    }
  }

  lemma NoShift(x: nat)
    ensures Quot(x, Pow2(0)) == x
  {
  }

  /** A word of 240 ones is 0, one of 120 ones 2^60; no run of ones that is as long is put into rows. */
  lemma OnesFirst(src: seq<nat>)
    requires src != []
    ensures S.Ones(src, 240) ==> S.FirstChunk(src) == S.Some(S.Chunk(240, 0))
    ensures S.Ones(src, 120) && !S.Ones(src, 240) ==> S.FirstChunk(src) == S.Some(S.Chunk(120, Pow2(60)))
  {
    hide Pow2;
  }

  /**
   * Else a word takes as many values as any row can hold of them; its top four bits are the row's number and two, and
   * the values are in fields of the row's width from the lowest bit up.
   */
  lemma DensestRow(src: seq<nat>, k: nat)
    requires src != [] && !S.Ones(src, 120) && S.FirstChunk(src).Some? && k < S.FirstChunk(src).value.n
    ensures exists row :: 0 <= row < 14 && IsRow(src, S.FirstChunk(src).value, row, k)
  {
    hide Pow2, Quot, Pack;
    var row := S.FirstRow(src, 0).value;
    var vals := src[..S.Ints(row)];
    S.Selector(row, vals);
    S.RowRoundTrip(row, vals);
    UnpackAt(S.RowWord(row, vals), S.Ints(row), S.Width(row), k);
    forall other | 0 <= other < 14 && S.Ints(other) > S.Ints(row) ensures !S.RowFits(src, other) {
      if other > row { Decreasing(row, other); }
    }
    assert vals[k] == src[k];
    assert IsRow(src, S.FirstChunk(src).value, row, k);
  }

  /** A chunk is a word of this row, and value `k` is where it should be. */
  ghost predicate IsRow(src: seq<nat>, c: S.Chunk, row: nat, k: nat)
    requires row < 14 && k < |src|
  {
    && c.n == S.Ints(row) && Quot(c.word, Pow2(60)) == row + 2
    && Quot(c.word, Pow2(k * S.Width(row))) % Pow2(S.Width(row)) == src[k]
    && forall other :: 0 <= other < 14 && S.Ints(other) > c.n ==> !S.RowFits(src, other)
  }

  lemma Decreasing(a: nat, b: nat)
    requires a < b < 14
    ensures S.Ints(a) > S.Ints(b)
  {
  }

  // ------------------------------------------------------------------------ integers

  /** How far the `i`-th value is from the one before it, modulo 2^64, as a signed number */
  function Step(src: seq<I64>, i: nat): I64
    requires 0 < i < |src|
  {
    (src[i] - src[i - 1] + TWO63) % TWO64 - TWO63
  }

  /** 0, -1, 1, -2, ... as 0, 1, 2, 3, ... */
  function Zig(v: I64): U64 {
    if v >= 0 then 2 * v else -2 * v - 1
  }

  ghost predicate AllOneStep(src: seq<I64>) {
    forall i :: 2 <= i < |src| ==> Step(src, i) == Step(src, 1)
  }

  lemma StepIs(src: seq<I64>, i: nat)
    requires 0 < i < |src|
    ensures Diffs(src)[i] == Step(src, i)
  {
  }

  lemma ZigsAre(src: seq<I64>, i: nat)
    requires i < |src|
    ensures I.Zigs(Diffs(src))[i] == Zig(if i == 0 then src[0] else Step(src, i))
  {
    hide ZigZag, UnZigZag, Step, Sub;
    if i > 0 { StepIs(src, i); }
    ZigZagBijection(Diffs(src)[i], 0);
  }

  /** The first byte: 0x20 for three values or more in equal steps, else 0x10 if every step has 60 bits, else 0x00 */
  lemma IntegerTag(src: seq<I64>)
    requires src != []
    ensures I.Encoded(src) != []
    ensures I.Encoded(src)[0] ==
      if |src| > 2 && AllOneStep(src) then 0x20
      else if forall i :: 1 <= i < |src| ==> -0x800_0000_0000_0000 <= Step(src, i) < 0x800_0000_0000_0000 then 0x10
      else 0x00
  {
    hide ToBe, S.BytesOf, S.WordsOf, Var, Diffs, I.Zigs, Step, I.IsRun, I.Packable;
    var z := I.Zigs(Diffs(src));
    forall i | 0 <= i < |src| ensures z[i] == Zig(if i == 0 then src[0] else Step(src, i)) { ZigsAre(src, i); }
    OneStepIsRun(src);
    NarrowSteps(src);
  }

  lemma OneStepIsRun(src: seq<I64>)
    requires src != []
    ensures I.IsRun(I.Zigs(Diffs(src))) <==> |src| > 2 && AllOneStep(src)
  {
    hide Step, Diffs, I.Zigs;
    var z := I.Zigs(Diffs(src));
    forall i | 1 <= i < |src| ensures z[i] == Zig(Step(src, i)) { ZigsAre(src, i); }
    if |src| > 2 {
      forall i | 2 <= i < |src| ensures z[i] == z[1] <==> Step(src, i) == Step(src, 1) { }
    }
  }

  lemma NarrowSteps(src: seq<I64>)
    requires src != []
    ensures I.Packable(I.Zigs(Diffs(src))) <==>
      forall i :: 1 <= i < |src| ==> -0x800_0000_0000_0000 <= Step(src, i) < 0x800_0000_0000_0000
  {
    hide Step, Diffs, I.Zigs;
    var z := I.Zigs(Diffs(src));
    forall i | 1 <= i < |src|
      ensures z[i] <= I.MAX_VALUE <==> -0x800_0000_0000_0000 <= Step(src, i) < 0x800_0000_0000_0000
    {
      ZigsAre(src, i);
    }
  }

  /** Equal steps: the first value, the step and how many steps there are */
  lemma IntegerRun(src: seq<I64>)
    requires |src| > 2 && AllOneStep(src)
    ensures I.Encoded(src) == [0x20] + ToBe(Zig(src[0]), 8) + Var(Zig(Step(src, 1))) + Var(|src| - 1)
  {
    hide ToBe, S.BytesOf, S.WordsOf, Var, Diffs, I.Zigs, Step, I.IsRun;
    ZigsAre(src, 0);
    ZigsAre(src, 1);
    OneStepIsRun(src);
  }

  lemma {:induction false} BytesAt(words: seq<nat>, i: nat)
    requires i < |words|
    ensures |S.BytesOf(words)| == 8 * |words| && S.BytesOf(words)[8 * i..8 * i + 8] == ToBe(words[i], 8)
    decreases |words|
  {
    hide ToBe;
    S.BytesLength(words);
    var init := words[..|words| - 1];
    S.BytesLength(init);
    if i < |words| - 1 {
      BytesAt(init, i);
      assert S.BytesOf(words)[8 * i..8 * i + 8] == S.BytesOf(init)[8 * i..8 * i + 8];
    }
  }

  lemma AfterTag(tag: Byte, b: seq<Byte>, p: nat)
    requires p + 8 <= |b|
    ensures ([tag] + b)[1 + p..9 + p] == b[p..p + 8]
  {
  }

  /** Wide steps: the first value and every step, in eight bytes each */
  lemma IntegerRaw(src: seq<I64>, i: nat)
    requires i < |src| && I.Encoded(src) != [] && I.Encoded(src)[0] == 0x00
    ensures |I.Encoded(src)| == 1 + 8 * |src|
    ensures I.Encoded(src)[1 + 8 * i..9 + 8 * i] == ToBe(Zig(if i == 0 then src[0] else Step(src, i)), 8)
  {
    hide ToBe, S.BytesOf, S.WordsOf, Var, Diffs, I.Zigs, Step, I.IsRun, I.Packable;
    var z := I.Zigs(Diffs(src));
    ZigsAre(src, i);
    BytesAt(z, i);
    var b := S.BytesOf(z);
    assert I.Encoded(src) == [0x00] + b;
    AfterTag(0x00, b, 8 * i);
  }

  /** Narrow steps: the first value, and then the steps as simple8b packs them */
  lemma IntegerPacked(src: seq<I64>, zigs: seq<nat>)
    requires src != [] && I.Encoded(src) != [] && I.Encoded(src)[0] == 0x10
    requires |zigs| == |src| - 1 && forall i :: 0 <= i < |zigs| ==> zigs[i] == Zig(Step(src, i + 1))
    ensures S.WordsOf(zigs).Some?
    ensures I.Encoded(src) == [0x10] + ToBe(Zig(src[0]), 8) + S.BytesOf(S.WordsOf(zigs).value)
  {
    hide ToBe, S.BytesOf, S.WordsOf, Var, Diffs, I.Zigs, Step, I.IsRun, I.Packable;
    var z := I.Zigs(Diffs(src));
    ZigsAre(src, 0);
    forall i | 0 <= i < |zigs| ensures z[1..][i] == zigs[i] { ZigsAre(src, i + 1); }
    assert z[1..] == zigs;
    I.PackableIs(z);
  }

  // ------------------------------------------------------------------------ timestamps

  /** How far the `i`-th time is from the one before it, modulo 2^64, and the first from zero */
  function Gap(src: seq<I64>, i: nat): U64
    requires i < |src|
  {
    if i == 0 then Mod64(src[0]) else var x: int := src[i]; Mod64(x - src[i - 1])
  }

  lemma GapIs(src: seq<I64>, i: nat)
    requires i < |src|
    ensures T.Raws(Diffs(src))[i] == Gap(src, i)
  {
    T.RawAt(src, i);
  }

  ghost predicate AllOneGap(src: seq<I64>) {
    forall i :: 2 <= i < |src| ==> Gap(src, i) == Gap(src, 1)
  }

  ghost predicate Dividing(m: nat, gaps: seq<nat>)
    requires m > 0
  {
    forall i :: 0 <= i < |gaps| ==> gaps[i] % m == 0
  }

  /** The largest power of ten, up to the twelfth, that divides all of these */
  ghost predicate IsScale(e: nat, gaps: seq<nat>) {
    e <= 12 && Dividing(T.Pow10(e), gaps) && forall k :: e < k <= 12 ==> !Dividing(T.Pow10(k), gaps)
  }

  lemma ScaleIsDivides(e: nat, gaps: seq<nat>)
    ensures IsScale(e, gaps) <==>
      e <= 12 && T.DividesAll(T.Pow10(e), gaps) && forall k :: e < k <= 12 ==> !T.DividesAll(T.Pow10(k), gaps)
  {
    hide T.Pow10;
    forall k: nat ensures Dividing(T.Pow10(k), gaps) == T.DividesAll(T.Pow10(k), gaps) {
      SameDividing(T.Pow10(k), gaps);
    }
    if IsScale(e, gaps) {
      forall k | e < k <= 12 ensures !T.DividesAll(T.Pow10(k), gaps) { assert !Dividing(T.Pow10(k), gaps); }
    } else if e <= 12 && T.DividesAll(T.Pow10(e), gaps) {
      assert Dividing(T.Pow10(e), gaps);
      var k :| e < k <= 12 && Dividing(T.Pow10(k), gaps);
      assert T.DividesAll(T.Pow10(k), gaps);
    }
  }

  lemma SameDividing(m: nat, gaps: seq<nat>)
    requires m > 0
    ensures Dividing(m, gaps) == T.DividesAll(m, gaps)
  {
    assert forall x: nat :: T.Divides(m, x) == (x % m == 0);
  }

  lemma ScaleOfOne(x: nat, e: nat)
    requires IsScale(e, [x])
    ensures T.Lower(x, 12) == e
  {
    hide T.Pow10, T.Lower;
    ScaleIsDivides(e, [x]);
    var l := T.Lower(x, 12);
    assert [x][0] == x;
    if l < e { T.LowerIsLargest(x, 12, e); }
    assert T.DividesAll(T.Pow10(l), [x]);
  }

  lemma ScaleOfAll(gaps: seq<nat>, e: nat)
    requires IsScale(e, gaps)
    ensures T.Exponent(gaps, 12) == e
  {
    hide T.Pow10, T.Exponent, T.DividesAll;
    ScaleIsDivides(e, gaps);
    T.ExponentIsLargest(gaps, 12);
  }

  lemma OneGapIsSteady(src: seq<I64>)
    requires src != []
    ensures T.IsSteady(T.Raws(Diffs(src))) <==> |src| > 1 && AllOneGap(src)
    ensures I.Packable(T.Raws(Diffs(src))) <==> forall i :: 1 <= i < |src| ==> Gap(src, i) < 0x1000_0000_0000_0000
  {
    hide Gap, Diffs, T.Raws;
    var u := T.Raws(Diffs(src));
    forall i | 0 <= i < |src| ensures u[i] == Gap(src, i) { GapIs(src, i); }
  }

  /** Equal gaps: the scale in the first byte, and then the first time, the scaled gap and how many times there are */
  lemma TimestampRun(src: seq<I64>, e: nat)
    requires |src| > 1 && AllOneGap(src) && IsScale(e, [Gap(src, 1)])
    ensures T.Encoded(src) == [0x20 + e] + ToBe(Gap(src, 0), 8) + Var(Quot(Gap(src, 1), T.Pow10(e))) + Var(|src|)
  {
    hide ToBe, S.BytesOf, S.WordsOf, Var, Diffs, T.Raws, Gap, T.Lower, T.Pow10, T.Exponent, T.IsSteady, I.Packable, IsScale;
    GapIs(src, 0);
    GapIs(src, 1);
    OneGapIsSteady(src);
    ScaleOfOne(Gap(src, 1), e);
  }

  /** Gaps of more than 60 bits: every gap in eight bytes */
  lemma TimestampRaw(src: seq<I64>, i: nat, j: nat)
    requires i < |src| && 0 < j < |src| && !AllOneGap(src) && Gap(src, j) >= 0x1000_0000_0000_0000
    ensures |T.Encoded(src)| == 1 + 8 * |src| && T.Encoded(src)[0] == 0x00
    ensures T.Encoded(src)[1 + 8 * i..9 + 8 * i] == ToBe(Gap(src, i), 8)
  {
    hide ToBe, S.BytesOf, S.WordsOf, Var, Diffs, T.Raws, Gap, T.Lower, T.Pow10, T.Exponent, T.IsSteady, I.Packable;
    OneGapIsSteady(src);
    var u := T.Raws(Diffs(src));
    GapIs(src, i);
    BytesAt(u, i);
    var b := S.BytesOf(u);
    assert T.Encoded(src) == [0x00] + b;
    AfterTag(0x00, b, 8 * i);
  }

  /** Else the scale of all gaps is in the first byte, and the scaled gaps are packed by simple8b. */
  lemma TimestampPacked(src: seq<I64>, e: nat, gaps: seq<nat>, scaled: seq<nat>)
    requires src != [] && !(|src| > 1 && AllOneGap(src)) && |gaps| == |scaled| == |src| - 1
    requires forall i :: 0 <= i < |gaps| ==> gaps[i] == Gap(src, i + 1) < 0x1000_0000_0000_0000
    requires IsScale(e, gaps) && forall i :: 0 <= i < |gaps| ==> scaled[i] == Quot(gaps[i], T.Pow10(e))
    ensures S.WordsOf(scaled).Some?
    ensures T.Encoded(src) == [0x10 + e] + ToBe(Gap(src, 0), 8) + S.BytesOf(S.WordsOf(scaled).value)
  {
    hide ToBe, S.BytesOf, S.WordsOf, Var, Diffs, T.Raws, Gap, T.Lower, T.Pow10, T.Exponent, T.IsSteady, I.Packable, IsScale;
    hide Quot;
    OneGapIsSteady(src);
    var u := T.Raws(Diffs(src));
    GapIs(src, 0);
    forall i | 0 <= i < |gaps| ensures u[1..][i] == gaps[i] { GapIs(src, i + 1); }
    assert u[1..] == gaps;
    forall i | 1 <= i < |src| ensures Gap(src, i) < 0x1000_0000_0000_0000 { assert gaps[i - 1] == Gap(src, i); }
    ScaleOfAll(gaps, e);
    T.ScaledNarrow(u, T.Pow10(e));
    assert T.Scaled(gaps, T.Pow10(e)) == scaled;
  }

  // ------------------------------------------------------------------------ booleans

  lemma {:induction false} BitIs(x: nat, i: nat)
    ensures BitOf(x, i) <==> Quot(x, Pow2(i)) % 2 == 1
    decreases i
  {
    hide Quot, Pow2;
    if i == 0 {
      NoShift(x);
    } else {
      BitIs(x / 2, i - 1);
      QuotQuot(x, 2, Pow2(i - 1));
      QuotIs(x, 2);
      Pow2Step(i);
    }
  }

  lemma Pow2Step(n: nat)
    requires n > 0
    ensures Pow2(n) == 2 * Pow2(n - 1)
  {
  }

  /** Byte 0x10, the number of booleans, and value `k` at the bit that is `k` from the highest of the byte after them */
  lemma BooleanLayout(b: seq<Byte>, src: seq<bool>, k: nat)
    requires B.IsBlock(b, src) && k < |src|
    ensures b[0] == 0x10 && |b| == 1 + |Var(|src|)| + (|src| + 7) / 8 && b[1..1 + |Var(|src|)|] == Var(|src|)
    ensures Quot(b[1 + |Var(|src|)| + k / 8], Pow2(7 - k % 8)) % 2 == 1 <==> src[k]
  {
    hide Quot, Pow2, BitOf, Var;
    var h := 1 + |Var(|src|)|;
    assert B.BitAt(b, 8 * h + k) == src[k];
    assert (8 * h + k) / 8 == h + k / 8 && (8 * h + k) % 8 == k % 8;
    BitIs(b[h + k / 8], 7 - k % 8);
  }

  // ------------------------------------------------------------------------ floats

  /** The word that ends a block: bits 1 to 12 and the last eight */
  lemma Sentinel(i: nat)
    requires i < 64
    ensures G.SENTINEL[i] <==> 1 <= i <= 12 || i >= 56
  {
  }

  /** The header is the byte 0x10, and the first word follows it. */
  lemma FloatHead(src: seq<Word>)
    requires src != []
    ensures var bits := G.BlockBits(src);
      |bits| >= 72 && bits[..8] == [false, false, false, true, false, false, false, false] && bits[8..72] == src[0]
  {
    hide G.TailBits;
  }

  /** The difference has no set bit outside the known window. */
  predicate InWindow(w: G.Window, delta: Word) {
    w.Window? && LeadingZeros(delta) % 32 >= w.leading && TrailingZeros(delta) >= w.trailing
  }

  lemma ReuseIsInWindow(w: G.Window, delta: Word)
    ensures G.Reuses(w, delta) == InWindow(w, delta)
  {
  }

  /** A 0 bit for no difference; 10 and the bits in the known window, if there are none outside it */
  lemma FloatKnown(w: G.Window, delta: Word)
    requires G.ValidWindow(w) && (delta == Zeros(64) || InWindow(w, delta))
    ensures var bits := G.DeltaBits(w, delta);
      && G.NextWindow(w, delta) == w
      && (delta == Zeros(64) ==> bits == [false])
      && (delta != Zeros(64) ==>
          |bits| > 2 && bits[..2] == [true, false] && bits[2..] == delta[w.leading..64 - w.trailing])
  {
    hide G.Reuses, G.ReusedCode, G.FreshCode, G.Clamp, LeadingZeros, TrailingZeros;
    ReuseIsInWindow(w, delta);
    if delta != Zeros(64) { ReusedParts(w.leading, w.trailing, delta); }
  }

  /** Else 11, the leading zeros modulo 32 in five bits, how many bits follow modulo 64 in six, and these bits */
  lemma FloatFresh(w: G.Window, delta: Word)
    requires G.ValidWindow(w) && delta != Zeros(64) && !InWindow(w, delta)
    ensures var bits, l, t := G.DeltaBits(w, delta), LeadingZeros(delta) % 32, TrailingZeros(delta);
      && l + t < 64 && |bits| > 13 && bits[..2] == [true, true] && ToNat(bits[2..7]) == l
      && ToNat(bits[7..13]) == (64 - l - t) % 64 && bits[13..] == delta[l..64 - t]
      && G.NextWindow(w, delta) == G.Window(l, t)
  {
    hide InWindow, G.Reuses, G.ReusedCode, G.FreshCode, ToNat, LeadingZeros, TrailingZeros;
    ReuseIsInWindow(w, delta);
    G.NonZeroSpan(delta);
    FreshParts(LeadingZeros(delta) % 32, TrailingZeros(delta), delta);
  }

  lemma ReusedParts(l: nat, t: nat, delta: Word)
    requires l + t < 64
    ensures var bits := G.ReusedCode(l, t, delta);
      |bits| > 2 && bits[..2] == [true, false] && bits[2..] == delta[l..64 - t]
  {
  }

  lemma FreshParts(l: nat, t: nat, delta: Word)
    requires l + t < 64 && l < 32
    ensures var bits := G.FreshCode(l, t, delta);
      && |bits| > 13 && bits[..2] == [true, true] && ToNat(bits[2..7]) == l
      && ToNat(bits[7..13]) == (64 - l - t) % 64 && bits[13..] == delta[l..64 - t]
  {
    hide FromNat, ToNat;
    var bits := G.FreshCode(l, t, delta);
    assert bits[2..7] == FromNat(l, 5) && bits[7..13] == FromNat(64 - l - t, 6);
    FiveSixBits();
    ToNatFromNat(l, 5);
    SixBits(64 - l - t);
  }

  lemma FiveSixBits()
    ensures Pow2(5) == 32 && Pow2(6) == 64
  {
    assert Pow2(3) == 8;
  }

  lemma SixBits(n: nat)
    requires 0 < n <= 64
    ensures ToNat(FromNat(n, 6)) == n % 64
  {
    FiveSixBits();
    if n < 64 {
      ToNatFromNat(n, 6);
    } else {
      SameLow(64, 0, 6);
      ToNatFromNat(0, 6);
    }
  }

  lemma SameLow(x: nat, y: nat, w: nat)
    requires x == 64 && y == 0 && w == 6
    ensures FromNat(x, w) == FromNat(y, w)
  {
    forall i | 0 <= i < w ensures FromNat(x, w)[i] == FromNat(y, w)[i] { LowZero(w - 1 - i); }
  }

  lemma LowZero(i: nat)
    requires i < 6
    ensures BitOf(64, i) == BitOf(0, i)
  {
    B.NoBits(i);
    assert BitOf(64, 5) == BitOf(2, 0) && BitOf(64, 4) == BitOf(4, 0) && BitOf(64, 3) == BitOf(8, 0);
    assert BitOf(64, 2) == BitOf(16, 0) && BitOf(64, 1) == BitOf(32, 0);
  }

  /** After the first word the block is the codes of neighbours' differences, the last one's from the end word. */
  lemma FloatStream(prev: Word, w: G.Window, rest: seq<Word>)
    requires G.ValidWindow(w)
    ensures var next := if rest == [] then G.SENTINEL else rest[0];
      var delta := Xor(next, prev);
      && (forall i :: 0 <= i < 64 ==> (delta[i] <==> next[i] != prev[i]))
      && G.TailBits(prev, w, rest) ==
         G.DeltaBits(w, delta) + if rest == [] then [] else G.TailBits(next, G.NextWindow(w, delta), rest[1..])
  {
    hide G.DeltaBits, G.NextWindow;
  }

  // ------------------------------------------------------------------------ the index of a TSM file

  lemma TypeCodes()
    ensures X.Code(X.Float) == 0 && X.Code(X.Integer) == 1 && X.Code(X.Boolean) == 2
    ensures X.Code(X.Text) == 3 && X.Code(X.Unsigned) == 4 && X.Code(X.Unknown) == 5
  {
  }

  /** A block's entry: first and last time, offset, size and offset of the values, eight bytes each */
  lemma BlockLayout(b: X.FileBlock)
    ensures var r := X.BlockBytes(b);
      && |r| == 40 && r[0..8] == ToBe(Mod64(b.minTs), 8) && r[8..16] == ToBe(Mod64(b.maxTs), 8)
      && r[16..24] == ToBe(b.offset, 8) && r[24..32] == ToBe(b.size, 8) && r[32..40] == ToBe(b.valOff, 8)
  {
    hide ToBe;
    var r := X.BlockBytes(b);
    assert Mod64(b.minTs) == AsU64(b.minTs) && Mod64(b.maxTs) == AsU64(b.maxTs);
    assert r[0..8] == ToBe(AsU64(b.minTs), 8) && r[8..16] == ToBe(AsU64(b.maxTs), 8);
    assert r[16..24] == ToBe(b.offset, 8) && r[24..32] == ToBe(b.size, 8);
    assert r[32..40] == r[32..] == ToBe(b.valOff, 8);
  }

  /** A field's entry: its id, its type, the number of its blocks modulo 2^16, and then the blocks */
  lemma FieldLayout(before: seq<X.Field>, f: X.Field, after: seq<X.Field>, k: nat)
    requires forall i :: 0 <= i < |before| ==> before[i].blocks != []
    requires forall i :: 0 <= i < |after| ==> after[i].blocks != []
    requires k < |f.blocks|
    ensures var b := X.IndexBytes(before + [f] + after);
      var p := |X.IndexBytes(before)|;
      && p + 51 + 40 * k <= |b| && b[p..p + 8] == ToBe(f.id, 8) && b[p + 8] == X.Code(f.blocks[0].kind)
      && b[p + 9..p + 11] == ToBe(|f.blocks| % 0x1_0000, 2)
      && b[p + 11 + 40 * k..p + 51 + 40 * k] == X.BlockBytes(f.blocks[k])
  {
    hide ToBe, X.BlockBytes, X.IndexBytes;
    var h, bs, tail := X.FieldHead(f), X.BlocksBytes(f.blocks), X.IndexBytes(after);
    IndexSplits(before, [f] + after);
    assert before + ([f] + after) == before + [f] + after;
    assert ([f] + after)[1..] == after;
    FirstOfIndex([f] + after);
    var a := X.IndexBytes(before);
    var b := a + (h + bs + tail);
    var p := |a|;
    BlocksSplit(f.blocks, k);
    assert b[p..p + 8] == h[..8] == ToBe(f.id, 8);
    assert b[p + 9..p + 11] == h[9..11] == ToBe(|f.blocks| % 0x1_0000, 2);
    assert b[p + 11 + 40 * k..p + 51 + 40 * k] == bs[40 * k..40 * k + 40];
  }

  lemma FirstOfIndex(fs: seq<X.Field>)
    requires fs != [] && forall i :: 0 <= i < |fs| ==> fs[i].blocks != []
    ensures X.IndexBytes(fs) == X.FieldHead(fs[0]) + X.BlocksBytes(fs[0].blocks) + X.IndexBytes(fs[1..])
  {
  }

  lemma {:induction false} IndexSplits(a: seq<X.Field>, b: seq<X.Field>)
    requires forall i :: 0 <= i < |a| ==> a[i].blocks != []
    requires forall i :: 0 <= i < |b| ==> b[i].blocks != []
    ensures X.IndexBytes(a + b) == X.IndexBytes(a) + X.IndexBytes(b)
    decreases |a|
  {
    hide X.FieldHead, X.BlocksBytes;
    if a == [] {
      assert a + b == b;
    } else {
      assert (a + b)[1..] == a[1..] + b;
      IndexSplits(a[1..], b);
    }
  }

  lemma {:induction false} BlocksSplit(bs: seq<X.FileBlock>, k: nat)
    requires k < |bs|
    ensures X.BlocksBytes(bs)[40 * k..40 * k + 40] == X.BlockBytes(bs[k])
    decreases k
  {
    hide X.BlockBytes;
    var b, rest := X.BlocksBytes(bs), X.BlocksBytes(bs[1..]);
    if k == 0 {
      assert b[..40] == X.BlockBytes(bs[0]);
    } else {
      BlocksSplit(bs[1..], k - 1);
      assert b[40 * k..40 * k + 40] == rest[40 * (k - 1)..40 * (k - 1) + 40];
    }
  }

  /** The first five bytes of a file */
  lemma FileHead()
    ensures ToBe(F.TSM_MAGIC, 4) + [F.VERSION] == [0x01, 0x34, 0x66, 0x13, 0x01]
  {
    var m := F.TSM_MAGIC;
    assert ToBe(m / 0x1_0000, 2) == ToBe(m / 0x100_0000, 1) + [0x34];
    assert ToBe(m / 0x100_0000, 1) == ToBe(0, 0) + [0x01];
    assert ToBe(m, 4) == ToBe(m / 0x100, 3) + [0x13];
    assert ToBe(m / 0x100, 3) == ToBe(m / 0x1_0000, 2) + [0x66];
  }
}
