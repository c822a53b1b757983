/** Timestamps as differences: run-length, raw, or divided by a power of ten and packed with simple8b. */
module TimestampCoder {
  import opened Bytes
  import opened Packing
  import opened Words
  import opened Simple8b
  import opened Deltas
  import opened IntegerCoder

  const MAX_EXPONENT := 12

  function Pow10(n: nat): (r: nat)
    ensures r > 0
  {
    if n == 0 then 1 else 10 * Pow10(n - 1)
  }

  // ------------------------------------------------------------------------ the divisor

  predicate Divides(m: nat, x: nat)
    requires m > 0
  {
    x % m == 0
  }

  /** The inner loop: the divisor is lowered until it divides the difference. */
  function Lower(x: nat, e: nat): (r: nat)
    ensures r <= e && Divides(Pow10(r), x)
    decreases e
  {
    if e == 0 || Divides(Pow10(e), x) then e else Lower(x, e - 1)
  }

  function Exponent(u: seq<nat>, e: nat): (r: nat)
    ensures r <= e
    decreases |u|
  {
    if u == [] then e else Exponent(u[1..], Lower(u[0], e))
  }

  lemma FactorDivides(m: nat, n: nat, x: nat)
    requires m > 0 && n > 0 && m * n > 0 && Divides(m * n, x)
    ensures Divides(m, x)
  {
    var q := x / (m * n);
    assert x == m * n * q == m * (n * q);
    DivMod(0, n * q, m);
  }

  lemma {:induction false} LesserDivides(a: nat, b: nat, x: nat)
    requires a <= b && Divides(Pow10(b), x)
    ensures Divides(Pow10(a), x)
  {
    if a < b {
      assert Pow10(b) == Pow10(b - 1) * 10;
      FactorDivides(Pow10(b - 1), 10, x);
      LesserDivides(a, b - 1, x);
    }
  }

  lemma {:induction false} LowerIsLargest(x: nat, e: nat, k: nat)
    requires Lower(x, e) < k <= e
    ensures !Divides(Pow10(k), x)
    decreases e
  {
    if k < e { LowerIsLargest(x, e - 1, k); }
  }

  ghost predicate DividesAll(m: nat, u: seq<nat>)
    requires m > 0
  {
    forall i :: 0 <= i < |u| ==> Divides(m, u[i])
  }

  lemma DividesTail(m: nat, u: seq<nat>)
    requires m > 0 && u != []
    ensures DividesAll(m, u) <==> Divides(m, u[0]) && DividesAll(m, u[1..])
  {
    hide Divides;
    assert forall i :: 0 <= i < |u[1..]| ==> u[1..][i] == u[i + 1];
    assert forall i :: 1 <= i < |u| ==> u[i] == u[1..][i - 1];
  }

  /** The divisor is the largest power of ten, up to the given one, that divides every difference. */
  lemma {:induction false} ExponentIsLargest(u: seq<nat>, e: nat)
    ensures DividesAll(Pow10(Exponent(u, e)), u)
    ensures forall k :: Exponent(u, e) < k <= e ==> !DividesAll(Pow10(k), u)
    decreases |u|
  {
    hide Divides, Pow10, Lower;
    if u != [] {
      var l, r := Lower(u[0], e), Exponent(u, e);
      ExponentIsLargest(u[1..], l);
      LesserDivides(r, l, u[0]);
      DividesTail(Pow10(r), u);
      forall k | r < k <= e ensures !DividesAll(Pow10(k), u) {
        DividesTail(Pow10(k), u);
        if k > l { LowerIsLargest(u[0], e, k); }
      }
    }
  }

  method LowerDivisor(x: nat, div: nat, ghost e: nat) returns (d: nat)
    requires div == Pow10(e)
    ensures d == Pow10(Lower(x, e))
  {
    d := div;
    ghost var k: nat := e;
    while d > 1 && x % d != 0
      invariant k <= e && d == Pow10(k) && Lower(x, e) == Lower(x, k)
      decreases k
    {
      d := d / 10;
      k := k - 1;
    }
  }

  method FindDivisor(deltas: array<U64>) returns (div: nat)
    requires deltas.Length > 0
    ensures div == Pow10(Exponent(deltas[1..], MAX_EXPONENT))
  {
    hide Lower, Pow10;
    TrillionIs();
    div := 1_000_000_000_000;
    ghost var e: nat := MAX_EXPONENT;
    var i := 1;
    while i < deltas.Length
      invariant 1 <= i <= deltas.Length && div == Pow10(e)
      invariant Exponent(deltas[1..], MAX_EXPONENT) == Exponent(deltas[i..], e)
    {
      assert deltas[i..][1..] == deltas[i + 1..];
      if div <= 1 {
        OneIsLowest(deltas[i..], e);
        return;
      }
      div := LowerDivisor(deltas[i], div, e);
      e := Lower(deltas[i], e);
      i := i + 1;
    }
    assert deltas[i..] == [];
  }

  lemma TrillionIs()
    ensures Pow10(MAX_EXPONENT) == 1_000_000_000_000
  {
    assert Pow10(6) == 1_000_000;
  }

  lemma OneIsLowest(u: seq<nat>, e: nat)
    requires Pow10(e) <= 1
    ensures Pow10(Exponent(u, e)) == Pow10(e)
  {
  }

  // ------------------------------------------------------------------------ layouts

  ghost function Raws(d: seq<I64>): (u: seq<nat>)
    ensures |u| == |d| && Wide(u)
  {
    seq(|d|, i requires 0 <= i < |d| => AsU64(d[i]))
  }

  ghost function UnRaws(u: seq<nat>): (d: seq<I64>)
    requires Wide(u)
    ensures |d| == |u|
  {
    seq(|u|, i requires 0 <= i < |u| => AsI64(u[i]))
  }

  lemma UnRawsOfRaws(d: seq<I64>)
    ensures UnRaws(Raws(d)) == d
  {
  }

  /** All differences are the same, and there is at least one. */
  ghost predicate IsSteady(u: seq<nat>) {
    |u| > 1 && forall i :: 2 <= i < |u| ==> u[i] == u[1]
  }

  ghost function Scaled(u: seq<nat>, div: nat): (r: seq<nat>)
    requires div > 0
    ensures |r| == |u|
  {
    seq(|u|, i requires 0 <= i < |u| => Quot(u[i], div))
  }

  lemma ScaledNarrow(u: seq<nat>, div: nat)
    requires div > 0 && u != [] && Packable(u)
    ensures WordsOf(Scaled(u[1..], div)).Some?
  {
    hide Pow2;
    MaxValueIs();
    var s := Scaled(u[1..], div);
    forall i | 0 <= i < |s| ensures s[i] < Pow2(S8B_BITS) {
      assert u[1..][i] == u[i + 1];
      QuotAtMost(u[i + 1], div);
    }
    EncodesExactlyWhen(s);
  }

  lemma QuotAtMost(x: nat, m: nat)
    requires m > 0
    ensures Quot(x, m) <= x
  {
    var q := Quot(x, m);
    assert x == q * m + x % m;
    if q > 0 { Product(m, q); }
  }

  ghost function Layout(u: seq<nat>): seq<Byte>
    requires u != []
  {
    if IsSteady(u) then
      var e := Lower(u[1], MAX_EXPONENT);
      [RUN + e] + ToBe(u[0], 8) + Var(Quot(u[1], Pow10(e))) + Var(|u|)
    else if !Packable(u) then [RAW] + BytesOf(u)
    else
      var e := Exponent(u[1..], MAX_EXPONENT);
      ScaledNarrow(u, Pow10(e));
      [PACKED + e] + ToBe(u[0], 8) + BytesOf(WordsOf(Scaled(u[1..], Pow10(e))).value)
  }

  ghost function Encoded(src: seq<I64>): seq<Byte> {
    if src == [] then [] else Layout(Raws(Diffs(src)))
  }

  // ------------------------------------------------------------------------ the encoder

  lemma RawAt(src: seq<I64>, i: nat)
    requires i < |src|
    ensures Raws(Diffs(src))[i] == if i == 0 then AsU64(src[0]) else SubU64(AsU64(src[i]), AsU64(src[i - 1]))
  {
  }

  /** The pass from the back that turns values into differences in place */
  method DeltaPass(src: seq<I64>) returns (deltas: array<U64>, max: nat)
    requires src != []
    ensures fresh(deltas) && deltas.Length == |src|
    ensures forall i :: 0 <= i < |src| ==> deltas[i] == Raws(Diffs(src))[i]
    ensures max <= MAX_VALUE <==> Packable(Raws(Diffs(src)))
  {
    hide Sub, Diffs, Raws, AsU64, AsI64, SubU64;
    ghost var u := Raws(Diffs(src));
    deltas := new U64[|src|];
    forall i | 0 <= i < |src| { deltas[i] := AsU64(src[i]); }
    max := 0;
    var i := |src| - 1;
    while i > 0
      invariant 0 <= i < |src|
      invariant forall k :: 0 <= k <= i ==> deltas[k] == AsU64(src[k])
      invariant forall k :: i < k < |src| ==> deltas[k] == u[k]
      invariant forall k :: i < k < |src| ==> u[k] <= max
      invariant max == 0 || exists k :: i < k < |src| && u[k] == max
    {
      RawAt(src, i);
      deltas[i] := SubU64(deltas[i], deltas[i - 1]);
      if deltas[i] > max {
        max := deltas[i];
      }
      i := i - 1;
    }
    RawAt(src, 0);
  }

  method AllSame(u: array<U64>) returns (same: bool)
    requires u.Length > 1
    ensures same <==> IsSteady(u[..])
  {
    for i := 2 to u.Length
      invariant forall k :: 2 <= k < i ==> u[k] == u[1]
    {
      if u[1] != u[i] {
        assert u[..][i] != u[..][1];
        return false;
      }
    }
    return true;
  }

  /** `log10` of a power of ten */
  method Log10(div: nat, ghost e: nat) returns (k: nat)
    requires div == Pow10(e)
    ensures k == e
  {
    var d := div;
    k := 0;
    ghost var left: nat := e;
    while d > 1
      invariant d == Pow10(left) && k + left == e
      decreases left
    {
      d := d / 10;
      k := k + 1;
      left := left - 1;
    }
  }

  method Scale(deltas: array<U64>, div: nat) returns (r: seq<nat>)
    requires deltas.Length > 0 && div > 0
    ensures r == Scaled(deltas[1..], div)
  {
    hide Quot;
    r := seq(deltas.Length - 1, i requires 0 <= i < deltas.Length - 1 reads deltas => Quot(deltas[i + 1], div));
  }

  /** `encode` */
  method Encode(src: seq<I64>) returns (out: seq<Byte>)
    ensures out == Encoded(src)
  {
    hide ToBe, BytesOf, WordsOf, Diffs, Raws, Var, Pow2, Pow10, Lower, Exponent, Scaled, Quot;
    if src == [] {
      return [];
    }
    var deltas, max := DeltaPass(src);
    ghost var u := Raws(Diffs(src));
    assert deltas[..] == u;
    if deltas.Length > 1 {
      var steady := AllSame(deltas);
      if steady {
        TrillionIs();
        var div := LowerDivisor(deltas[1], 1_000_000_000_000, MAX_EXPONENT);
        var e := Log10(div, Lower(deltas[1], MAX_EXPONENT));
        return [RUN + e] + ToBe(deltas[0], 8) + Var(Quot(deltas[1], div)) + Var(deltas.Length);
      }
    }
    if max > MAX_VALUE {
      out := IntegerCoder.AppendWords([RAW], deltas);
      return;
    }
    assert deltas[1..] == u[1..];
    var div := FindDivisor(deltas);
    var e := Log10(div, Exponent(u[1..], MAX_EXPONENT));
    var scaled := Scale(deltas, div);
    ScaledNarrow(u, div);
    var ok: bool;
    ok, out := Simple8b.Encode(scaled, [PACKED + e] + ToBe(deltas[0], 8));
  }

  // ------------------------------------------------------------------------ the decoder

  ghost function ParseRaw(b: seq<Byte>): Parsed {
    if b == [] || |b| % 8 != 0 then Bad(Invalid)
    else WordsInWide(b); Parsed(UnRaws(WordsIn(b)), true)
  }

  /** A first value, and the same difference for each value after it */
  function SteadyDiffs(first: U64, delta: U64, count: nat): seq<I64> {
    if count == 0 then [] else [AsI64(first)] + Repeat(AsI64(delta), count - 1)
  }

  /** With `checked`, a product out of range stops the program, before the number of values is looked at. */
  ghost function ParseRun(b: seq<Byte>, e: nat, checked: bool): Parsed {
    if |b| < 8 then Bad(Invalid)
    else
      var delta := UnVar(b[8..]);
      if delta.None? || delta.value.0 >= TWO64 then Bad(Invalid)
      else if checked && delta.value.0 * Pow10(e) >= TWO64 then Bad(Overflow)
      else
        var count := UnVar(b[8 + delta.value.1..]);
        if count.None? then Bad(Invalid)
        else
          FromBeWide(b[..8]);
          Parsed(SteadyDiffs(FromBe(b[..8]), Low64(delta.value.0 * Pow10(e)), count.value.0), false)
  }

  /** What is left of a product in 64 bits */
  function Low64(x: nat): U64 {
    x % TWO64
  }

  ghost function Unscaled(u: seq<nat>, m: nat): (r: seq<nat>)
    ensures |r| == |u|
  {
    seq(|u|, i requires 0 <= i < |u| => u[i] * m)
  }

  ghost function AllLow64(u: seq<nat>): (r: seq<nat>)
    ensures |r| == |u| && Wide(r)
  {
    seq(|u|, i requires 0 <= i < |u| => Low64(u[i]))
  }

  ghost function ParsePacked(b: seq<Byte>, e: nat, checked: bool): Parsed {
    if |b| < 8 then Bad(Invalid)
    else if |b| % 8 != 0 then Bad(OutOfRange)
    else
      var u := Unscaled(AllValues(WordsIn(b[8..])), Pow10(e));
      if checked && !Wide(u) then Bad(Overflow)
      else FromBeWide(b[..8]); Parsed([AsI64(FromBe(b[..8]))] + UnRaws(AllLow64(u)), true)
  }

  ghost function Parse(b: seq<Byte>, checked: bool): Parsed {
    if b == [] then Parsed([], false)
    else if b[0] / 16 == 0 then ParseRaw(b[1..])
    else if b[0] / 16 == 2 then ParseRun(b[1..], b[0] % 16, checked)
    else if b[0] / 16 == 1 then ParsePacked(b[1..], b[0] % 16, checked)
    else Bad(Invalid)
  }

  ghost function DecodedFrom(b: seq<Byte>, checked: bool): Decoded {
    var p := Parse(b, checked);
    if p.Bad? then p.outcome else Sums(p.diffs, p.plain && checked)
  }

  /** Every value times the divisor, unless one is out of range and that stops the program */
  method Multiply(u: seq<nat>, m: nat, checked: bool) returns (ok: bool, r: seq<nat>)
    ensures ok <==> !checked || Wide(Unscaled(u, m))
    ensures ok ==> r == AllLow64(Unscaled(u, m))
  {
    hide Low64;
    r := [];
    for i := 0 to |u|
      invariant |r| == i && forall k :: 0 <= k < i ==> r[k] == AllLow64(Unscaled(u, m))[k]
      invariant checked ==> forall k :: 0 <= k < i ==> Unscaled(u, m)[k] < TWO64
    {
      var x := u[i] * m;
      assert Unscaled(u, m)[i] == x;
      if checked && x >= TWO64 {
        return false, r;
      }
      r := r + [Low64(x)];
    }
    ok := true;
  }

  method Signed(u: seq<nat>) returns (d: seq<I64>)
    requires Wide(u)
    ensures d == UnRaws(u)
  {
    d := seq(|u|, i requires 0 <= i < |u| => AsI64(u[i]));
  }

  method DecodePacked(b: seq<Byte>, e: nat, checked: bool) returns (r: Decoded)
    ensures var p := ParsePacked(b, e, checked); r == if p.Bad? then p.outcome else Sums(p.diffs, checked)
  {
    hide FromBe, WordsIn, AllValues, UnRaws, Sums, Pow10, Unscaled, AsI64, AllLow64;
    if |b| < 8 {
      return Invalid;
    }
    if |b| % 8 != 0 {
      return OutOfRange;
    }
    FromBeWide(b[..8]);
    var u := Simple8b.Decode(b[8..]);
    var ok, v := Multiply(u, Pow10(e), checked);
    if !ok {
      return Overflow;
    }
    var d := Signed(v);
    r := SumUp([AsI64(FromBe(b[..8]))] + d, checked);
  }

  method DecodeRun(b: seq<Byte>, e: nat, checked: bool) returns (r: Decoded)
    ensures var p := ParseRun(b, e, checked); r == if p.Bad? then p.outcome else Sums(p.diffs, false)
  {
    hide FromBe, Sums, UnVar, Pow10, SteadyDiffs, Low64;
    if |b| < 8 {
      return Invalid;
    }
    var delta := UnVar(b[8..]);
    if delta.None? || delta.value.0 >= TWO64 {
      return Invalid;
    }
    if checked && delta.value.0 * Pow10(e) >= TWO64 {
      return Overflow;
    }
    var count := UnVar(b[8 + delta.value.1..]);
    if count.None? {
      return Invalid;
    }
    FromBeWide(b[..8]);
    r := SumUp(SteadyDiffs(FromBe(b[..8]), Low64(delta.value.0 * Pow10(e)), count.value.0), false);
  }

  /** `decode`; with `checked`, as a program that stops on overflow runs it */
  method Decode(b: seq<Byte>, checked: bool) returns (r: Decoded)
    ensures r == DecodedFrom(b, checked)
  {
    hide WordsIn, UnRaws, Sums, ParseRun, ParsePacked;
    NoSums(false);
    if b == [] {
      return Values([]);
    }
    var rest := b[1..];
    if b[0] / 16 == 0 {
      if rest == [] || |rest| % 8 != 0 {
        return Invalid;
      }
      var u := WordsFrom(rest);
      WordsInWide(rest);
      var d := Signed(u);
      r := SumUp(d, checked);
    } else if b[0] / 16 == 2 {
      RunIsNotPlain(rest, b[0] % 16, checked);
      r := DecodeRun(rest, b[0] % 16, checked);
    } else if b[0] / 16 == 1 {
      PackedIsPlain(rest, b[0] % 16, checked);
      r := DecodePacked(rest, b[0] % 16, checked);
    } else {
      return Invalid;
    }
  }

  lemma RunIsNotPlain(b: seq<Byte>, e: nat, checked: bool)
    ensures var p := ParseRun(b, e, checked); p.Parsed? ==> !p.plain
  {
  }

  lemma PackedIsPlain(b: seq<Byte>, e: nat, checked: bool)
    ensures var p := ParsePacked(b, e, checked); p.Parsed? ==> p.plain
  {
  }

  // ------------------------------------------------------------------------ round trip

  lemma RawParses(d: seq<I64>, checked: bool)
    requires d != []
    ensures Parse([RAW] + BytesOf(Raws(d)), checked) == Parsed(d, true)
  {
    hide ToBe, FromBe, WordsIn, BytesOf, UnRaws, Raws, Pow2;
    var u, b := Raws(d), BytesOf(Raws(d));
    WordIs();
    WordsInBytes(u);
    BytesLength(u);
    assert ([RAW] + b)[1..] == b;
    UnRawsOfRaws(d);
  }

  lemma AllLow64Of(u: seq<nat>)
    requires Wide(u)
    ensures AllLow64(u) == u
  {
  }

  lemma ProductGrows(x: nat, m: nat)
    requires m > 0
    ensures x <= x * m
  {
    assert x * m == x + x * (m - 1);
  }

  lemma Rescale(x: nat, m: nat)
    requires m > 0 && Divides(m, x)
    ensures Quot(x, m) * m == x
  {
  }

  lemma RunBytes(first: nat, delta: nat, count: nat, e: nat, checked: bool)
    requires first < TWO64 && delta < TWO64 && Divides(Pow10(e), delta)
    ensures ParseRun(ToBe(first, 8) + Var(Quot(delta, Pow10(e))) + Var(count), e, checked) ==
            Parsed(SteadyDiffs(first, delta, count), false)
  {
    hide ToBe, FromBe, Var, UnVar, SteadyDiffs, Pow10, Quot, Divides;
    var h, v, w := ToBe(first, 8), Var(Quot(delta, Pow10(e))), Var(count);
    Rescale(delta, Pow10(e));
    ProductGrows(Quot(delta, Pow10(e)), Pow10(e));
    EightRoundTrip(first);
    Glued(h, v, w);
    VarRoundTrip(Quot(delta, Pow10(e)), w);
    assert w + [] == w;
    VarRoundTrip(count, []);
  }

  lemma SteadyIs(d: seq<I64>)
    requires IsSteady(Raws(d))
    ensures |d| > 1 && d == SteadyDiffs(Raws(d)[0], Raws(d)[1], |d|)
  {
    var u := Raws(d);
    forall i | 1 <= i < |d| ensures d[i] == AsI64(u[1]) {
      assert u[i] == u[1];
    }
  }

  lemma TaggedRun(b: seq<Byte>, e: nat, checked: bool)
    requires b != [] && e < 16 && b[0] == RUN + e
    ensures Parse(b, checked) == ParseRun(b[1..], e, checked)
  {
    hide ParseRun, ParseRaw, ParsePacked;
  }

  lemma TaggedPacked(b: seq<Byte>, e: nat, checked: bool)
    requires b != [] && e < 16 && b[0] == PACKED + e
    ensures Parse(b, checked) == ParsePacked(b[1..], e, checked)
  {
    hide ParseRun, ParseRaw, ParsePacked;
  }

  lemma RunParses(d: seq<I64>, checked: bool)
    requires d != [] && IsSteady(Raws(d))
    ensures Parse(Layout(Raws(d)), checked) == Parsed(d, false)
  {
    hide Raws, ToBe, FromBe, Var, UnVar, Parse, ParseRun, SteadyDiffs, Pow10, Quot, Lower, Divides;
    var u := Raws(d);
    SteadyIs(d);
    var e := Lower(u[1], MAX_EXPONENT);
    var h, v, w := ToBe(u[0], 8), Var(Quot(u[1], Pow10(e))), Var(|d|);
    Bytes.Headed(RUN + e, h, v, w);
    TaggedRun([RUN + e] + h + v + w, e, checked);
    RunBytes(u[0], u[1], |d|, e, checked);
  }

  lemma UnscaledOfScaled(u: seq<nat>, m: nat)
    requires m > 0 && DividesAll(m, u)
    ensures Unscaled(Scaled(u, m), m) == u
  {
    hide Quot, Divides;
    forall i | 0 <= i < |u| ensures Unscaled(Scaled(u, m), m)[i] == u[i] { Rescale(u[i], m); }
  }

  lemma PackedBytes(first: nat, u: seq<nat>, e: nat, checked: bool)
    requires first < TWO64 && Wide(u) && DividesAll(Pow10(e), u)
    requires WordsOf(Scaled(u, Pow10(e))).Some?
    ensures ParsePacked(ToBe(first, 8) + BytesOf(WordsOf(Scaled(u, Pow10(e))).value), e, checked) ==
            Parsed([AsI64(first)] + UnRaws(u), true)
  {
    hide ToBe, FromBe, WordsIn, BytesOf, UnRaws, Pow2, WordsOf, AllValues, AsI64, Scaled, Unscaled, Pow10, DividesAll, AllLow64;
    var s := Scaled(u, Pow10(e));
    UnscaledOfScaled(u, Pow10(e));
    AllLow64Of(u);
    var h, t := ToBe(first, 8), BytesOf(WordsOf(s).value);
    EightRoundTrip(first);
    RoundTrip(s);
    WordsInBytes(WordsOf(s).value);
    BytesLength(WordsOf(s).value);
    var b := h + t;
    assert b[..8] == h && b[8..] == t;
  }

  lemma PackedLayout(u: seq<nat>)
    requires u != [] && !IsSteady(u) && Packable(u)
    ensures var e := Exponent(u[1..], MAX_EXPONENT); var s := Scaled(u[1..], Pow10(e));
      WordsOf(s).Some? && Layout(u) == [PACKED + e] + ToBe(u[0], 8) + BytesOf(WordsOf(s).value)
  {
    hide ToBe, BytesOf, WordsOf, Pow10, Exponent, Scaled, IsSteady, Packable;
    ScaledNarrow(u, Pow10(Exponent(u[1..], MAX_EXPONENT)));
  }

  lemma PackedParses(d: seq<I64>, checked: bool)
    requires d != [] && !IsSteady(Raws(d)) && Packable(Raws(d))
    ensures Parse(Layout(Raws(d)), checked) == Parsed(d, true)
  {
    hide UnRaws, ToBe, FromBe, BytesOf, WordsOf, Parse, ParsePacked, Pow10, Exponent, DividesAll, Scaled, Layout,
      IsSteady, Packable;
    var u := Raws(d);
    var e := Exponent(u[1..], MAX_EXPONENT);
    PackedLayout(u);
    ExponentIsLargest(u[1..], MAX_EXPONENT);
    var h, t := ToBe(u[0], 8), BytesOf(WordsOf(Scaled(u[1..], Pow10(e))).value);
    assert ([PACKED + e] + h + t)[1..] == h + t;
    TaggedPacked([PACKED + e] + h + t, e, checked);
    PackedBytes(u[0], u[1..], e, checked);
    assert u[1..] == Raws(d[1..]);
    UnRawsOfRaws(d[1..]);
    assert d == [d[0]] + d[1..];
  }

  /**
   * Decoding undoes encoding, for every sequence, except that a program that stops on overflow stops exactly when the
   * differences are not all the same and some true difference of neighbours is out of range.
   */
  lemma TimestampRoundTrip(src: seq<I64>, checked: bool)
    ensures DecodedFrom(Encoded(src), checked) ==
            if checked && src != [] && !IsSteady(Raws(Diffs(src))) && !DiffsFit(src) then Overflow else Values(src)
  {
    hide ToBe, FromBe, Var, UnVar, WordsIn, BytesOf, UnRaws, Raws, Pow2, WordsOf, Parse, Sums, Diffs, DiffsFit,
      IsSteady, Packable, Layout;
    SumsOfDiffs(src, true);
    SumsOfDiffs(src, false);
    if src == [] {
      EmptyBlock(checked);
    } else {
      var d := Diffs(src);
      if IsSteady(Raws(d)) {
        RunParses(d, checked);
      } else if !Packable(Raws(d)) {
        RawLayout(Raws(d));
        RawParses(d, checked);
      } else {
        PackedParses(d, checked);
      }
    }
  }

  /** The least time, and the greatest twice: the first difference wraps, and the checked sum overflows. */
  lemma TimesOverflow()
    ensures DecodedFrom(Encoded([-TWO63, TWO63 - 1, TWO63 - 1]), true) == Overflow
  {
    hide Encoded, DecodedFrom;
    var src: seq<I64> := [-TWO63, TWO63 - 1, TWO63 - 1];
    assert !DiffFitsAt(src, 1);
    assert Diffs(src)[1] == Sub(TWO63 - 1, -TWO63) == -1 && Diffs(src)[2] == Sub(TWO63 - 1, TWO63 - 1) == 0;
    var u := Raws(Diffs(src));
    assert u[2] != u[1];
    TimestampRoundTrip(src, true);
  }

  lemma RawLayout(u: seq<nat>)
    requires u != [] && !IsSteady(u) && !Packable(u)
    ensures Layout(u) == [RAW] + BytesOf(u)
  {
  }

  /** What is encoded is decoded. */
  method EncodeThenDecode(src: seq<I64>, checked: bool) returns (r: Decoded)
    ensures r == Values(src) <==> !(checked && src != [] && !IsSteady(Raws(Diffs(src))) && !DiffsFit(src))
    ensures r == Values(src) || r == Overflow
  {
    hide *;
    var b := Encode(src);
    TimestampRoundTrip(src, checked);
    r := Decode(b, checked);
  }

  lemma EmptyBlock(checked: bool)
    ensures DecodedFrom([], checked) == Values([])
  {
  }

  /** In a packed block the header's low four bits hold the exponent of the divisor, and the high four the layout. */
  lemma HeaderHoldsExponent(src: seq<I64>)
    requires src != [] && !IsSteady(Raws(Diffs(src))) && Packable(Raws(Diffs(src)))
    ensures var u := Raws(Diffs(src)); var e := Exponent(u[1..], MAX_EXPONENT);
      && e <= MAX_EXPONENT < 16 && Encoded(src)[0] % 16 == e && Encoded(src)[0] / 16 == 1
      && DividesAll(Pow10(e), u[1..]) && (forall k :: e < k <= MAX_EXPONENT ==> !DividesAll(Pow10(k), u[1..]))
  {
    hide Raws, Diffs, DividesAll, Exponent, Pow10, IsSteady, Packable, ToBe, BytesOf, WordsOf, Scaled, Layout;
    var u := Raws(Diffs(src));
    PackedLayout(u);
    ExponentIsLargest(u[1..], MAX_EXPONENT);
  }
}
