/** Signed integers as zig-zagged differences: run-length, raw, or packed with simple8b. */
module IntegerCoder {
  import opened Bytes
  import opened Packing
  import opened Words
  import opened Simple8b
  import opened Deltas

  const RAW: Byte := 0x00
  const PACKED: Byte := 0x10
  const RUN: Byte := 0x20
  const MAX_VALUE := 0xfff_ffff_ffff_ffff

  lemma MaxValueIs()
    ensures Pow2(S8B_BITS) == MAX_VALUE + 1
  {
    hide Pow2;
    TwentyBits();
    Pow2Add(20, 20);
    Pow2Add(20, 40);
  }

  lemma TwentyBits()
    ensures Pow2(20) == 0x10_0000
  {
    assert Pow2(10) == 1024;
  }

  ghost predicate Wide(u: seq<nat>) {
    forall k :: 0 <= k < |u| ==> u[k] < TWO64
  }

  ghost function Zigs(d: seq<I64>): (z: seq<nat>)
    ensures |z| == |d| && Wide(z)
  {
    seq(|d|, i requires 0 <= i < |d| => ZigZag(d[i]))
  }

  ghost function UnZigs(u: seq<nat>): (d: seq<I64>)
    requires Wide(u)
    ensures |d| == |u|
  {
    seq(|u|, i requires 0 <= i < |u| => UnZigZag(u[i]))
  }

  lemma UnZigsOfZigs(d: seq<I64>)
    ensures UnZigs(Zigs(d)) == d
  {
    hide ZigZag, UnZigZag;
    forall i | 0 <= i < |d| ensures UnZigs(Zigs(d))[i] == d[i] { ZigZagBijection(d[i], 0); }
  }

  /** All differences after the first value are the same, and there are at least two. */
  ghost predicate IsRun(z: seq<nat>) {
    |z| > 2 && forall i :: 2 <= i < |z| ==> z[i] == z[1]
  }

  ghost predicate Packable(z: seq<nat>) {
    forall i :: 1 <= i < |z| ==> z[i] <= MAX_VALUE
  }

  lemma PackableIs(z: seq<nat>)
    requires z != []
    ensures Packable(z) <==> WordsOf(z[1..]).Some?
  {
    hide Pow2;
    MaxValueIs();
    EncodesExactlyWhen(z[1..]);
    assert forall i :: 1 <= i < |z| ==> z[i] == z[1..][i - 1];
  }

  /** The three layouts of a block */
  ghost function Layout(z: seq<nat>): seq<Byte>
    requires z != []
  {
    PackableIs(z);
    if IsRun(z) then [RUN] + ToBe(z[0], 8) + Var(z[1]) + Var(|z| - 1)
    else if !Packable(z) then [RAW] + BytesOf(z)
    else [PACKED] + ToBe(z[0], 8) + BytesOf(WordsOf(z[1..]).value)
  }

  ghost function Encoded(src: seq<I64>): seq<Byte> {
    if src == [] then [] else Layout(Zigs(Diffs(src)))
  }

  lemma NonEmpty(src: seq<I64>)
    ensures Encoded(src) == [] <==> src == []
  {
    hide Zigs, Diffs, IsRun, Packable, ToBe, BytesOf, WordsOf, Var;
  }

  /** The layout is the one whose decoder adds without wrapping. */
  ghost predicate UsesPacked(src: seq<I64>) {
    src != [] && !IsRun(Zigs(Diffs(src))) && Packable(Zigs(Diffs(src)))
  }

  // ------------------------------------------------------------------------ the encoder

  /** The pass from the back that turns values into zig-zagged differences in place */
  method DeltaPass(src: seq<I64>) returns (deltas: array<U64>, max: nat)
    requires src != []
    ensures fresh(deltas) && deltas.Length == |src|
    ensures forall i :: 0 <= i < |src| ==> deltas[i] == Zigs(Diffs(src))[i]
    ensures max <= MAX_VALUE <==> Packable(Zigs(Diffs(src)))
  {
    hide ZigZag, Sub, Diffs, Zigs, AsU64, AsI64, SubU64;
    ghost var z := Zigs(Diffs(src));
    deltas := new U64[|src|];
    forall i | 0 <= i < |src| { deltas[i] := AsU64(src[i]); }
    max := 0;
    var i := |src| - 1;
    while i > 0
      invariant 0 <= i < |src|
      invariant forall k :: 0 <= k <= i ==> deltas[k] == AsU64(src[k])
      invariant forall k :: i < k < |src| ==> deltas[k] == z[k]
      invariant forall k :: i < k < |src| ==> z[k] <= max
      invariant max == 0 || exists k :: i < k < |src| && z[k] == max
    {
      ZigAt(src, i);
      deltas[i] := ZigZag(AsI64(SubU64(deltas[i], deltas[i - 1])));
      if deltas[i] > max {
        max := deltas[i];
      }
      i := i - 1;
    }
    ZigAt(src, 0);
    deltas[0] := ZigZag(src[0]);
  }

  lemma ZigAt(src: seq<I64>, i: nat)
    requires i < |src|
    ensures Zigs(Diffs(src))[i] ==
            ZigZag(if i == 0 then src[0] else AsI64(SubU64(AsU64(src[i]), AsU64(src[i - 1]))))
  {
  }

  method AllSame(z: array<U64>) returns (same: bool)
    requires z.Length > 2
    ensures same <==> IsRun(z[..])
  {
    for i := 2 to z.Length
      invariant forall k :: 2 <= k < i ==> z[k] == z[1]
    {
      if z[1] != z[i] {
        assert z[..][i] != z[..][1];
        return false;
      }
    }
    return true;
  }

  method AppendWords(b: seq<Byte>, z: array<U64>) returns (out: seq<Byte>)
    ensures out == b + BytesOf(z[..])
  {
    hide ToBe;
    out := b;
    for i := 0 to z.Length
      invariant out == b + BytesOf(z[..i])
    {
      assert z[..i + 1][..i] == z[..i];
      out := out + ToBe(z[i], 8);
    }
    assert z[..z.Length] == z[..];
  }

  /** `encode` */
  method Encode(src: seq<I64>) returns (out: seq<Byte>)
    ensures out == Encoded(src)
  {
    hide ToBe, BytesOf, WordsOf, Diffs, Zigs, Var, Pow2;
    if src == [] {
      return [];
    }
    var deltas, max := DeltaPass(src);
    ghost var z := Zigs(Diffs(src));
    assert deltas[..] == z;
    if deltas.Length > 2 {
      var run := AllSame(deltas);
      if run {
        return [RUN] + ToBe(deltas[0], 8) + Var(deltas[1]) + Var(deltas.Length - 1);
      }
    }
    PackableIs(z);
    if max > MAX_VALUE {
      out := AppendWords([RAW], deltas);
      return;
    }
    var ok: bool;
    assert deltas[1..] == z[1..];
    ok, out := Simple8b.Encode(deltas[1..], [PACKED] + ToBe(deltas[0], 8));
  }

  // ------------------------------------------------------------------------ the decoder

  /** What a block says: the differences, and whether adding them up may stop the program */
  datatype Parsed = Parsed(diffs: seq<I64>, plain: bool) | Bad(outcome: Decoded)

  lemma FromBeWide(b: seq<Byte>)
    requires |b| == 8
    ensures FromBe(b) < TWO64
  {
    Pow256Is();
  }

  lemma {:induction false} WordsInWide(b: seq<Byte>)
    requires |b| % 8 == 0
    ensures Wide(WordsIn(b)) && |WordsIn(b)| == |b| / 8
  {
    hide FromBe;
    if b != [] {
      WordsInWide(b[..|b| - 8]);
      FromBeWide(b[|b| - 8..]);
    }
  }

  lemma {:induction false} UnpackNarrow(x: nat, n: nat, w: nat)
    ensures Narrow(Unpack(x, n, w), w)
    decreases n
  {
    hide Pow2;
    if n > 0 { UnpackNarrow(Quot(x, Pow2(w)), n - 1, w); }
  }

  lemma ValuesWide(word: nat)
    ensures Wide(ValuesOf(word))
  {
    hide Pow2, Unpack;
    var selector := Quot(word, Pow2(S8B_BITS));
    if 1 < selector < ROWS + 2 {
      var w := Width(selector - 2);
      UnpackNarrow(word, Ints(selector - 2), w);
      Pow2Monotone(w, S8B_BITS);
      MaxValueIs();
    }
  }

  lemma {:induction false} AllValuesWide(words: seq<nat>)
    ensures Wide(AllValues(words))
  {
    hide ValuesOf;
    if words != [] {
      ValuesWide(words[0]);
      AllValuesWide(words[1..]);
    }
  }

  ghost function ParseRaw(b: seq<Byte>): Parsed {
    if b == [] || |b| % 8 != 0 then Bad(Invalid)
    else WordsInWide(b); Parsed(UnZigs(WordsIn(b)), false)
  }

  /** A first value, and the same difference time and again */
  function RunDiffs(first: U64, delta: U64, count: nat): seq<I64> {
    [UnZigZag(first)] + Repeat(UnZigZag(delta), count)
  }

  ghost function ParseRun(b: seq<Byte>): Parsed {
    if |b| < 8 then Bad(Invalid)
    else
      var delta := UnVar(b[8..]);
      if delta.None? || delta.value.0 >= TWO64 then Bad(Invalid)
      else
        var count := UnVar(b[8 + delta.value.1..]);
        if count.None? then Bad(Invalid)
        else
          FromBeWide(b[..8]);
          Parsed(RunDiffs(FromBe(b[..8]), delta.value.0, count.value.0), false)
  }

  ghost function ParsePacked(b: seq<Byte>): Parsed {
    if |b| < 8 then Bad(Invalid)
    else if |b| % 8 != 0 then Bad(OutOfRange)
    else
      FromBeWide(b[..8]);
      AllValuesWide(WordsIn(b[8..]));
      Parsed([UnZigZag(FromBe(b[..8]))] + UnZigs(AllValues(WordsIn(b[8..]))), true)
  }

  ghost function Parse(b: seq<Byte>): Parsed {
    if b == [] then Parsed([], false)
    else if b[0] / 16 == 0 then ParseRaw(b[1..])
    else if b[0] / 16 == 2 then ParseRun(b[1..])
    else if b[0] / 16 == 1 then ParsePacked(b[1..])
    else Bad(Invalid)
  }

  ghost function DecodedFrom(b: seq<Byte>, checked: bool): Decoded {
    var p := Parse(b);
    if p.Bad? then p.outcome else Sums(p.diffs, p.plain && checked)
  }

  /** Word by word, zig-zag undone */
  method Signed(u: seq<nat>) returns (d: seq<I64>)
    requires Wide(u)
    ensures d == UnZigs(u)
  {
    d := seq(|u|, i requires 0 <= i < |u| => UnZigZag(u[i]));
  }

  lemma EightMore(i: nat, n: nat)
    requires i % 8 == 0 && n % 8 == 0 && i < n
    ensures i + 8 <= n && (i + 8) % 8 == 0
  {
  }

  lemma OneWordMore(b: seq<Byte>, i: nat)
    requires i % 8 == 0 && i + 8 <= |b|
    ensures WordsIn(b[..i + 8]) == WordsIn(b[..i]) + [FromBe(b[i..i + 8])]
  {
    hide FromBe;
    var c := b[..i + 8];
    assert c[..i] == b[..i] && c[i..] == b[i..i + 8];
  }

  method WordsFrom(b: seq<Byte>) returns (u: seq<nat>)
    requires |b| % 8 == 0
    ensures u == WordsIn(b)
  {
    assert WordsIn(b[..0]) == [];
    hide FromBe, WordsIn;
    var i := 0;
    u := [];
    while i < |b|
      invariant i <= |b| && i % 8 == 0 && u == WordsIn(b[..i])
    {
      EightMore(i, |b|);
      OneWordMore(b, i);
      u := u + [FromBe(b[i..i + 8])];
      i := i + 8;
    }
    assert b[..i] == b;
  }

  /** `decode`; with `checked`, as a program that stops on overflow runs it */
  method Decode(b: seq<Byte>, checked: bool) returns (r: Decoded)
    ensures r == DecodedFrom(b, checked)
  {
    hide FromBe, WordsIn, AllValues, UnZigs, UnZigZag, Sums, UnVar;
    NoSums(false);
    if b == [] {
      return Values([]);
    }
    var rest := b[1..];
    if b[0] / 16 == 0 {
      if rest == [] || |rest| % 8 != 0 {
        return Invalid;
      }
      var u := WordsFrom(rest);
      WordsInWide(rest);
      var d := Signed(u);
      r := SumUp(d, false);
    } else if b[0] / 16 == 2 {
      if |rest| < 8 {
        return Invalid;
      }
      var delta := UnVar(rest[8..]);
      if delta.None? || delta.value.0 >= TWO64 {
        return Invalid;
      }
      var count := UnVar(rest[8 + delta.value.1..]);
      if count.None? {
        return Invalid;
      }
      FromBeWide(rest[..8]);
      r := SumUp(RunDiffs(FromBe(rest[..8]), delta.value.0, count.value.0), false);
    } else if b[0] / 16 == 1 {
      if |rest| < 8 {
        return Invalid;
      }
      if |rest| % 8 != 0 {
        return OutOfRange;
      }
      FromBeWide(rest[..8]);
      var u := Simple8b.Decode(rest[8..]);
      AllValuesWide(WordsIn(rest[8..]));
      var d := Signed(u);
      r := SumUp([UnZigZag(FromBe(rest[..8]))] + d, checked);
    } else {
      return Invalid;
    }
  }

  // ------------------------------------------------------------------------ round trip

  lemma WordIs()
    ensures Pow2(64) == TWO64
  {
    EightBytes();
    Pow256Is();
  }

  lemma EightRoundTrip(x: nat)
    requires x < TWO64
    ensures FromBe(ToBe(x, 8)) == x
  {
    Pow256Is();
    BeRoundTrip(x, 8);
  }

  lemma RawParses(d: seq<I64>)
    requires d != []
    ensures Parse([RAW] + BytesOf(Zigs(d))) == Parsed(d, false)
  {
    hide ToBe, FromBe, WordsIn, BytesOf, UnZigs, Zigs, Pow2;
    var z, b := Zigs(d), BytesOf(Zigs(d));
    WordIs();
    WordsInBytes(z);
    BytesLength(z);
    assert ([RAW] + b)[1..] == b;
    UnZigsOfZigs(d);
  }

  lemma RunBytes(first: nat, delta: nat, count: nat)
    requires first < TWO64 && delta < TWO64
    ensures ParseRun(ToBe(first, 8) + Var(delta) + Var(count)) ==
            Parsed(RunDiffs(first, delta, count), false)
  {
    hide ToBe, FromBe, Var, UnVar, UnZigZag, RunDiffs;
    var h, v, w := ToBe(first, 8), Var(delta), Var(count);
    var b := h + v + w;
    EightRoundTrip(first);
    Glued(h, v, w);
    VarRoundTrip(delta, w);
    assert w + [] == w;
    VarRoundTrip(count, []);
  }

  lemma TaggedRun(b: seq<Byte>)
    requires b != [] && b[0] == RUN
    ensures Parse(b) == ParseRun(b[1..])
  {
    hide ParseRun, ParseRaw, ParsePacked;
  }

  lemma RunParses(d: seq<I64>)
    requires IsRun(Zigs(d))
    ensures Parse([RUN] + ToBe(Zigs(d)[0], 8) + Var(Zigs(d)[1]) + Var(|d| - 1)) == Parsed(d, false)
  {
    hide Zigs, ZigZag, UnZigZag, ToBe, FromBe, Var, UnVar, Parse, ParseRun, RunDiffs, IsRun;
    var z := Zigs(d);
    RunLong(z);
    var h, v, w := ToBe(z[0], 8), Var(z[1]), Var(|d| - 1);
    Headed(RUN, h, v, w);
    TaggedRun([RUN] + h + v + w);
    RunBytes(z[0], z[1], |d| - 1);
    RunIs(d);
  }

  lemma RunLong(z: seq<nat>)
    requires IsRun(z)
    ensures |z| > 2
  {
  }

  lemma RunIs(d: seq<I64>)
    requires IsRun(Zigs(d))
    ensures d == RunDiffs(Zigs(d)[0], Zigs(d)[1], |d| - 1)
  {
    hide ZigZag, UnZigZag;
    var z := Zigs(d);
    ZigZagBijection(d[0], 0);
    forall i | 1 <= i < |d| ensures d[i] == d[1] == UnZigZag(z[1]) {
      ZigZagBijection(d[i], 0);
      ZigZagBijection(d[1], 0);
      assert z[i] == z[1];
    }
  }

  lemma PackedBytes(first: nat, u: seq<nat>)
    requires first < TWO64 && Wide(u) && WordsOf(u).Some?
    ensures ParsePacked(ToBe(first, 8) + BytesOf(WordsOf(u).value)) == Parsed([UnZigZag(first)] + UnZigs(u), true)
  {
    hide ToBe, FromBe, WordsIn, BytesOf, UnZigs, Pow2, WordsOf, AllValues, UnZigZag;
    var h, t := ToBe(first, 8), BytesOf(WordsOf(u).value);
    EightRoundTrip(first);
    RoundTrip(u);
    WordsInBytes(WordsOf(u).value);
    BytesLength(WordsOf(u).value);
    var b := h + t;
    assert b[..8] == h && b[8..] == t;
  }

  lemma PackedParses(d: seq<I64>)
    requires d != [] && WordsOf(Zigs(d)[1..]).Some?
    ensures Parse([PACKED] + ToBe(Zigs(d)[0], 8) + BytesOf(WordsOf(Zigs(d)[1..]).value)) == Parsed(d, true)
  {
    hide ToBe, FromBe, BytesOf, UnZigs, WordsOf, ZigZag, UnZigZag, ParseRun, ParseRaw, ParsePacked;
    var z := Zigs(d);
    ZigZagBijection(d[0], 0);
    assert z[1..] == Zigs(d[1..]);
    UnZigsOfZigs(d[1..]);
    PackedBytes(z[0], z[1..]);
    var h, t := ToBe(z[0], 8), BytesOf(WordsOf(z[1..]).value);
    assert ([PACKED] + h + t)[1..] == h + t;
    assert d == [d[0]] + d[1..];
  }

  /**
   * Decoding undoes encoding, for every sequence, except that a program that stops on overflow stops exactly when the
   * block is packed and some true difference of neighbours is out of range.
   */
  lemma IntegerRoundTrip(src: seq<I64>, checked: bool)
    ensures DecodedFrom(Encoded(src), checked) ==
            if checked && UsesPacked(src) && !DiffsFit(src) then Overflow else Values(src)
  {
    hide ToBe, FromBe, Var, UnVar, WordsIn, BytesOf, UnZigs, Zigs, Pow2, WordsOf, Parse, Sums, Diffs, DiffsFit, IsRun, Packable;
    if src == [] {
      EmptyBlock(checked);
    } else {
      var d := Diffs(src);
      PackableIs(Zigs(d));
      if IsRun(Zigs(d)) {
        RunParses(d);
      } else if !Packable(Zigs(d)) {
        RawParses(d);
      } else {
        PackedParses(d);
      }
      SumsOfDiffs(src, true);
      SumsOfDiffs(src, false);
    }
  }

  /** What is encoded is decoded. */
  method EncodeThenDecode(src: seq<I64>, checked: bool) returns (r: Decoded)
    ensures r == Values(src) <==> !(checked && UsesPacked(src) && !DiffsFit(src))
    ensures r == Values(src) || r == Overflow
  {
    hide *;
    var b := Encode(src);
    IntegerRoundTrip(src, checked);
    r := Decode(b, checked);
  }

  lemma EmptyBlock(checked: bool)
    ensures DecodedFrom([], checked) == Values([])
  {
  }

  /** The least value followed by the greatest: the difference wraps to -1, and the checked sum overflows. */
  lemma PackedOverflow()
    ensures DecodedFrom(Encoded([-TWO63, TWO63 - 1]), true) == Overflow
  {
    var src: seq<I64> := [-TWO63, TWO63 - 1];
    assert !DiffFitsAt(src, 1);
    assert Diffs(src)[1] == Sub(TWO63 - 1, -TWO63) == -1;
    ZigZagBijection(-1, 0);
    assert Zigs(Diffs(src))[1] == 1;
    IntegerRoundTrip(src, true);
  }
}
