/** 64-bit arithmetic that wraps, differences of neighbours and their running sums, zig-zag, and base-128 varints. */
module Deltas {
  import opened Bytes
  import opened Simple8b

  const TWO63 := 0x8000_0000_0000_0000
  const TWO64 := 0x1_0000_0000_0000_0000

  type U64 = x: int | 0 <= x < TWO64
  type I64 = x: int | -TWO63 <= x < TWO63

  /** The `as` casts, which keep the bits */
  function AsU64(x: I64): U64 {
    if x < 0 then x + TWO64 else x
  }

  function AsI64(x: U64): I64 {
    if x >= TWO63 then x - TWO64 else x
  }

  predicate Fits(x: int) {
    -TWO63 <= x < TWO63
  }

  /** The true difference is in range. */
  predicate DiffFits(a: I64, b: I64) {
    -TWO63 <= a - b < TWO63
  }

  function Wrap(x: int): I64
    requires -TWO64 <= x < TWO64
  {
    if x >= TWO63 then x - TWO64 else if x < -TWO63 then x + TWO64 else x
  }

  function Add(a: I64, b: I64): I64 {
    Wrap(a + b)
  }

  /** `wrapping_sub` on unsigned words */
  function SubU64(a: U64, b: U64): U64 {
    if a >= b then a - b else a - b + TWO64
  }

  /** The difference of two values as the encoders take it, through unsigned words */
  function Sub(a: I64, b: I64): (d: I64)
    ensures Add(b, d) == a
    ensures Fits(b + d) <==> DiffFits(a, b)
  {
    AsI64(SubU64(AsU64(a), AsU64(b)))
  }

  // ------------------------------------------------------------------------ zig-zag

  /** `(v << 1) ^ (v >> 63)`: the shift wraps, and the second word is all zeros or all ones. */
  function ZigZag(v: I64): U64 {
    var twice := AsU64(v);
    var shifted: U64 := if twice >= TWO63 then 2 * twice - TWO64 else 2 * twice;
    if v < 0 then TWO64 - 1 - shifted else shifted
  }

  /** `(v >> 1) ^ -(v & 1)` */
  function UnZigZag(v: U64): I64 {
    AsI64(if v % 2 == 1 then TWO64 - 1 - v / 2 else v / 2)
  }

  /** Zig-zag is one to one onto the unsigned words, small magnitudes first. */
  lemma ZigZagBijection(v: I64, u: U64)
    ensures UnZigZag(ZigZag(v)) == v && ZigZag(UnZigZag(u)) == u
    ensures ZigZag(v) == if v >= 0 then 2 * v else -2 * v - 1
  {
    assert u % 2 == 1 ==> UnZigZag(u) == -1 - u / 2;
    assert u % 2 == 0 ==> UnZigZag(u) == u / 2;
  }

  // ------------------------------------------------------------------------ differences and sums

  ghost function Diffs(src: seq<I64>): (d: seq<I64>)
    ensures |d| == |src|
  {
    seq(|src|, i requires 0 <= i < |src| => if i == 0 then src[0] else Sub(src[i], src[i - 1]))
  }

  ghost predicate DiffFitsAt(src: seq<I64>, i: nat)
    requires i < |src|
  {
    i > 0 ==> DiffFits(src[i], src[i - 1])
  }

  ghost predicate DiffsFit(src: seq<I64>) {
    forall i :: 0 <= i < |src| ==> DiffFitsAt(src, i)
  }

  /** The values, an error, or where the program stops: on an overflow or a slice past the end */
  datatype Decoded = Values(v: seq<I64>) | Invalid | Overflow | OutOfRange

  function Last(v: seq<I64>): I64 {
    if v == [] then 0 else v[|v| - 1]
  }

  /** Running sums; with `checked`, a sum out of range stops the program. */
  ghost function Sums(d: seq<I64>, checked: bool): (r: Decoded)
    ensures (r.Values? || r.Overflow?) && (r.Values? ==> |r.v| == |d|)
  {
    if d == [] then Values([])
    else
      var r := Sums(d[..|d| - 1], checked);
      if r.Overflow? then r
      else if checked && !Fits(Last(r.v) + d[|d| - 1]) then Overflow
      else Values(r.v + [Add(Last(r.v), d[|d| - 1])])
  }

  lemma SumsMore(d: seq<I64>, x: I64, checked: bool)
    ensures var r := Sums(d, checked);
      Sums(d + [x], checked) ==
      if r.Overflow? then r
      else if checked && !Fits(Last(r.v) + x) then Overflow
      else Values(r.v + [Add(Last(r.v), x)])
  {
    assert (d + [x])[..|d|] == d;
  }

  lemma DiffsMore(src: seq<I64>, x: I64)
    ensures Diffs(src + [x]) == Diffs(src) + [if src == [] then x else Sub(x, Last(src))]
  {
    hide Sub;
    var d, e := Diffs(src + [x]), Diffs(src) + [if src == [] then x else Sub(x, Last(src))];
    forall i | 0 <= i < |d| ensures d[i] == e[i] { }
  }

  lemma DiffsFitMore(src: seq<I64>, x: I64)
    ensures DiffsFit(src + [x]) <==> DiffsFit(src) && (src != [] ==> DiffFits(x, Last(src)))
  {
    hide DiffFits;
    var s := src + [x];
    forall i | 0 <= i < |src| ensures DiffFitsAt(s, i) <==> DiffFitsAt(src, i) { }
    assert DiffFitsAt(s, |src|) <==> (src != [] ==> DiffFits(x, Last(src)));
  }

  /** The sums of the differences are the values; with checks, exactly when the true differences are in range. */
  lemma {:induction false} SumsOfDiffs(src: seq<I64>, checked: bool)
    ensures Sums(Diffs(src), checked) == if !checked || DiffsFit(src) then Values(src) else Overflow
  {
    hide Sums, Diffs, DiffsFit, Sub, DiffFits;
    if src == [] {
      NoSums(checked);
      NoDiffs();
    } else {
      var init, x := src[..|src| - 1], src[|src| - 1];
      assert src == init + [x];
      SumsOfDiffs(init, checked);
      DiffsMore(init, x);
      DiffsFitMore(init, x);
      SumsMore(Diffs(init), if init == [] then x else Sub(x, Last(init)), checked);
    }
  }

  lemma NoDiffs()
    ensures Diffs([]) == [] && DiffsFit([])
  {
  }

  lemma {:induction false} SumsOverflow(d: seq<I64>, e: seq<I64>, checked: bool)
    requires Sums(d, checked).Overflow?
    ensures Sums(d + e, checked).Overflow?
    decreases |e|
  {
    if e == [] {
      assert d + e == d;
    } else {
      assert d + e == d + e[..|e| - 1] + [e[|e| - 1]];
      SumsOverflow(d, e[..|e| - 1], checked);
      SumsMore(d + e[..|e| - 1], e[|e| - 1], checked);
    }
  }

  /** The loop of every decoder: add the next difference, and push the sum. */
  method SumUp(d: seq<I64>, checked: bool) returns (r: Decoded)
    ensures r == Sums(d, checked)
  {
    hide Sums;
    var i := 0;
    var v: seq<I64> := [];
    NoSums(checked);
    while i < |d|
      invariant i <= |d| && Sums(d[..i], checked) == Values(v)
    {
      assert d[..i + 1] == d[..i] + [d[i]];
      SumsMore(d[..i], d[i], checked);
      if checked && !Fits(Last(v) + d[i]) {
        assert d == d[..i + 1] + d[i + 1..];
        SumsOverflow(d[..i + 1], d[i + 1..], checked);
        return Overflow;
      }
      v := v + [Add(Last(v), d[i])];
      i := i + 1;
    }
    assert d[..i] == d;
    return Values(v);
  }

  lemma NoSums(checked: bool)
    ensures Sums([], checked) == Values([])
  {
  }

  function Repeat(x: I64, n: nat): (r: seq<I64>)
    ensures |r| == n && forall i :: 0 <= i < n ==> r[i] == x
  {
    seq(n, _ => x)
  }

  // ------------------------------------------------------------------------ varints

  /** `encode_var`: seven bits a byte, the lowest first, the top bit set on all but the last */
  function Var(x: nat): (b: seq<Byte>)
    ensures |b| > 0
  {
    if x < 128 then [x] else [128 + x % 128] + Var(x / 128)
  }

  /** `decode_var`: the number, and how many bytes it took */
  function UnVar(b: seq<Byte>): (r: Option<(nat, nat)>)
    ensures r.Some? ==> r.value.1 <= |b|
  {
    if b == [] then None
    else if b[0] < 128 then Some((b[0], 1))
    else
      var r := UnVar(b[1..]);
      if r.None? then None else var low: int := b[0] - 128; Some((low + 128 * r.value.0, r.value.1 + 1))
  }

  lemma {:induction false} VarRoundTrip(x: nat, rest: seq<Byte>)
    ensures UnVar(Var(x) + rest) == Some((x, |Var(x)|))
  {
    var b := Var(x) + rest;
    if x >= 128 {
      assert b[1..] == Var(x / 128) + rest;
      VarRoundTrip(x / 128, rest);
    }
  }
}
