/** Bytes, and whole numbers as bytes. */
module Bytes {
  type Byte = x: int | 0 <= x < 256

  function Min(a: nat, b: nat): nat {
    if a < b then a else b
  }

  function Pow256(n: nat): (r: nat)
    ensures r > 0
  {
    if n == 0 then 1 else 256 * Pow256(n - 1)
  }

  lemma Pow256Is()
    ensures Pow256(2) == 0x1_0000 && Pow256(4) == 0x1_0000_0000 && Pow256(8) == 0x1_0000_0000_0000_0000
  {
    assert Pow256(3) == 0x100_0000;
    assert Pow256(6) == 0x1_0000_0000_0000;
  }

  /** `to_le_bytes` */
  function ToLe(x: nat, n: nat): (b: seq<Byte>)
    ensures |b| == n
  {
    if n == 0 then [] else [x % 256] + ToLe(x / 256, n - 1)
  }

  function FromLe(b: seq<Byte>): (x: nat)
    ensures x < Pow256(|b|)
  {
    if b == [] then 0 else var low: int := b[0]; low + 256 * FromLe(b[1..])
  }

  lemma {:induction false} LeRoundTrip(x: nat, n: nat)
    requires x < Pow256(n)
    ensures FromLe(ToLe(x, n)) == x
  {
    if n > 0 {
      assert ToLe(x, n)[1..] == ToLe(x / 256, n - 1);
      LeRoundTrip(x / 256, n - 1);
    }
  }

  /** `to_be_bytes` */
  function ToBe(x: nat, n: nat): (b: seq<Byte>)
    ensures |b| == n
  {
    if n == 0 then [] else ToBe(x / 256, n - 1) + [x % 256]
  }

  function FromBe(b: seq<Byte>): (x: nat)
    ensures x < Pow256(|b|)
  {
    if b == [] then 0 else var low: int := b[|b| - 1]; low + 256 * FromBe(b[..|b| - 1])
  }

  lemma {:induction false} BeRoundTrip(x: nat, n: nat)
    requires x < Pow256(n)
    ensures FromBe(ToBe(x, n)) == x
  {
    if n > 0 {
      assert ToBe(x, n)[..n - 1] == ToBe(x / 256, n - 1);
      BeRoundTrip(x / 256, n - 1);
    }
  }

  /** A stretch of a stretch */
  lemma SubSlice<T>(f: seq<T>, p: nat, n: nat, a: nat, b: nat)
    requires p + n <= |f| && a <= b <= n
    ensures f[p..p + n][a..b] == f[p + a..p + b]
  {
    var s, t := f[p..p + n][a..b], f[p + a..p + b];
    assert |s| == |t|;
    assert forall i :: 0 <= i < |t| ==> s[i] == t[i];
  }

  /** The parts of parts put together */
  lemma Glued<T>(a: seq<T>, b: seq<T>, c: seq<T>)
    ensures var s := a + b + c;
      s[..|a|] == a && s[|a|..] == b + c && s[|a| + |b|..] == c
  {
    var s := a + b + c;
    assert s[..|a|] == a;
    assert s[|a|..] == b + c;
    assert s[|a| + |b|..] == c;
  }

  lemma Headed<T>(x: T, a: seq<T>, b: seq<T>, c: seq<T>)
    ensures var s := [x] + a + b + c; s[0] == x && s[1..] == a + b + c
  {
    var s := [x] + a + b + c;
    assert s[1..] == a + b + c;
  }
}
