/** Whole numbers packed side by side in one, and the bit operations that do it. */
module Packing {
  import opened Words

  lemma DivMod(a: nat, b: nat, m: nat)
    requires a < m
    ensures (a + m * b) % m == a && (a + m * b) / m == b
  {
    var q, r := (a + m * b) / m, (a + m * b) % m;
    assert q * m + r == m * b + a;
    if q < b {
      Product(b - q, m);
    } else if q > b {
      Product(q - b, m);
    }
  }

  lemma Product(a: nat, b: nat)
    requires a > 0
    ensures a * b >= b
  {
  }

  /** Shift and mask, as division and remainder */
  function Quot(x: nat, m: nat): (q: nat)
    requires m > 0
  {
    QuotNatural(x, m);
    x / m
  }

  lemma QuotNatural(x: nat, m: nat)
    requires m > 0
    ensures x / m >= 0
  {
    var q := x / m;
    assert x == q * m + x % m;
  }

  lemma Double(a: nat, p: nat)
    ensures a * (2 * p) == 2 * (a * p)
  {
  }

  lemma {:induction false} Pow2Add(a: nat, b: nat)
    ensures Pow2(a + b) == Pow2(a) * Pow2(b)
  {
    if a > 0 { Pow2Add(a - 1, b); }
  }

  /** `a | b` */
  function BitOr(a: nat, b: nat): nat {
    if a == 0 then b else if b == 0 then a else 2 * BitOr(a / 2, b / 2) + (if a % 2 == 1 || b % 2 == 1 then 1 else 0)
  }

  /** No bit is set in both. */
  predicate Apart(a: nat, b: nat) {
    a == 0 || b == 0 || (!(a % 2 == 1 && b % 2 == 1) && Apart(a / 2, b / 2))
  }

  lemma {:induction false} OrApart(a: nat, b: nat)
    requires Apart(a, b)
    ensures BitOr(a, b) == a + b
  {
    if a > 0 && b > 0 { OrApart(a / 2, b / 2); }
  }

  lemma {:induction false} HighApart(high: nat, v: nat, n: nat)
    requires v < Pow2(n)
    ensures Apart(high * Pow2(n), v)
  {
    if n > 0 {
      HighApart(high, v / 2, n - 1);
      Double(high, Pow2(n - 1));
    }
  }

  lemma Halves(a: nat, low: nat, b: nat)
    requires Apart(a + low / 2, b)
    ensures Apart(2 * a + low, 2 * b)
  {
    hide Apart;
    var x, y := 2 * a + low, 2 * b;
    assert x / 2 == a + low / 2 && y / 2 == b && y % 2 == 0;
    ApartStep(x, y);
  }

  lemma ApartStep(x: nat, y: nat)
    requires y % 2 == 0 && Apart(x / 2, y / 2)
    ensures Apart(x, y)
  {
  }

  /** A field put between the bits below `s` and those from `s + n` on */
  lemma {:induction false} FieldApart(high: nat, low: nat, v: nat, s: nat, n: nat)
    requires low < Pow2(s) && v < Pow2(n)
    ensures Apart(high * Pow2(s + n) + low, v * Pow2(s))
  {
    if s == 0 {
      HighApart(high, v, n);
    } else {
      FieldApart(high, low / 2, v, s - 1, n);
      Double(high, Pow2(s - 1 + n));
      Double(v, Pow2(s - 1));
      Halves(high * Pow2(s - 1 + n), low, v * Pow2(s - 1));
    }
  }

  lemma FieldOr(high: nat, low: nat, v: nat, s: nat, n: nat)
    requires low < Pow2(s) && v < Pow2(n)
    ensures BitOr(high * Pow2(s + n) + low, v * Pow2(s)) == high * Pow2(s + n) + low + v * Pow2(s)
  {
    FieldApart(high, low, v, s, n);
    OrApart(high * Pow2(s + n) + low, v * Pow2(s));
  }

  ghost predicate Narrow(vals: seq<nat>, w: nat) {
    forall k :: 0 <= k < |vals| ==> vals[k] < Pow2(w)
  }

  /** Fields of `w` bits, the first lowest */
  function Pack(vals: seq<nat>, w: nat): nat {
    if vals == [] then 0 else vals[0] + Pow2(w) * Pack(vals[1..], w)
  }

  function Unpack(x: nat, n: nat, w: nat): (vals: seq<nat>)
    ensures |vals| == n
    decreases n
  {
    if n == 0 then [] else [x % Pow2(w)] + Unpack(Quot(x, Pow2(w)), n - 1, w)
  }

  lemma {:induction false} PackBound(vals: seq<nat>, w: nat)
    requires Narrow(vals, w)
    ensures Pack(vals, w) < Pow2(|vals| * w)
  {
    if vals != [] {
      PackBound(vals[1..], w);
      assert |vals| * w == w + |vals[1..]| * w;
      Pow2Add(w, |vals[1..]| * w);
      BoundStep(vals[0], Pack(vals[1..], w), Pow2(w), Pow2(|vals[1..]| * w));
    }
  }

  lemma BoundStep(a: nat, b: nat, m: nat, n: nat)
    requires a < m && b < n
    ensures a + m * b < m * n
  {
    assert m * b + m == m * (b + 1);
    Monotone(m, b + 1, n);
  }

  lemma Monotone(m: nat, a: nat, b: nat)
    requires a <= b
    ensures m * a <= m * b
  {
  }

  lemma {:induction false} PackMore(vals: seq<nat>, v: nat, w: nat)
    ensures Pack(vals + [v], w) == Pack(vals, w) + v * Pow2(|vals| * w)
  {
    if vals == [] {
      assert vals + [v] == [v];
      assert Pack([v], w) == v + Pow2(w) * Pack([], w);
    } else {
      var n := |vals[1..]| * w;
      assert (vals + [v])[1..] == vals[1..] + [v];
      PackMore(vals[1..], v, w);
      assert |vals| * w == w + n;
      Pow2Add(w, n);
      Distribute(Pow2(w), Pack(vals[1..], w), v, Pow2(n));
    }
  }

  lemma Distribute(m: nat, p: nat, v: nat, n: nat)
    ensures m * (p + v * n) == m * p + v * (m * n)
  {
    assert m * (p + v * n) == m * p + m * (v * n);
  }

  /** What is above the fields does not matter. */
  lemma {:induction false} UnpackPacked(vals: seq<nat>, w: nat, high: nat)
    requires Narrow(vals, w)
    ensures Unpack(Pack(vals, w) + high * Pow2(|vals| * w), |vals|, w) == vals
  {
    if vals != [] {
      var n := |vals[1..]| * w;
      assert |vals| * w == w + n;
      Pow2Add(w, n);
      var rest := Pack(vals[1..], w) + high * Pow2(n);
      Distribute(Pow2(w), Pack(vals[1..], w), high, Pow2(n));
      DivMod(vals[0], rest, Pow2(w));
      UnpackPacked(vals[1..], w, high);
    }
  }
}
