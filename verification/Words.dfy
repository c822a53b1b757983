/** Machine words as bit strings, most significant bit first.

    The float coder only shifts, rotates, masks and XORs 64-bit words, so a word
    is its 64 bits and a byte its 8 bits; every operator below is the bit-string
    meaning of the Rust operator of the same name. */
module Words {

  type Bits = seq<bool>
  type Word = w: Bits | |w| == 64 witness seq(64, _ => false)
  type Octet = b: Bits | |b| == 8 witness seq(8, _ => false)

  function Zeros(n: nat): (z: Bits)
    ensures |z| == n && forall i :: 0 <= i < n ==> !z[i]
  {
    seq(n, _ => false)
  }

  function Xor(a: Word, b: Word): (r: Word) {
    seq(64, i requires 0 <= i < 64 => a[i] != b[i])
  }

  function Or(a: Word, b: Word): (r: Word) {
    seq(64, i requires 0 <= i < 64 => a[i] || b[i])
  }

  function And(a: Word, b: Word): (r: Word) {
    seq(64, i requires 0 <= i < 64 => a[i] && b[i])
  }

  function Not(a: Word): (r: Word) {
    seq(64, i requires 0 <= i < 64 => !a[i])
  }

  function Ones(n: nat): (r: Bits)
    ensures |r| == n && forall i :: 0 <= i < n ==> r[i]
  {
    seq(n, _ => true)
  }

  function Or8(a: Octet, b: Octet): (r: Octet) {
    seq(8, i requires 0 <= i < 8 => a[i] || b[i])
  }

  /** `128 >> m` as a byte */
  function Bit8(m: nat): (r: Octet)
    requires m < 8
  {
    seq(8, i => i == m)
  }

  function Shl(w: Word, k: nat): (r: Word)
    requires k < 64
  {
    w[k..] + Zeros(k)
  }

  function Shr(w: Word, k: nat): (r: Word)
    requires k < 64
  {
    Zeros(k) + w[..64 - k]
  }

  /** `rotate_left`, which takes its argument modulo 64 */
  function RotL(w: Word, k: nat): (r: Word) {
    w[k % 64..] + w[..k % 64]
  }

  /** `as u8` */
  function Low8(w: Word): (r: Octet) {
    w[56..]
  }

  function LeadingZeros(w: Bits): (n: nat)
    ensures n <= |w|
    ensures forall i :: 0 <= i < n ==> !w[i]
    ensures n < |w| ==> w[n]
  {
    if w == [] || w[0] then 0 else 1 + LeadingZeros(w[1..])
  }

  function TrailingZeros(w: Bits): (n: nat)
    ensures n <= |w|
    ensures forall i :: |w| - n <= i < |w| ==> !w[i]
    ensures n < |w| ==> w[|w| - 1 - n]
  {
    if w == [] || w[|w| - 1] then 0 else 1 + TrailingZeros(w[..|w| - 1])
  }

  function Pow2(n: nat): (p: nat)
    ensures p > 0
  {
    if n == 0 then 1 else 2 * Pow2(n - 1)
  }

  /** Bit `i` of `x`, counted from the least significant */
  predicate BitOf(x: nat, i: nat) {
    if i == 0 then x % 2 == 1 else BitOf(x / 2, i - 1)
  }

  /** The low `w` bits of `x` */
  function FromNat(x: nat, w: nat): (b: Bits)
    ensures |b| == w
  {
    seq(w, i requires 0 <= i < w => BitOf(x, w - 1 - i))
  }

  function ToNat(b: Bits): (x: nat)
    ensures x < Pow2(|b|)
  {
    if b == [] then 0
    else 2 * ToNat(b[..|b| - 1]) + if b[|b| - 1] then 1 else 0
  }

  lemma FromNatSplit(x: nat, w: nat)
    requires w > 0
    ensures FromNat(x, w) == FromNat(x / 2, w - 1) + [x % 2 == 1]
  {
    var l, r := FromNat(x, w), FromNat(x / 2, w - 1) + [x % 2 == 1];
    forall i | 0 <= i < w ensures l[i] == r[i] {
      assert l[i] == BitOf(x, w - 1 - i);
    }
  }

  lemma {:induction false} ToNatFromNat(x: nat, w: nat)
    requires x < Pow2(w)
    ensures ToNat(FromNat(x, w)) == x
  {
    if w > 0 {
      ToNatFromNat(x / 2, w - 1);
      FromNatSplit(x, w);
    }
  }

  lemma {:induction false} FromNatToNat(b: Bits)
    ensures FromNat(ToNat(b), |b|) == b
  {
    if b != [] {
      FromNatToNat(b[..|b| - 1]);
      var x := ToNat(b);
      assert x / 2 == ToNat(b[..|b| - 1]);
      FromNatSplit(x, |b|);
    }
  }

  /** Narrowing keeps the low bits. */
  lemma FromNatLow(x: nat, w: nat, k: nat)
    requires k <= w
    ensures FromNat(x, w)[w - k..] == FromNat(x, k)
  {
  }
}
