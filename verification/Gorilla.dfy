/** The Gorilla XOR float coder (section 4.1.2 of the Gorilla paper, VLDB 2015).

    Three layers are related: the byte buffer and the bit stream it stores
    (`Holds`), the decoder's rotating 64-bit cache and a cursor into that stream
    (`CacheAt`), and the leading/trailing window both sides keep. */
module Gorilla {
  import opened Words

  // 0x7ff8_0000_0000_00ff
  const SENTINEL: Word := [false] + Ones(12) + Zeros(43) + Ones(8)

  datatype Option<T> = None | Some(value: T)

  // ---------------------------------------------------------------- bit stream

  /** Bits already agreed on: leading zeros kept modulo 32, and trailing zeros */
  datatype Window = NoWindow | Window(leading: nat, trailing: nat)

  predicate ValidWindow(w: Window) {
    w.Window? ==> w.leading < 32 && w.leading + w.trailing < 64
  }

  function Clamp(v: Word): (leading: nat)
    ensures leading < 32 && leading <= LeadingZeros(v)
  {
    LeadingZeros(v) % 32
  }

  predicate Reuses(w: Window, delta: Word) {
    w.Window? && Clamp(delta) >= w.leading && TrailingZeros(delta) >= w.trailing
  }

  predicate IsZero(w: Word) { w == Zeros(64) }

  lemma NonZeroSpan(delta: Word)
    requires !IsZero(delta)
    ensures LeadingZeros(delta) + TrailingZeros(delta) < 64
  {
    var i :| 0 <= i < 64 && delta[i] != Zeros(64)[i];
    assert LeadingZeros(delta) <= i < 64 - TrailingZeros(delta);
  }

  function NextWindow(w: Window, delta: Word): (r: Window)
    requires ValidWindow(w)
    ensures ValidWindow(r)
  {
    if IsZero(delta) || Reuses(w, delta) then w
    else (NonZeroSpan(delta); Window(Clamp(delta), TrailingZeros(delta)))
  }

  /** "Same window": the bits inside the window */
  function ReusedCode(l: nat, t: nat, delta: Word): (bits: Bits)
    requires l + t < 64
    ensures |bits| == 66 - l - t
  {
    [true, false] + delta[l..64 - t]
  }

  /** "New window": its leading zeros, its width modulo 64, and the bits inside it */
  function FreshCode(l: nat, t: nat, delta: Word): (bits: Bits)
    requires l + t < 64
    ensures |bits| == 77 - l - t
  {
    [true, true] + FromNat(l, 5) + FromNat(64 - l - t, 6) + delta[l..64 - t]
  }

  /** The bits that stand for one XOR difference */
  function DeltaBits(w: Window, delta: Word): (bits: Bits)
    requires ValidWindow(w)
    ensures bits != []
  {
    if IsZero(delta) then [false]
    else if Reuses(w, delta) then ReusedCode(w.leading, w.trailing, delta)
    else (NonZeroSpan(delta); FreshCode(Clamp(delta), TrailingZeros(delta), delta))
  }

  /** The stream of everything after the first value, closed by the sentinel */
  function TailBits(prev: Word, w: Window, rest: seq<Word>): (bits: Bits)
    requires ValidWindow(w)
    decreases |rest|
  {
    if rest == [] then DeltaBits(w, Xor(SENTINEL, prev))
    else
      var delta := Xor(rest[0], prev);
      DeltaBits(w, delta) + TailBits(rest[0], NextWindow(w, delta), rest[1..])
  }

  const HEADER: Bits := [false, false, false, true, false, false, false, false]

  function BlockBits(src: seq<Word>): (bits: Bits)
    requires src != []
  {
    HEADER + src[0] + TailBits(src[0], NoWindow, src[1..])
  }

  predicate Encodable(src: seq<Word>) {
    forall i :: 1 <= i < |src| ==> src[i] != SENTINEL
  }

  // ------------------------------------------------------- bytes hold a stream

  ghost predicate At(e: Bits, i: nat) { i < |e| && e[i] }

  ghost predicate BitAt(dst: seq<Octet>, i: nat) { i / 8 < |dst| && dst[i / 8][i % 8] }

  /** `dst` stores `e`, and nothing but zeros after it */
  ghost predicate Holds(dst: seq<Octet>, e: Bits) {
    forall i: nat :: BitAt(dst, i) == At(e, i)
  }

  function Flat(dst: seq<Octet>): (f: Bits)
    ensures |f| == 8 * |dst|
  {
    if dst == [] then [] else Flat(dst[..|dst| - 1]) + dst[|dst| - 1]
  }

  lemma {:induction false} FlatAt(dst: seq<Octet>, i: nat)
    requires i < 8 * |dst|
    ensures Flat(dst)[i] == dst[i / 8][i % 8]
  {
    if i < 8 * (|dst| - 1) {
      FlatAt(dst[..|dst| - 1], i);
    }
  }

  function BeBytes(w: Word): (b: seq<Octet>)
    ensures |b| == 8
  {
    seq(8, i requires 0 <= i < 8 => w[8 * i..8 * i + 8])
  }

  lemma OrHolds(dst: seq<Octet>, e: Bits, b: Octet, x: Bits)
    requires Holds(dst, e) && |e| / 8 < |dst|
    requires b == Zeros(|e| % 8) + x
    ensures Holds(dst[|e| / 8 := Or8(dst[|e| / 8], b)], e + x)
  {
    var k, d := |e| / 8, dst[|e| / 8 := Or8(dst[|e| / 8], b)];
    forall i: nat ensures BitAt(d, i) == At(e + x, i) {
      assert BitAt(dst, i) == At(e, i);
      if i / 8 == k {
        assert i % 8 < |e| % 8 ==> i < |e|;
      }
    }
  }

  lemma SetHolds(dst: seq<Octet>, e: Bits)
    requires Holds(dst, e) && |e| / 8 < |dst|
    ensures Holds(dst[|e| / 8 := Or8(dst[|e| / 8], Bit8(|e| % 8))], e + [true])
  {
    var m := |e| % 8;
    var x := [true] + Zeros(7 - m);
    assert Bit8(m) == Zeros(m) + x;
    OrHolds(dst, e, Bit8(m), x);
    assert e + x == (e + [true]) + Zeros(7 - m);
    TrimHolds(dst[|e| / 8 := Or8(dst[|e| / 8], Bit8(m))], e + [true], 7 - m);
  }

  lemma CopyHolds(dst: seq<Octet>, e: Bits, v: Word)
    requires Holds(dst, e) && |e| % 8 == 0 && |e| / 8 + 8 <= |dst|
    ensures Holds(dst[..|e| / 8] + BeBytes(v) + dst[|e| / 8 + 8..], e + v)
  {
    var k := |e| / 8;
    var d := dst[..k] + BeBytes(v) + dst[k + 8..];
    forall i: nat ensures BitAt(d, i) == At(e + v, i) {
      assert BitAt(dst, i) == At(e, i);
      if k <= i / 8 < k + 8 {
        assert d[i / 8] == BeBytes(v)[i / 8 - k];
      }
    }
  }

  lemma TrimHolds(dst: seq<Octet>, e: Bits, n: nat)
    ensures Holds(dst, e + Zeros(n)) <==> Holds(dst, e)
  {
    assert forall i: nat :: At(e + Zeros(n), i) == At(e, i);
  }

  lemma GrowHolds(dst: seq<Octet>, e: Bits)
    requires Holds(dst, e)
    ensures Holds(dst + [Zeros(8)], e)
  {
    forall i: nat ensures BitAt(dst + [Zeros(8)], i) == At(e, i) {
      assert BitAt(dst, i) == At(e, i);
    }
  }

  // ------------------------------------------------------------------- encoder

  /** `while lim >= dst.len() { dst.push(0) }` */
  method Grow(dst: seq<Octet>, lim: nat, ghost e: Bits) returns (d: seq<Octet>)
    requires Holds(dst, e)
    ensures Holds(d, e) && lim < |d|
    ensures |d| == if lim < |dst| then |dst| else lim + 1
  {
    d := dst;
    while lim >= |d|
      invariant Holds(d, e)
      invariant |d| == |dst| || |d| <= lim + 1
      invariant |dst| <= |d|
    {
      GrowHolds(d, e);
      d := d + [Zeros(8)];
    }
  }

  /** Nothing is set below the `l` top bits of `v` */
  ghost predicate TopOnly(v: Word, l: nat) {
    forall j :: l <= j < 64 ==> !v[j]
  }

  lemma MaskBits(v: Word, m: nat)
    requires m < 8
    ensures Low8(Shr(Shr(v, 56), m)) == Zeros(m) + v[..8 - m]
  {
  }

  /** Writes the `l` top bits of `v`, a field that may straddle two bytes. */
  method PutField(dst: seq<Octet>, n: nat, v: Word, l: nat, ghost e: Bits)
    returns (d: seq<Octet>, n': nat)
    requires Holds(dst, e) && |e| == n
    requires 0 < l <= 8 && (n + l) / 8 < |dst|
    requires TopOnly(v, l)
    ensures Holds(d, e + v[..l]) && n' == n + l && |d| == |dst|
  {
    hide Or8, Low8, Shr, Holds;
    var m := n % 8;
    var mask := Shr(v, 56);
    if m <= 8 - l {
      OrTop(dst, e, v, l);
      d := dst[n / 8 := Or8(dst[n / 8], Low8(Shr(mask, m)))];
      n' := n + l;
    } else {
      var written := 8 - m;
      OrTop(dst, e, v, written);
      d := dst[n / 8 := Or8(dst[n / 8], Low8(Shr(mask, m)))];
      n' := n + written;
      mask := Shr(Shl(v, written), 56);
      m := n' % 8;
      assert TopOnly(Shl(v, written), l - written);
      OrTop(d, e + v[..written], Shl(v, written), l - written);
      d := d[n' / 8 := Or8(d[n' / 8], Low8(Shr(mask, m)))];
      n' := n' + (l - written);
      ShlTail(e, v, written, l);
    }
  }

  /** OR-ing the top byte of `v` in writes its first `k` bits when no other is set in it. */
  lemma OrTop(dst: seq<Octet>, e: Bits, v: Word, k: nat)
    requires Holds(dst, e) && |e| / 8 < |dst| && k <= 8 - |e| % 8
    requires k == 8 - |e| % 8 || TopOnly(v, k)
    ensures Holds(dst[|e| / 8 := Or8(dst[|e| / 8], Low8(Shr(Shr(v, 56), |e| % 8)))], e + v[..k])
  {
    hide Or8, Low8, Shr, Holds;
    var m := |e| % 8;
    MaskBits(v, m);
    OrHolds(dst, e, Low8(Shr(Shr(v, 56), m)), v[..8 - m]);
    assert v[..8 - m] == v[..k] + Zeros(8 - m - k);
    assert e + v[..8 - m] == (e + v[..k]) + Zeros(8 - m - k);
    TrimHolds(dst[|e| / 8 := Or8(dst[|e| / 8], Low8(Shr(Shr(v, 56), m)))], e + v[..k], 8 - m - k);
  }

  lemma ShlTail(e: Bits, v: Word, written: nat, l: nat)
    requires written <= l <= 64 && written < 64
    ensures e + v[..written] + Shl(v, written)[..l - written] == e + v[..l]
  {
  }

  /** Writes the `l` top bits of `v`: the rest of the current byte, then eight bytes. */
  method PutValue(dst: seq<Octet>, n: nat, v: Word, l: nat, ghost e: Bits)
    returns (d: seq<Octet>, n': nat)
    requires Holds(dst, e) && |e| == n
    requires 0 < l <= 64 && n / 8 < |dst|
    requires TopOnly(v, l)
    ensures Holds(d, e + v[..l]) && n' == n + l
    ensures n' <= 8 * |d|
  {
    hide Or8, Low8, Shr, BeBytes, Holds;
    d, n' := dst, n;
    var written := 0;
    assert e + v[..0] == e;
    var m := n % 8;
    if m > 0 {
      written := if l < 8 - m then l else 8 - m;
      OrTop(dst, e, v, written);
      d := dst[n / 8 := Or8(dst[n / 8], Low8(Shr(Shr(v, 56), m)))];
      n' := n + written;
      if l - written == 0 {
        return;
      }
    }
    var vv := Shl(v, written);
    d := Grow(d, n' / 8 + 8, e + v[..written]);
    CopyHolds(d, e + v[..written], vv);
    var k := n' / 8;
    d := d[..k] + BeBytes(vv) + d[k + 8..];
    n' := n' + (l - written);
    ShlWhole(e, v, written, l);
    TrimHolds(d, e + v[..l], 64 - l + written);
  }

  lemma ShlWhole(e: Bits, v: Word, written: nat, l: nat)
    requires written <= l <= 64 && written < 64 && TopOnly(v, l)
    ensures e + v[..written] + Shl(v, written) == e + v[..l] + Zeros(64 - l + written)
  {
  }

  // `!0u64`, the encoder's "no window yet"
  const UNSET: nat := 0xffff_ffff_ffff_ffff

  ghost predicate Tracks(prevLeading: nat, prevTrailing: nat, w: Window) {
    if w.NoWindow? then prevLeading == UNSET
    else prevLeading == w.leading && prevTrailing == w.trailing && ValidWindow(w)
  }

  lemma TopAligned(delta: Word, t: nat, l: nat)
    requires 0 < l <= 64 && t + l <= 64
    requires forall i :: 0 <= i < 64 - t - l ==> !delta[i]
    ensures var v := Shl(Shr(delta, t), 64 - l);
            v[..l] == delta[64 - t - l..64 - t] && TopOnly(v, l)
  {
  }

  lemma FieldBits(x: nat, k: nat)
    requires 0 < k < 64
    ensures var v := Shl(FromNat(x, 64), 64 - k);
            v[..k] == FromNat(x, k) && TopOnly(v, k)
  {
    FromNatLow(x, 64, k);
  }

  /** The "same window" branch, after the first control bit of `e + [true]` */
  method PutReused(dst: seq<Octet>, n: nat, prevLeading: nat, prevTrailing: nat, delta: Word,
                   ghost e: Bits)
    returns (d: seq<Octet>, n': nat)
    requires Holds(dst, e + [true]) && |e| + 1 == n
    requires prevLeading + prevTrailing < 64
    requires forall i :: 0 <= i < prevLeading ==> !delta[i]
    ensures Holds(d, e + ReusedCode(prevLeading, prevTrailing, delta))
    ensures n' == |e + ReusedCode(prevLeading, prevTrailing, delta)|
    ensures n' <= 8 * |d|
  {
    n' := n + 1;
    ghost var e1 := e + [true] + Zeros(1);
    TrimHolds(dst, e + [true], 1);
    var l := 64 - prevLeading - prevTrailing;
    d := Grow(dst, (n' + 1) / 8, e1);
    var v := Shl(Shr(delta, prevTrailing), 64 - l);
    TopAligned(delta, prevTrailing, l);
    d, n' := PutValue(d, n', v, l, e1);
    assert e1 + v[..l] == e + ReusedCode(prevLeading, prevTrailing, delta);
  }

  lemma Regroup(e: Bits, f: Bits, g: Bits, h: Bits)
    ensures e + [true] + [true] + f + g + h == e + ([true, true] + f + g + h)
  {
  }

  /** The window of a fresh code: 5 bits of leading zeros, 6 bits of width */
  method PutWindow(dst: seq<Octet>, n: nat, leading: nat, sig: nat, ghost e: Bits)
    returns (d: seq<Octet>, n': nat)
    requires Holds(dst, e) && |e| == n && n <= 8 * |dst|
    ensures Holds(d, e + FromNat(leading, 5) + FromNat(sig, 6)) && n' == n + 11
  {
    d, n' := dst, n;
    if (n' + 5) / 8 >= |d| {
      GrowHolds(d, e);
      d := d + [Zeros(8)];
    }
    FieldBits(leading, 5);
    d, n' := PutField(d, n', Shl(FromNat(leading, 64), 59), 5, e);
    ghost var e1 := e + FromNat(leading, 5);
    if (n' + 6) / 8 >= |d| {
      GrowHolds(d, e1);
      d := d + [Zeros(8)];
    }
    FieldBits(sig, 6);
    d, n' := PutField(d, n', Shl(FromNat(sig, 64), 58), 6, e1);
  }

  /** The "new window" branch, after the first control bit of `e + [true]` */
  method PutFresh(dst: seq<Octet>, n: nat, leading: nat, trailing: nat, delta: Word, ghost e: Bits)
    returns (d: seq<Octet>, n': nat)
    requires Holds(dst, e + [true]) && |e| + 1 == n && n / 8 < |dst|
    requires leading + trailing < 64
    requires forall i :: 0 <= i < leading ==> !delta[i]
    ensures Holds(d, e + FreshCode(leading, trailing, delta))
    ensures n' == |e + FreshCode(leading, trailing, delta)|
    ensures n' <= 8 * |d|
  {
    SetHolds(dst, e + [true]);
    d := dst[n / 8 := Or8(dst[n / 8], Bit8(n % 8))];
    n' := n + 1;
    var sig := 64 - leading - trailing;
    d, n' := PutWindow(d, n', leading, sig, e + [true] + [true]);
    ghost var e4 := e + [true] + [true] + FromNat(leading, 5) + FromNat(sig, 6);
    d := Grow(d, (n' + sig) / 8, e4);
    var v := Shl(Shr(delta, trailing), 64 - sig);
    TopAligned(delta, trailing, sig);
    d, n' := PutValue(d, n', v, sig, e4);
    Regroup(e, FromNat(leading, 5), FromNat(sig, 6), delta[leading..64 - trailing]);
  }

  /** Sets the control bit that announces a non-zero difference, with room for two more. */
  method PutFlag(dst: seq<Octet>, n: nat, ghost e: Bits) returns (d: seq<Octet>, n': nat)
    requires Holds(dst, e) && |e| == n
    ensures Holds(d, e + [true]) && n' == n + 1 && n' / 8 < |d|
  {
    d := Grow(dst, n / 8, e);
    SetHolds(d, e);
    d := d[n / 8 := Or8(d[n / 8], Bit8(n % 8))];
    n' := n + 1;
    if (n' + 2) / 8 >= |d| {
      GrowHolds(d, e + [true]);
      d := d + [Zeros(8)];
    }
  }

  /** Appends one non-zero XOR difference. */
  method PutDelta(dst: seq<Octet>, n: nat, prevLeading: nat, prevTrailing: nat, delta: Word,
                  ghost e: Bits, ghost w: Window)
    returns (d: seq<Octet>, n': nat, newLeading: nat, newTrailing: nat)
    requires Holds(dst, e) && |e| == n
    requires Tracks(prevLeading, prevTrailing, w) && !IsZero(delta)
    ensures Holds(d, e + DeltaBits(w, delta)) && n' == n + |DeltaBits(w, delta)|
    ensures n' <= 8 * |d|
    ensures Tracks(newLeading, newTrailing, NextWindow(w, delta))
  {
    newLeading, newTrailing := prevLeading, prevTrailing;
    d, n' := PutFlag(dst, n, e);
    var leading, trailing := LeadingZeros(delta), TrailingZeros(delta);
    NonZeroSpan(delta);
    leading := leading % 32;
    if prevLeading != UNSET && leading >= prevLeading && trailing >= prevTrailing {
      d, n' := PutReused(d, n', prevLeading, prevTrailing, delta, e);
    } else {
      newLeading, newTrailing := leading, trailing;
      d, n' := PutFresh(d, n', leading, trailing, delta, e);
    }
  }

  /** One round of the encoder's loop: a single zero bit, or a difference */
  method PutNext(dst: seq<Octet>, n: nat, prevLeading: nat, prevTrailing: nat, prev: Word, cur: Word,
                 ghost e: Bits, ghost w: Window)
    returns (d: seq<Octet>, n': nat, newLeading: nat, newTrailing: nat)
    requires Holds(dst, e) && |e| == n && Tracks(prevLeading, prevTrailing, w)
    ensures Holds(d, e + DeltaBits(w, Xor(cur, prev))) && n' == |e + DeltaBits(w, Xor(cur, prev))|
    ensures Tracks(newLeading, newTrailing, NextWindow(w, Xor(cur, prev)))
    ensures if cur == prev then d == dst && n' == n + 1 else n' <= 8 * |d|
  {
    var delta := Xor(cur, prev);
    XorZero(cur, prev);
    if IsZero(delta) {
      assert e + DeltaBits(w, delta) == e + Zeros(1);
      TrimHolds(dst, e, 1);
      d, n', newLeading, newTrailing := dst, n + 1, prevLeading, prevTrailing;
    } else {
      d, n', newLeading, newTrailing := PutDelta(dst, n, prevLeading, prevTrailing, delta, e, w);
    }
  }

  /** `float::encode`: `None` is the "unsupported value" error. */
  method Encode(src: seq<Word>) returns (r: Option<seq<Octet>>)
    ensures r.Some? <==> Encodable(src)
    ensures src == [] ==> r == Some([])
    ensures r.Some? && src != [] ==> Holds(r.value, BlockBits(src))
    ensures r.Some? && src != [] ==>
      |r.value| == if src == [SENTINEL] then 9 else (|BlockBits(src)| + 7) / 8
  {
    if src == [] {
      return Some([]);
    }
    var n := 8;
    var dst: seq<Octet> := [HEADER];
    var prev := src[0];
    dst := dst + BeBytes(prev);
    n := n + 64;
    ghost var e := HEADER + prev;
    FirstBytes(prev);
    var prevLeading, prevTrailing := UNSET, 0;
    ghost var w := NoWindow;
    var i := 1;
    while i <= |src|
      invariant 1 <= i <= |src| + 1
      invariant forall k :: 1 <= k < i && k < |src| ==> src[k] != SENTINEL
      invariant i <= |src| ==> prev == src[i - 1]
      invariant n == |e| && Holds(dst, e) && Tracks(prevLeading, prevTrailing, w)
      invariant BlockBits(src) == if i <= |src| then e + TailBits(prev, w, src[i..]) else e
      invariant i == 1 ==> |dst| == 9 && n == 72
      invariant i == |src| + 1 ==> if src == [SENTINEL] then |dst| == 9 && n == 73 else n <= 8 * |dst|
    {
      var cur: Word;
      if i < |src| {
        cur := src[i];
        if cur == SENTINEL {
          return None;
        }
      } else {
        cur := SENTINEL;
      }
      StepBits(e, prev, w, src, i);
      dst, n, prevLeading, prevTrailing := PutNext(dst, n, prevLeading, prevTrailing, prev, cur, e, w);
      e, w := e + DeltaBits(w, Xor(cur, prev)), NextWindow(w, Xor(cur, prev));
      prev := cur;
      i := i + 1;
    }
    var length := n / 8;
    if n % 8 > 0 {
      length := length + 1;
    }
    if length < |dst| {
      TruncateHolds(dst, e, length);
      dst := dst[..length];
    }
    return Some(dst);
  }

  lemma StepBits(e: Bits, prev: Word, w: Window, src: seq<Word>, i: nat)
    requires 1 <= i <= |src| && ValidWindow(w)
    ensures var x := if i < |src| then src[i] else SENTINEL;
            var e1 := e + DeltaBits(w, Xor(x, prev));
            e + TailBits(prev, w, src[i..]) ==
            if i < |src| then e1 + TailBits(x, NextWindow(w, Xor(x, prev)), src[i + 1..]) else e1
  {
    if i < |src| {
      assert src[i..][1..] == src[i + 1..];
    }
  }

  lemma TruncateHolds(dst: seq<Octet>, e: Bits, length: nat)
    requires Holds(dst, e) && |e| <= 8 * length && length <= |dst|
    ensures Holds(dst[..length], e)
  {
    forall i: nat ensures BitAt(dst[..length], i) == At(e, i) {
      assert BitAt(dst, i) == At(e, i);
    }
  }

  lemma XorZero(a: Word, b: Word)
    ensures IsZero(Xor(a, b)) <==> a == b
  {
    if IsZero(Xor(a, b)) {
      forall i | 0 <= i < 64 ensures a[i] == b[i] {
        assert !Xor(a, b)[i];
      }
    }
  }

  lemma FirstBytes(first: Word)
    ensures Holds([HEADER] + BeBytes(first), HEADER + first)
  {
    var d := [HEADER] + BeBytes(first);
    forall i: nat ensures BitAt(d, i) == At(HEADER + first, i) {
      if 8 <= i < 72 {
        assert d[i / 8] == BeBytes(first)[i / 8 - 1];
      }
    }
  }
}
