/** The float decoder, and the round trip through it. */
module GorillaDecoder {
  import opened Words
  import opened Gorilla

  // ----------------------------------------------------- pure parser of a stream

  function Prepend(dst: seq<Word>, r: Option<seq<Word>>): Option<seq<Word>> {
    if r.None? then None else Some(dst + r.value)
  }

  /** The value a difference of `m` significant and `t` trailing bits leads to */
  function Apply(val: Word, t: nat, sig: Bits): Word
    requires t + |sig| <= 64
  {
    Xor(val, Zeros(64 - t - |sig|) + sig + Zeros(t))
  }

  /** Trailing and significant bit counts of an 11-bit window, if they fit a word */
  function WindowOf(b: Bits): (r: Option<(nat, nat)>)
    requires |b| == 11
    ensures r.Some? ==> r.value.0 + r.value.1 <= 64 && r.value.1 > 0
  {
    var lead, sig := ToNat(b[..5]), ToNat(b[5..]);
    if sig == 0 then Some((0, 64))
    else if lead + sig > 64 then None
    else Some((64 - lead - sig, sig))
  }

  /** What the control bits at a position lead to */
  datatype Step = Truncated | Done | Emit(val: Word, pos: nat, t: nat, m: nat)

  function ValueStep(f: Bits, pos: nat, val: Word, t: nat, m: nat): Step
    requires 0 < m && t + m <= 64
  {
    if pos + m > |f| then Truncated
    else
      var v := Apply(val, t, f[pos..pos + m]);
      if v == SENTINEL then Done else Emit(v, pos + m, t, m)
  }

  function StepAt(f: Bits, pos: nat, val: Word, t: nat, m: nat): (s: Step)
    requires 0 < m && t + m <= 64
    ensures s.Emit? ==> pos < s.pos && 0 < s.m && s.t + s.m <= 64
  {
    if pos >= |f| then Truncated
    else if !f[pos] then Emit(val, pos + 1, t, m)
    else if pos + 1 >= |f| then Truncated
    else if !f[pos + 1] then ValueStep(f, pos + 2, val, t, m)
    else if pos + 13 > |f| then Truncated
    else
      var w := WindowOf(f[pos + 2..pos + 13]);
      if w.None? then Truncated else ValueStep(f, pos + 13, val, w.value.0, w.value.1)
  }

  /** Parses from bit `pos`; `None` when the stream ends before the sentinel */
  function Parse(f: Bits, pos: nat, val: Word, t: nat, m: nat): Option<seq<Word>>
    requires 0 < m && t + m <= 64
    decreases |f| - pos
  {
    match StepAt(f, pos, val, t, m)
    case Truncated => None
    case Done => Some([])
    case Emit(v, p, t', m') =>
      if p > |f| then None else Prepend([v], Parse(f, p, v, t', m'))
  }

  function ParseBlock(src: seq<Octet>): Option<seq<Word>> {
    if |src| < 9 then Some([])
    else
      var f := Flat(src);
      Prepend([f[8..72]], Parse(f, 72, f[8..72], 0, 64))
  }

  /** The values before the sentinel, or before the place where the stream ends too early */
  ghost function Emitted(f: Bits, pos: nat, val: Word, t: nat, m: nat): seq<Word>
    requires 0 < m && t + m <= 64
    decreases |f| - pos
  {
    match StepAt(f, pos, val, t, m)
    case Truncated => []
    case Done => []
    case Emit(v, p, t', m') => if p > |f| then [v] else [v] + Emitted(f, p, v, t', m')
  }

  ghost function EmittedBlock(src: seq<Octet>): seq<Word> {
    if |src| < 9 then [] else var f := Flat(src); [f[8..72]] + Emitted(f, 72, f[8..72], 0, 64)
  }

  // ----------------------------------------------------------------- round trip

  /** The encoder's and the decoder's view of the current window agree */
  ghost predicate SameWindow(w: Window, t: nat, m: nat) {
    w.Window? ==> t == w.trailing && m == 64 - w.leading - w.trailing
  }

  lemma ApplyDelta(prev: Word, cur: Word, l: nat, t: nat)
    requires l + t < 64
    requires l <= LeadingZeros(Xor(cur, prev)) && t <= TrailingZeros(Xor(cur, prev))
    ensures Apply(prev, t, Xor(cur, prev)[l..64 - t]) == cur
  {
    var d := Xor(cur, prev);
    assert Zeros(l) + d[l..64 - t] + Zeros(t) == d;
    assert Xor(prev, d) == cur;
  }

  lemma WindowRoundTrip(l: nat, t: nat)
    requires l < 32 && l + t < 64
    ensures WindowOf(FromNat(l, 5) + FromNat(64 - l - t, 6)) == Some((t, 64 - l - t))
  {
    var a, b := FromNat(l, 5), FromNat(64 - l - t, 6);
    assert (a + b)[..5] == a && (a + b)[5..] == b;
    assert Pow2(5) == 32 && Pow2(6) == 64;
    ToNatFromNat(l, 5);
    if l + t == 0 {
      assert FromNat(64, 6) == FromNat(0, 6) by { SixBits(); }
      ToNatFromNat(0, 6);
    } else {
      ToNatFromNat(64 - l - t, 6);
    }
  }

  // 64 significant bits are stored as 0
  lemma SixBits()
    ensures FromNat(64, 6) == FromNat(0, 6)
  {
    forall i | 0 <= i < 6 ensures BitOf(64, i) == BitOf(0, i) {
      assert i == 0 || i == 1 || i == 2 || i == 3 || i == 4 || i == 5;
    }
  }

  /** The stream `f` has `e` at position `pos` */
  ghost predicate Reads(f: Bits, pos: nat, e: Bits) {
    pos + |e| <= |f| && f[pos..pos + |e|] == e
  }

  lemma ReadsSplit(f: Bits, pos: nat, a: Bits, b: Bits)
    requires Reads(f, pos, a + b)
    ensures Reads(f, pos, a) && Reads(f, pos + |a|, b)
  {
    var all := f[pos..pos + |a + b|];
    assert f[pos..pos + |a|] == all[..|a|];
    assert f[pos + |a|..pos + |a| + |b|] == all[|a|..];
  }

  function Reached(cur: Word, pos: nat, t: nat, m: nat): Step {
    if cur == SENTINEL then Done else Emit(cur, pos, t, m)
  }

  lemma ValueParses(f: Bits, pos: nat, prev: Word, cur: Word, l: nat, t: nat)
    requires l + t < 64 && Reads(f, pos, Xor(cur, prev)[l..64 - t])
    requires l <= LeadingZeros(Xor(cur, prev)) && t <= TrailingZeros(Xor(cur, prev))
    ensures ValueStep(f, pos, prev, t, 64 - l - t) == Reached(cur, pos + (64 - l - t), t, 64 - l - t)
  {
    hide Xor, Apply, LeadingZeros, TrailingZeros, SENTINEL;
    ApplyDelta(prev, cur, l, t);
  }

  lemma ReusedReads(f: Bits, pos: nat, l: nat, t: nat, delta: Word)
    requires l + t < 64 && Reads(f, pos, ReusedCode(l, t, delta))
    ensures pos + 2 <= |f| && f[pos] && !f[pos + 1] && Reads(f, pos + 2, delta[l..64 - t])
  {
    ReadsSplit(f, pos, [true, false], delta[l..64 - t]);
    ReadsSplit(f, pos, [true], [false]);
  }

  lemma FreshReads(f: Bits, pos: nat, l: nat, t: nat, delta: Word)
    requires l < 32 && l + t < 64 && Reads(f, pos, FreshCode(l, t, delta))
    ensures pos + 13 <= |f| && f[pos] && f[pos + 1] && Reads(f, pos + 13, delta[l..64 - t])
    ensures WindowOf(f[pos + 2..pos + 13]) == Some((t, 64 - l - t))
  {
    var g, h, d := FromNat(l, 5), FromNat(64 - l - t, 6), delta[l..64 - t];
    assert [true, true] + g + h + d == [true, true] + ((g + h) + d);
    ReadsSplit(f, pos, [true, true], (g + h) + d);
    ReadsSplit(f, pos, [true], [true]);
    ReadsSplit(f, pos + 2, g + h, d);
    WindowRoundTrip(l, t);
  }

  /** Stepping over one difference undoes encoding it. */
  lemma DeltaParses(prev: Word, cur: Word, w: Window, f: Bits, pos: nat, t: nat, m: nat)
    returns (t': nat, m': nat)
    requires ValidWindow(w) && SameWindow(w, t, m) && 0 < m && t + m <= 64
    requires Reads(f, pos, DeltaBits(w, Xor(cur, prev)))
    ensures SameWindow(NextWindow(w, Xor(cur, prev)), t', m') && 0 < m' && t' + m' <= 64
    ensures var next := pos + |DeltaBits(w, Xor(cur, prev))|;
            StepAt(f, pos, prev, t, m) ==
            if cur == prev then Emit(cur, next, t', m') else Reached(cur, next, t', m')
  {
    hide Xor, WindowOf, ValueStep, Reached, LeadingZeros, TrailingZeros, ReusedCode, FreshCode;
    var delta := Xor(cur, prev);
    XorZero(cur, prev);
    t', m' := t, m;
    if IsZero(delta) {
      assert f[pos] == f[pos..pos + 1][0];
    } else {
      NonZeroSpan(delta);
      if Reuses(w, delta) {
        ReusedReads(f, pos, w.leading, w.trailing, delta);
        ValueParses(f, pos + 2, prev, cur, w.leading, w.trailing);
      } else {
        t', m' := TrailingZeros(delta), 64 - Clamp(delta) - TrailingZeros(delta);
        FreshReads(f, pos, Clamp(delta), t', delta);
        ValueParses(f, pos + 13, prev, cur, Clamp(delta), t');
      }
    }
  }

  lemma {:induction false} TailParses(prev: Word, w: Window, rest: seq<Word>, f: Bits, pos: nat, t: nat, m: nat)
    requires ValidWindow(w) && SameWindow(w, t, m) && 0 < m && t + m <= 64
    requires Reads(f, pos, TailBits(prev, w, rest))
    requires forall i :: 0 <= i < |rest| ==> rest[i] != SENTINEL
    requires rest == [] ==> prev != SENTINEL
    ensures Parse(f, pos, prev, t, m) == Some(rest)
    decreases |rest|
  {
    hide Xor, StepAt, DeltaBits, NextWindow;
    if rest == [] {
      var _, _ := DeltaParses(prev, SENTINEL, w, f, pos, t, m);
    } else {
      var cur := rest[0];
      var d, next := DeltaBits(w, Xor(cur, prev)), NextWindow(w, Xor(cur, prev));
      ReadsSplit(f, pos, d, TailBits(cur, next, rest[1..]));
      var t', m' := DeltaParses(prev, cur, w, f, pos, t, m);
      TailParses(cur, next, rest[1..], f, pos + |d|, t', m');
      assert [cur] + rest[1..] == rest;
    }
  }

  lemma NoRoom(f: Bits, pos: nat, val: Word, t: nat, m: nat)
    requires 0 < m && t + m <= 64 && pos >= |f|
    ensures Parse(f, pos, val, t, m).None?
  {
  }

  /** Decoding the encoder's bytes gives the values back, unless the block is the lone
      sentinel, which `encode` does not look for at index 0. */
  lemma BlockRoundTrip(src: seq<Word>, b: seq<Octet>)
    requires src != [] && Encodable(src) && Holds(b, BlockBits(src))
    requires |b| == if src == [SENTINEL] then 9 else (|BlockBits(src)| + 7) / 8
    ensures ParseBlock(b) == Some(src) <==> src != [SENTINEL]
  {
    hide Flat, TailBits, Parse;
    var e, f := BlockBits(src), Flat(b);
    forall i | 0 <= i < |f| && i < |e| ensures f[i] == e[i] {
      assert BitAt(b, i) == At(e, i);
      FlatAt(b, i);
    }
    assert f[8..72] == e[8..72] == src[0];
    if src == [SENTINEL] {
      NoRoom(f, 72, src[0], 0, 64);
    } else {
      assert e[72..] == TailBits(src[0], NoWindow, src[1..]);
      assert f[72..|e|] == e[72..];
      TailParses(src[0], NoWindow, src[1..], f, 72, 0, 64);
      assert [src[0]] + src[1..] == src;
    }
  }

  // -------------------------------------------------------------------- decoder

  /** The `valid` top bits of `cached` are the next bits of the stream, up to byte `i` */
  ghost predicate CacheAt(src: seq<Octet>, i: nat, cached: Word, valid: nat) {
    && i <= |src| && valid <= 64 && valid <= 8 * i
    && forall j :: 0 <= j < valid ==> cached[j] == Flat(src)[8 * i - valid + j]
  }

  /** The `k` low bits of `bits` are the stream's bits from `pos` on */
  ghost predicate LowBits(src: seq<Octet>, pos: nat, bits: Word, k: nat) {
    && k <= 64 && pos + k <= 8 * |src|
    && forall j :: 64 - k <= j < 64 ==> bits[j] == Flat(src)[pos + k - 64 + j]
  }

  lemma ShiftIn(src: seq<Octet>, i: nat, n: nat, cached: Word)
    requires i + n < |src| && n < 8 && LowBits(src, 8 * i, cached, 8 * n)
    ensures LowBits(src, 8 * i, Or(Shl(cached, 8), Zeros(56) + src[i + n]), 8 * (n + 1))
  {
    hide Flat;
    var c := Or(Shl(cached, 8), Zeros(56) + src[i + n]);
    forall j | 64 - 8 * (n + 1) <= j < 64 ensures c[j] == Flat(src)[8 * i + 8 * (n + 1) - 64 + j] {
      if j < 56 {
        assert c[j] == cached[j + 8];
      } else {
        FlatAt(src, 8 * (i + n) + (j - 56));
        assert c[j] == src[i + n][j - 56];
      }
    }
  }

  lemma RotRight(src: seq<Octet>, i: nat, cached: Word, n: nat)
    requires i + n <= |src| && 0 < n < 8 && LowBits(src, 8 * i, cached, 8 * n)
    ensures CacheAt(src, i + n, RotL(cached, 64 - 8 * n), 8 * n)
  {
    hide Flat;
  }

  lemma EightBytes(src: seq<Octet>, i: nat)
    requires i + 8 <= |src|
    ensures CacheAt(src, i + 8, Flat(src[i..i + 8]), 64)
  {
    hide Flat;
    var w := Flat(src[i..i + 8]);
    forall j | 0 <= j < 64 ensures w[j] == Flat(src)[8 * i + j] {
      FlatAt(src[i..i + 8], j);
      FlatAt(src, 8 * i + j);
    }
  }

  /** The `refill_cache` closure: up to eight bytes, left-aligned */
  method Refill(src: seq<Octet>, i: nat) returns (ok: bool, cached: Word, valid: nat, n: nat)
    requires i <= |src|
    ensures ok <==> i < |src|
    ensures ok ==> n == if |src| - i >= 8 then 8 else |src| - i
    ensures ok ==> valid == 8 * n && CacheAt(src, i + n, cached, valid)
  {
    hide Or, Shl, Flat, RotL;
    var remaining := |src| - i;
    cached, valid, n := Zeros(64), 0, 0;
    if remaining >= 8 {
      cached := Flat(src[i..i + 8]);
      EightBytes(src, i);
      return true, cached, 64, 8;
    } else if remaining > 0 {
      valid := remaining * 8;
      while i + n < |src|
        invariant 0 <= n <= remaining
        invariant LowBits(src, 8 * i, cached, 8 * n)
      {
        ShiftIn(src, i, n, cached);
        cached := Or(Shl(cached, 8), Zeros(56) + src[i + n]);
        n := n + 1;
      }
      // rotate_right(valid)
      RotRight(src, i, cached, n);
      cached := RotL(cached, 64 - valid);
      return true, cached, valid, n;
    }
    return false, cached, 0, 0;
  }

  /** `BIT_MASK[k & 0x3f]` */
  function BitMask(k: nat): (r: Word) {
    if k % 64 == 0 then Ones(64) else Zeros(64 - k % 64) + Ones(k % 64)
  }

  /** Reads `k` bits that straddle the cache and a refill.
      `checked` tells the plain subtraction, which panics, from `wrapping_sub`. */
  method TakeSpliced(src: seq<Octet>, i: nat, cached: Word, valid: nat, k: nat, checked: bool)
    returns (ok: bool, bits: Word, i': nat, cached': Word, valid': nat)
    requires i <= |src| && valid < k <= 64
    ensures ok ==> i < i' <= |src| && valid' < 256
    ensures CacheAt(src, i, cached, valid) && 8 * i - valid + k <= 8 * |src| ==>
      && ok && CacheAt(src, i', cached', valid') && 8 * i' - valid' == 8 * i - valid + k
      && LowBits(src, 8 * i - valid, bits, k)
  {
    hide Or, And, Not, BitMask, RotL, Flat, LowBits, CacheAt;
    i', cached', valid', bits := i, cached, valid, Zeros(64);
    var m := k;
    if valid > 0 {
      m := m - valid;
      bits := RotL(cached, k);
    }
    var word: Word, n: nat;
    ok, word, valid', n := Refill(src, i);
    if !ok {
      return;
    }
    i' := i + n;
    cached' := RotL(word, m);
    if checked && valid' < m {
      ok := false;
      return;
    }
    if CacheAt(src, i, cached, valid) && 8 * i - valid + k <= 8 * |src| {
      SplicedRead(src, i, cached, valid, k, word, n, bits);
    }
    valid' := (valid' - m) % 256;
    bits := Or(And(bits, Not(BitMask(m))), And(cached', BitMask(m)));
  }

  lemma SplicedRead(src: seq<Octet>, i: nat, cached: Word, valid: nat, k: nat, word: Word, n: nat, bits: Word)
    requires CacheAt(src, i, cached, valid) && valid < k <= 64 && 8 * i - valid + k <= 8 * |src|
    requires CacheAt(src, i + n, word, 8 * n) && n == if |src| - i >= 8 then 8 else |src| - i
    requires bits == if valid > 0 then RotL(cached, k) else Zeros(64)
    ensures var m := k - valid; var c := RotL(word, m);
      && m <= 8 * n && CacheAt(src, i + n, c, 8 * n - m)
      && LowBits(src, 8 * i - valid, Or(And(bits, Not(BitMask(m))), And(c, BitMask(m))), k)
  {
    hide *;
    var m := k - valid;
    CacheFacts(src, i, cached, valid);
    TakeCached(src, i + n, word, 8 * n, m);
    SplicedBits(src, 8 * i - valid, cached, valid, k, bits, RotL(word, m));
  }

  lemma CacheFacts(src: seq<Octet>, i: nat, cached: Word, valid: nat)
    requires CacheAt(src, i, cached, valid)
    ensures i <= |src| && valid <= 64 && valid <= 8 * i
    ensures forall j :: 0 <= j < valid ==> cached[j] == Flat(src)[8 * i - valid + j]
  {
  }

  lemma SplicedAt(bits: Word, c: Word, m: nat, j: nat)
    requires 0 < m <= 64 && j < 64
    ensures Or(And(bits, Not(BitMask(m))), And(c, BitMask(m)))[j] == if j < 64 - m then bits[j] else c[j]
  {
  }

  lemma RotAt(w: Word, k: nat, j: nat)
    requires 0 < k <= 64 && j < 64
    ensures RotL(w, k)[j] == if j < 64 - k then w[j + k] else w[j + k - 64]
  {
  }

  lemma SplicedBits(src: seq<Octet>, pos: nat, cached: Word, valid: nat, k: nat, bits: Word, c: Word)
    requires valid < k <= 64 && pos + k <= 8 * |src|
    requires forall j :: 0 <= j < valid ==> cached[j] == Flat(src)[pos + j]
    requires bits == if valid > 0 then RotL(cached, k) else Zeros(64)
    requires LowBits(src, pos + valid, c, k - valid)
    ensures var m := k - valid; LowBits(src, pos, Or(And(bits, Not(BitMask(m))), And(c, BitMask(m))), k)
  {
    hide Flat, Or, And, Not, BitMask, RotL;
    var m := k - valid;
    var r := Or(And(bits, Not(BitMask(m))), And(c, BitMask(m)));
    forall j | 64 - k <= j < 64 ensures r[j] == Flat(src)[pos + k - 64 + j] {
      SplicedAt(bits, c, m, j);
      if j < 64 - m {
        RotAt(cached, k, j);
      }
    }
  }

  lemma TakeCached(src: seq<Octet>, i: nat, cached: Word, valid: nat, k: nat)
    requires CacheAt(src, i, cached, valid) && 0 < k <= valid
    ensures CacheAt(src, i, RotL(cached, k), valid - k)
    ensures LowBits(src, 8 * i - valid, RotL(cached, k), k)
  {
    hide Flat, RotL;
    var c := RotL(cached, k);
    forall j | 0 <= j < valid - k ensures c[j] == Flat(src)[8 * i - valid + k + j] {
      RotAt(cached, k, j);
    }
    forall j | 64 - k <= j < 64 ensures c[j] == Flat(src)[8 * i - valid + k - 64 + j] {
      RotAt(cached, k, j);
    }
  }

  /** Reads the next `k` bits into the low end of `bits`. */
  method Take(src: seq<Octet>, i: nat, cached: Word, valid: nat, k: nat, checked: bool)
    returns (ok: bool, bits: Word, i': nat, cached': Word, valid': nat)
    requires i <= |src| && valid < 256 && 0 < k <= 64
    ensures ok ==> i' <= |src| && valid' < 256
    ensures ok ==> i' > i || (i' == i && valid' == valid - k)
    ensures CacheAt(src, i, cached, valid) && 8 * i - valid + k <= 8 * |src| ==>
      && ok && CacheAt(src, i', cached', valid') && 8 * i' - valid' == 8 * i - valid + k
      && LowBits(src, 8 * i - valid, bits, k)
  {
    if valid >= k {
      ok, i', valid' := true, i, valid - k;
      cached' := RotL(cached, k);
      bits := cached';
      if CacheAt(src, i, cached, valid) {
        TakeCached(src, i, cached, valid, k);
      }
    } else {
      ok, bits, i', cached', valid' := TakeSpliced(src, i, cached, valid, k, checked);
    }
  }

  /** Reads one control bit. */
  method ReadBit(src: seq<Octet>, i: nat, cached: Word, valid: nat)
    returns (ok: bool, bit: bool, i': nat, cached': Word, valid': nat)
    requires i <= |src| && valid < 256
    ensures ok ==> i' <= |src| && valid' < 256 && (i' > i || (i' == i && valid' < valid))
    ensures CacheAt(src, i, cached, valid) && 8 * i - valid < 8 * |src| ==>
      && ok && CacheAt(src, i', cached', valid') && 8 * i' - valid' == 8 * i - valid + 1
      && bit == Flat(src)[8 * i - valid]
  {
    hide Flat;
    ok, i', cached', valid' := true, i, cached, valid;
    if valid == 0 {
      var n: nat;
      ok, cached', valid', n := Refill(src, i);
      if !ok {
        bit := false;
        return;
      }
      i' := i + n;
    }
    if CacheAt(src, i', cached', valid') {
      TakeCached(src, i', cached', valid', 1);
    }
    valid' := valid' - 1;
    cached' := RotL(cached', 1);
    bit := cached'[63];
  }

  /** Reads 5 bits of leading zeros and 6 bits of width. */
  method ReadWindow(src: seq<Octet>, i: nat, cached: Word, valid: nat)
    returns (ok: bool, t: nat, m: nat, i': nat, cached': Word, valid': nat)
    requires i <= |src| && valid < 256
    ensures ok ==> i' <= |src| && valid' < 256 && (i' > i || (i' == i && valid' <= valid))
    ensures ok ==> 0 < m && t + m <= 64
    ensures CacheAt(src, i, cached, valid) && 8 * i - valid + 11 <= 8 * |src|
            && WindowOf(Flat(src)[8 * i - valid..8 * i - valid + 11]).Some? ==>
      && ok && CacheAt(src, i', cached', valid') && 8 * i' - valid' == 8 * i - valid + 11
      && WindowOf(Flat(src)[8 * i - valid..8 * i - valid + 11]) == Some((t, m))
  {
    hide Flat, ToNat;
    var bits: Word;
    t, m := 0, 64;
    ok, bits, i', cached', valid' := Take(src, i, cached, valid, 11, true);
    if !ok {
      return;
    }
    // `lm_bits & 0x7ff`: its 5 high bits, then its 6 low bits
    var leading := ToNat(bits[53..58]);
    m := ToNat(bits[58..]);
    if CacheAt(src, i, cached, valid) && 8 * i - valid + 11 <= 8 * |src| {
      ghost var b := Flat(src)[8 * i - valid..8 * i - valid + 11];
      assert b[..5] == bits[53..58] && b[5..] == bits[58..];
    }
    if m > 0 {
      if leading + m > 64 {
        ok := false;
        return;
      }
      t := 64 - leading - m;
    } else {
      t, m := 0, 64;
    }
  }

  lemma XorIn(src: seq<Octet>, pos: nat, val: Word, t: nat, m: nat, bits: Word)
    requires 0 < m && t + m <= 64 && LowBits(src, pos, bits, m)
    ensures Xor(val, Shl(And(bits, BitMask(m)), t)) == Apply(val, t, Flat(src)[pos..pos + m])
  {
    hide Flat;
    var sig := Flat(src)[pos..pos + m];
    assert Shl(And(bits, BitMask(m)), t) == Zeros(64 - t - m) + sig + Zeros(t);
  }

  /** One round of the decoder's loop: `done` when the sentinel is met */
  method Next(src: seq<Octet>, i: nat, cached: Word, valid: nat, val: Word, t: nat, m: nat)
    returns (ok: bool, done: bool, val': Word, i': nat, cached': Word, valid': nat, t': nat, m': nat)
    requires i <= |src| && valid < 256 && 0 < m && t + m <= 64
    ensures ok ==> i' <= |src| && valid' < 256 && (i' > i || (i' == i && valid' < valid))
    ensures ok ==> 0 < m' && t' + m' <= 64
    ensures CacheAt(src, i, cached, valid) && !StepAt(Flat(src), 8 * i - valid, val, t, m).Truncated? ==>
      && ok && CacheAt(src, i', cached', valid')
      && StepAt(Flat(src), 8 * i - valid, val, t, m) ==
         if done then Done else Emit(val', 8 * i' - valid', t', m')
  {
    hide Flat, WindowOf, Apply, Xor, And, Shl, BitMask;
    done, val', t', m' := false, val, t, m;
    var bit: bool, bits: Word;
    ghost var pos := 8 * i - valid;
    ok, bit, i', cached', valid' := ReadBit(src, i, cached, valid);
    if !ok || !bit {
      return;
    }
    ok, bit, i', cached', valid' := ReadBit(src, i', cached', valid');
    if !ok {
      return;
    }
    if bit {
      ok, t', m', i', cached', valid' := ReadWindow(src, i', cached', valid');
      if !ok {
        return;
      }
    }
    ghost var p := 8 * i' - valid';
    ok, bits, i', cached', valid' := Take(src, i', cached', valid', m', false);
    if !ok {
      return;
    }
    if p >= 0 && LowBits(src, p, bits, m') {
      XorIn(src, p, val, t', m', bits);
    }
    val' := Xor(val, Shl(And(bits, BitMask(m')), t'));
    done := val' == SENTINEL;
  }

  /** `float::decode`: `None` is an error return, or the panic of a checked subtraction.
      A stream that stops early is not always noticed by the decoder, which may make up
      values then, but only after all that the stream has. */
  method Decode(src: seq<Octet>) returns (r: Option<seq<Word>>)
    ensures ParseBlock(src).Some? ==> r == ParseBlock(src)
    ensures r.Some? ==> EmittedBlock(src) <= r.value
    ensures |src| == 9 ==> r.None?
  {
    if |src| < 9 {
      return Some([]);
    }
    hide *;
    var i := 1;
    var val: Word := Flat(src[i..i + 8]);
    i := i + 8;
    var ok, cached, valid, n := Refill(src, i);
    if !ok {
      return None;
    }
    i := i + n;
    var dst, t, m := [val], 0, 64;
    StartOf(src, i, cached, valid);
    while true
      invariant i <= |src| && valid < 256 && 0 < m && t + m <= 64
      invariant InStep(src, dst, i, cached, valid, val, t, m) && Tracks(src, dst, i, cached, valid, val, t, m)
      decreases |src| - i, valid
    {
      ParseUnfolds(src, dst, i, cached, valid, val, t, m);
      var done: bool;
      ghost var i0, cached0, valid0, val0, t0, m0 := i, cached, valid, val, t, m;
      ok, done, val, i, cached, valid, t, m := Next(src, i, cached, valid, val, t, m);
      if !ok {
        return None;
      }
      TracksOn(src, dst, i0, cached0, valid0, val0, t0, m0, done, i, cached, valid, val, t, m);
      if done {
        return Some(dst);
      }
      dst := dst + [val];
    }
  }

  /** The decoder is at the cursor of a parse that yields `dst` first */
  ghost predicate InStep(src: seq<Octet>, dst: seq<Word>, i: nat, cached: Word, valid: nat, val: Word, t: nat, m: nat)
    requires 0 < m && t + m <= 64
  {
    ParseBlock(src).Some? ==>
      && CacheAt(src, i, cached, valid)
      && ParseBlock(src) == Prepend(dst, Parse(Flat(src), 8 * i - valid, val, t, m))
  }

  /** ... of whose values `dst` are the first, or has them all */
  ghost predicate Tracks(src: seq<Octet>, dst: seq<Word>, i: nat, cached: Word, valid: nat, val: Word, t: nat, m: nat)
    requires 0 < m && t + m <= 64
  {
    || (CacheAt(src, i, cached, valid) && EmittedBlock(src) == dst + Emitted(Flat(src), 8 * i - valid, val, t, m))
    || EmittedBlock(src) <= dst
  }

  /** A turn that follows the parser wherever that has a step to make */
  lemma TracksOn(src: seq<Octet>, dst: seq<Word>, i: nat, cached: Word, valid: nat, val: Word, t: nat, m: nat,
                 done: bool, i': nat, cached': Word, valid': nat, val': Word, t': nat, m': nat)
    requires 0 < m && t + m <= 64 && 0 < m' && t' + m' <= 64 && Tracks(src, dst, i, cached, valid, val, t, m)
    requires CacheAt(src, i, cached, valid) && !StepAt(Flat(src), 8 * i - valid, val, t, m).Truncated? ==>
      && CacheAt(src, i', cached', valid')
      && StepAt(Flat(src), 8 * i - valid, val, t, m) ==
         if done then Done else Emit(val', 8 * i' - valid', t', m')
    ensures done ==> EmittedBlock(src) <= dst
    ensures !done ==> Tracks(src, dst + [val'], i', cached', valid', val', t', m')
  {
    hide Flat, StepAt, EmittedBlock;
    if !(EmittedBlock(src) <= dst) {
      var s := StepAt(Flat(src), 8 * i - valid, val, t, m);
      if s.Emit? {
        var rest := Emitted(Flat(src), s.pos, s.val, s.t, s.m);
        assert dst + ([s.val] + rest) == dst + [s.val] + rest;
      }
    }
  }

  /** `decode(encode(src)) == src` for every block `encode` takes but the lone sentinel */
  method EncodeThenDecode(src: seq<Word>) returns (r: Option<seq<Word>>)
    ensures r == Some(src) <==> Encodable(src) && src != [SENTINEL]
  {
    hide ParseBlock, BlockBits, Holds, Flat;
    var b := Encode(src);
    if b.None? {
      return None;
    }
    if src != [] {
      BlockRoundTrip(src, b.value);
    } else {
      EmptyBlock();
    }
    r := Decode(b.value);
  }

  lemma EmptyBlock()
    ensures ParseBlock([]) == Some([])
  {
  }

  lemma StepPrepend(dst: seq<Word>, f: Bits, pos: nat, val: Word, t: nat, m: nat)
    requires 0 < m && t + m <= 64
    requires Prepend(dst, Parse(f, pos, val, t, m)).Some?
    ensures var s := StepAt(f, pos, val, t, m);
      && !s.Truncated?
      && Prepend(dst, Parse(f, pos, val, t, m)) ==
         if s.Done? then Some(dst) else Prepend(dst + [s.val], Parse(f, s.pos, s.val, s.t, s.m))
  {
    hide StepAt;
    var s := StepAt(f, pos, val, t, m);
    if s.Emit? {
      var rest := Parse(f, s.pos, s.val, s.t, s.m);
      assert dst + ([s.val] + rest.value) == dst + [s.val] + rest.value;
    } else {
      assert dst + [] == dst;
    }
  }

  lemma ParseUnfolds(src: seq<Octet>, dst: seq<Word>, i: nat, cached: Word, valid: nat, val: Word, t: nat, m: nat)
    requires 0 < m && t + m <= 64 && InStep(src, dst, i, cached, valid, val, t, m)
    ensures ParseBlock(src).Some? ==>
      && CacheAt(src, i, cached, valid) && valid <= 8 * i
      && var s := StepAt(Flat(src), 8 * i - valid, val, t, m);
         && !s.Truncated?
         && (s.Done? ==> ParseBlock(src) == Some(dst))
         && (s.Emit? ==> forall i': nat, c': Word, v': nat ::
               CacheAt(src, i', c', v') && 8 * i' - v' == s.pos ==>
               InStep(src, dst + [s.val], i', c', v', s.val, s.t, s.m))
    ensures ParseBlock(src).None? ==> forall d': seq<Word>, i': nat, c': Word, v': nat, val': Word, t': nat, m': nat ::
      0 < m' && t' + m' <= 64 ==> InStep(src, d', i', c', v', val', t', m')
  {
    hide Flat, Parse, StepAt, Prepend, ParseBlock;
    if ParseBlock(src).Some? {
      StepPrepend(dst, Flat(src), 8 * i - valid, val, t, m);
    }
  }

  lemma StartOf(src: seq<Octet>, i: nat, cached: Word, valid: nat)
    requires |src| >= 9 && CacheAt(src, i, cached, valid) && 8 * i - valid == 72
    ensures InStep(src, [Flat(src[1..9])], i, cached, valid, Flat(src[1..9]), 0, 64)
    ensures Tracks(src, [Flat(src[1..9])], i, cached, valid, Flat(src[1..9]), 0, 64)
  {
    hide Flat, Parse;
    var w := Flat(src[1..9]);
    forall j | 0 <= j < 64 ensures w[j] == Flat(src)[8 + j] {
      FlatAt(src[1..9], j);
      FlatAt(src, 8 + j);
    }
    assert w == Flat(src)[8..72];
  }
}
