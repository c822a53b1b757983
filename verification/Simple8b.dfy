/** Simple8b: small whole numbers, as many in a 64-bit word as a row of the table allows. */
module Simple8b {
  import opened Bytes
  import opened Packing
  import opened Words

  datatype Option<T> = None | Some(value: T)

  /** How many values, and of how many bits, for selectors from 2 on */
  const NUM_BITS: seq<(nat, nat)> :=
    [(60, 1), (30, 2), (20, 3), (15, 4), (12, 5), (10, 6), (8, 7), (7, 8), (6, 10), (5, 12), (4, 15), (3, 20), (2, 30), (1, 60)]

  const ROWS := 14
  const S8B_BITS := 60

  function Ints(row: nat): (n: nat)
    requires row < ROWS
    ensures n > 0
  {
    NUM_BITS[row].0
  }

  function Width(row: nat): (w: nat)
    requires row < ROWS
    ensures w > 0 && Ints(row) * w <= S8B_BITS
  {
    NUM_BITS[row].1
  }

  ghost predicate Ones(src: seq<nat>, n: nat) {
    n <= |src| && forall k :: 0 <= k < n ==> src[k] == 1
  }

  ghost predicate RowFits(src: seq<nat>, row: nat)
    requires row < ROWS
  {
    Ints(row) <= |src| && Narrow(src[..Ints(row)], Width(row))
  }

  /** The first row, from this one on, that fits the values to come */
  ghost function FirstRow(src: seq<nat>, row: nat): (r: Option<nat>)
    requires row <= ROWS
    ensures r.Some? ==> row <= r.value < ROWS && RowFits(src, r.value)
    ensures r.Some? ==> forall k :: row <= k < r.value ==> !RowFits(src, k)
    ensures r.None? ==> forall k :: row <= k < ROWS ==> !RowFits(src, k)
    decreases ROWS - row
  {
    if row == ROWS then None else if RowFits(src, row) then Some(row) else FirstRow(src, row + 1)
  }

  /** A word, and how many values it takes up */
  datatype Chunk = Chunk(n: nat, word: nat)

  function RowWord(row: nat, vals: seq<nat>): nat
    requires row < ROWS
  {
    (row + 2) * Pow2(S8B_BITS) + Pack(vals, Width(row))
  }

  ghost function FirstChunk(src: seq<nat>): (c: Option<Chunk>)
    requires src != []
    ensures c.Some? ==> 0 < c.value.n <= |src|
  {
    if Ones(src, 240) then Some(Chunk(240, 0))
    else if Ones(src, 120) then Some(Chunk(120, Pow2(S8B_BITS)))
    else
      var row := FirstRow(src, 0);
      if row.None? then None else Some(Chunk(Ints(row.value), RowWord(row.value, src[..Ints(row.value)])))
  }

  ghost function WordsOf(src: seq<nat>): Option<seq<nat>>
    decreases |src|
  {
    if src == [] then Some([])
    else
      var c := FirstChunk(src);
      if c.None? then None
      else
        var rest := WordsOf(src[c.value.n..]);
        if rest.None? then None else Some([c.value.word] + rest.value)
  }

  ghost function ValuesOf(word: nat): seq<nat> {
    var selector := Quot(word, Pow2(S8B_BITS));
    if selector == 0 then seq(240, _ => 1)
    else if selector == 1 then seq(120, _ => 1)
    else if selector < ROWS + 2 then Unpack(word, Ints(selector - 2), Width(selector - 2))
    else []
  }

  ghost function AllValues(words: seq<nat>): seq<nat> {
    if words == [] then [] else ValuesOf(words[0]) + AllValues(words[1..])
  }

  // ------------------------------------------------------------------------ round trip

  lemma Selector(row: nat, vals: seq<nat>)
    requires row < ROWS && |vals| == Ints(row) && Narrow(vals, Width(row))
    ensures Quot(RowWord(row, vals), Pow2(S8B_BITS)) == row + 2 && Pack(vals, Width(row)) < Pow2(S8B_BITS)
    ensures RowWord(row, vals) < Pow2(64)
  {
    hide Pow2, Pack, Quot, Narrow;
    PackBound(vals, Width(row));
    Pow2Monotone(Ints(row) * Width(row), S8B_BITS);
    Pow2Add(4, S8B_BITS);
    SixteenIs();
    SelectorIs(Pack(vals, Width(row)), row + 2, Pow2(S8B_BITS));
  }

  lemma SelectorIs(p: nat, selector: nat, m: nat)
    requires p < m && selector < 16
    ensures selector * m + p >= 0 && Quot(selector * m + p, m) == selector && selector * m + p < 16 * m
  {
    DivMod(p, selector, m);
    assert selector * m == m * selector;
    BoundStep(p, selector, m, 16);
  }

  lemma SixteenIs()
    ensures Pow2(4) == 16
  {
  }

  lemma {:induction false} Pow2Monotone(a: nat, b: nat)
    requires a <= b
    ensures Pow2(a) <= Pow2(b)
  {
    if a < b { Pow2Monotone(a, b - 1); }
  }

  lemma RowRoundTrip(row: nat, vals: seq<nat>)
    requires row < ROWS && |vals| == Ints(row) && Narrow(vals, Width(row))
    ensures ValuesOf(RowWord(row, vals)) == vals
  {
    hide Pow2, Pack, Unpack;
    Selector(row, vals);
    var bits := Ints(row) * Width(row);
    Pow2Add(S8B_BITS - bits, bits);
    var high := (row + 2) * Pow2(S8B_BITS - bits);
    assert high * Pow2(bits) == (row + 2) * (Pow2(S8B_BITS - bits) * Pow2(bits));
    UnpackPacked(vals, Width(row), high);
  }

  lemma RunRoundTrip()
    ensures ValuesOf(0) == seq(240, _ => 1) && ValuesOf(Pow2(S8B_BITS)) == seq(120, _ => 1)
  {
    hide Pow2;
    DivMod(0, 0, Pow2(S8B_BITS));
    DivMod(0, 1, Pow2(S8B_BITS));
  }

  /** The word gives back the values it was made of. */
  lemma ChunkRoundTrip(src: seq<nat>)
    requires src != [] && FirstChunk(src).Some?
    ensures var c := FirstChunk(src).value; ValuesOf(c.word) == src[..c.n] && c.word < Pow2(64)
  {
    hide ValuesOf, Pow2, RowWord;
    RunRoundTrip();
    Pow2Small();
    var row := FirstRow(src, 0);
    if Ones(src, 240) {
      assert src[..240] == seq(240, _ => 1);
    } else if Ones(src, 120) {
      assert src[..120] == seq(120, _ => 1);
    } else {
      RowRoundTrip(row.value, src[..Ints(row.value)]);
      Selector(row.value, src[..Ints(row.value)]);
    }
  }

  lemma Pow2Small()
    ensures 0 < Pow2(S8B_BITS) < Pow2(64)
  {
    Pow2Add(4, S8B_BITS);
  }

  /** Decoding the words gives back the values. */
  lemma {:induction false} RoundTrip(src: seq<nat>)
    requires WordsOf(src).Some?
    ensures AllValues(WordsOf(src).value) == src
    ensures forall i :: 0 <= i < |WordsOf(src).value| ==> WordsOf(src).value[i] < Pow2(64)
    decreases |src|
  {
    hide ValuesOf, Pow2, FirstChunk;
    if src != [] {
      var n := FirstChunkSize(src);
      ChunkRoundTrip(src);
      RoundTrip(src[n..]);
      assert src == src[..n] + src[n..];
    }
  }

  lemma FirstChunkSize(src: seq<nat>) returns (n: nat)
    requires src != [] && FirstChunk(src).Some?
    ensures n == FirstChunk(src).value.n && 0 < n <= |src|
  {
    n := FirstChunk(src).value.n;
  }

  /** There are words for the values exactly when none has more than 60 bits. */
  lemma {:induction false} EncodesExactlyWhen(src: seq<nat>)
    ensures WordsOf(src).Some? <==> Narrow(src, S8B_BITS)
    decreases |src|
  {
    hide Pow2;
    if src != [] {
      ChunkExactlyWhen(src);
      if FirstChunk(src).Some? {
        var n := FirstChunkSize(src);
        EncodesExactlyWhen(src[n..]);
        assert src == src[..n] + src[n..];
      }
    }
  }

  lemma ChunkExactlyWhen(src: seq<nat>)
    requires src != []
    ensures src[0] < Pow2(S8B_BITS) ==> FirstChunk(src).Some?
    ensures FirstChunk(src).Some? ==> Narrow(src[..FirstChunk(src).value.n], S8B_BITS)
  {
    hide Pow2;
    OneSmall();
    if src[0] < Pow2(S8B_BITS) { assert RowFits(src, 13); }
    var row := FirstRow(src, 0);
    if row.Some? { Pow2Monotone(Width(row.value), S8B_BITS); }
  }

  lemma OneSmall()
    ensures 1 < Pow2(S8B_BITS)
  {
  }

  // ------------------------------------------------------------------------ the loops

  ghost function BytesOf(words: seq<nat>): seq<Byte> {
    if words == [] then [] else BytesOf(words[..|words| - 1]) + ToBe(words[|words| - 1], 8)
  }

  /** `take_while` of ones, over at most `n` values from `i` on */
  method LeadingOnes(src: seq<nat>, i: nat, n: nat) returns (k: nat)
    requires i + n <= |src|
    ensures k <= n && Ones(src[i..], k) && (k < n ==> src[i + k] != 1)
  {
    k := 0;
    while k < n && src[i + k] == 1
      invariant k <= n && Ones(src[i..], k)
    {
      k := k + 1;
    }
  }

  /** One row tried: the values are put together if they fit. */
  method TryRow(src: seq<nat>, i: nat, row: nat) returns (fits: bool, word: nat)
    requires i <= |src| && row < ROWS
    ensures fits <==> RowFits(src[i..], row)
    ensures fits ==> word == RowWord(row, src[i..][..Ints(row)])
  {
    hide Pow2, Pack, BitOr;
    var n, w := Ints(row), Width(row);
    ghost var rest := src[i..];
    fits := false;
    word := (row + 2) * Pow2(S8B_BITS);
    if n > |src| - i {
      return;
    }
    PackNone(w);
    var k := 0;
    while k < n
      invariant k <= n && Narrow(rest[..k], w)
      invariant word == (row + 2) * Pow2(S8B_BITS) + Pack(rest[..k], w)
    {
      var v := src[i + k];
      if v >= Pow2(w) {
        assert rest[..n][k] == v;
        return;
      }
      assert rest[..k + 1] == rest[..k] + [v];
      PackMore(rest[..k], v, w);
      PackBound(rest[..k], w);
      PutField(row + 2, Pack(rest[..k], w), v, k, n, w, S8B_BITS);
      word := BitOr(word, v * Pow2(k * w));
      k := k + 1;
    }
    fits := true;
  }

  lemma PackNone(w: nat)
    ensures Pack([], w) == 0
  {
  }

  lemma PutField(selector: nat, low: nat, v: nat, k: nat, n: nat, w: nat, bits: nat)
    requires k < n && n * w <= bits && low < Pow2(k * w) && v < Pow2(w)
    ensures BitOr(selector * Pow2(bits) + low, v * Pow2(k * w)) == selector * Pow2(bits) + low + v * Pow2(k * w)
  {
    hide Pow2, BitOr;
    Monotone(w, k + 1, n);
    assert k * w + w == w * (k + 1) <= bits;
    Pow2Monotone(w, bits - k * w);
    FieldOr(selector, low, v, k * w, bits - k * w);
  }

  /** The 14 rows, the first that fits */
  method PackRow(src: seq<nat>, i: nat) returns (c: Option<Chunk>)
    requires i < |src| && !Ones(src[i..], 240) && !Ones(src[i..], 120)
    ensures c == FirstChunk(src[i..])
  {
    hide Pow2, RowWord, RowFits;
    ghost var rest := src[i..];
    for row := 0 to ROWS
      invariant FirstRow(rest, 0) == FirstRow(rest, row)
    {
      var fits, word := TryRow(src, i, row);
      if fits {
        return Some(Chunk(Ints(row), word));
      }
    }
    return None;
  }

  /** The runs of ones first, then the rows */
  method PackNext(src: seq<nat>, i: nat) returns (c: Option<Chunk>)
    requires i < |src|
    ensures c == FirstChunk(src[i..])
  {
    hide FirstRow, Pow2;
    var remain := |src| - i;
    if remain >= 120 {
      var k := LeadingOnes(src, i, if remain >= 240 then 240 else 120);
      if k == 240 {
        return Some(Chunk(240, 0));
      } else if k >= 120 {
        return Some(Chunk(120, Pow2(S8B_BITS)));
      }
    }
    c := PackRow(src, i);
  }

  ghost predicate Continues(src: seq<nat>, done: seq<nat>, i: nat)
    requires i <= |src|
  {
    var rest := WordsOf(src[i..]);
    WordsOf(src) == if rest.None? then None else Some(done + rest.value)
  }

  lemma ContinuesAtStart(src: seq<nat>)
    ensures Continues(src, [], 0)
  {
    assert src[0..] == src;
    var ws := WordsOf(src);
    assert ws.Some? ==> [] + ws.value == ws.value;
  }

  lemma ContinuesAtEnd(src: seq<nat>, done: seq<nat>)
    requires Continues(src, done, |src|)
    ensures WordsOf(src) == Some(done)
  {
    assert done + [] == done;
  }

  lemma ContinuesNext(src: seq<nat>, done: seq<nat>, i: nat)
    requires i < |src| && Continues(src, done, i)
    ensures var c := FirstChunk(src[i..]);
      if c.None? then WordsOf(src).None?
      else i + c.value.n <= |src| && Continues(src, done + [c.value.word], i + c.value.n)
  {
    hide FirstChunk;
    var rest := src[i..];
    var c := FirstChunk(rest);
    if c.Some? {
      var n := FirstChunkSize(rest);
      assert rest[n..] == src[i + n..];
      var more := WordsOf(src[i + n..]);
      assert more.Some? ==> done + ([c.value.word] + more.value) == done + [c.value.word] + more.value;
    }
  }

  /** `encode`, onto what the caller has already written */
  method Encode(src: seq<nat>, dst: seq<Byte>) returns (ok: bool, out: seq<Byte>)
    ensures ok <==> Narrow(src, S8B_BITS)
    ensures ok <==> WordsOf(src).Some?
    ensures ok ==> out == dst + BytesOf(WordsOf(src).value)
  {
    hide Pow2, FirstChunk, ToBe, Narrow, Continues, WordsOf;
    EncodesExactlyWhen(src);
    ContinuesAtStart(src);
    var i := 0;
    out := dst;
    ghost var done: seq<nat> := [];
    while i < |src|
      invariant i <= |src| && Continues(src, done, i)
      invariant out == dst + BytesOf(done)
    {
      ContinuesNext(src, done, i);
      var c := PackNext(src, i);
      if c.None? {
        return false, out;
      }
      ghost var n := FirstChunkSize(src[i..]);
      ghost var more := done + [c.value.word];
      assert more[..|more| - 1] == done;
      out := out + ToBe(c.value.word, 8);
      i := i + c.value.n;
      done := more;
    }
    ok := true;
    ContinuesAtEnd(src, done);
  }

  /** The fields of a word, shifted out one by one */
  method ShiftOut(word: nat, n: nat, w: nat) returns (vals: seq<nat>)
    ensures vals == Unpack(word, n, w)
  {
    hide Pow2;
    var v: nat := word;
    vals := [];
    var k: nat := n;
    while k > 0
      invariant k <= n && Unpack(word, n, w) == vals + Unpack(v, k, w)
    {
      vals := vals + [v % Pow2(w)];
      v := Quot(v, Pow2(w));
      k := k - 1;
    }
  }

  /** `decode_value` */
  method DecodeValue(word: nat) returns (vals: seq<nat>)
    ensures vals == ValuesOf(word)
  {
    hide Pow2;
    var selector := Quot(word, Pow2(S8B_BITS));
    if selector == 0 {
      vals := seq(240, _ => 1);
    } else if selector == 1 {
      vals := seq(120, _ => 1);
    } else if selector < ROWS + 2 {
      vals := ShiftOut(word, Ints(selector - 2), Width(selector - 2));
    } else {
      vals := [];
    }
  }

  ghost function WordsIn(b: seq<Byte>): seq<nat>
    requires |b| % 8 == 0
  {
    if b == [] then [] else WordsIn(b[..|b| - 8]) + [FromBe(b[|b| - 8..])]
  }

  lemma {:induction false} BytesLength(words: seq<nat>)
    ensures |BytesOf(words)| == 8 * |words|
  {
    if words != [] { BytesLength(words[..|words| - 1]); }
  }

  lemma {:induction false} WordsInBytes(words: seq<nat>)
    requires forall i :: 0 <= i < |words| ==> words[i] < Pow2(64)
    ensures |BytesOf(words)| % 8 == 0 && WordsIn(BytesOf(words)) == words
  {
    hide Pow2, ToBe, FromBe;
    BytesLength(words);
    if words != [] {
      var init, last := words[..|words| - 1], words[|words| - 1];
      BytesLength(init);
      WordsInBytes(init);
      EightBytes();
      BeRoundTrip(last, 8);
      var b := BytesOf(words);
      assert b[..|b| - 8] == BytesOf(init) && b[|b| - 8..] == ToBe(last, 8);
    }
  }

  lemma EightBytes()
    ensures Pow256(8) == Pow2(64)
  {
    hide Pow256, Pow2;
    EightBits();
    Pow256Is();
    Pow2Add(8, 8);
    Pow2Add(16, 16);
    Pow2Add(32, 32);
  }

  lemma EightBits()
    ensures Pow2(8) == 256
  {
    assert Pow2(4) == 16;
  }

  lemma {:induction false} AllValuesMore(words: seq<nat>, word: nat)
    ensures AllValues(words + [word]) == AllValues(words) + ValuesOf(word)
  {
    hide ValuesOf;
    if words == [] {
      assert words + [word] == [word];
      assert AllValues([word]) == ValuesOf(word) + AllValues([]);
    } else {
      assert (words + [word])[1..] == words[1..] + [word];
      AllValuesMore(words[1..], word);
    }
  }

  /** `decode` */
  method Decode(src: seq<Byte>) returns (dst: seq<nat>)
    requires |src| % 8 == 0
    ensures dst == AllValues(WordsIn(src))
  {
    hide Pow2, ValuesOf, AllValues, FromBe;
    var i := 0;
    dst := [];
    NoValues();
    while i < |src|
      invariant i <= |src| && i % 8 == 0
      invariant dst == AllValues(WordsIn(src[..i]))
    {
      var word := FromBe(src[i..i + 8]);
      var vals := DecodeValue(word);
      ghost var b := src[..i + 8];
      assert b[..i] == src[..i] && b[i..] == src[i..i + 8];
      AllValuesMore(WordsIn(src[..i]), word);
      dst := dst + vals;
      i := i + 8;
    }
    assert src[..i] == src;
  }

  lemma NoValues()
    ensures AllValues([]) == []
  {
  }

  /** What is encoded is decoded. */
  method EncodeThenDecode(src: seq<nat>) returns (ok: bool, dst: seq<nat>)
    ensures ok <==> Narrow(src, S8B_BITS)
    ensures ok ==> dst == src
  {
    hide *;
    var b: seq<Byte>;
    dst := [];
    ok, b := Encode(src, []);
    if ok {
      RoundTrip(src);
      WordsInBytes(WordsOf(src).value);
      assert b == BytesOf(WordsOf(src).value);
      dst := Decode(b);
    }
  }
}
