/** The bytes of a record, written out, and that the reader returns nothing but such bytes. */
module RecordLaws {
  import opened Bytes
  import opened RecordLog

  /** A number below 2^32, lowest byte first */
  function Le32(x: U32): seq<Byte> {
    [x % 256, x / 0x100 % 256, x / 0x1_0000 % 256, x / 0x100_0000]
  }

  /** Magic number, size, version, type and data */
  function Head(e: Entry): seq<Byte>
    requires |e.data| < 0x1_0000_0000
  {
    [0x46, 0x6c, 0x4f, 0x67] + Le32(|e.data|) + [e.version, e.kind] + e.data
  }

  /** ... and the checksum of all that follows the magic number */
  function Written(e: Entry, crc: Crc): seq<Byte>
    requires |e.data| < 0x1_0000_0000
  {
    Head(e) + Le32(crc(Head(e)[4..]))
  }

  /** The number that these four bytes are, lowest first */
  function Number(a: int, b: int, c: int, d: int): int {
    a + 0x100 * b + 0x1_0000 * c + 0x100_0000 * d
  }

  lemma Low(a: int, y: int)
    requires 0 <= a < 256
    ensures (a + 256 * y) % 256 == a && (a + 256 * y) / 256 == y
  {
  }

  lemma Shifts(x: nat)
    ensures x / 0x100 / 0x100 == x / 0x1_0000 && x / 0x1_0000 / 0x100 == x / 0x100_0000
  {
  }

  lemma LeIs(x: U32)
    ensures ToLe(x, 4) == Le32(x)
  {
    Shifts(x);
    assert ToLe(x / 0x1_0000, 2) == [x / 0x1_0000 % 256, x / 0x100_0000 % 256] by {
      assert ToLe(x / 0x1_0000 / 256, 1) == [x / 0x100_0000 % 256] + ToLe(x / 0x1_0000 / 256 / 256, 0);
    }
    assert ToLe(x, 4) == [x % 256] + ([x / 256 % 256] + ToLe(x / 0x1_0000, 2));
  }

  lemma NumberStep(a: int, b: int, c: int, d: int)
    ensures Number(a, b, c, d) == a + 256 * Number(b, c, d, 0)
  {
  }

  lemma NumberBound(a: Byte, b: Byte, c: Byte, d: Byte)
    ensures 0 <= Number(a, b, c, d) < 0x1_0000_0000 && Number(d, 0, 0, 0) == d
  {
  }

  lemma LeOfNumber(a: Byte, b: Byte, c: Byte, d: Byte)
    ensures 0 <= Number(a, b, c, d) < 0x1_0000_0000 && Le32(Number(a, b, c, d)) == [a, b, c, d]
  {
    hide Number;
    var x, y, z := Number(a, b, c, d), Number(b, c, d, 0), Number(c, d, 0, 0);
    NumberBound(a, b, c, d);
    NumberStep(a, b, c, d);
    NumberStep(b, c, d, 0);
    NumberStep(c, d, 0, 0);
    Low(a, y);
    Low(b, z);
    Low(c, d);
    LeDigits(x, y, z);
  }

  lemma LeDigits(x: U32, y: int, z: int)
    requires y == x / 256 && z == y / 256
    ensures Le32(x) == [x % 256, y % 256, z % 256, z / 256]
  {
    Shifts(x);
  }

  lemma LeNumber(b: seq<Byte>)
    requires |b| == 4
    ensures FromLe(b) == Number(b[0], b[1], b[2], b[3])
  {
    assert b[2..][1..] == b[3..] && FromLe(b[3..][1..]) == 0;
    assert b[1..][1..] == b[2..];
    LeStep(b);
    LeStep(b[1..]);
    LeStep(b[2..]);
    LeStep(b[3..]);
  }

  lemma LeStep(b: seq<Byte>)
    requires |b| > 0
    ensures FromLe(b) == Number(b[0], FromLe(b[1..]), 0, 0)
  {
  }

  lemma LeValue(b: seq<Byte>)
    requires |b| == 4
    ensures FromLe(b) == Number(b[0], b[1], b[2], b[3]) && FromLe(b) < 0x1_0000_0000 && Le32(FromLe(b)) == b
  {
    hide FromLe;
    LeNumber(b);
    LeOfNumber(b[0], b[1], b[2], b[3]);
  }

  /** What the writer appends for an entry */
  lemma FrameIsWritten(e: Entry, crc: Crc)
    requires |e.data| < 0x1_0000_0000
    ensures Frame(e, crc) == Written(e, crc)
  {
    LeIs(|e.data|);
    assert Head(e)[4..] == Body(e);
    LeIs(crc(Body(e)));
  }

  /** The bytes at `p` of the file */
  ghost predicate At(f: seq<Byte>, p: nat, b: seq<Byte>) {
    p + |b| <= |f| && f[p..p + |b|] == b
  }

  /** The parts of a head, which they make up */
  lemma HeadParts(e: Entry, g: seq<Byte>)
    requires |e.data| < 0x1_0000_0000
    ensures g == Head(e) <==>
      && |g| == HEAD_LEN + |e.data| && g[..4] == MAGIC && g[4..8] == Le32(|e.data|)
      && g[8] == e.version && g[9] == e.kind && g[HEAD_LEN..] == e.data
  {
    hide Le32;
    var size := Le32(|e.data|);
    assert |size| == 4 by { SizeOf(|e.data|); }
    var b := MAGIC + size + [e.version, e.kind] + e.data;
    assert b[..4] == MAGIC && b[4..8] == size && b[HEAD_LEN..] == e.data;
    if |g| == HEAD_LEN + |e.data| {
      assert g == g[..4] + g[4..8] + [g[8], g[9]] + g[HEAD_LEN..];
    }
  }

  lemma SizeOf(x: U32)
    ensures |Le32(x)| == 4
  {
  }

  lemma SizeIs(b: seq<Byte>, x: U32)
    requires |b| == 4
    ensures FromLe(b) == x <==> b == Le32(x)
  {
    LeValue(b);
    if b == Le32(x) {
      LeIs(x);
      Pow256Is();
      LeRoundTrip(x, 4);
    }
  }

  lemma HeadAt(f: seq<Byte>, p: nat, e: Entry)
    requires |e.data| < 0x1_0000_0000
    ensures At(f, p, Head(e)) <==>
      && p + HEAD_LEN + |e.data| <= |f| && MagicAt(f, p) && SizeAt(f, p) == |e.data|
      && f[p + 8] == e.version && f[p + 9] == e.kind && f[p + HEAD_LEN..p + HEAD_LEN + |e.data|] == e.data
  {
    hide FromLe, Head, Le32;
    Lengths(e);
    var n := HEAD_LEN + |e.data|;
    if p + n <= |f| {
      var g := f[p..p + n];
      SubSlice(f, p, n, 0, 4);
      SubSlice(f, p, n, 4, 8);
      SubSlice(f, p, n, HEAD_LEN, n);
      assert g[8] == f[p + 8] && g[9] == f[p + 9];
      SizeIs(g[4..8], |e.data|);
      HeadParts(e, g);
    }
  }

  /** A place holds a record for the reader exactly if it holds the bytes that some entry is written as. */
  lemma ValidExactlyWhen(f: seq<Byte>, p: nat, crc: Crc)
    ensures ValidAt(f, p, crc) <==> exists e: Entry :: |e.data| <= READER_BUF_SIZE && At(f, p, Written(e, crc))
  {
    if ValidAt(f, p, crc) {
      ValidWritten(f, p, crc);
    } else if e: Entry :| |e.data| <= READER_BUF_SIZE && At(f, p, Written(e, crc)) {
      FrameIsWritten(e, crc);
      FrameAt(f, p, e, crc);
    }
  }

  lemma ValidWritten(f: seq<Byte>, p: nat, crc: Crc)
    requires ValidAt(f, p, crc)
    ensures At(f, p, Written(RecordAt(f, p).entry, crc))
  {
    hide FromLe, Head, Le32;
    var e := RecordAt(f, p).entry;
    var end := p + HEAD_LEN + |e.data|;
    HeadAt(f, p, e);
    Lengths(e);
    SubSlice(f, p, HEAD_LEN + |e.data|, 4, HEAD_LEN + |e.data|);
    LeValue(f[end..end + CRC_LEN]);
    assert f[p..end + CRC_LEN] == f[p..end] + f[end..end + CRC_LEN];
  }

  /** The file has the bytes of the record at its position, and a reader's buffer can hold it. */
  ghost predicate Stands(f: seq<Byte>, r: Record, crc: Crc) {
    |r.entry.data| <= READER_BUF_SIZE && At(f, r.pos, Written(r.entry, crc))
  }

  /**
   * A record that is returned is in the file: its magic number, its size, version, type and data, and then, lowest byte
   * first, the checksum of what is between the magic number and it.
   */
  lemma FoundIsWritten(f: seq<Byte>, p: nat, crc: Crc, r: Record)
    requires Scan(f, p, crc) == Ok(r)
    ensures p <= r.pos && Stands(f, r, crc)
    ensures var end := r.pos + 10 + |r.entry.data|;
      && Number(f[end], f[end + 1], f[end + 2], f[end + 3]) == crc(f[r.pos + 4..end])
      && f[r.pos + 10..end] == r.entry.data
  {
    hide FromLe, Head, Le32, Scan;
    ScanFrom(f, p, crc);
    ValidWritten(f, r.pos, crc);
    var end := r.pos + 10 + |r.entry.data|;
    LeValue(f[end..end + 4]);
  }

  /** A record whose bytes were changed so that their checksum is another one is never returned at its position. */
  lemma DamageIsFound(g: seq<Byte>, f: seq<Byte>, q: nat, e: Entry, crc: Crc, p: nat)
    requires |e.data| <= READER_BUF_SIZE && At(g, q, Written(e, crc)) && |f| == |g|
    requires var end := q + 10 + |e.data|;
      && f[q + 4..q + 8] == g[q + 4..q + 8] && f[end..end + 4] == g[end..end + 4]
      && crc(f[q + 4..end]) != crc(g[q + 4..end])
    ensures Scan(f, p, crc).Ok? ==> Scan(f, p, crc).value.pos != q
  {
    hide FromLe, Head, Le32, Scan;
    if Scan(f, p, crc).Ok? && Scan(f, p, crc).value.pos == q {
      ScanFrom(f, p, crc);
      FrameIsWritten(e, crc);
      FrameAt(g, q, e, crc);
    }
  }

  /** The search gives up exactly where all of a record is there but some of its checksum. */
  lemma CutExactlyWhen(f: seq<Byte>, p: nat)
    ensures CutAt(f, p) <==>
      exists e: Entry :: |e.data| <= READER_BUF_SIZE && At(f, p, Head(e)) && |f| < p + |Head(e)| + 4
  {
    hide FromLe, Head;
    if CutAt(f, p) {
      var e := RecordAt(f, p).entry;
      HeadAt(f, p, e);
      Lengths(e);
    } else if e: Entry :| |e.data| <= READER_BUF_SIZE && At(f, p, Head(e)) && |f| < p + |Head(e)| + 4 {
      HeadAt(f, p, e);
      Lengths(e);
    }
  }

  lemma Lengths(e: Entry)
    requires |e.data| < 0x1_0000_0000
    ensures |Head(e)| == HEAD_LEN + |e.data|
  {
  }

  /** `read_one` returns exactly the record whose bytes are at the position; the checksum is not looked at. */
  lemma OneExactlyWhen(f: seq<Byte>, p: nat, r: Record)
    ensures OneAt(f, p) == Ok(r) <==> r.pos == p && |r.entry.data| < 0x1_0000_0000 && At(f, p, Head(r.entry))
    ensures OneAt(f, p).Ok? || OneAt(f, p) == Err(InvalidPos)
  {
    hide FromLe, Head;
    if OneAt(f, p).Ok? {
      LeValue(f[p + 4..p + 8]);
      HeadAt(f, p, OneAt(f, p).value.entry);
    }
    if |r.entry.data| < 0x1_0000_0000 { HeadAt(f, p, r.entry); }
  }
}
