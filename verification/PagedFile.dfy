/** A file read and written page by page, its pages in a plain map; `CachedFile` is the same over the page cache. */
module PagedFile {
  import opened Bytes

  lemma MulAtLeast(a: nat, b: nat)
    requires a > 0
    ensures a * b >= b
  {
  }

  lemma Unique(q: nat, r: nat, id: nat, offset: nat, n: nat)
    requires r < n && offset < n && q * n + r == id * n + offset
    ensures q == id && r == offset
  {
    if q < id {
      MulAtLeast(id - q, n);
    } else if q > id {
      MulAtLeast(q - id, n);
    }
  }

  /** `page_id_at`: the page of a position, and where in the page it is */
  function PageId(pos: nat, pageLen: nat): nat
    requires pageLen > 0
  {
    pos / pageLen
  }

  function Offset(pos: nat, pageLen: nat): (r: nat)
    requires pageLen > 0
    ensures r < pageLen
  {
    pos % pageLen
  }

  lemma Located(pos: nat, pageLen: nat)
    requires pageLen > 0
    ensures pos == PageId(pos, pageLen) * pageLen + Offset(pos, pageLen)
  {
  }

  lemma Locate(id: nat, offset: nat, pageLen: nat)
    requires offset < pageLen
    ensures PageId(id * pageLen + offset, pageLen) == id && Offset(id * pageLen + offset, pageLen) == offset
  {
    var pos := id * pageLen + offset;
    Unique(pos / pageLen, pos % pageLen, id, offset, pageLen);
  }

  lemma PageGrows(pos: nat, more: nat, pageLen: nat)
    requires pageLen > 0
    ensures PageId(pos, pageLen) <= PageId(pos + more, pageLen)
    ensures PageId(pos, pageLen) * pageLen <= pos
    ensures Offset(pos, pageLen) == 0 ==> PageId(pos, pageLen) * pageLen == pos
  {
    Located(pos, pageLen);
    Located(pos + more, pageLen);
    var a, b := PageId(pos, pageLen), PageId(pos + more, pageLen);
    hide PageId, Offset;
    if a > b {
      MulAtLeast(a - b, pageLen);
    }
  }

  lemma LenAtLeast(len: nat, pos: nat, size: nat, pageLen: nat)
    requires pageLen > 0 && size > 0
    ensures LenAfter(len, pos, size, pageLen) >= pos + size
    ensures len <= pos ==> LenAfter(len, pos, size, pageLen) == pos + size
  {
  }

  /** A stretch inside a page is a stretch of positions. */
  lemma InPage(i: nat, id: nat, offset: nat, size: nat, pageLen: nat)
    requires 0 < size && offset + size <= pageLen
    ensures id * pageLen + offset <= i < id * pageLen + offset + size <==>
            PageId(i, pageLen) == id && offset <= Offset(i, pageLen) < offset + size
    ensures id * pageLen + offset <= i < id * pageLen + offset + size ==>
              Offset(i, pageLen) == i - id * pageLen
  {
    Located(i, pageLen);
    if id * pageLen + offset <= i < id * pageLen + offset + size {
      Locate(id, i - id * pageLen, pageLen);
    }
  }

  /** The length of a file of `len` bytes after `size` bytes are written at `pos` */
  function LenAfter(len: nat, pos: nat, size: nat, pageLen: nat): nat
    requires pageLen > 0
  {
    if size == 0 || (pos + size < len && Offset(pos + size, pageLen) == 0) then len else pos + size
  }

  /** `page_span`: how much of the page is in the file */
  function Span(id: nat, len: nat, pageLen: nat): (n: nat)
    ensures n <= pageLen
  {
    var pos := id * pageLen;
    if pos < len then Min(len - pos, pageLen) else 0
  }

  lemma SpanAt(pos: nat, len: nat, pageLen: nat)
    requires pageLen > 0
    ensures var rest := Span(PageId(pos, pageLen), len, pageLen) - Offset(pos, pageLen);
      && (if pos < len then rest == Min(len - pos, pageLen - Offset(pos, pageLen)) > 0 else rest <= 0)
      && (rest < 0 <==> pos > len && Offset(pos, pageLen) > 0)
  {
    Located(pos, pageLen);
  }

  /** What dropping the guard does to the length */
  function LenOnDrop(len: nat, id: nat, newLen: nat, pageLen: nat): nat {
    var oldLen := Span(id, len, pageLen);
    var newFileLen := id * pageLen + newLen;
    if newLen == oldLen then len
    else if (if newLen > oldLen then len < newFileLen else len > newFileLen) then newFileLen
    else len
  }

  lemma LenOnDropIs(len: nat, id: nat, offset: nat, size: nat, pageLen: nat)
    requires 0 < size && offset + size <= pageLen
    ensures LenOnDrop(len, id, offset + size, pageLen) == LenAfter(len, id * pageLen + offset, size, pageLen)
  {
    var end := offset + size;
    if end == pageLen {
      Locate(id + 1, 0, pageLen);
      assert id * pageLen + end == (id + 1) * pageLen + 0;
    } else {
      Locate(id, end, pageLen);
    }
  }

  class File {
    const pageLen: nat
    var len: nat
    var pages: map<nat, seq<Byte>>
    /** What is in a buffer that was never filled */
    const stale: seq<Byte>

    ghost predicate Valid()
      reads this
    {
      pageLen > 0 && |stale| == pageLen && forall id :: id in pages ==> |pages[id]| == pageLen
    }

    ghost function Page(id: nat): (p: seq<Byte>)
      requires Valid()
      reads this
      ensures |p| == pageLen
    {
      if id in pages then pages[id] else stale
    }

    /** The byte at any position, in the file or after its end */
    ghost function ByteAt(i: nat): Byte
      requires Valid()
      reads this
    {
      Page(PageId(i, pageLen))[Offset(i, pageLen)]
    }

    ghost function Flat(): (f: seq<Byte>)
      requires Valid()
      reads this
      ensures |f| == len
    {
      seq(len, i requires 0 <= i && Valid() reads this => ByteAt(i))
    }

    constructor (pageLen: nat, stale: seq<Byte>)
      requires pageLen > 0 && |stale| == pageLen
      ensures Valid() && this.pageLen == pageLen && len == 0 && Flat() == []
    {
      this.pageLen := pageLen;
      this.stale := stale;
      len := 0;
      pages := map[];
    }

    lemma ByteIn(id: nat, offset: nat)
      requires Valid() && offset < pageLen
      ensures ByteAt(id * pageLen + offset) == Page(id)[offset]
    {
      Locate(id, offset, pageLen);
    }

    /** `read_at`, which panics in the middle of a page after the end */
    method ReadAt(pos: nat, buf: array<Byte>) returns (read: nat)
      requires Valid() && (buf.Length == 0 || pos <= len || Offset(pos, pageLen) == 0)
      modifies buf
      ensures read == if pos < len then Min(buf.Length, len - pos) else 0
      ensures pos <= len ==> buf[..read] == Flat()[pos..pos + read]
      ensures forall i :: read <= i < buf.Length ==> buf[i] == old(buf[i])
    {
      hide PageId, Offset, Span, ByteAt;
      read := 0;
      while read < buf.Length
        invariant read <= buf.Length && (read == 0 || pos + read <= len)
        invariant forall i :: 0 <= i < read ==> buf[i] == ByteAt(pos + i)
        invariant forall i :: read <= i < buf.Length ==> buf[i] == old(buf[i])
      {
        var id, offset := PageId(pos + read, pageLen), Offset(pos + read, pageLen);
        SpanAt(pos + read, len, pageLen);
        var span := Span(id, len, pageLen);
        if span <= offset {
          break;
        }
        var page := if id in pages then pages[id] else stale;
        var n := Min(span - offset, buf.Length - read);
        Located(pos + read, pageLen);
        CopyOut(page, offset, n, buf, read);
        forall i | read <= i < read + n ensures buf[i] == ByteAt(pos + i) {
          ByteIn(id, offset + (i - read));
        }
        read := read + n;
      }
    }

    static method CopyOut(page: seq<Byte>, offset: nat, n: nat, buf: array<Byte>, at: nat)
      requires offset + n <= |page| && at + n <= buf.Length
      modifies buf
      ensures forall i :: at <= i < at + n ==> buf[i] == page[offset + (i - at)]
      ensures forall i :: 0 <= i < buf.Length && !(at <= i < at + n) ==> buf[i] == old(buf[i])
    {
      forall i | at <= i < at + n { buf[i] := page[offset + (i - at)]; }
    }

    /** One write guard: the page grows or shrinks to the end of the write, and the file with it. */
    method WriteInPage(id: nat, offset: nat, chunk: seq<Byte>)
      requires Valid() && chunk != [] && offset + |chunk| <= pageLen
      modifies this
      ensures Valid() && len == LenAfter(old(len), id * pageLen + offset, |chunk|, pageLen)
      ensures forall i: nat :: ByteAt(i) == Written(old(ByteAt(i)), id * pageLen + offset, chunk, i)
    {
      hide PageId, Offset, Span, LenAfter;
      var page := if id in pages then pages[id] else stale;
      LenOnDropIs(len, id, offset, |chunk|, pageLen);
      var oldLen := Span(id, len, pageLen);
      var newLen := offset + |chunk|;
      pages := pages[id := page[..offset] + chunk + page[newLen..]];
      forall i: nat ensures ByteAt(i) == Written(old(ByteAt(i)), id * pageLen + offset, chunk, i) {
        InPage(i, id, offset, |chunk|, pageLen);
      }
      if newLen != oldLen {
        var newFileLen := id * pageLen + newLen;
        if (if newLen > oldLen then len < newFileLen else len > newFileLen) {
          len := newFileLen;
        }
      }
    }

    /** `write_at` */
    method WriteAt(pos: nat, buf: seq<Byte>)
      requires Valid()
      modifies this
      ensures Valid() && len == LenAfter(old(len), pos, |buf|, pageLen)
      ensures forall i: nat :: ByteAt(i) == Written(old(ByteAt(i)), pos, buf, i)
      ensures pos <= old(len) ==> Flat() == Overwrite(old(Flat()), pos, buf, pageLen)
    {
      hide PageId, Offset, LenAfter, ByteAt;
      var done := 0;
      assert LenAfter(len, pos, 0, pageLen) == len by { ZeroWrite(len, pos, pageLen); }
      while done < |buf|
        invariant done <= |buf| && Valid()
        invariant len == LenAfter(old(len), pos, done, pageLen)
        invariant done == 0 || done == |buf| || Offset(pos + done, pageLen) == 0
        invariant forall i: nat :: ByteAt(i) == Written(old(ByteAt(i)), pos, buf[..done], i)
      {
        var id, offset := PageId(pos + done, pageLen), Offset(pos + done, pageLen);
        var n := Min(|buf| - done, pageLen - offset);
        Located(pos + done, pageLen);
        NextPage(pos + done, pageLen);
        LenAfterMore(old(len), pos, done, n, pageLen);
        assert buf[..done + n] == buf[..done] + buf[done..done + n];
        WriteInPage(id, offset, buf[done..done + n]);
        done := done + n;
      }
      assert buf[..done] == buf;
      if pos <= old(len) { OverwriteIs(old(Flat()), Flat(), pos, buf, pageLen); }
    }
  }

  /** A file after a write that may begin after its end: what is between is not said. */
  ghost predicate Wrote(was: seq<Byte>, now: seq<Byte>, pos: nat, buf: seq<Byte>, pageLen: nat)
    requires pageLen > 0
  {
    && |now| == LenAfter(|was|, pos, |buf|, pageLen)
    && (forall i :: 0 <= i < |was| && i < |now| ==> now[i] == Written(was[i], pos, buf, i))
    && (forall i :: |was| <= i < |now| && pos <= i < pos + |buf| ==> now[i] == buf[i - pos])
  }

  /** A write that does not begin after the end */
  lemma OverwriteIs(was: seq<Byte>, now: seq<Byte>, pos: nat, buf: seq<Byte>, pageLen: nat)
    requires pageLen > 0 && pos <= |was| && Wrote(was, now, pos, buf, pageLen)
    ensures now == Overwrite(was, pos, buf, pageLen)
  {
    hide Offset;
  }

  lemma ZeroWrite(len: nat, pos: nat, pageLen: nat)
    requires pageLen > 0
    ensures LenAfter(len, pos, 0, pageLen) == len
  {
  }

  /** What `write_at` makes of a file: the tail after the write stays only when the write ends with a page. */
  function Overwrite(f: seq<Byte>, pos: nat, buf: seq<Byte>, pageLen: nat): seq<Byte>
    requires pos <= |f| && pageLen > 0
  {
    var end := pos + |buf|;
    if buf == [] then f
    else f[..pos] + buf + (if end < |f| && Offset(end, pageLen) == 0 then f[end..] else [])
  }

  /** What a write to plain bytes would make of it */
  function PlainWrite(f: seq<Byte>, pos: nat, buf: seq<Byte>): seq<Byte>
    requires pos <= |f|
  {
    f[..pos] + buf + f[Min(pos + |buf|, |f|)..]
  }

  /** `write_at` is a plain write exactly when it writes nothing, reaches the end of the file, or ends with a page. */
  lemma PlainExactlyWhen(f: seq<Byte>, pos: nat, buf: seq<Byte>, pageLen: nat)
    requires pos <= |f| && pageLen > 0
    ensures Overwrite(f, pos, buf, pageLen) == PlainWrite(f, pos, buf) <==>
            buf == [] || pos + |buf| >= |f| || Offset(pos + |buf|, pageLen) == 0
  {
    if buf == [] {
      assert f == f[..pos] + buf + f[pos..];
    }
  }

  /** One byte written over the first of three cuts the other two off. */
  lemma ShortWriteTruncates(a: Byte, b: Byte, c: Byte, d: Byte)
    ensures Overwrite([a, b, c], 0, [d], 4096) == [d]
  {
    assert [a, b, c][..0] + [d] + [] == [d];
  }

  lemma LenAfterMore(len: nat, pos: nat, done: nat, more: nat, pageLen: nat)
    requires pageLen > 0 && more > 0 && (done == 0 || Offset(pos + done, pageLen) == 0)
    ensures LenAfter(LenAfter(len, pos, done, pageLen), pos + done, more, pageLen) == LenAfter(len, pos, done + more, pageLen)
  {
  }

  lemma NextPage(pos: nat, pageLen: nat)
    requires pageLen > 0
    ensures Offset(pos + (pageLen - Offset(pos, pageLen)), pageLen) == 0
  {
    Located(pos, pageLen);
    Locate(PageId(pos, pageLen) + 1, 0, pageLen);
  }

  /** The byte at `i` when `chunk` is written at `pos` over a byte `b` */
  function Written(b: Byte, pos: nat, chunk: seq<Byte>, i: nat): Byte {
    if pos <= i < pos + |chunk| then chunk[i - pos] else b
  }
}
