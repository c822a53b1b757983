/** The record log in a paged file: the writer that appends to it, and the buffered reader. */
module RecordFile {
  import opened Bytes
  import opened PagedFile
  import opened RecordLog
  import RecordLaws

  const BLOCK_SIZE := 4096

  class Writer {
    const file: File
    const crc: Crc

    constructor (file: File, crc: Crc)
      ensures this.file == file && this.crc == crc
    {
      this.file := file;
      this.crc := crc;
    }

    /** `write_record`: the frame, appended in steps that end with a block; the position it begins at */
    method WriteRecord(e: Entry) returns (origin: nat)
      requires file.Valid() && |e.data| < 0x1_0000_0000
      modifies file
      ensures file.Valid() && origin == |old(file.Flat())| && file.Flat() == old(file.Flat()) + Frame(e, crc)
    {
      hide Frame, File.Flat, File.ByteAt, Overwrite, LenAfter;
      var buf := Frame(e, crc);
      ghost var was := file.Flat();
      var p := 0;
      var pos := file.len;
      origin := pos;
      while p < |buf|
        invariant p <= |buf| && pos == origin + p && file.Valid() && file.Flat() == was + buf[..p]
      {
        var n := Min(BLOCK_SIZE - pos % BLOCK_SIZE, |buf| - p);
        file.WriteAt(pos, buf[p..p + n]);
        AppendIs(was + buf[..p], buf[p..p + n], file.pageLen);
        assert buf[..p + n] == buf[..p] + buf[p..p + n];
        p := p + n;
        pos := pos + n;
      }
      assert buf[..p] == buf;
    }
  }

  lemma AppendIs(f: seq<Byte>, buf: seq<Byte>, pageLen: nat)
    requires pageLen > 0
    ensures Overwrite(f, |f|, buf, pageLen) == f + buf
  {
    assert f[..|f|] == f && f + [] == f;
    assert f + buf + [] == f + buf;
  }

  class Reader {
    const file: File
    const crc: Crc
    const buf: array<Byte>
    var pos: nat
    var bufLen: nat
    var bufUse: nat

    /** The buffer holds the bytes of the file around the position. */
    ghost predicate Valid()
      reads this, file, buf
    {
      && file.Valid() && buf.Length == READER_BUF_SIZE
      && bufUse <= bufLen <= buf.Length && bufUse <= pos && pos - bufUse + bufLen <= file.len
      && forall i :: 0 <= i < bufLen ==> buf[i] == file.Flat()[pos - bufUse + i]
    }

    constructor (file: File, crc: Crc)
      requires file.Valid()
      ensures this.file == file && this.crc == crc && fresh(buf) && Valid() && pos == 0
    {
      this.file := file;
      this.crc := crc;
      buf := new Byte[READER_BUF_SIZE];
      pos, bufLen, bufUse := 0, 0, 0;
    }

    method LoadBuf()
      requires file.Valid() && buf.Length == READER_BUF_SIZE && pos <= file.len
      modifies this`bufLen, this`bufUse, buf
      ensures Valid() && bufUse == 0 && bufLen == Min(READER_BUF_SIZE, file.len - pos)
    {
      hide File.Flat, File.ByteAt;
      bufLen := file.ReadAt(pos, buf);
      bufUse := 0;
      forall i | 0 <= i < bufLen ensures buf[i] == file.Flat()[pos + i] { assert buf[..bufLen][i] == buf[i]; }
    }

    /** `set_pos`: moves inside the buffer, or loads it anew */
    method SetPos(p: nat) returns (r: Result<()>)
      requires Valid()
      modifies this`pos, this`bufLen, this`bufUse, buf
      ensures Valid()
      ensures if p <= file.len then r == Ok(()) && pos == p else r == Err(InvalidPos) && pos == old(pos)
    {
      hide File.Flat, File.ByteAt;
      if p > file.len {
        return Err(InvalidPos);
      }
      if pos > p {
        var size := pos - p;
        pos := p;
        if bufUse > size {
          bufUse := bufUse - size;
        } else {
          LoadBuf();
        }
      } else if pos < p {
        var size := p - pos;
        pos := p;
        if bufLen - bufUse > size {
          bufUse := bufUse + size;
        } else {
          LoadBuf();
        }
      }
      return Ok(());
    }

    /** `read_buf`: as many bytes, from the position on, if the file has them and the buffer can hold them */
    method ReadBuf(size: nat) returns (r: Result<(nat, seq<Byte>)>)
      requires Valid()
      modifies this`pos, this`bufLen, this`bufUse, buf
      ensures Valid()
      ensures if size <= Min(READER_BUF_SIZE, file.len - old(pos))
              then r == Ok((old(pos), file.Flat()[old(pos)..old(pos) + size])) && pos == old(pos) + size
              else r == Err(Eof) && pos == old(pos)
    {
      hide File.Flat, File.ByteAt;
      if bufLen - bufUse < size {
        LoadBuf();
      }
      if bufLen - bufUse >= size {
        var origin := pos;
        var data := buf[bufUse..bufUse + size];
        assert data == file.Flat()[pos..pos + size];
        pos := pos + size;
        bufUse := bufUse + size;
        return Ok((origin, data));
      } else {
        return Err(Eof);
      }
    }

    /** `find_magic`: the first magic number at or after the position */
    method FindMagic() returns (r: Result<()>)
      requires Valid()
      modifies this`pos, this`bufLen, this`bufUse, buf
      ensures Valid() && old(pos) <= pos
      ensures r == Ok(()) || r == Err(Eof)
      ensures r.Ok? ==> MagicAt(file.Flat(), pos)
      ensures forall k :: old(pos) <= k < (if r.Ok? then pos else file.len) ==> !MagicAt(file.Flat(), k)
    {
      hide File.Flat, File.ByteAt;
      while true
        invariant Valid() && old(pos) <= pos
        invariant forall k :: old(pos) <= k < pos ==> !MagicAt(file.Flat(), k)
        decreases file.len - pos
      {
        var got := ReadBuf(4);
        if got.Err? {
          return Err(Eof);
        }
        var (origin, data) := got.value;
        if data != MAGIC {
          var moved := SetPos(origin + 1);
        } else {
          var moved := SetPos(origin);
          return Ok(());
        }
      }
    }

    /** `set_pos` and `find_magic`, where the source goes on to read a record */
    method Resync(p: nat) returns (r: Result<()>)
      requires Valid() && p <= file.len
      modifies this`pos, this`bufLen, this`bufUse, buf
      ensures Valid()
      ensures r.Err? ==> r == Err(Eof) && Scan(file.Flat(), p, crc) == Err(Eof)
      ensures r.Ok? ==> p <= pos && MagicAt(file.Flat(), pos) && Scan(file.Flat(), p, crc) == Scan(file.Flat(), pos, crc)
    {
      hide File.Flat, File.ByteAt, Scan;
      var moved := SetPos(p);
      r := FindMagic();
      if r.Ok? {
        SkipTo(file.Flat(), p, pos, crc);
      } else {
        SkipTo(file.Flat(), p, file.len, crc);
        ScanEnd(file.Flat(), file.len, crc);
      }
    }

    lemma ScanEnd(f: seq<Byte>, p: nat, crc: Crc)
      requires p + HEAD_LEN > |f|
      ensures Scan(f, p, crc) == Err(Eof)
    {
    }

    /** The checksum covers one stretch of the file. */
    static lemma Covered(f: seq<Byte>, p: nat, size: nat)
      requires p + HEAD_LEN + size <= |f|
      ensures f[p..p + HEAD_LEN][4..] + f[p + HEAD_LEN..p + HEAD_LEN + size] == f[p + 4..p + HEAD_LEN + size]
    {
    }

    /** The header at `p`, taken apart */
    static lemma Headed(f: seq<Byte>, p: nat, h: seq<Byte>)
      requires p + HEAD_LEN <= |f| && h == f[p..p + HEAD_LEN]
      ensures MagicAt(f, p) <==> h[..4] == MAGIC
      ensures SizeAt(f, p) == FromLe(h[4..8]) && h[8] == f[p + 8] && h[9] == f[p + 9]
    {
      SubSlice(f, p, HEAD_LEN, 0, 4);
      SubSlice(f, p, HEAD_LEN, 4, 8);
    }

    /** `read_record`: what the plain parser finds in the bytes of the file */
    method ReadRecord() returns (r: Result<Record>)
      requires Valid()
      modifies this`pos, this`bufLen, this`bufUse, buf
      ensures Valid() && r == Scan(file.Flat(), old(pos), crc)
      ensures r.Ok? ==> pos == EndOf(r.value) && RecordLaws.Stands(file.Flat(), r.value, crc)
      decreases file.len - pos
    {
      hide File.Flat, File.ByteAt, MagicAt, SizeAt, FromLe, RecordLaws.Stands;
      ghost var f := file.Flat();
      var head := ReadBuf(HEAD_LEN);
      if head.Err? {
        return Err(Eof);
      }
      var (origin, h) := head.value;
      Headed(f, origin, h);
      if h[..4] != MAGIC {
        r := Retry(origin, origin);
        return;
      }
      var size := FromLe(h[4..8]);
      var data := ReadBuf(size);
      if data.Err? {
        r := Retry(origin, origin + 1);
        return;
      }
      var tail := ReadBuf(CRC_LEN);
      if tail.Err? {
        return Err(Eof);
      }
      Covered(f, origin, size);
      if crc(h[4..] + data.value.1) != FromLe(tail.value.1) {
        r := Retry(origin, origin + 1);
        return;
      }
      r := Ok(Record(origin, Entry(h[8], h[9], data.value.1)));
      RecordLaws.FoundIsWritten(f, origin, crc, r.value);
    }

    method Retry(ghost origin: nat, p: nat) returns (r: Result<Record>)
      requires Valid() && origin <= p <= origin + 1 && p < file.len && !ValidAt(file.Flat(), origin, crc)
      requires !CutAt(file.Flat(), origin) && origin + HEAD_LEN <= file.len && (p == origin ==> !MagicAt(file.Flat(), p))
      modifies this`pos, this`bufLen, this`bufUse, buf
      ensures Valid() && r == Scan(file.Flat(), origin, crc)
      ensures r.Ok? ==> pos == EndOf(r.value) && RecordLaws.Stands(file.Flat(), r.value, crc)
      decreases file.len - origin, 0
    {
      hide File.Flat, File.ByteAt, ValidAt, CutAt, RecordLaws.Stands;
      var found := Resync(p);
      if found.Err? {
        r := Err(Eof);
      } else {
        r := ReadRecord();
      }
    }

    /** `read_one` */
    method ReadOne(p: nat) returns (r: Result<Record>)
      requires file.Valid() && (p <= file.len || Offset(p, file.pageLen) == 0)
      ensures r == OneAt(file.Flat(), p)
    {
      hide File.Flat, File.ByteAt, Offset;
      var head := new Byte[HEAD_LEN];
      var n := file.ReadAt(p, head);
      if n != HEAD_LEN {
        return Err(InvalidPos);
      }
      ghost var f := file.Flat();
      var h := head[..];
      assert h == head[..n] == f[p..p + n];
      SubSlice(f, p, n, 0, 4);
      SubSlice(f, p, n, 4, 8);
      if h[..4] != MAGIC {
        return Err(InvalidPos);
      }
      var size := FromLe(h[4..8]);
      var data := new Byte[size];
      var m := file.ReadAt(p + HEAD_LEN, data);
      if m != size {
        return Err(InvalidPos);
      }
      assert data[..] == data[..m];
      return Ok(Record(p, Entry(h[8], h[9], data[..])));
    }
  }
}
