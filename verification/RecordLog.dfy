/** The record log as bytes: framing, and what a reader that resynchronises on damage makes of any bytes. */
module RecordLog {
  import opened Bytes

  type U32 = x: int | 0 <= x < 0x1_0000_0000
  type Crc = seq<Byte> -> U32

  const MAGIC: seq<Byte> := [0x46, 0x6c, 0x4f, 0x67]
  const HEAD_LEN := 10
  const CRC_LEN := 4
  const READER_BUF_SIZE := 0x400_0000

  datatype Error = Eof | InvalidPos
  datatype Result<T> = Ok(value: T) | Err(error: Error)

  datatype Entry = Entry(version: Byte, kind: Byte, data: seq<Byte>)
  datatype Record = Record(pos: nat, entry: Entry)

  /** Everything of a record that its checksum covers */
  function Body(e: Entry): seq<Byte>
    requires |e.data| < 0x1_0000_0000
  {
    ToLe(|e.data|, 4) + [e.version, e.kind] + e.data
  }

  function Frame(e: Entry, crc: Crc): (b: seq<Byte>)
    requires |e.data| < 0x1_0000_0000
    ensures |b| == HEAD_LEN + |e.data| + CRC_LEN
  {
    MAGIC + Body(e) + ToLe(crc(Body(e)), 4)
  }

  // ------------------------------------------------------------------------ parsing

  predicate MagicAt(f: seq<Byte>, p: nat) {
    p + 4 <= |f| && f[p..p + 4] == MAGIC
  }

  function SizeAt(f: seq<Byte>, p: nat): nat
    requires p + HEAD_LEN <= |f|
  {
    FromLe(f[p + 4..p + 8])
  }

  /** Magic number and header are there, and so are the data, which a reader's buffer can hold. */
  predicate DataAt(f: seq<Byte>, p: nat) {
    p + HEAD_LEN <= |f| && MagicAt(f, p) && SizeAt(f, p) <= READER_BUF_SIZE && p + HEAD_LEN + SizeAt(f, p) <= |f|
  }

  /** All of it is there but the checksum. */
  predicate CutAt(f: seq<Byte>, p: nat) {
    DataAt(f, p) && p + HEAD_LEN + SizeAt(f, p) + CRC_LEN > |f|
  }

  predicate ValidAt(f: seq<Byte>, p: nat, crc: Crc) {
    && DataAt(f, p) && !CutAt(f, p)
    && var end := p + HEAD_LEN + SizeAt(f, p); FromLe(f[end..end + CRC_LEN]) == crc(f[p + 4..end])
  }

  function RecordAt(f: seq<Byte>, p: nat): Record
    requires DataAt(f, p)
  {
    Record(p, Entry(f[p + 8], f[p + 9], f[p + HEAD_LEN..p + HEAD_LEN + SizeAt(f, p)]))
  }

  /** `read_record` from position `p` */
  function Scan(f: seq<Byte>, p: nat, crc: Crc): Result<Record>
    decreases |f| - p
  {
    if p + HEAD_LEN > |f| || CutAt(f, p) then Err(Eof)
    else if ValidAt(f, p, crc) then Ok(RecordAt(f, p))
    else Scan(f, p + 1, crc)
  }

  function EndOf(r: Record): nat {
    r.pos + HEAD_LEN + |r.entry.data| + CRC_LEN
  }

  function ReadAll(f: seq<Byte>, p: nat, crc: Crc): seq<Record>
    decreases |f| - p
  {
    match Scan(f, p, crc)
    case Ok(r) => ScanFrom(f, p, crc); [r] + ReadAll(f, EndOf(r), crc)
    case Err(_) => []
  }

  lemma {:induction false} ScanFrom(f: seq<Byte>, p: nat, crc: Crc)
    ensures var s := Scan(f, p, crc);
      s.Ok? ==> p <= s.value.pos && ValidAt(f, s.value.pos, crc) && s.value == RecordAt(f, s.value.pos) && EndOf(s.value) <= |f|
    decreases |f| - p
  {
    if p + HEAD_LEN <= |f| && !CutAt(f, p) && !ValidAt(f, p, crc) { ScanFrom(f, p + 1, crc); }
  }

  /** The record found is at the least position that validates, from the start on. */
  lemma {:induction false} ScanIsLeast(f: seq<Byte>, p: nat, crc: Crc, k: nat)
    requires Scan(f, p, crc).Ok? && p <= k < Scan(f, p, crc).value.pos
    ensures !ValidAt(f, k, crc) && !CutAt(f, k)
    decreases |f| - p
  {
    if p < k { ScanIsLeast(f, p + 1, crc, k); }
  }

  /** A record is found exactly when one validates and none before it is cut off just after its data. */
  lemma {:induction false} FoundExactlyWhen(f: seq<Byte>, p: nat, crc: Crc)
    ensures Scan(f, p, crc).Ok? <==>
            exists q :: p <= q && ValidAt(f, q, crc) && forall k :: p <= k < q ==> !CutAt(f, k)
    decreases |f| - p
  {
    hide MagicAt, DataAt, RecordAt, SizeAt, FromLe;
    if Scan(f, p, crc).Ok? {
      var q := Scan(f, p, crc).value.pos;
      ScanFrom(f, p, crc);
      forall k | p <= k < q ensures !CutAt(f, k) { ScanIsLeast(f, p, crc, k); }
    } else if q :| p <= q && ValidAt(f, q, crc) && forall k :: p <= k < q ==> !CutAt(f, k) {
      assert q != p && !CutAt(f, p);
      FoundExactlyWhen(f, p + 1, crc);
    }
  }

  lemma {:induction false} SkipTo(f: seq<Byte>, p: nat, q: nat, crc: Crc)
    requires p <= q && forall k :: p <= k < q ==> !MagicAt(f, k)
    ensures Scan(f, p, crc) == Scan(f, q, crc)
    decreases q - p
  {
    if p < q && p + HEAD_LEN <= |f| {
      assert !MagicAt(f, p);
      SkipTo(f, p + 1, q, crc);
    }
  }

  /** `read_one`: the record at this very position, its checksum not looked at */
  function OneAt(f: seq<Byte>, p: nat): Result<Record> {
    if p + HEAD_LEN <= |f| && MagicAt(f, p) && p + HEAD_LEN + SizeAt(f, p) <= |f|
    then Ok(Record(p, Entry(f[p + 8], f[p + 9], f[p + HEAD_LEN..p + HEAD_LEN + SizeAt(f, p)])))
    else Err(InvalidPos)
  }

  // ------------------------------------------------------------------------ what was written is read

  lemma FrameParts(e: Entry, crc: Crc)
    requires |e.data| < 0x1_0000_0000
    ensures var b, n := Frame(e, crc), HEAD_LEN + |e.data|;
      && b[..4] == MAGIC && FromLe(b[4..8]) == |e.data| && b[8] == e.version && b[9] == e.kind
      && b[HEAD_LEN..n] == e.data && b[4..n] == Body(e) && FromLe(b[n..n + CRC_LEN]) == crc(Body(e))
  {
    hide FromLe;
    var b, n := Frame(e, crc), HEAD_LEN + |e.data|;
    assert b[4..8] == ToLe(|e.data|, 4);
    assert b[n..n + CRC_LEN] == ToLe(crc(Body(e)), 4);
    assert b[4..n] == Body(e);
    assert b[HEAD_LEN..n] == e.data;
    Pow256Is();
    LeRoundTrip(|e.data|, 4);
    LeRoundTrip(crc(Body(e)), 4);
  }

  /** Whatever its size, a frame can be read at its position, and still can when the file has grown. */
  lemma OneAtFrame(f: seq<Byte>, e: Entry, crc: Crc, g: seq<Byte>)
    requires |e.data| < 0x1_0000_0000
    ensures OneAt(f + Frame(e, crc) + g, |f|) == Ok(Record(|f|, e))
  {
    hide Body, FromLe;
    var b, n := Frame(e, crc), HEAD_LEN + |e.data|;
    var h := f + b + g;
    assert h[|f|..|f| + |b|] == b;
    FrameParts(e, crc);
    hide Frame;
    SubSlice(h, |f|, |b|, 0, 4);
    SubSlice(h, |f|, |b|, 4, 8);
    SubSlice(h, |f|, |b|, HEAD_LEN, n);
    assert h[|f| + 8] == b[8] && h[|f| + 9] == b[9];
  }

  lemma OneAtGrows(f: seq<Byte>, p: nat, g: seq<Byte>)
    requires OneAt(f, p).Ok?
    ensures OneAt(f + g, p) == OneAt(f, p)
  {
    var h := f + g;
    assert h[p..p + 4] == f[p..p + 4] && h[p + 4..p + 8] == f[p + 4..p + 8];
    var n := p + HEAD_LEN + SizeAt(f, p);
    assert h[p + HEAD_LEN..n] == f[p + HEAD_LEN..n];
  }

  lemma FrameAt(f: seq<Byte>, p: nat, e: Entry, crc: Crc)
    requires |e.data| <= READER_BUF_SIZE
    requires p + |Frame(e, crc)| <= |f| && f[p..p + |Frame(e, crc)|] == Frame(e, crc)
    ensures ValidAt(f, p, crc) && RecordAt(f, p) == Record(p, e) && Scan(f, p, crc) == Ok(Record(p, e))
  {
    hide Body, FromLe, Scan;
    var b, n := Frame(e, crc), HEAD_LEN + |e.data|;
    FrameParts(e, crc);
    hide Frame;
    SubSlice(f, p, |b|, 0, 4);
    SubSlice(f, p, |b|, 4, 8);
    SubSlice(f, p, |b|, 4, n);
    SubSlice(f, p, |b|, HEAD_LEN, n);
    SubSlice(f, p, |b|, n, n + CRC_LEN);
    assert f[p + 8] == f[p..p + |b|][8] && f[p + 9] == f[p..p + |b|][9];
    ValidFound(f, p, crc);
  }

  lemma ValidFound(f: seq<Byte>, p: nat, crc: Crc)
    requires ValidAt(f, p, crc)
    ensures Scan(f, p, crc) == Ok(RecordAt(f, p))
  {
  }

  /** Every record is framed with its size in 32 bits. */
  ghost predicate Framable(es: seq<Entry>) {
    forall i :: 0 <= i < |es| ==> |es[i].data| < 0x1_0000_0000
  }

  /** Every record fits in a reader's buffer. */
  ghost predicate Fits(es: seq<Entry>) {
    forall i :: 0 <= i < |es| ==> |es[i].data| <= READER_BUF_SIZE
  }

  /** The file after these entries are written */
  ghost function Log(es: seq<Entry>, crc: Crc): seq<Byte>
    requires Framable(es)
  {
    if es == [] then [] else Log(es[..|es| - 1], crc) + Frame(es[|es| - 1], crc)
  }

  /** The entries, each with the position `write_record` returned for it */
  ghost function Records(es: seq<Entry>, crc: Crc): (rs: seq<Record>)
    requires Framable(es)
    ensures |rs| == |es|
  {
    if es == [] then [] else Records(es[..|es| - 1], crc) + [Record(|Log(es[..|es| - 1], crc)|, es[|es| - 1])]
  }

  lemma {:induction false} LogSplits(es: seq<Entry>, k: nat, crc: Crc)
    requires Framable(es) && k < |es|
    ensures var a, b := |Log(es[..k], crc)|, |Log(es[..k + 1], crc)|;
      && b == a + |Frame(es[k], crc)| <= |Log(es, crc)| && Log(es, crc)[a..b] == Frame(es[k], crc)
    ensures Records(es, crc)[k] == Record(|Log(es[..k], crc)|, es[k])
    decreases |es|
  {
    assert es[..k + 1][..k] == es[..k] && es[..k + 1][k] == es[k];
    hide Frame;
    var init := es[..|es| - 1];
    if k == |es| - 1 {
      assert es[..k + 1] == es && es[..k] == init;
      var a, b := Log(init, crc), Frame(es[k], crc);
      assert Log(es, crc) == a + b && (a + b)[|a|..] == b;
    } else {
      assert init[..k] == es[..k] && init[..k + 1] == es[..k + 1] && init[k] == es[k];
      LogSplits(init, k, crc);
    }
  }

  lemma ReadAllStep(f: seq<Byte>, p: nat, r: Record, crc: Crc)
    requires Scan(f, p, crc) == Ok(r)
    ensures ReadAll(f, p, crc) == [r] + ReadAll(f, EndOf(r), crc)
  {
    hide Scan, ValidAt;
  }

  /** The complete records of a cut log, from the `k`-th on */
  lemma {:induction false} ReadsCut(es: seq<Entry>, n: nat, k: nat, m: nat, crc: Crc)
    requires Framable(es) && k <= m <= |es| && Fits(es[..m]) && n <= |Log(es, crc)| && |Log(es[..m], crc)| <= n
    ensures ReadAll(Log(es, crc)[..n], |Log(es[..k], crc)|, crc) ==
            Records(es, crc)[k..m] + ReadAll(Log(es, crc)[..n], |Log(es[..m], crc)|, crc)
    decreases m - k
  {
    hide Scan, Log, Records, ReadAll, Frame;
    var f, rs := Log(es, crc)[..n], Records(es, crc);
    if k < m {
      LogSplits(es, k, crc);
      LogGrows(es, k + 1, m, crc);
      var a, b := |Log(es[..k], crc)|, |Log(es[..k + 1], crc)|;
      assert f[a..b] == Log(es, crc)[a..b];
      assert es[..m][k] == es[k];
      FrameAt(f, a, es[k], crc);
      ReadAllStep(f, a, Record(a, es[k]), crc);
      ReadsCut(es, n, k + 1, m, crc);
      assert rs[k..m] == [rs[k]] + rs[k + 1..m];
    }
  }

  lemma {:induction false} LogGrows(es: seq<Entry>, k: nat, m: nat, crc: Crc)
    requires Framable(es) && k <= m <= |es|
    ensures |Log(es[..k], crc)| <= |Log(es[..m], crc)|
    decreases m - k
  {
    if k < m {
      assert es[..m][..m - 1] == es[..m - 1];
      LogGrows(es, k, m - 1, crc);
    }
  }

  /** Reading the whole log gives back every entry, at the position it was written, and then the end of the file. */
  lemma LogRoundTrip(es: seq<Entry>, crc: Crc)
    requires Fits(es)
    ensures ReadAll(Log(es, crc), 0, crc) == Records(es, crc)
  {
    var f := Log(es, crc);
    assert es[..0] == [] && es[..|es|] == es && Records(es, crc)[0..|es|] == Records(es, crc) && f[..|f|] == f;
    assert ReadAll(f, |f|, crc) == [];
    hide ReadAll;
    ReadsCut(es, |f|, 0, |es|, crc);
  }

  /** A record that a reader's buffer cannot hold is not found where it is. */
  lemma LongFrame(f: seq<Byte>, p: nat, e: Entry, crc: Crc)
    requires READER_BUF_SIZE < |e.data| < 0x1_0000_0000
    requires p + |Frame(e, crc)| <= |f| && f[p..p + |Frame(e, crc)|] == Frame(e, crc)
    ensures !ValidAt(f, p, crc)
  {
    hide Body, FromLe;
    FrameParts(e, crc);
    hide Frame;
    SubSlice(f, p, |Frame(e, crc)|, 4, 8);
  }

  /** The first that a reader's buffer cannot hold, of entries that do not all fit */
  lemma {:induction false} FirstLong(es: seq<Entry>) returns (k: nat)
    requires !Fits(es)
    ensures k < |es| && |es[k].data| > READER_BUF_SIZE && Fits(es[..k])
  {
    var init := es[..|es| - 1];
    if Fits(init) {
      k := |es| - 1;
    } else {
      k := FirstLong(init);
      assert init[..k] == es[..k];
    }
  }

  /** A log is read back if and only if a reader's buffer can hold every record. */
  lemma {:induction false} RoundTripExactlyWhen(es: seq<Entry>, crc: Crc)
    requires Framable(es)
    ensures ReadAll(Log(es, crc), 0, crc) == Records(es, crc) <==> Fits(es)
  {
    if Fits(es) {
      LogRoundTrip(es, crc);
    } else {
      var k := FirstLong(es);
      LongIsNotRead(es, k, crc);
    }
  }

  lemma {:induction false} LongIsNotRead(es: seq<Entry>, k: nat, crc: Crc)
    requires Framable(es) && k < |es| && |es[k].data| > READER_BUF_SIZE && Fits(es[..k])
    ensures ReadAll(Log(es, crc), 0, crc) != Records(es, crc)
  {
    hide Scan, Log, Records, ReadAll, Frame, ValidAt;
    var f, p, rs := Log(es, crc), |Log(es[..k], crc)|, Records(es, crc);
    LogSplits(es, k, crc);
    assert es[..0] == [] && f[..|f|] == f && |Log([], crc)| == 0 by { NoLog(crc); }
    ReadsCut(es, |f|, 0, k, crc);
    LongFrame(f, p, es[k], crc);
    var rest := ReadAll(f, p, crc);
    if Scan(f, p, crc).Ok? {
      ScanFrom(f, p, crc);
      ReadAllStep(f, p, Scan(f, p, crc).value, crc);
      assert rest[0].pos != p;
      assert (rs[0..k] + rest)[k] == rest[0];
    } else {
      NothingRead(f, p, crc);
    }
  }

  lemma NoLog(crc: Crc)
    ensures Log([], crc) == []
  {
  }

  lemma NothingRead(f: seq<Byte>, p: nat, crc: Crc)
    requires Scan(f, p, crc).Err?
    ensures ReadAll(f, p, crc) == []
  {
    hide Scan, ValidAt;
  }

  /** A log cut at any byte: the first records read are the complete ones, in order. */
  lemma CutLogRoundTrip(es: seq<Entry>, n: nat, m: nat, crc: Crc)
    requires Framable(es) && m <= |es| && Fits(es[..m]) && n <= |Log(es, crc)|
    requires |Log(es[..m], crc)| <= n && (m < |es| ==> n < |Log(es[..m + 1], crc)|)
    ensures Records(es, crc)[..m] <= ReadAll(Log(es, crc)[..n], 0, crc)
  {
    assert es[..0] == [] && Records(es, crc)[0..m] == Records(es, crc)[..m];
    ReadsCut(es, n, 0, m, crc);
  }

  /**
   * A cut log gives its complete records and nothing more if and only if, from the start of the cut record on, no
   * record validates before a place where the file ends just after the data.
   */
  lemma CutLogExactlyWhen(es: seq<Entry>, n: nat, m: nat, crc: Crc)
    requires Framable(es) && m <= |es| && Fits(es[..m]) && n <= |Log(es, crc)|
    requires |Log(es[..m], crc)| <= n && (m < |es| ==> n < |Log(es[..m + 1], crc)|)
    ensures var f, p := Log(es, crc)[..n], |Log(es[..m], crc)|;
      ReadAll(f, 0, crc) == Records(es, crc)[..m] <==>
      !exists q :: p <= q && ValidAt(f, q, crc) && forall k :: p <= k < q ==> !CutAt(f, k)
  {
    hide Scan, ValidAt, CutAt;
    var f, p := Log(es, crc)[..n], |Log(es[..m], crc)|;
    assert es[..0] == [] && Records(es, crc)[0..m] == Records(es, crc)[..m];
    ReadsCut(es, n, 0, m, crc);
    FoundExactlyWhen(f, p, crc);
    if Scan(f, p, crc).Ok? { ReadAllStep(f, p, Scan(f, p, crc).value, crc); }
  }

  // ------------------------------------------------------------------------ two limits of the resynchronisation

  /** Whatever the checksum, the bytes of a log cut just before it can hide a valid record in the data. */
  lemma CutHidesRecord(crc: Crc)
    ensures var inner := Frame(Entry(0, 0, []), crc);
      var f := MAGIC + ToLe(|inner|, 4) + [0, 0] + inner;
      ValidAt(f, HEAD_LEN, crc) && Scan(f, 0, crc) == Err(Eof)
  {
    var inner := Frame(Entry(0, 0, []), crc);
    var f := MAGIC + ToLe(|inner|, 4) + [0, 0] + inner;
    assert f[HEAD_LEN..HEAD_LEN + |inner|] == inner;
    FrameAt(f, HEAD_LEN, Entry(0, 0, []), crc);
    Pow256Is();
    LeRoundTrip(|inner|, 4);
    assert f[0..4] == MAGIC && f[4..8] == ToLe(|inner|, 4);
    assert CutAt(f, 0);
  }

  lemma NoMagicInHead(f: seq<Byte>, k: nat)
    requires |f| >= HEAD_LEN && f[..HEAD_LEN] == MAGIC + [15, 0, 0, 0] + [0, 0] && 1 <= k < HEAD_LEN
    ensures !MagicAt(f, k)
  {
    assert f[k] == f[..HEAD_LEN][k];
    assert k + 4 <= |f| ==> f[k..k + 4][0] == f[k];
  }

  /** ... and a log cut inside the data of its last record can bring up a record that was only data. */
  lemma CutBringsUpData(crc: Crc)
    ensures var inner := Entry(0, 0, []);
      var outer := Entry(0, 0, Frame(inner, crc) + [0]);
      ReadAll(Frame(outer, crc)[..HEAD_LEN + |Frame(inner, crc)|], 0, crc) == [Record(HEAD_LEN, inner)]
  {
    var inner := Entry(0, 0, []);
    var b := Frame(inner, crc);
    var outer := Entry(0, 0, b + [0]);
    var g := Frame(outer, crc);
    var f := g[..HEAD_LEN + |b|];
    assert ToLe(15, 4) == [15, 0, 0, 0] by { assert ToLe(0, 3) == [0] + ToLe(0, 2); }
    assert f[..HEAD_LEN] == MAGIC + [15, 0, 0, 0] + [0, 0];
    FrameParts(outer, crc);
    assert f[4..8] == g[4..8];
    hide Frame, FromLe, ToLe;
    assert !DataAt(f, 0);
    SubSlice(g, HEAD_LEN, |b| + 1, 0, |b|);
    assert f[HEAD_LEN..HEAD_LEN + |b|] == b;
    FrameAt(f, HEAD_LEN, inner, crc);
    forall k | 1 <= k < HEAD_LEN ensures !MagicAt(f, k) { NoMagicInHead(f, k); }
    SkipTo(f, 1, HEAD_LEN, crc);
    hide DataAt;
    ReadAllStep(f, 0, Record(HEAD_LEN, inner), crc);
  }
}
