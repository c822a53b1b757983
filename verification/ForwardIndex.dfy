/** The index of series, kept in memory and in a record log, and rebuilt by replaying the log. */
module ForwardIndex {
  import opened Bytes
  import opened PagedFile
  import opened RecordLog
  import opened RecordFile

  const VERSION: Byte := 1
  const ADD: Byte := 1
  const DELETE: Byte := 2

  type U64 = x: int | 0 <= x < 0x1_0000_0000_0000_0000

  datatype ValueType = Unknown | Float | Integer | Unsigned | Boolean | Text

  datatype Tag = Tag(key: seq<Byte>, value: seq<Byte>)
  datatype FieldInfo = FieldInfo(id: U64, name: seq<Byte>, valueType: ValueType)
  datatype SeriesInfo = SeriesInfo(id: U64, tags: seq<Tag>, fields: seq<FieldInfo>)

  datatype MemField = MemField(id: U64, valueType: ValueType)
  datatype MemSeries = MemSeries(pos: nat, fields: seq<MemField>)

  datatype IndexError = FieldType | Action | Version | ReadFile | TooLong
  datatype Outcome = Done | Failed(error: IndexError)

  type Fields = map<U64, seq<MemField>>

  function InMemory(fields: seq<FieldInfo>): (r: seq<MemField>)
    ensures |r| == |fields|
    ensures forall i :: 0 <= i < |r| ==> r[i].id == fields[i].id && r[i].valueType == fields[i].valueType
  {
    seq(|fields|, i requires 0 <= i < |fields| => MemField(fields[i].id, fields[i].valueType))
  }

  // ------------------------------------------------------------------------ replay

  /** `handle_record`, positions aside */
  function Apply(m: Fields, e: Entry, decode: seq<Byte> -> SeriesInfo): Fields {
    if e.version != VERSION then m
    else if e.kind == ADD then var info := decode(e.data); m[info.id := InMemory(info.fields)]
    else if e.kind == DELETE && |e.data| == 8 then m - {DecodeId(e.data)}
    else m
  }

  function DecodeId(b: seq<Byte>): U64
    requires |b| == 8
  {
    Pow256Is();
    FromLe(b)
  }

  function Replay(es: seq<Entry>, decode: seq<Byte> -> SeriesInfo): Fields {
    if es == [] then map[] else Apply(Replay(es[..|es| - 1], decode), es[|es| - 1], decode)
  }

  /** The records replayed one after the other, onto an index */
  function ReplayFrom(m: Fields, rs: seq<Record>, decode: seq<Byte> -> SeriesInfo): Fields
    decreases |rs|
  {
    if rs == [] then m else ReplayFrom(Apply(m, rs[0].entry, decode), rs[1..], decode)
  }

  lemma {:induction false} ReplayFromMore(m: Fields, rs: seq<Record>, r: Record, decode: seq<Byte> -> SeriesInfo)
    ensures ReplayFrom(m, rs + [r], decode) == Apply(ReplayFrom(m, rs, decode), r.entry, decode)
    decreases |rs|
  {
    hide Apply;
    if rs == [] {
      assert rs + [r] == [r];
      assert ReplayFrom(m, [r], decode) == ReplayFrom(Apply(m, r.entry, decode), [], decode);
    } else {
      assert (rs + [r])[1..] == rs[1..] + [r];
      ReplayFromMore(Apply(m, rs[0].entry, decode), rs[1..], r, decode);
    }
  }

  lemma {:induction false} ReplayIs(es: seq<Entry>, crc: Crc, decode: seq<Byte> -> SeriesInfo)
    requires Framable(es)
    ensures ReplayFrom(map[], Records(es, crc), decode) == Replay(es, decode)
    decreases |es|
  {
    hide Apply, Log, ReplayFrom;
    if es == [] {
      ReplayNone(decode);
    } else {
      var init := es[..|es| - 1];
      ReplayIs(init, crc, decode);
      ReplayFromMore(map[], Records(init, crc), Record(|Log(init, crc)|, es[|es| - 1]), decode);
    }
  }

  lemma ReplayNone(decode: seq<Byte> -> SeriesInfo)
    ensures ReplayFrom(map[], [], decode) == map[]
  {
  }

  // ------------------------------------------------------------------------ adding to a known series

  /** The type of the first field with this id */
  function Lookup(fields: seq<MemField>, id: U64): (r: Result<ValueType>)
    ensures r.Err? <==> forall i :: 0 <= i < |fields| ==> fields[i].id != id
    ensures r.Err? ==> r == Err(InvalidPos)
  {
    if fields == [] then Err(InvalidPos)
    else if fields[0].id == id then Ok(fields[0].valueType)
    else
      var r := Lookup(fields[1..], id);
      assert forall i :: 1 <= i < |fields| ==> fields[i] == fields[1..][i - 1];
      r
  }

  /** Fields that are new are added in order, until one clashes with the type it is known by. */
  function Merge(fields: seq<MemField>, more: seq<FieldInfo>): (seq<MemField>, Outcome)
    decreases |more|
  {
    if more == [] then (fields, Done)
    else
      match Lookup(fields, more[0].id)
      case Ok(t) => if t == more[0].valueType then Merge(fields, more[1..]) else (fields, Failed(FieldType))
      case Err(_) => Merge(fields + InMemory([more[0]]), more[1..])
  }

  lemma {:induction false} MergeOne(fields: seq<MemField>, more: seq<FieldInfo>, f: FieldInfo)
    requires Merge(fields, more).1 == Done
    ensures Merge(fields, more + [f]) == Merge(Merge(fields, more).0, [f])
    decreases |more|
  {
    if more != [] {
      assert (more + [f])[0] == more[0] && (more + [f])[1..] == more[1..] + [f];
      match Lookup(fields, more[0].id)
      case Ok(_) => MergeOne(fields, more[1..], f);
      case Err(_) => MergeOne(fields + InMemory([more[0]]), more[1..], f);
    } else {
      assert more + [f] == [f];
    }
  }

  /** A step of the merge that adds the field, or finds it known */
  lemma MergeAdds(fields: seq<MemField>, f: FieldInfo)
    ensures Lookup(fields, f.id) == Ok(f.valueType) ==> Merge(fields, [f]) == (fields, Done)
    ensures Lookup(fields, f.id).Err? ==> Merge(fields, [f]) == (fields + InMemory([f]), Done)
  {
    assert [f][1..] == [];
  }

  /** The first fields of `info` are in the index, and no more. */
  ghost predicate Partly(m: Fields, r: Fields, info: SeriesInfo) {
    || (info.id !in m && r == m)
    || (info.id in m && exists k: nat :: k < |info.fields| && (r, Done) == Added(m, info.(fields := info.fields[..k])))
  }

  /** What `add_series_info_if_not_exists` makes of the index */
  function Added(m: Fields, info: SeriesInfo): (Fields, Outcome) {
    if info.id in m then
      var (fields, outcome) := Merge(m[info.id], info.fields);
      (m[info.id := fields], outcome)
    else (m[info.id := InMemory(info.fields)], Done)
  }

  method Find(fields: seq<MemField>, f: FieldInfo) returns (known: bool, clash: bool)
    ensures known <==> Lookup(fields, f.id) == Ok(f.valueType)
    ensures clash <==> Lookup(fields, f.id).Ok? && !known
  {
    var i := 0;
    while i < |fields|
      invariant i <= |fields| && Lookup(fields, f.id) == Lookup(fields[i..], f.id)
    {
      if fields[i].id == f.id {
        return fields[i].valueType == f.valueType, fields[i].valueType != f.valueType;
      }
      i := i + 1;
    }
    return false, false;
  }

  class ForwardIndex {
    const file: File
    const writer: Writer
    const reader: Reader
    const encode: SeriesInfo -> seq<Byte>
    const decode: seq<Byte> -> SeriesInfo
    var series: map<U64, MemSeries>
    ghost var log: seq<Entry>

    ghost predicate Wired()
    {
      && writer.file == file && reader.file == file && writer.crc == reader.crc
      && forall s :: decode(encode(s)) == s
    }

    /** The index as a map from series to fields */
    ghost function View(): Fields
      reads this
    {
      map id | id in series :: series[id].fields
    }

    /** There is a record at the position, and it is this series. */
    ghost predicate At(f: seq<Byte>, id: U64, s: MemSeries) {
      && OneAt(f, s.pos).Ok?
      && var e := OneAt(f, s.pos).value.entry;
         e.version == VERSION && e.kind == ADD && decode(e.data).id == id && InMemory(decode(e.data).fields) == s.fields
    }

    /** The file is the log. */
    ghost predicate Logged()
      reads this`log, file
    {
      Wired() && file.Valid() && Framable(log) && file.Flat() == Log(log, writer.crc)
    }

    /** A session on a log that was empty */
    ghost predicate Valid()
      reads this, file
    {
      && Logged()
      && View() == Replay(log, decode)
      && forall id :: id in series ==> At(file.Flat(), id, series[id])
    }

    constructor (file: File, writer: Writer, reader: Reader, encode: SeriesInfo -> seq<Byte>, decode: seq<Byte> -> SeriesInfo)
      requires file.Valid() && file.Flat() == []
      requires writer.file == file && reader.file == file && writer.crc == reader.crc
      requires forall s :: decode(encode(s)) == s
      ensures Valid() && View() == map[]
    {
      this.file, this.writer, this.reader := file, writer, reader;
      this.encode, this.decode := encode, decode;
      series := map[];
      log := [];
    }

    /** A record is appended, and the log with it. */
    method Append(e: Entry) returns (pos: nat)
      requires Logged() && |e.data| < 0x1_0000_0000
      modifies this`log, file
      ensures Logged() && log == old(log) + [e] && OneAt(file.Flat(), pos) == Ok(Record(pos, e))
      ensures Replay(log, decode) == Apply(Replay(old(log), decode), e, decode)
      ensures forall id, s: MemSeries :: At(old(file.Flat()), id, s) ==> At(file.Flat(), id, s)
    {
      hide OneAt, File.Flat, Replay, Apply, Frame;
      ghost var f := file.Flat();
      pos := writer.WriteRecord(e);
      log := log + [e];
      assert log[..|log| - 1] == old(log);
      assert Replay(log, decode) == Apply(Replay(old(log), decode), e, decode) by { ReplayMore(old(log), e, decode); }
      OneAtFrame(f, e, writer.crc, []);
      assert f + Frame(e, writer.crc) + [] == f + Frame(e, writer.crc);
      forall id, s: MemSeries | At(f, id, s) ensures At(file.Flat(), id, s) {
        OneAtGrows(f, s.pos, Frame(e, writer.crc));
      }
    }

    /** The series is written anew at the end of the log, and known by that position. */
    method Put(info: SeriesInfo) returns (r: Outcome)
      requires Valid()
      modifies this, file
      ensures Valid() && (r == Done || r == Failed(TooLong))
      ensures View() == if r == Done then old(View())[info.id := InMemory(info.fields)] else old(View())
    {
      hide OneAt, File.Flat, Log, Replay;
      var data := encode(info);
      if |data| >= 0x1_0000_0000 {
        return Failed(TooLong);
      }
      var pos := Append(Entry(VERSION, ADD, data));
      series := series[info.id := MemSeries(pos, InMemory(info.fields))];
      assert View() == old(View())[info.id := InMemory(info.fields)];
      return Done;
    }

    static function Widened(info: SeriesInfo, f: FieldInfo): SeriesInfo {
      info.(fields := info.fields + [f])
    }

    /**
     * A new field of a known series: the record at its position is read back, whatever series it is of, and written again
     * with the field; in memory the field goes to the series asked for.
     */
    method AddField(id: U64, f: FieldInfo) returns (r: Outcome)
      requires Logged() && id in series && series[id].pos <= file.len
      modifies this, file
      ensures Logged()
      ensures r != Done ==> log == old(log) && series == old(series)
      ensures var one := OneAt(old(file.Flat()), old(series[id].pos));
        && (r == Failed(ReadFile) <==> one.Err?)
        && (r == Failed(Action) <==> one.Ok? && one.value.entry.kind != ADD)
        && (r == Failed(Version) <==> one.Ok? && one.value.entry.kind == ADD && one.value.entry.version != VERSION)
        && r != Failed(FieldType)
      ensures r == Done ==>
        && View() == old(View())[id := old(View())[id] + InMemory([f])]
        && OneAt(old(file.Flat()), old(series[id].pos)).Ok?
        && log == old(log) +
                  [Entry(VERSION, ADD, encode(Widened(decode(OneAt(old(file.Flat()), old(series[id].pos)).value.entry.data), f)))]
        && Replay(log, decode) == Apply(Replay(old(log), decode), log[|log| - 1], decode)
      ensures old(Valid()) ==> Valid() && (r == Done || r == Failed(TooLong))
    {
      hide File.Flat, Log, Replay, File.ByteAt, MagicAt, SizeAt, OneAt;
      var one := reader.ReadOne(series[id].pos);
      if one.Err? {
        return Failed(ReadFile);
      }
      var e := one.value.entry;
      if e.kind != ADD {
        return Failed(Action);
      }
      if e.version != VERSION {
        return Failed(Version);
      }
      var info := Widened(decode(e.data), f);
      assert InMemory(info.fields) == InMemory(decode(e.data).fields) + InMemory([f]);
      var data := encode(info);
      if |data| >= 0x1_0000_0000 {
        return Failed(TooLong);
      }
      var pos := Append(Entry(VERSION, ADD, data));
      series := series[id := MemSeries(pos, series[id].fields + InMemory([f]))];
      assert View() == old(View())[id := old(View())[id] + InMemory([f])];
      return Done;
    }

    /**
     * After a replay, a field added to a series other than that of the first record is written under the first record's
     * series: the next replay gives it to that one, and not to the series that has it in memory.
     */
    method AddFieldAfterReplay(id: U64, f: FieldInfo) returns (r: Outcome)
      requires Logged() && View() == Replay(log, decode) && id in series && series[id].pos == 0
      requires log != [] && log[0].version == VERSION && log[0].kind == ADD && decode(log[0].data).id != id
      modifies this, file
      ensures r == Done || r == Failed(TooLong)
      ensures r == Done ==>
        var first := decode(old(log)[0].data);
        && View() == old(View())[id := old(View())[id] + InMemory([f])]
        && Replay(log, decode) == old(View())[first.id := InMemory(first.fields + [f])]
        && Replay(log, decode)[id] == old(View())[id] && View() != Replay(log, decode)
    {
      hide File.Flat, Log, Replay, OneAt;
      FirstRecord();
      r := AddField(id, f);
      if r == Done {
        assert |View()[id]| == |old(View())[id]| + 1;
      } else {
        assert r.error.FieldType? || r.error.Action? || r.error.Version? || r.error.ReadFile? || r.error.TooLong?;
      }
    }

    lemma InFile(id: U64)
      requires Valid() && id in series
      ensures series[id].pos <= file.len
    {
    }

    lemma FirstRecord()
      requires Logged() && log != []
      ensures OneAt(file.Flat(), 0) == Ok(Record(0, log[0]))
    {
      hide OneAt, File.Flat, Frame;
      var f, crc := file.Flat(), writer.crc;
      LogSplits(log, 0, crc);
      var b := Frame(log[0], crc);
      assert log[..0] == [];
      assert f == [] + b + f[|b|..];
      OneAtFrame([], log[0], crc, f[|b|..]);
    }

    method AddFields(info: SeriesInfo) returns (r: Outcome)
      requires Valid() && info.id in series
      modifies this, file
      ensures Valid()
      ensures if r == Failed(TooLong) then Partly(old(View()), View(), info) else (View(), r) == Added(old(View()), info)
    {
      hide File.Flat, Log, Replay, Lookup, At;
      ghost var m := View();
      var i := 0;
      assert m == m[info.id := m[info.id]];
      assert info.fields[0..] == info.fields;
      while i < |info.fields|
        invariant i <= |info.fields| && Valid() && info.id in series
        invariant View() == m[info.id := View()[info.id]]
        invariant Merge(m[info.id], info.fields) == Merge(View()[info.id], info.fields[i..])
        invariant Merge(m[info.id], info.fields[..i]) == (View()[info.id], Done)
      {
        var f := info.fields[i];
        var known, clash := Find(series[info.id].fields, f);
        assert info.fields[i..][0] == f && info.fields[i..][1..] == info.fields[i + 1..];
        assert info.fields[..i + 1] == info.fields[..i] + [f];
        MergeOne(m[info.id], info.fields[..i], f);
        MergeAdds(View()[info.id], f);
        if clash {
          return Failed(FieldType);
        }
        if !known {
          InFile(info.id);
          r := AddField(info.id, f);
          if r != Done {
            return;
          }
          assert info.id in View();
        }
        i := i + 1;
      }
      return Done;
    }

    /** `add_series_info_if_not_exists` */
    method AddSeriesInfoIfNotExists(info: SeriesInfo) returns (r: Outcome)
      requires Valid()
      modifies this, file
      ensures Valid()
      ensures if r == Failed(TooLong) then Partly(old(View()), View(), info) else (View(), r) == Added(old(View()), info)
    {
      hide File.Flat, Log, Replay, At, Merge;
      if info.id in series {
        r := AddFields(info);
      } else {
        r := Put(info);
      }
    }

    /** `del_series_info` */
    method DelSeriesInfo(id: U64)
      requires Valid()
      modifies this, file
      ensures Valid() && View() == old(View()) - {id}
    {
      hide OneAt, File.Flat, Log, Replay;
      if id in series {
        Pow256Is();
        LeRoundTrip(id, 8);
        var pos := Append(Entry(VERSION, DELETE, ToLe(id, 8)));
        series := series - {id};
        assert View() == old(View()) - {id};
      } else {
        assert View() == old(View()) - {id};
      }
    }

    /** `handle_record` */
    method HandleRecord(e: Entry)
      modifies this`series
      ensures View() == Apply(old(View()), e, decode)
      ensures forall id :: id in series ==> series[id].pos == 0 || (id in old(series) && series[id] == old(series)[id])
    {
      if e.version != VERSION {
        return;
      }
      if e.kind == ADD {
        var info := decode(e.data);
        series := series[info.id := MemSeries(0, InMemory(info.fields))];
      } else if e.kind == DELETE {
        if |e.data| != 8 {
          return;
        }
        series := series - {DecodeId(e.data)};
      }
      assert View() == Apply(old(View()), e, decode);
    }

    /** `load_cache_file`: every record a new reader finds, replayed; the positions are not restored. */
    method LoadCacheFile()
      requires file.Valid()
      modifies this`series
      ensures View() == ReplayFrom(old(View()), ReadAll(file.Flat(), 0, reader.crc), decode)
      ensures forall id :: id in series ==> series[id].pos == 0 || (id in old(series) && series[id] == old(series)[id])
    {
      hide Apply, File.Flat, Scan, Reader.Valid;
      var rd := new Reader(file, reader.crc);
      ghost var f := file.Flat();
      ghost var all := ReplayFrom(View(), ReadAll(f, 0, reader.crc), decode);
      var more := true;
      while more
        invariant rd.Valid() && rd.file == file && rd.crc == reader.crc && file.Flat() == f
        invariant more ==> rd.pos <= |f| && all == ReplayFrom(View(), ReadAll(f, rd.pos, reader.crc), decode)
        invariant !more ==> all == View()
        invariant forall id :: id in series ==> series[id].pos == 0 || (id in old(series) && series[id] == old(series)[id])
        decreases more, if more then |f| - rd.pos else 0
      {
        ghost var p := rd.pos;
        var r := rd.ReadRecord();
        if r.Ok? {
          ReadAllStep(f, p, r.value, reader.crc);
          ScanFrom(f, p, reader.crc);
          HandleRecord(r.value.entry);
        } else {
          more := false;
        }
      }
    }

    /** Replaying the log of a session rebuilds the index, if a reader's buffer can hold every record. */
    lemma ReplayRebuilds()
      requires Valid() && Fits(log)
      ensures ReplayFrom(map[], ReadAll(file.Flat(), 0, writer.crc), decode) == View()
    {
      hide ReadAll, Records, Replay, ReplayFrom, File.Flat, Log;
      LogRoundTrip(log, writer.crc);
      ReplayIs(log, writer.crc, decode);
    }

    /** After a replay the position is right only for a series that the first record of the log adds. */
    lemma ReplayedPosition(id: U64, fields: seq<MemField>)
      requires Valid() && log != [] && log[0].version == VERSION && log[0].kind == ADD
      ensures At(file.Flat(), id, MemSeries(0, fields)) <==>
              id == decode(log[0].data).id && fields == InMemory(decode(log[0].data).fields)
    {
      hide OneAt, File.Flat, Replay, View, Log;
      FirstRecord();
    }
  }

  lemma ReplayMore(es: seq<Entry>, e: Entry, decode: seq<Byte> -> SeriesInfo)
    ensures Replay(es + [e], decode) == Apply(Replay(es, decode), e, decode)
  {
    assert (es + [e])[..|es|] == es;
  }
}
