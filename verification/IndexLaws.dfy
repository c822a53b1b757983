/** When a field is refused, which fields a known series gets, and what a replayed log says of a series. */
module IndexLaws {
  import opened Bytes
  import opened RecordLog
  import opened ForwardIndex

  // ------------------------------------------------------------------------ adding to a known series

  /** All fields that are known when the `i`-th new one comes, in the order they came */
  function Before(fields: seq<MemField>, more: seq<FieldInfo>, i: nat): (all: seq<MemField>)
    requires i <= |more|
    ensures |all| == |fields| + i
    ensures forall j :: 0 <= j < |fields| ==> all[j] == fields[j]
    ensures forall j :: 0 <= j < i ==> all[|fields| + j] == MemField(more[j].id, more[j].valueType)
  {
    fields + InMemory(more[..i])
  }

  /** The first of the fields with this id */
  ghost predicate FirstWith(all: seq<MemField>, id: U64, j: nat) {
    j < |all| && all[j].id == id && forall k :: 0 <= k < j ==> all[k].id != id
  }

  /** The id of the `i`-th new field is known already, under another type. */
  ghost predicate Clashes(fields: seq<MemField>, more: seq<FieldInfo>, i: nat) {
    && i < |more|
    && var all := Before(fields, more, i);
       exists j: nat :: FirstWith(all, more[i].id, j) && all[j].valueType != more[i].valueType
  }

  /** The fields with an id that none has before them */
  function Fresh(fields: seq<MemField>, more: seq<FieldInfo>): seq<MemField> {
    if more == [] then []
    else
      var n := |more| - 1;
      Fresh(fields, more[..n]) +
      if exists j :: 0 <= j < |fields| + n && Before(fields, more, n)[j].id == more[n].id then []
      else [MemField(more[n].id, more[n].valueType)]
  }

  lemma {:induction false} LookupIsFirst(all: seq<MemField>, id: U64, j: nat)
    requires FirstWith(all, id, j)
    ensures Lookup(all, id) == Ok(all[j].valueType)
    decreases j
  {
    if j > 0 {
      assert all[0].id != id;
      assert forall k :: 0 <= k < |all| - 1 ==> all[1..][k] == all[k + 1];
      LookupIsFirst(all[1..], id, j - 1);
    }
  }

  lemma {:induction false} HasFirst(all: seq<MemField>, id: U64, i: nat) returns (j: nat)
    requires i < |all| && all[i].id == id
    ensures j <= i && FirstWith(all, id, j)
    decreases i
  {
    if k: nat :| k < i && all[k].id == id {
      j := HasFirst(all, id, k);
    } else {
      j := i;
    }
  }

  lemma LookupMore(a: seq<MemField>, x: MemField, id: U64)
    ensures Lookup(a + [x], id) ==
      if Lookup(a, id).Ok? then Lookup(a, id) else if x.id == id then Ok(x.valueType) else Lookup(a, id)
  {
    var all := a + [x];
    if Lookup(a, id).Ok? {
      var i :| 0 <= i < |a| && a[i].id == id;
      var j := HasFirst(a, id, i);
      LookupIsFirst(a, id, j);
      assert FirstWith(all, id, j);
      LookupIsFirst(all, id, j);
    } else if x.id == id {
      LookupIsFirst(all, id, |a|);
    }
  }

  lemma BeforeMore(fields: seq<MemField>, more: seq<FieldInfo>, n: nat)
    requires n < |more|
    ensures Before(fields, more, n + 1) == Before(fields, more, n) + [MemField(more[n].id, more[n].valueType)]
    ensures Before(fields, more[..n], n) == Before(fields, more, n)
    ensures forall i: nat :: i < n ==> Before(fields, more[..n], i) == Before(fields, more, i)
  {
  }

  /** Fields that were there before make no difference to what is known. */
  lemma {:induction false} FreshIsKnown(fields: seq<MemField>, more: seq<FieldInfo>, id: U64)
    ensures Lookup(fields + Fresh(fields, more), id) == Lookup(Before(fields, more, |more|), id)
    decreases |more|
  {
    if more == [] {
      assert fields + Fresh(fields, more) == fields == Before(fields, more, 0);
    } else {
      hide Lookup;
      var n := |more| - 1;
      var x, all := MemField(more[n].id, more[n].valueType), Before(fields, more, n);
      BeforeMore(fields, more, n);
      FreshIsKnown(fields, more[..n], id);
      LookupMore(all, x, id);
      var had := fields + Fresh(fields, more[..n]);
      if j :| 0 <= j < |fields| + n && all[j].id == x.id {
        assert fields + Fresh(fields, more) == had;
        assert Lookup(all, x.id).Ok?;
      } else {
        assert fields + Fresh(fields, more) == had + [x];
        LookupMore(had, x, id);
      }
    }
  }

  lemma NoClashBefore(fields: seq<MemField>, more: seq<FieldInfo>, n: nat)
    requires n <= |more| && forall i :: 0 <= i < n ==> !Clashes(fields, more, i)
    ensures forall i :: 0 <= i < n ==> !Clashes(fields, more[..n], i)
  {
    forall i | 0 <= i < n ensures !Clashes(fields, more[..n], i) {
      assert Before(fields, more[..n], i) == Before(fields, more, i);
      assert !Clashes(fields, more, i);
    }
  }

  lemma MergeField(fields: seq<MemField>, f: FieldInfo)
    ensures Merge(fields, [f]) == match Lookup(fields, f.id)
      case Ok(t) => (fields, if t == f.valueType then Done else Failed(FieldType))
      case Err(_) => (fields + [MemField(f.id, f.valueType)], Done)
  {
    assert [f][1..] == [] && InMemory([f]) == [MemField(f.id, f.valueType)];
  }

  lemma ClashIsLookup(fields: seq<MemField>, more: seq<FieldInfo>, n: nat)
    requires n < |more|
    ensures var known := Lookup(Before(fields, more, n), more[n].id);
      Clashes(fields, more, n) <==> known.Ok? && known.value != more[n].valueType
  {
    hide Lookup;
    var all, id := Before(fields, more, n), more[n].id;
    if i :| 0 <= i < |all| && all[i].id == id {
      var j := HasFirst(all, id, i);
      LookupIsFirst(all, id, j);
    }
  }

  /** One more field, after those that clash with none */
  lemma LastMerged(fields: seq<MemField>, more: seq<FieldInfo>)
    requires more != [] && Merge(fields, more[..|more| - 1]) == (fields + Fresh(fields, more[..|more| - 1]), Done)
    ensures var n := |more| - 1;
      Merge(fields, more) ==
        if Clashes(fields, more, n) then (fields + Fresh(fields, more[..n]), Failed(FieldType))
        else (fields + Fresh(fields, more), Done)
  {
    hide Lookup, Fresh, Merge, Clashes;
    var n := |more| - 1;
    var f, had := more[n], fields + Fresh(fields, more[..n]);
    assert more[..n] + [f] == more;
    MergeOne(fields, more[..n], f);
    MergeField(had, f);
    FreshIsKnown(fields, more[..n], f.id);
    BeforeMore(fields, more, n);
    ClashIsLookup(fields, more, n);
    FreshLast(fields, more);
    if Lookup(had, f.id).Ok? {
      assert Fresh(fields, more) == Fresh(fields, more[..n]);
    } else {
      assert had + [MemField(f.id, f.valueType)] == fields + Fresh(fields, more);
    }
  }

  lemma FreshLast(fields: seq<MemField>, more: seq<FieldInfo>)
    requires more != []
    ensures var n := |more| - 1;
      Fresh(fields, more) == Fresh(fields, more[..n]) +
        if exists j :: 0 <= j < |fields| + n && Before(fields, more, n)[j].id == more[n].id then []
        else [MemField(more[n].id, more[n].valueType)]
  {
  }

  lemma {:induction false} MergedAll(fields: seq<MemField>, more: seq<FieldInfo>)
    requires forall i :: 0 <= i < |more| ==> !Clashes(fields, more, i)
    ensures Merge(fields, more) == (fields + Fresh(fields, more), Done)
    decreases |more|
  {
    if more == [] {
      assert fields + Fresh(fields, more) == fields;
    } else {
      var n := |more| - 1;
      NoClashBefore(fields, more, n);
      MergedAll(fields, more[..n]);
      LastMerged(fields, more);
    }
  }

  lemma {:induction false} MergeStops(fields: seq<MemField>, a: seq<FieldInfo>, b: seq<FieldInfo>)
    requires Merge(fields, a).1 != Done
    ensures Merge(fields, a + b) == Merge(fields, a)
    decreases |a|
  {
    assert (a + b)[0] == a[0] && (a + b)[1..] == a[1..] + b;
    match Lookup(fields, a[0].id)
    case Ok(t) => if t == a[0].valueType { MergeStops(fields, a[1..], b); }
    case Err(_) => MergeStops(fields + InMemory([a[0]]), a[1..], b);
  }

  lemma MergedUpTo(fields: seq<MemField>, more: seq<FieldInfo>, i: nat)
    requires Clashes(fields, more, i) && forall k :: 0 <= k < i ==> !Clashes(fields, more, k)
    ensures Merge(fields, more) == (fields + Fresh(fields, more[..i]), Failed(FieldType))
  {
    hide Lookup, Fresh, Merge;
    NoClashBefore(fields, more, i);
    MergedAll(fields, more[..i]);
    assert more[..i + 1][..i] == more[..i] && Before(fields, more[..i + 1], i) == Before(fields, more, i);
    LastMerged(fields, more[..i + 1]);
    assert more[..i + 1] + more[i + 1..] == more;
    MergeStops(fields, more[..i + 1], more[i + 1..]);
  }

  lemma {:induction false} FirstClash(fields: seq<MemField>, more: seq<FieldInfo>, i: nat) returns (k: nat)
    requires Clashes(fields, more, i)
    ensures k <= i && Clashes(fields, more, k) && forall j :: 0 <= j < k ==> !Clashes(fields, more, j)
    decreases i
  {
    if j: nat :| j < i && Clashes(fields, more, j) {
      k := FirstClash(fields, more, j);
    } else {
      k := i;
    }
  }

  /**
   * Adding fails for a field type if and only if the series is known and some new field has an id that is known, from
   * the index or from an earlier new field, under another type.
   */
  lemma RefusedExactlyWhen(m: Fields, info: SeriesInfo)
    ensures Added(m, info).1 == Failed(FieldType) <==>
      info.id in m && exists i :: 0 <= i < |info.fields| && Clashes(m[info.id], info.fields, i)
    ensures Added(m, info).1 == Failed(FieldType) || Added(m, info).1 == Done
  {
    hide Merge, Clashes;
    if info.id in m {
      if i :| 0 <= i < |info.fields| && Clashes(m[info.id], info.fields, i) {
        var k := FirstClash(m[info.id], info.fields, i);
        MergedUpTo(m[info.id], info.fields, k);
      } else {
        MergedAll(m[info.id], info.fields);
      }
    }
  }

  /** The series has its old fields and then the new ones that come before the first clash; no other series changes. */
  lemma AddedFields(m: Fields, info: SeriesInfo, n: nat)
    requires info.id in m && n <= |info.fields| && (n < |info.fields| ==> Clashes(m[info.id], info.fields, n))
    requires forall i :: 0 <= i < n ==> !Clashes(m[info.id], info.fields, i)
    ensures Added(m, info).0 == m[info.id := m[info.id] + Fresh(m[info.id], info.fields[..n])]
  {
    hide Merge, Clashes, Fresh;
    if n < |info.fields| {
      MergedUpTo(m[info.id], info.fields, n);
    } else {
      assert info.fields[..n] == info.fields;
      MergedAll(m[info.id], info.fields);
    }
  }

  ghost predicate Distinct(fields: seq<MemField>) {
    forall i, j :: 0 <= i < j < |fields| ==> fields[i].id != fields[j].id
  }

  /** Some field before the `i`-th new one has its id and not its type. */
  ghost predicate Differs(fields: seq<MemField>, more: seq<FieldInfo>, i: nat, j: nat) {
    && i < |more| && j < |fields| + i
    && var x := Before(fields, more, i)[j]; x.id == more[i].id && x.valueType != more[i].valueType
  }

  lemma {:induction false} DiffersClashes(fields: seq<MemField>, more: seq<FieldInfo>, i: nat, j: nat) returns (k: nat)
    requires Distinct(fields) && Differs(fields, more, i, j)
    ensures k <= i && Clashes(fields, more, k)
    decreases i
  {
    var all := Before(fields, more, i);
    var first := HasFirst(all, more[i].id, j);
    if all[first].valueType != more[i].valueType {
      k := i;
    } else {
      assert |fields| <= j;
      assert Before(fields, more, j - |fields|)[first] == all[first];
      k := DiffersClashes(fields, more, j - |fields|, first);
    }
  }

  /** Where no two fields of the series have one id, it does not matter which of the known fields is the first. */
  lemma RefusedForAnyDifference(m: Fields, info: SeriesInfo)
    requires info.id in m && Distinct(m[info.id])
    ensures Added(m, info).1 == Failed(FieldType) <==> exists i, j :: Differs(m[info.id], info.fields, i, j)
  {
    hide Merge, Added;
    RefusedExactlyWhen(m, info);
    if i, j :| Differs(m[info.id], info.fields, i, j) {
      var k := DiffersClashes(m[info.id], info.fields, i, j);
    }
    if i :| 0 <= i < |info.fields| && Clashes(m[info.id], info.fields, i) {
      var all := Before(m[info.id], info.fields, i);
      var j: nat :| FirstWith(all, info.fields[i].id, j) && all[j].valueType != info.fields[i].valueType;
      assert Differs(m[info.id], info.fields, i, j);
    }
  }

  // ------------------------------------------------------------------------ replay

  /** The record says something of this series: it is of version 1, and adds (1) or deletes (2) it. */
  ghost predicate Speaks(e: Entry, id: U64, decode: seq<Byte> -> SeriesInfo) {
    && e.version == 1
    && (|| (e.kind == 1 && decode(e.data).id == id)
        || (e.kind == 2 && |e.data| == 8 && FromLe(e.data) == id))
  }

  /** The last record that says anything of a series decides: its fields are those, or it is not there. */
  lemma {:induction false} LastWordCounts(es: seq<Entry>, id: U64, decode: seq<Byte> -> SeriesInfo, n: nat)
    requires n <= |es| && (n > 0 ==> Speaks(es[n - 1], id, decode))
    requires forall j :: n <= j < |es| ==> !Speaks(es[j], id, decode)
    ensures id in Replay(es, decode) <==> n > 0 && es[n - 1].kind == 1
    ensures id in Replay(es, decode) ==> Replay(es, decode)[id] == InMemory(decode(es[n - 1].data).fields)
    decreases |es|
  {
    if es != [] && n < |es| {
      var last := es[|es| - 1];
      assert !Speaks(last, id, decode);
      LastWordCounts(es[..|es| - 1], id, decode, n);
    }
  }
}
