/** Ordered schemas: edits on an index map agree with plain list edits. */
module SchemaEdits {
  import opened Options

  datatype Field<D> = Field(name: string, dtype: D)

  ghost predicate UniqueNames<D(!new)>(fields: seq<Field<D>>) {
    forall i, j :: 0 <= i < j < |fields| ==> fields[i].name != fields[j].name
  }

  /** `get_index_of`. */
  function IndexOf<D>(fields: seq<Field<D>>, name: string): (r: Option<nat>)
    ensures r.Some? ==> r.value < |fields| && fields[r.value].name == name
    ensures r.None? ==> forall i :: 0 <= i < |fields| ==> fields[i].name != name
  {
    if fields == [] then None
    else if fields[|fields| - 1].name == name then Some(|fields| - 1)
    else IndexOf(fields[..|fields| - 1], name)
  }

  /** The fields with another name. */
  function Without<D>(fields: seq<Field<D>>, name: string): seq<Field<D>> {
    if fields == [] then []
    else
      var last := fields[|fields| - 1];
      Without(fields[..|fields| - 1], name) + if last.name == name then [] else [last]
  }

  lemma {:induction false} WithoutAbsent<D>(fields: seq<Field<D>>, name: string)
    requires forall i :: 0 <= i < |fields| ==> fields[i].name != name
    ensures Without(fields, name) == fields
  {
    if fields != [] {
      WithoutAbsent(fields[..|fields| - 1], name);
    }
  }

  lemma {:induction false} WithoutPresent<D(!new)>(fields: seq<Field<D>>, p: nat)
    requires UniqueNames(fields) && p < |fields|
    ensures Without(fields, fields[p].name) == fields[..p] + fields[p + 1..]
  {
    var k := |fields| - 1;
    if p == k {
      WithoutAbsent(fields[..k], fields[p].name);
      assert fields[p + 1..] == [];
    } else {
      WithoutPresent(fields[..k], p);
      assert fields[..k][..p] == fields[..p];
      assert fields[..k][p + 1..] + [fields[k]] == fields[p + 1..];
    }
  }

  /** The field named `name` placed at `index`, or at the end, among the other fields in their order. */
  function Placed<D>(fields: seq<Field<D>>, index: nat, name: string, dtype: D): seq<Field<D>> {
    var others := Without(fields, name);
    var i := if index <= |others| then index else |others|;
    others[..i] + [Field(name, dtype)] + others[i..]
  }

  // The operations of the index map.

  /** `insert_full`: overwrite in place, or append; returns where the field now is. */
  function InsertFull<D>(fields: seq<Field<D>>, name: string, dtype: D): (nat, Option<D>, seq<Field<D>>) {
    match IndexOf(fields, name)
    case Some(i) => (i, Some(fields[i].dtype), fields[i := Field(name, dtype)])
    case None => (|fields|, None, fields + [Field(name, dtype)])
  }

  /** `move_index`: the entry leaves `from`, the others close up, and it arrives at `to`. */
  function MoveIndex<D>(fields: seq<Field<D>>, from: nat, to: nat): seq<Field<D>>
    requires from < |fields| && to < |fields|
  {
    var others := fields[..from] + fields[from + 1..];
    others[..to] + [fields[from]] + others[to..]
  }

  /** `swap_remove_full`: the last entry takes the place of the removed one. */
  function SwapRemove<D>(fields: seq<Field<D>>, i: nat): (r: seq<Field<D>>)
    requires i < |fields|
    ensures |r| == |fields| - 1
  {
    var k := |fields| - 1;
    if i == k then fields[..k] else fields[..k][i := fields[k]]
  }

  datatype Inserted<D> = Ok(previous: Option<D>) | OutOfBounds

  datatype Renamed = NotFound | From(previous: string) | Panic

  class Schema<D(!new)> {
    var fields: seq<Field<D>>

    constructor ()
      ensures fields == []
    {
      fields := [];
    }

    method InsertAtIndex(index: nat, name: string, dtype: D) returns (r: Inserted<D>)
      requires UniqueNames(fields)
      modifies this
      ensures UniqueNames(fields)
      ensures r.OutOfBounds? <==> index > |old(fields)|
      ensures r.OutOfBounds? ==> fields == old(fields)
      ensures r.Ok? ==> fields == Placed(old(fields), index, name, dtype)
      ensures r.Ok? ==> r.previous == match IndexOf(old(fields), name) { case None => None case Some(p) => Some(old(fields)[p].dtype) }
    {
      if index > |fields| {
        return OutOfBounds;
      }
      var (oldIndex, oldDtype, inserted) := InsertFull(fields, name, dtype);
      fields := inserted;
      var to := index;
      if oldDtype.Some? && index == |fields| {
        to := index - 1;
      }
      MoveIsPlaced(old(fields), index, name, dtype);
      PlacedUnique(old(fields), index, name, dtype);
      fields := MoveIndex(fields, oldIndex, to);
      r := Ok(oldDtype);
    }

    /** Builds a new schema and leaves this one alone. */
    method NewInsertingAtIndex(index: nat, name: string, dtype: D) returns (r: Option<Schema<D>>)
      requires UniqueNames(fields)
      ensures r.None? <==> index > |fields|
      ensures r.Some? ==> fresh(r.value) && r.value.fields == Placed(fields, index, name, dtype)
      ensures r.Some? ==> UniqueNames(r.value.fields)
    {
      if index > |fields| {
        return None;
      }
      var head, k := TakeOthers(fields, index, name);
      var tail := CopyOthers(fields, k, name);
      PlacedFromParts(fields, index, name, dtype, k);
      PlacedUnique(fields, index, name, dtype);
      var copy := new Schema<D>();
      copy.fields := head + [Field(name, dtype)] + tail;
      r := Some(copy);
    }

    /** `merge` and `merge_from_ref`. */
    method Merge(other: seq<Field<D>>)
      requires UniqueNames(fields) && UniqueNames(other)
      modifies this
      ensures fields == Updated(old(fields), other) + Added(old(fields), other)
      ensures UniqueNames(fields)
    {
      assert other[..0] == [];
      for k := 0 to |other|
        invariant fields == MergedFields(old(fields), other[..k])
      {
        assert other[..k + 1][..k] == other[..k];
        var (_, _, inserted) := InsertFull(fields, other[k].name, other[k].dtype);
        fields := inserted;
      }
      assert other[..|other|] == other;
      MergeShape(old(fields), other);
      MergedUnique(old(fields), other);
    }

    /** Swap-removes the old entry, inserts the new one, and swaps it back into place. */
    method Rename(oldName: string, newName: string) returns (r: Renamed)
      requires UniqueNames(fields)
      modifies this
      ensures r.NotFound? <==> IndexOf(old(fields), oldName).None?
      ensures r.NotFound? ==> fields == old(fields)
      ensures r.From? ==> r.previous == oldName
      ensures RenameIsEdit(old(fields), oldName, newName) ==>
                r.From? && fields == Edited(old(fields), oldName, newName) && UniqueNames(fields)
      ensures !r.NotFound? ==> Moved(old(fields), IndexOf(old(fields), oldName).value, newName, fields)
      ensures !r.NotFound? && !RenameIsEdit(old(fields), oldName, newName) ==>
                fields == Displaced(old(fields), IndexOf(old(fields), oldName).value, newName)
      ensures r.Panic? <==> !r.NotFound? && !RenameIsEdit(old(fields), oldName, newName)
                            && IndexOf(old(fields), oldName) == Some(|old(fields)| - 1)
    {
      var found := IndexOf(fields, oldName);
      if found.None? {
        return NotFound;
      }
      var oldIndex := found.value;
      var dtype := fields[oldIndex].dtype;
      RenameExact(fields, oldIndex, newName);
      RenameMoves(fields, oldIndex, newName);
      if !RenameIsEdit(fields, oldName, newName) {
        RenameTaken(fields, oldIndex, newName);
      }
      hide RenameIsEdit, UniqueNames, Moved, Displaced;
      fields := SwapRemove(fields, oldIndex);
      var (newIndex, _, inserted) := InsertFull(fields, newName, dtype);
      fields := inserted;
      if oldIndex >= |fields| {
        return Panic;
      }
      SwapMoves(old(fields), oldIndex, newName, fields, newIndex);
      fields := SwapIndices(fields, oldIndex, newIndex);
      r := From(oldName);
    }
  }

  // Merging.

  /** Inserts the fields one after the other. */
  function MergedFields<D>(fields: seq<Field<D>>, other: seq<Field<D>>): seq<Field<D>> {
    if other == [] then fields
    else
      var k := |other| - 1;
      InsertFull(MergedFields(fields, other[..k]), other[k].name, other[k].dtype).2
  }

  /** The field of that name in `other`, if there is one. */
  function UpdatedField<D>(f: Field<D>, other: seq<Field<D>>): (r: Field<D>)
    ensures r.name == f.name
  {
    match IndexOf(other, f.name)
    case None => f
    case Some(j) => other[j]
  }

  /** The fields of this schema, with the types that `other` gives them. */
  function Updated<D>(fields: seq<Field<D>>, other: seq<Field<D>>): (r: seq<Field<D>>)
    ensures |r| == |fields|
    ensures forall i :: 0 <= i < |fields| ==> r[i] == UpdatedField(fields[i], other)
  {
    seq(|fields|, i requires 0 <= i < |fields| => UpdatedField(fields[i], other))
  }

  /** The fields of `other` that are new here, in their order. */
  function Added<D>(fields: seq<Field<D>>, other: seq<Field<D>>): (r: seq<Field<D>>)
    ensures forall i :: 0 <= i < |r| ==> r[i] in other && IndexOf(fields, r[i].name).None?
  {
    if other == [] then []
    else
      var k := |other| - 1;
      Added(fields, other[..k]) + if IndexOf(fields, other[k].name).None? then [other[k]] else []
  }

  lemma IndexUnique<D(!new)>(fields: seq<Field<D>>, i: nat, name: string)
    requires i < |fields| && fields[i].name == name
    requires forall j :: 0 <= j < |fields| && j != i ==> fields[j].name != name
    ensures IndexOf(fields, name) == Some(i)
  {
  }

  /** One more field of `other` updates the field of that name. */
  lemma UpdatedNext<D(!new)>(fields: seq<Field<D>>, other: seq<Field<D>>, updated: seq<Field<D>>)
    requires other != []
    requires |updated| == |fields|
    requires forall i :: 0 <= i < |fields| ==>
      updated[i] == if fields[i].name == other[|other| - 1].name then other[|other| - 1]
                    else Updated(fields, other[..|other| - 1])[i]
    ensures Updated(fields, other) == updated
  {
  }

  lemma AddedFresh<D(!new)>(fields: seq<Field<D>>, other: seq<Field<D>>)
    requires UniqueNames(other) && other != []
    ensures var added := Added(fields, other[..|other| - 1]);
            forall i :: 0 <= i < |added| ==> added[i].name != other[|other| - 1].name
  {
    var k := |other| - 1;
    var added := Added(fields, other[..k]);
    forall i | 0 <= i < |added|
      ensures added[i].name != other[k].name
    {
      var j :| 0 <= j < k && other[..k][j] == added[i];
      assert other[j].name != other[k].name;
    }
  }

  lemma InsertFound<D(!new)>(u: seq<Field<D>>, a: seq<Field<D>>, f: Field<D>, i: nat)
    requires i < |u| && u[i].name == f.name
    requires forall j :: 0 <= j < |u| && j != i ==> u[j].name != f.name
    requires forall j :: 0 <= j < |a| ==> a[j].name != f.name
    ensures InsertFull(u + a, f.name, f.dtype).2 == u[i := f] + a
  {
    IndexUnique(u + a, i, f.name);
  }

  lemma InsertAbsent<D(!new)>(u: seq<Field<D>>, a: seq<Field<D>>, f: Field<D>)
    requires forall j :: 0 <= j < |u| ==> u[j].name != f.name
    requires forall j :: 0 <= j < |a| ==> a[j].name != f.name
    ensures InsertFull(u + a, f.name, f.dtype).2 == u + (a + [f])
  {
    assert IndexOf(u + a, f.name).None?;
  }

  /** The merge so far, with one more field inserted. */
  ghost function MergeStep<D(!new)>(fields: seq<Field<D>>, other: seq<Field<D>>): seq<Field<D>>
    requires other != []
  {
    var k := |other| - 1;
    InsertFull(Updated(fields, other[..k]) + Added(fields, other[..k]), other[k].name, other[k].dtype).2
  }

  lemma MergeOld<D(!new)>(fields: seq<Field<D>>, other: seq<Field<D>>, i: nat)
    requires UniqueNames(fields) && UniqueNames(other) && other != []
    requires IndexOf(fields, other[|other| - 1].name) == Some(i)
    ensures MergeStep(fields, other) == Updated(fields, other) + Added(fields, other)
  {
    var k := |other| - 1;
    AddedFresh(fields, other);
    assert Added(fields, other) == Added(fields, other[..k]) + [];
    hide IndexOf, UpdatedField, Added, InsertFull;
    InsertFound(Updated(fields, other[..k]), Added(fields, other[..k]), other[k], i);
    UpdatedNext(fields, other, Updated(fields, other[..k])[i := other[k]]);
  }

  lemma MergeNew<D(!new)>(fields: seq<Field<D>>, other: seq<Field<D>>)
    requires UniqueNames(fields) && UniqueNames(other) && other != []
    requires IndexOf(fields, other[|other| - 1].name).None?
    ensures MergeStep(fields, other) == Updated(fields, other) + Added(fields, other)
  {
    var k := |other| - 1;
    AddedFresh(fields, other);
    assert Added(fields, other) == Added(fields, other[..k]) + [other[k]];
    hide IndexOf, UpdatedField, Added, InsertFull;
    InsertAbsent(Updated(fields, other[..k]), Added(fields, other[..k]), other[k]);
    UpdatedNext(fields, other, Updated(fields, other[..k]));
  }

  /** Shared fields keep their place and take the other's type; new ones are appended in order. */
  lemma {:induction false} MergeShape<D(!new)>(fields: seq<Field<D>>, other: seq<Field<D>>)
    requires UniqueNames(fields) && UniqueNames(other)
    ensures MergedFields(fields, other) == Updated(fields, other) + Added(fields, other)
  {
    if other != [] {
      MergeShape(fields, other[..|other| - 1]);
      var found := IndexOf(fields, other[|other| - 1].name);
      if found.Some? {
        MergeOld(fields, other, found.value);
      } else {
        MergeNew(fields, other);
      }
    }
  }

  /** The first `index` fields with another name, and where the search stopped. */
  method TakeOthers<D>(fields: seq<Field<D>>, index: nat, name: string) returns (head: seq<Field<D>>, k: nat)
    ensures k <= |fields| && head == Without(fields[..k], name) && |head| <= index
    ensures k == |fields| || |head| == index
  {
    head := [];
    k := 0;
    while k < |fields| && |head| < index
      invariant k <= |fields| && |head| <= index
      invariant head == Without(fields[..k], name)
    {
      assert fields[..k + 1][..k] == fields[..k];
      if fields[k].name != name {
        head := head + [fields[k]];
      }
      k := k + 1;
    }
  }

  method CopyOthers<D>(fields: seq<Field<D>>, start: nat, name: string) returns (tail: seq<Field<D>>)
    requires start <= |fields|
    ensures tail == Without(fields[start..], name)
  {
    tail := [];
    for k := start to |fields|
      invariant tail == Without(fields[start..k], name)
    {
      assert fields[start..k + 1][..k - start] == fields[start..k];
      if fields[k].name != name {
        tail := tail + [fields[k]];
      }
    }
    assert fields[start..|fields|] == fields[start..];
  }

  lemma PlacedFromParts<D>(fields: seq<Field<D>>, index: nat, name: string, dtype: D, k: nat)
    requires k <= |fields| && |Without(fields[..k], name)| <= index
    requires k == |fields| || |Without(fields[..k], name)| == index
    ensures Without(fields[..k], name) + [Field(name, dtype)] + Without(fields[k..], name)
         == Placed(fields, index, name, dtype)
  {
    WithoutSplit(fields, k, name);
    var head, tail := Without(fields[..k], name), Without(fields[k..], name);
    if k == |fields| {
      assert fields[k..] == [];
    }
    assert (head + tail)[..|head|] == head && (head + tail)[|head|..] == tail;
  }

  /** `swap_indices`. */
  function SwapIndices<D>(fields: seq<Field<D>>, i: nat, j: nat): seq<Field<D>>
    requires i < |fields| && j < |fields|
  {
    fields[i := fields[j]][j := fields[i]]
  }

  lemma NewNameAbsent<D(!new)>(fields: seq<Field<D>>, p: nat, newName: string)
    requires UniqueNames(fields) && p < |fields| && RenameIsEdit(fields, fields[p].name, newName)
    ensures IndexOf(SwapRemove(fields, p), newName).None?
  {
    SwapRemoveNames(fields, p);
  }

  lemma SwapBack<D(!new)>(fields: seq<Field<D>>, p: nat, f: Field<D>)
    requires p < |fields|
    ensures SwapIndices(SwapRemove(fields, p) + [f], p, |fields| - 1) == fields[p := f]
  {
  }

  lemma NewNamePresent<D(!new)>(fields: seq<Field<D>>, p: nat, newName: string)
    requires UniqueNames(fields) && p < |fields| && IndexOf(fields, fields[p].name).Some?
    requires !RenameIsEdit(fields, fields[p].name, newName)
    ensures IndexOf(SwapRemove(fields, p), newName).Some?
  {
    SwapRemoveNames(fields, p);
    var q := IndexOf(fields, newName).value;
    assert SwapRemove(fields, p)[if q == |fields| - 1 then p else q] == fields[q];
  }

  /** What swap-remove, insert and swap amount to: an edit of one name, or the loss of a field. */
  lemma RenameExact<D(!new)>(fields: seq<Field<D>>, p: nat, newName: string)
    requires UniqueNames(fields) && p < |fields| && IndexOf(fields, fields[p].name) == Some(p)
    ensures var removed := SwapRemove(fields, p);
            var (at, _, inserted) := InsertFull(removed, newName, fields[p].dtype);
            && at < |inserted|
            && (RenameIsEdit(fields, fields[p].name, newName) ==>
                  && p < |inserted|
                  && SwapIndices(inserted, p, at) == Edited(fields, fields[p].name, newName)
                  && UniqueNames(Edited(fields, fields[p].name, newName)))
            && (!RenameIsEdit(fields, fields[p].name, newName) ==> |inserted| == |fields| - 1)
  {
    hide UniqueNames, RenameIsEdit, IndexOf, SwapRemove, SwapIndices;
    if RenameIsEdit(fields, fields[p].name, newName) {
      EditUnique(fields, fields[p].name, newName);
      NewNameAbsent(fields, p, newName);
      SwapBack(fields, p, Field(newName, fields[p].dtype));
    } else {
      NewNamePresent(fields, p, newName);
    }
  }

  /** As a set of fields: the type at `p` now goes by the new name, and whoever had that name is gone. */
  ghost predicate Moved<D(!new)>(fields: seq<Field<D>>, p: nat, newName: string, result: seq<Field<D>>)
    requires p < |fields|
  {
    && UniqueNames(result)
    && forall f :: f in result <==>
         f == Field(newName, fields[p].dtype) || (f in fields && f.name != fields[p].name && f.name != newName)
  }

  lemma RemoveKeeps<D(!new)>(fields: seq<Field<D>>, p: nat)
    requires UniqueNames(fields) && p < |fields|
    ensures UniqueNames(SwapRemove(fields, p))
    ensures forall f :: f in SwapRemove(fields, p) <==> f in fields && f.name != fields[p].name
  {
    var k := |fields| - 1;
    SwapRemoveNames(fields, p);
    forall f | f in fields && f.name != fields[p].name
      ensures f in SwapRemove(fields, p)
    {
      var q :| 0 <= q < |fields| && fields[q] == f;
      assert SwapRemove(fields, p)[if q == k then p else q] == f;
    }
  }

  /** Merging keeps names unique. */
  lemma {:induction false} MergedUnique<D(!new)>(fields: seq<Field<D>>, other: seq<Field<D>>)
    requires UniqueNames(fields)
    ensures UniqueNames(MergedFields(fields, other))
  {
    if other != [] {
      var k := |other| - 1;
      MergedUnique(fields, other[..k]);
      hide UniqueNames, InsertFull;
      InsertKeeps(MergedFields(fields, other[..k]), other[k].name, other[k].dtype);
    }
  }

  lemma InsertKeeps<D(!new)>(fields: seq<Field<D>>, name: string, dtype: D)
    requires UniqueNames(fields)
    ensures var r := InsertFull(fields, name, dtype).2;
            && UniqueNames(r)
            && forall f :: f in r <==> f == Field(name, dtype) || (f in fields && f.name != name)
  {
    var r := InsertFull(fields, name, dtype).2;
    assert r[InsertFull(fields, name, dtype).0] == Field(name, dtype);
    forall f | f in fields && f.name != name
      ensures f in r
    {
      var q :| 0 <= q < |fields| && fields[q] == f;
      assert r[q] == f;
    }
  }

  /** Before the swap, and in every case. */
  lemma RenameMoves<D(!new)>(fields: seq<Field<D>>, p: nat, newName: string)
    requires UniqueNames(fields) && p < |fields|
    ensures Moved(fields, p, newName, InsertFull(SwapRemove(fields, p), newName, fields[p].dtype).2)
  {
    hide SwapRemove, InsertFull, UniqueNames;
    RemoveKeeps(fields, p);
    InsertKeeps(SwapRemove(fields, p), newName, fields[p].dtype);
  }

  /** The swap changes positions only. */
  lemma SwapMoves<D(!new)>(fields: seq<Field<D>>, p: nat, newName: string, result: seq<Field<D>>, at: nat)
    requires p < |fields| && p < |result| && at < |result| && Moved(fields, p, newName, result)
    ensures Moved(fields, p, newName, SwapIndices(result, p, at))
  {
    var r := SwapIndices(result, p, at);
    forall f
      ensures f in r <==> f in result
    {
      if f in result {
        var q :| 0 <= q < |result| && result[q] == f;
        assert r[if q == p then at else if q == at then p else q] == f;
      }
    }
  }

  /**
   * Renaming to the name of another field: that field is swap-removed and the renamed one keeps its place.
   * If the renamed field was the last one, it has taken the other's place instead when the swap panics.
   */
  ghost function Displaced<D>(fields: seq<Field<D>>, p: nat, newName: string): seq<Field<D>>
    requires p < |fields| && fields[p].name != newName && IndexOf(fields, newName).Some?
  {
    var q, renamed := IndexOf(fields, newName).value, Field(newName, fields[p].dtype);
    if p == |fields| - 1 then fields[..p][q := renamed] else SwapRemove(fields, q)[p := renamed]
  }

  lemma RenameTaken<D(!new)>(fields: seq<Field<D>>, p: nat, newName: string)
    requires UniqueNames(fields) && p < |fields| && fields[p].name != newName && IndexOf(fields, newName).Some?
    ensures var (at, _, inserted) := InsertFull(SwapRemove(fields, p), newName, fields[p].dtype);
            && at < |inserted|
            && (if p < |inserted| then SwapIndices(inserted, p, at) else inserted) == Displaced(fields, p, newName)
  {
    var k, q := |fields| - 1, IndexOf(fields, newName).value;
    var removed, at := SwapRemove(fields, p), if q == k then p else q;
    TakenIndex(fields, p, q);
    hide UniqueNames, IndexOf;
    assert removed[at := Field(newName, fields[p].dtype)] == InsertFull(removed, newName, fields[p].dtype).2;
  }

  lemma TakenIndex<D(!new)>(fields: seq<Field<D>>, p: nat, q: nat)
    requires UniqueNames(fields) && p < |fields| && q < |fields| && p != q
    ensures IndexOf(SwapRemove(fields, p), fields[q].name) == Some(if q == |fields| - 1 then p else q)
  {
    var k := |fields| - 1;
    var at := if q == k then p else q;
    SwapRemoveNames(fields, p);
    hide SwapRemove;
    assert forall j :: 0 <= j < k && j != at ==> SwapRemove(fields, p)[j].name != fields[q].name;
    IndexUnique(SwapRemove(fields, p), at, fields[q].name);
  }

  /** The name is there, and the new name does not belong to another field. */
  predicate RenameIsEdit<D>(fields: seq<Field<D>>, oldName: string, newName: string) {
    IndexOf(fields, oldName).Some? && (oldName == newName || IndexOf(fields, newName).None?)
  }

  /** Only the one name changes; every field keeps its position. */
  function Edited<D>(fields: seq<Field<D>>, oldName: string, newName: string): seq<Field<D>>
    requires IndexOf(fields, oldName).Some?
  {
    var p := IndexOf(fields, oldName).value;
    fields[p := Field(newName, fields[p].dtype)]
  }

  lemma EditUnique<D(!new)>(fields: seq<Field<D>>, oldName: string, newName: string)
    requires UniqueNames(fields) && RenameIsEdit(fields, oldName, newName)
    ensures UniqueNames(Edited(fields, oldName, newName))
  {
  }

  /** A swap-remove keeps all other fields and drops the name. */
  lemma SwapRemoveNames<D(!new)>(fields: seq<Field<D>>, p: nat)
    requires UniqueNames(fields) && p < |fields|
    ensures forall j :: 0 <= j < |fields| - 1 ==>
      && SwapRemove(fields, p)[j] == fields[if j == p then |fields| - 1 else j]
      && SwapRemove(fields, p)[j].name != fields[p].name
  {
  }

  /** Inserting and then moving the entry places it, for every index up to the length. */
  lemma MoveIsPlaced<D(!new)>(fields: seq<Field<D>>, index: nat, name: string, dtype: D)
    requires UniqueNames(fields) && index <= |fields|
    ensures var (at, previous, inserted) := InsertFull(fields, name, dtype);
            var to := if previous.Some? && index == |inserted| then index - 1 else index;
            at < |inserted| && 0 <= to < |inserted| && MoveIndex(inserted, at, to) == Placed(fields, index, name, dtype)
  {
    match IndexOf(fields, name)
    case None =>
      WithoutAbsent(fields, name);
      var inserted := fields + [Field(name, dtype)];
      assert inserted[..|fields|] + inserted[|fields| + 1..] == fields;
    case Some(p) =>
      WithoutPresent(fields, p);
      var inserted := fields[p := Field(name, dtype)];
      assert inserted[..p] == fields[..p] && inserted[p + 1..] == fields[p + 1..];
  }

  /** The placed field stands at the index, or last, and the other fields are as they were. */
  lemma PlacedMeaning<D(!new)>(fields: seq<Field<D>>, index: nat, name: string, dtype: D)
    requires UniqueNames(fields) && index <= |fields|
    ensures var r := Placed(fields, index, name, dtype);
            && |r| == |fields| + (if IndexOf(fields, name).None? then 1 else 0)
            && r[if index < |r| then index else |r| - 1] == Field(name, dtype)
            && Without(r, name) == Without(fields, name)
  {
    hide UniqueNames;
    var others := Without(fields, name);
    OthersCount(fields, name);
    PlacedUnique(fields, index, name, dtype);
    hide Without, IndexOf;
    PlacedAt(others, Placed(fields, index, name, dtype), if index <= |others| then index else |others|, Field(name, dtype));
  }

  lemma OthersCount<D(!new)>(fields: seq<Field<D>>, name: string)
    requires UniqueNames(fields)
    ensures |Without(fields, name)| == |fields| - (if IndexOf(fields, name).None? then 0 else 1)
  {
    hide UniqueNames;
    match IndexOf(fields, name)
    case None => WithoutAbsent(fields, name);
    case Some(p) => WithoutPresent(fields, p);
  }

  lemma PlacedAt<D(!new)>(others: seq<Field<D>>, r: seq<Field<D>>, i: nat, f: Field<D>)
    requires i <= |others| && r == others[..i] + [f] + others[i..] && UniqueNames(r)
    ensures |r| == |others| + 1 && r[i] == f && Without(r, f.name) == others
  {
    hide Without, UniqueNames;
    WithoutPresent(r, i);
    assert r[..i] == others[..i] && r[i + 1..] == others[i..];
  }

  /** A rename that is an edit leaves every field in its place, with its type. */
  lemma EditedPlaces<D(!new)>(fields: seq<Field<D>>, oldName: string, newName: string)
    requires UniqueNames(fields) && RenameIsEdit(fields, oldName, newName)
    ensures var r := Edited(fields, oldName, newName);
            && |r| == |fields|
            && forall i :: 0 <= i < |fields| ==>
                 && r[i].dtype == fields[i].dtype
                 && r[i].name == if fields[i].name == oldName then newName else fields[i].name
  {
    var p := IndexOf(fields, oldName).value;
    assert forall i :: 0 <= i < |fields| && i != p ==> fields[i].name != oldName;
  }

  /** A shared field becomes the other's field of that name; a field the other lacks stays. */
  lemma UpdatedMeaning<D(!new)>(f: Field<D>, other: seq<Field<D>>)
    requires UniqueNames(other)
    ensures forall j :: 0 <= j < |other| && other[j].name == f.name ==> UpdatedField(f, other) == other[j]
    ensures (forall j :: 0 <= j < |other| ==> other[j].name != f.name) ==> UpdatedField(f, other) == f
  {
  }

  /** The added fields are a filter of the other's: taken or left one by one, in their order. */
  lemma {:induction false} AddedConcat<D(!new)>(fields: seq<Field<D>>, a: seq<Field<D>>, b: seq<Field<D>>)
    ensures Added(fields, a + b) == Added(fields, a) + Added(fields, b)
  {
    if b == [] {
      assert a + b == a;
    } else {
      var k := |b| - 1;
      assert (a + b)[..|a + b| - 1] == a + b[..k];
      AddedConcat(fields, a, b[..k]);
    }
  }

  lemma {:induction false} AddedOne<D(!new)>(fields: seq<Field<D>>, f: Field<D>)
    ensures Added(fields, [f]) == if exists i :: 0 <= i < |fields| && fields[i].name == f.name then [] else [f]
  {
    AddedSingle(fields, f);
    hide IndexOf, Added;
    var found := IndexOf(fields, f.name);
    if found.Some? {
      assert fields[found.value].name == f.name;
    }
  }

  lemma {:induction false} AddedSingle<D(!new)>(fields: seq<Field<D>>, f: Field<D>)
    ensures Added(fields, [f]) == if IndexOf(fields, f.name).None? then [f] else []
  {
    hide IndexOf;
    assert [f][..0] == [] && Added(fields, [f][..0]) == [];
  }

  lemma {:induction false} WithoutSplit<D>(fields: seq<Field<D>>, k: nat, name: string)
    requires k <= |fields|
    ensures Without(fields, name) == Without(fields[..k], name) + Without(fields[k..], name)
  {
    if k == |fields| {
      assert fields[..k] == fields && fields[k..] == [];
    } else {
      var last := |fields| - 1;
      WithoutSplit(fields[..last], k, name);
      assert fields[..last][..k] == fields[..k] && fields[..last][k..] == fields[k..][..last - k];
    }
  }

  lemma {:induction false} WithoutUnique<D(!new)>(fields: seq<Field<D>>, name: string)
    requires UniqueNames(fields)
    ensures UniqueNames(Without(fields, name))
    ensures forall i :: 0 <= i < |Without(fields, name)| ==> Without(fields, name)[i].name != name
  {
    match IndexOf(fields, name)
    case None => WithoutAbsent(fields, name);
    case Some(p) => WithoutPresent(fields, p);
  }

  lemma PlacedUnique<D(!new)>(fields: seq<Field<D>>, index: nat, name: string, dtype: D)
    requires UniqueNames(fields)
    ensures UniqueNames(Placed(fields, index, name, dtype))
  {
    WithoutUnique(fields, name);
  }
}
