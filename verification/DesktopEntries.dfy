/**
  Merging the results of a scan into the live desktop entries: entry objects are
  reused, replaced, masked or dropped, and a second index finds them by lowercased id.
 */
module DesktopEntries {
  import opened Basics

  /** What parsing one file gives, as far as merging looks at it. */
  datatype Data = Data(id: string, name: string, hidden: bool, contents: string)

  class DesktopEntry {
    const id: string
    var state: Data

    constructor (id: string)
      ensures this.id == id
    {
      this.id := id;
      state := Data(id, "", false, "");
    }

    predicate IsValid()
      reads this
    {
      state.name != ""
    }
  }

  // -------------------------------------------------------------- what should be

  /** A result that counts: one that masks its id or carries a usable entry. */
  predicate Counts(d: Data) {
    d.hidden || d.name != ""
  }

  /** The last result that counts for an id. */
  function LastFor(results: seq<Data>, id: string): Option<Data> {
    if results == [] then None
    else
      var last := results[|results| - 1];
      if last.id == id && Counts(last) then Some(last) else LastFor(results[..|results| - 1], id)
  }

  /** From result k on, k is the only one that names an id of the kind and is hidden or has a name. */
  ghost predicate IsLast(results: seq<Data>, ids: string -> bool, k: nat)
    requires k < |results|
  {
    && ids(results[k].id) && (results[k].hidden || results[k].name != "")
    && forall j :: k < j < |results| && ids(results[j].id) ==> !results[j].hidden && results[j].name == ""
  }

  ghost predicate HasLast(results: seq<Data>, ids: string -> bool, last: Option<Data>) {
    match last
    case Some(d) => exists k :: 0 <= k < |results| && results[k] == d && IsLast(results, ids, k)
    case None => forall k :: 0 <= k < |results| && ids(results[k].id) ==> !results[k].hidden && results[k].name == ""
  }

  lemma {:induction false} LastForIsLast(results: seq<Data>, id: string)
    ensures HasLast(results, x => x == id, LastFor(results, id))
  {
    if results != [] {
      var init, last := results[..|results| - 1], results[|results| - 1];
      var ids := (x: string) => x == id;
      if last.id == id && Counts(last) {
        assert IsLast(results, ids, |results| - 1);
      } else {
        LastForIsLast(init, id);
        LastIsStill(results, ids, LastFor(init, id));
      }
    }
  }

  lemma {:induction false} LastForLowerIsLast(results: seq<Data>, lower: string -> string, key: string)
    ensures HasLast(results, x => lower(x) == key, LastForLower(results, lower, key))
  {
    if results != [] {
      var init, last := results[..|results| - 1], results[|results| - 1];
      var ids := (x: string) => lower(x) == key;
      if lower(last.id) == key && Counts(last) {
        assert IsLast(results, ids, |results| - 1);
      } else {
        LastForLowerIsLast(init, lower, key);
        LastIsStill(results, ids, LastForLower(init, lower, key));
      }
    }
  }

  lemma LastIsStill(results: seq<Data>, ids: string -> bool, last: Option<Data>)
    requires results != [] && HasLast(results[..|results| - 1], ids, last)
    requires var d := results[|results| - 1]; ids(d.id) ==> !d.hidden && d.name == ""
    ensures HasLast(results, ids, last)
  {
    var init := results[..|results| - 1];
    if last.Some? {
      var k :| 0 <= k < |init| && init[k] == last.value && IsLast(init, ids, k);
      assert results[k] == init[k];
      assert forall j :: k < j < |init| ==> results[j] == init[j];
      assert IsLast(results, ids, k);
    }
  }

  /** The last result that counts for any id with this lowercase form. */
  function LastForLower(results: seq<Data>, lower: string -> string, key: string): Option<Data> {
    if results == [] then None
    else
      var last := results[|results| - 1];
      if lower(last.id) == key && Counts(last) then Some(last) else LastForLower(results[..|results| - 1], lower, key)
  }

  lemma LastForStep(results: seq<Data>, d: Data, id: string)
    ensures LastFor(results + [d], id) == if d.id == id && Counts(d) then Some(d) else LastFor(results, id)
  {
    assert (results + [d])[..|results|] == results;
  }

  lemma LastForLowerStep(results: seq<Data>, d: Data, lower: string -> string, key: string)
    ensures LastForLower(results + [d], lower, key)
         == if lower(d.id) == key && Counts(d) then Some(d) else LastForLower(results, lower, key)
  {
    assert (results + [d])[..|results|] == results;
  }

  predicate Shown(d: Option<Data>) {
    d.Some? && !d.value.hidden
  }

  /** When no two ids differ only by case, the lowercase index misses no shown entry. */
  lemma {:induction false} LowerIsComplete(results: seq<Data>, lower: string -> string, id: string)
    requires forall i :: 0 <= i < |results| && lower(results[i].id) == lower(id) ==> results[i].id == id
    ensures LastForLower(results, lower, lower(id)) == LastFor(results, id)
  {
    if results != [] {
      LowerIsComplete(results[..|results| - 1], lower, id);
    }
  }

  /** An entry shown under one spelling cannot be looked up by another once a result of that spelling is hidden. */
  lemma MaskedSpelling(lower: string -> string)
    requires lower("A") == lower("a")
    ensures var results := [Data("A", "App", false, ""), Data("a", "", true, "")];
            && Shown(LastFor(results, "A")) && !Shown(LastFor(results, "a"))
            && !Shown(LastForLower(results, lower, lower("a")))
  {
    var first, second := Data("A", "App", false, ""), Data("a", "", true, "");
    assert LastFor([], "A") == None && [] + [first] == [first] && [first] + [second] == [first, second];
    LastForStep([], first, "A");
    LastForStep([first], second, "A");
    LastForStep([first], second, "a");
    LastForLowerStep([first], second, lower, lower("a"));
  }

  predicate Untouched(results: seq<Data>, id: string) {
    forall i :: 0 <= i < |results| ==> results[i].id != id
  }

  /** The result an id is shown from is also the first one that names it. */
  predicate Reuses(results: seq<Data>, id: string) {
    results != [] &&
    var init, last := results[..|results| - 1], results[|results| - 1];
    if last.id == id && Counts(last) then !last.hidden && Untouched(init, id) else Reuses(init, id)
  }

  /** Said by positions: one result both is the first to name the id and shows it, and no later one counts for it. */
  lemma {:induction false} ReusesMeans(results: seq<Data>, id: string)
    ensures Reuses(results, id) <==> exists k :: 0 <= k < |results| && ShowsFirst(results, id, k)
  {
    if results != [] {
      var init, last := results[..|results| - 1], results[|results| - 1];
      var n := |init|;
      ReusesMeans(init, id);
      assert forall i :: 0 <= i < n ==> results[i] == init[i];
      if last.id == id && Counts(last) {
        if !last.hidden && Untouched(init, id) {
          assert ShowsFirst(results, id, n);
        }
        assert forall k :: 0 <= k < n ==> !ShowsFirst(results, id, k);
      } else {
        assert !ShowsFirst(results, id, n);
        forall k | 0 <= k < n ensures ShowsFirst(results, id, k) <==> ShowsFirst(init, id, k) {
          assert results[k] == init[k];
        }
      }
    }
  }

  ghost predicate ShowsFirst(results: seq<Data>, id: string, k: nat)
    requires k < |results|
  {
    && results[k].id == id && !results[k].hidden && results[k].name != ""
    && (forall i :: 0 <= i < k ==> results[i].id != id)
    && (forall j :: k < j < |results| && results[j].id == id ==> !results[j].hidden && results[j].name == "")
  }

  lemma ReusesStep(results: seq<Data>, d: Data, id: string)
    ensures Reuses(results + [d], id)
       <==> if d.id == id && Counts(d) then !d.hidden && Untouched(results, id) else Reuses(results, id)
    ensures Untouched(results + [d], id) <==> Untouched(results, id) && d.id != id
  {
    assert (results + [d])[..|results|] == results && (results + [d])[|results|] == d;
    assert forall i :: 0 <= i < |results| ==> (results + [d])[i] == results[i];
  }

  // ---------------------------------------------------------------- the working set

  type Index = map<string, DesktopEntry>

  datatype Work = Work(oldEntries: Index, newEntries: Index, lower: Index, deleted: seq<DesktopEntry>) {
    predicate InOld(e: DesktopEntry) {
      e.id in oldEntries && oldEntries[e.id] == e
    }

    predicate InNew(e: DesktopEntry) {
      e.id in newEntries && newEntries[e.id] == e
    }

    /** Every object is in exactly one place: waiting, live again, or deleted once. */
    ghost predicate Owned(objects: set<DesktopEntry>) {
      && (forall id :: id in oldEntries ==> oldEntries[id].id == id && oldEntries[id] in objects)
      && (forall id :: id in newEntries ==> newEntries[id].id == id && newEntries[id] in objects)
      && (forall i :: 0 <= i < |deleted| ==> deleted[i] in objects)
      && (forall i, j :: 0 <= i < j < |deleted| ==> deleted[i] != deleted[j])
      && (forall e :: e in objects ==> OnePlace(e))
    }

    ghost predicate OnePlace(e: DesktopEntry) {
      && (InOld(e) || InNew(e) || e in deleted)
      && !(InOld(e) && InNew(e)) && !(InOld(e) && e in deleted) && !(InNew(e) && e in deleted)
    }

    /** Takes an entry out of the new index and deletes it. */
    function DropNew(id: string): Work {
      if id in newEntries
      then this.(newEntries := newEntries - {id}, deleted := deleted + [newEntries[id]])
      else this
    }

    function DropOld(id: string): Work {
      if id in oldEntries
      then this.(oldEntries := oldEntries - {id}, deleted := deleted + [oldEntries[id]])
      else this
    }

    function TakeOld(id: string): Work {
      this.(oldEntries := oldEntries - {id})
    }

    function Delete(e: DesktopEntry): Work {
      this.(deleted := deleted + [e])
    }

    /** Which ids of the start still hold their object: waiting for a result, or live again. */
    ghost predicate Reusing(start: Index, results: seq<Data>) {
      && oldEntries.Keys <= start.Keys
      && forall id :: id in start ==> Traced(start[id], results, id)
    }

    ghost predicate Traced(e: DesktopEntry, results: seq<Data>, id: string) {
      && (id in oldEntries <==> Untouched(results, id))
      && (id in oldEntries ==> oldEntries[id] == e)
      && (id in newEntries && newEntries[id] == e <==> Reuses(results, id))
    }

    lemma MaskReuses(start: Index, results: seq<Data>, d: Data, w: Work)
      requires Reusing(start, results) && d.hidden
      requires w.oldEntries == oldEntries - {d.id} && w.newEntries == newEntries - {d.id}
      ensures w.Reusing(start, results + [d])
    {
      hide Reuses, Untouched;
      forall id | id in start ensures w.Traced(start[id], results + [d], id) {
        ReusesStep(results, d, id);
        assert Traced(start[id], results, id);
      }
    }

    lemma ShowReuses(start: Index, results: seq<Data>, d: Data, w: Work, e: DesktopEntry)
      requires Reusing(start, results) && !d.hidden
      requires w.oldEntries == oldEntries - {d.id}
      requires w.newEntries == if Counts(d) then newEntries[d.id := e] else newEntries
      requires if d.id in oldEntries then e == oldEntries[d.id] else e !in start.Values
      ensures w.Reusing(start, results + [d])
    {
      hide Reuses, Untouched;
      forall id | id in start ensures w.Traced(start[id], results + [d], id) {
        ReusesStep(results, d, id);
        assert Traced(start[id], results, id);
        assert start[id] in start.Values;
      }
    }

    function Install(e: DesktopEntry): Work {
      this.(newEntries := newEntries[e.id := e])
    }

    lemma DropNewOwned(id: string, objects: set<DesktopEntry>)
      requires Owned(objects)
      ensures DropNew(id).Owned(objects)
    {
      var w := DropNew(id);
      forall e | e in objects ensures w.OnePlace(e) {
        assert OnePlace(e);
      }
      if id in newEntries {
        assert OnePlace(newEntries[id]);
      }
    }

    lemma DropOldOwned(id: string, objects: set<DesktopEntry>)
      requires Owned(objects)
      ensures DropOld(id).Owned(objects)
    {
      var w := DropOld(id);
      forall e | e in objects ensures w.OnePlace(e) {
        assert OnePlace(e);
      }
      if id in oldEntries {
        assert OnePlace(oldEntries[id]);
      }
    }

    lemma TakeOldOwned(id: string, objects: set<DesktopEntry>)
      requires Owned(objects) && id in oldEntries
      ensures TakeOld(id).Owned(objects - {oldEntries[id]})
    {
      var w, e0 := TakeOld(id), oldEntries[id];
      assert OnePlace(e0);
      forall e | e in objects - {e0} ensures w.OnePlace(e) {
        assert OnePlace(e);
      }
      forall i | 0 <= i < |deleted| ensures deleted[i] in objects - {e0} {
        assert deleted[i] in deleted;
      }
      forall k | k in newEntries ensures newEntries[k] in objects - {e0} {
        assert newEntries[k] == e0 ==> InNew(e0);
      }
    }

    lemma DeleteOwned(e: DesktopEntry, objects: set<DesktopEntry>)
      requires Owned(objects) && e !in objects
      ensures Delete(e).Owned(objects + {e})
    {
      var w := Delete(e);
      forall x | x in objects + {e} ensures w.OnePlace(x) {
        assert x != e ==> OnePlace(x);
      }
    }

    lemma InstallOwned(e: DesktopEntry, objects: set<DesktopEntry>)
      requires Owned(objects) && e !in objects && e.id !in newEntries
      ensures Install(e).Owned(objects + {e})
    {
      var w := Install(e);
      forall x | x in objects + {e} ensures w.OnePlace(x) {
        assert x != e ==> OnePlace(x);
      }
    }
  }

  // ------------------------------------------------------------------- the manager

  class DesktopEntryManager {
    const lower: string -> string
    var desktopEntries: Index
    var lowercaseDesktopEntries: Index
    ghost var scan: seq<Data>
    ghost var deleted: seq<DesktopEntry>

    constructor (lower: string -> string)
      ensures Valid() && desktopEntries == map[] && scan == [] && deleted == []
    {
      this.lower := lower;
      desktopEntries, lowercaseDesktopEntries, scan, deleted := map[], map[], [], [];
    }

    /** An index holds exactly what the results ask for, each entry with its data. */
    ghost predicate Merged(results: seq<Data>, entries: Index)
      reads entries.Values
    {
      && (forall id :: id in entries <==> Shown(LastFor(results, id)))
      && (forall id :: id in entries ==> entries[id].id == id && entries[id].state == LastFor(results, id).value)
    }

    /** The lowercase index points at the entry of the last result that counts for each key. */
    ghost predicate Indexed(results: seq<Data>, entries: Index, lowered: Index) {
      && (forall k :: k in lowered <==> Shown(LastForLower(results, lower, k)))
      && (forall k :: k in lowered ==>
            var id := LastForLower(results, lower, k).value.id; id in entries && lowered[k] == entries[id])
    }

    ghost predicate Valid()
      reads this, desktopEntries.Values
    {
      && Merged(scan, desktopEntries)
      && Indexed(scan, desktopEntries, lowercaseDesktopEntries)
    }

    /** The merge after some of the results: indexes as asked for, objects accounted for. */
    ghost predicate Merging(results: seq<Data>, w: Work, objects: set<DesktopEntry>)
      reads w.newEntries.Values
    {
      && Merged(results, w.newEntries) && Indexed(results, w.newEntries, w.lower)
      && w.Owned(objects)
    }

    /** A hidden result masks its id: nothing shown before it, new or old, survives. */
    method Mask(data: Data, w: Work, ghost results: seq<Data>, ghost objects: set<DesktopEntry>) returns (w': Work)
      requires data.hidden && Merging(results, w, objects)
      ensures Merging(results + [data], w', objects)
      ensures w'.oldEntries == w.oldEntries - {data.id} && w'.newEntries == w.newEntries - {data.id}
    {
      hide Work.Owned, LastFor, LastForLower;
      var lowerId := lower(data.id);
      w.DropNewOwned(data.id, objects);
      w' := w.DropNew(data.id);
      w'.DropOldOwned(data.id, objects);
      w' := w'.DropOld(data.id);
      LowerIsApart(w', w'.(lower := w'.lower - {lowerId}), objects);
      w' := w'.(lower := w'.lower - {lowerId});
      MaskMerges(results, data, w, w');
    }

    lemma LowerIsApart(w: Work, w': Work, objects: set<DesktopEntry>)
      requires w.Owned(objects) && w' == w.(lower := w'.lower)
      ensures w'.Owned(objects)
    {
      forall e | e in objects ensures w'.OnePlace(e) {
        assert w.OnePlace(e);
      }
    }

    lemma MaskMerges(results: seq<Data>, data: Data, w: Work, w': Work)
      requires data.hidden && Merged(results, w.newEntries) && Indexed(results, w.newEntries, w.lower)
      requires w'.newEntries == w.newEntries - {data.id} && w'.lower == w.lower - {lower(data.id)}
      ensures Merged(results + [data], w'.newEntries) && Indexed(results + [data], w'.newEntries, w'.lower)
    {
      hide Merged, Indexed, LastFor, LastForLower;
      MaskEntries(results, data, w.newEntries);
      MaskLowered(results, data, w, w');
    }

    lemma MaskEntries(results: seq<Data>, data: Data, entries: Index)
      requires data.hidden && Merged(results, entries)
      ensures Merged(results + [data], entries - {data.id})
    {
      hide LastFor;
      forall id {
        LastForStep(results, data, id);
      }
    }

    lemma MaskLowered(results: seq<Data>, data: Data, w: Work, w': Work)
      requires data.hidden && Indexed(results, w.newEntries, w.lower)
      requires w'.newEntries == w.newEntries - {data.id} && w'.lower == w.lower - {lower(data.id)}
      ensures Indexed(results + [data], w'.newEntries, w'.lower)
    {
      hide LastFor, LastForLower;
      forall k {
        LastForLowerStep(results, data, lower, k);
      }
      forall k | k in w'.lower
        ensures var id := LastForLower(results, lower, k).value.id;
                id in w'.newEntries && w'.lower[k] == w'.newEntries[id]
      {
        LowerOfLast(results, k);
      }
    }

    /** A visible result reuses the old object of its id or makes one; an unusable one is deleted again. */
    method Show(data: Data, w: Work, ghost results: seq<Data>, ghost objects: set<DesktopEntry>)
      returns (w': Work, ghost objects': set<DesktopEntry>, ghost used: DesktopEntry)
      requires !data.hidden && Merging(results, w, objects)
      modifies objects`state
      ensures fresh(objects' - objects) && objects <= objects'
      ensures Merging(results + [data], w', objects')
      ensures if data.id in w.oldEntries then used == w.oldEntries[data.id] else fresh(used)
      ensures w'.oldEntries == w.oldEntries - {data.id}
      ensures w'.newEntries == if Counts(data) then w.newEntries[data.id := used] else w.newEntries
    {
      hide Work.Owned, LastFor, LastForLower, Merged, Indexed;
      var dentry: DesktopEntry;
      ghost var rest;
      w', dentry, rest := Pick(data.id, w, objects);
      objects', used := rest + {dentry}, dentry;
      NotInNew(w', dentry, rest);
      dentry.state := data;
      assert Merged(results, w.newEntries);
      if !dentry.IsValid() {
        w'.DeleteOwned(dentry, rest);
        w' := w'.Delete(dentry);
        SkipMerges(results, data, w);
        return;
      }
      var lowerId := lower(data.id);
      if data.id in w'.newEntries {
        w'.DropNewOwned(data.id, rest);
        w' := w'.DropNew(data.id);
        LowerIsApart(w', w'.(lower := w'.lower - {lowerId}), rest);
        w' := w'.(lower := w'.lower - {lowerId});
      }
      w' := Enter(w', dentry, rest);
      assert w'.newEntries == w.newEntries[data.id := dentry];
      assert w'.lower == w.lower[lowerId := dentry];
      ShowMerges(results, data, w, w', dentry);
    }

    /** A usable entry goes into both indexes. */
    method Enter(w: Work, dentry: DesktopEntry, ghost rest: set<DesktopEntry>) returns (w': Work)
      requires w.Owned(rest) && dentry !in rest && dentry.id !in w.newEntries
      ensures w' == w.Install(dentry).(lower := w.lower[lower(dentry.id) := dentry]) && w'.Owned(rest + {dentry})
    {
      hide Work.Owned;
      w.InstallOwned(dentry, rest);
      w' := w.Install(dentry);
      LowerIsApart(w', w'.(lower := w'.lower[lower(dentry.id) := dentry]), rest + {dentry});
      w' := w'.(lower := w'.lower[lower(dentry.id) := dentry]);
    }

    /** The waiting object of the id, or a new one. */
    method Pick(id: string, w: Work, ghost objects: set<DesktopEntry>)
      returns (w': Work, dentry: DesktopEntry, ghost rest: set<DesktopEntry>)
      requires w.Owned(objects)
      ensures dentry.id == id && dentry !in rest && w'.Owned(rest)
      ensures if id in w.oldEntries then dentry == w.oldEntries[id] && dentry in objects && rest == objects - {dentry}
              else fresh(dentry) && rest == objects
      ensures w' == w.(oldEntries := w.oldEntries - {id})
    {
      hide Work.Owned;
      if id in w.oldEntries {
        dentry := w.oldEntries[id];
        OldInHand(w, id, objects);
        w.TakeOldOwned(id, objects);
        w', rest := w.TakeOld(id), objects - {dentry};
      } else {
        dentry := new DesktopEntry(id);
        w', rest := w, objects;
        assert w.oldEntries - {id} == w.oldEntries;
      }
    }

    lemma OldInHand(w: Work, id: string, objects: set<DesktopEntry>)
      requires w.Owned(objects) && id in w.oldEntries
      ensures w.oldEntries[id].id == id && w.oldEntries[id] in objects
    {}

    lemma NotInNew(w: Work, e: DesktopEntry, objects: set<DesktopEntry>)
      requires w.Owned(objects) && e !in objects
      ensures e !in w.newEntries.Values
    {}

    lemma SkipMerges(results: seq<Data>, data: Data, w: Work)
      requires !Counts(data) && Merged(results, w.newEntries) && Indexed(results, w.newEntries, w.lower)
      ensures Merged(results + [data], w.newEntries) && Indexed(results + [data], w.newEntries, w.lower)
    {
      hide LastFor, LastForLower;
      forall id {
        LastForStep(results, data, id);
      }
      forall k {
        LastForLowerStep(results, data, lower, k);
      }
    }

    lemma ShowMerges(results: seq<Data>, data: Data, w: Work, w': Work, e: DesktopEntry)
      requires !data.hidden && Counts(data) && e.id == data.id && e.state == data
      requires Merged(results, w.newEntries) && Indexed(results, w.newEntries, w.lower)
      requires w'.newEntries == w.newEntries[data.id := e] && w'.lower == w.lower[lower(data.id) := e]
      ensures Merged(results + [data], w'.newEntries) && Indexed(results + [data], w'.newEntries, w'.lower)
    {
      hide Merged, Indexed, LastFor, LastForLower, Counts;
      ShowEntries(results, data, w.newEntries, e);
      ShowLowered(results, data, w, w', e);
    }

    lemma ShowEntries(results: seq<Data>, data: Data, entries: Index, e: DesktopEntry)
      requires !data.hidden && Counts(data) && e.id == data.id && e.state == data && Merged(results, entries)
      ensures Merged(results + [data], entries[data.id := e])
    {
      hide LastFor;
      forall id {
        LastForStep(results, data, id);
      }
    }

    lemma ShowLowered(results: seq<Data>, data: Data, w: Work, w': Work, e: DesktopEntry)
      requires !data.hidden && Counts(data) && Indexed(results, w.newEntries, w.lower)
      requires w'.newEntries == w.newEntries[data.id := e] && w'.lower == w.lower[lower(data.id) := e]
      ensures Indexed(results + [data], w'.newEntries, w'.lower)
    {
      hide LastFor, LastForLower, Counts;
      forall k {
        LastForLowerStep(results, data, lower, k);
      }
      forall k | k in w'.lower && k != lower(data.id)
        ensures var id := LastForLower(results, lower, k).value.id;
                id in w'.newEntries && w'.lower[k] == w'.newEntries[id]
      {
        LowerOfLast(results, k);
      }
    }

    /**
      The new index holds for each id the last result that counts, if it is not hidden,
      and every entry object, old or made on the way, is live in it or deleted once.
      An id keeps the object it had exactly if its shown result is the first that names it.
    */
    method OnScanCompleted(results: seq<Data>)
      returns (ghost objects: set<DesktopEntry>, ghost removed: seq<DesktopEntry>)
      requires Valid()
      modifies this`desktopEntries, this`lowercaseDesktopEntries, this`scan, this`deleted
      modifies desktopEntries.Values`state
      ensures Valid() && scan == results && deleted == old(deleted) + removed
      ensures old(desktopEntries.Values) <= objects && fresh(objects - old(desktopEntries.Values))
      ensures Work(map[], desktopEntries, lowercaseDesktopEntries, removed).Owned(objects)
      ensures forall id :: id in old(desktopEntries) ==>
                (id in desktopEntries && desktopEntries[id] == old(desktopEntries[id]) <==> Reuses(results, id))
    {
      hide Work.Owned, LastFor, LastForLower, Merged, Indexed, Reuses, Untouched, Work.Reusing;
      ghost var start := desktopEntries;
      var w := Work(desktopEntries, map[], map[], []);
      objects := desktopEntries.Values;
      MergeBegins();
      var n := 0;
      while n < |results|
        invariant 0 <= n <= |results|
        invariant old(desktopEntries.Values) <= objects && fresh(objects - old(desktopEntries.Values))
        invariant Merging(results[..n], w, objects) && deleted == old(deleted)
        invariant w.Reusing(start, results[..n])
      {
        var data := results[n];
        ghost var before := w;
        if data.hidden {
          w := Mask(data, w, results[..n], objects);
          before.MaskReuses(start, results[..n], data, w);
        } else {
          ghost var used;
          w, objects, used := Show(data, w, results[..n], objects);
          before.ShowReuses(start, results[..n], data, w, used);
        }
        assert results[..n] + [data] == results[..n + 1];
        n := n + 1;
      }
      assert results[..n] == results;
      ReusedAtEnd(w, start, results);
      w := DropLeftovers(w, objects);
      desktopEntries, lowercaseDesktopEntries := w.newEntries, w.lower;
      scan, removed := results, w.deleted;
      deleted := deleted + removed;
    }

    lemma MergeBegins()
      requires Valid()
      ensures Merging([], Work(desktopEntries, map[], map[], []), desktopEntries.Values)
      ensures Work(desktopEntries, map[], map[], []).Reusing(desktopEntries, [])
    {
      var w := Work(desktopEntries, map[], map[], []);
      forall e | e in desktopEntries.Values ensures w.OnePlace(e) {
        var id :| id in desktopEntries && desktopEntries[id] == e;
      }
    }

    lemma ReusedAtEnd(w: Work, start: Index, results: seq<Data>)
      requires w.Reusing(start, results)
      ensures forall id :: id in start ==>
                (id in w.newEntries && w.newEntries[id] == start[id] <==> Reuses(results, id))
    {
      hide Reuses, Untouched;
      assert forall id :: id in start ==> w.Traced(start[id], results, id);
    }

    /** Entries no result asked for are deleted. */
    method DropLeftovers(w: Work, ghost objects: set<DesktopEntry>) returns (w': Work)
      requires w.Owned(objects)
      ensures w'.Owned(objects) && w'.oldEntries == map[]
      ensures w'.newEntries == w.newEntries && w'.lower == w.lower
    {
      hide Work.Owned;
      w' := w;
      while w'.oldEntries != map[]
        invariant w'.Owned(objects) && w'.newEntries == w.newEntries && w'.lower == w.lower
        decreases w'.oldEntries.Keys
      {
        var id :| id in w'.oldEntries;
        w'.DropOldOwned(id, objects);
        w' := w'.DropOld(id);
      }
    }

    /** Exact ids win; otherwise the entry of the last counting result with the same lowercase form. */
    method ById(id: string) returns (entry: Option<DesktopEntry>)
      requires Valid()
      ensures Shown(LastFor(scan, id)) ==> entry == Some(desktopEntries[id])
      ensures !Shown(LastFor(scan, id)) && Shown(LastForLower(scan, lower, lower(id))) ==>
                entry.Some? && lower(entry.value.id) == lower(id)
                && entry.value.state == LastForLower(scan, lower, lower(id)).value
      ensures entry.None? <==> !Shown(LastFor(scan, id)) && !Shown(LastForLower(scan, lower, lower(id)))
    {
      if id in desktopEntries {
        return Some(desktopEntries[id]);
      } else if lower(id) in lowercaseDesktopEntries {
        LowerOfLast(scan, lower(id));
        return Some(lowercaseDesktopEntries[lower(id)]);
      } else {
        return None;
      }
    }

    lemma {:induction false} LowerOfLast(results: seq<Data>, key: string)
      requires LastForLower(results, lower, key).Some?
      ensures var d := LastForLower(results, lower, key).value;
              lower(d.id) == key && LastFor(results, d.id) == Some(d)
    {
      if !(lower(results[|results| - 1].id) == key && Counts(results[|results| - 1])) {
        LowerOfLast(results[..|results| - 1], key);
      }
    }
  }
}
