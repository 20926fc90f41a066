/** What the slots of a file view are for: what is shown and written in the end. */
module FileSlots {
  import opened Basics
  import opened FileView

  lemma SettlingPrepares(v: View, outcome: Outcome)
    requires v.Valid() && (v.live.Some? || v.prepared)
    requires v.live.Some? ==> v.operations[v.live.value].phase != Deleted
    ensures var w := Settled(v, outcome); w.live == None && w.prepared && w.state.path == v.target
  {}

  lemma LiveIsNotDeleted(v: View)
    requires v.Valid()
    ensures v.live.Some? ==> v.live.value in v.operations && v.operations[v.live.value].phase != Deleted
  {}

  lemma ShownIsTarget(v: View)
    requires v.Valid()
    ensures v.prepared ==> v.state.path == v.target
  {}

  lemma LoadAims(v: View, outcome: Outcome)
    requires v.Valid() && v.target != ""
    ensures v.LoadAsync(outcome).live.Some? && v.LoadAsync(outcome).target == v.target
  {
    hide View.Valid;
    v.CancelAsyncKeeps(outcome);
  }

  lemma BlockingReadPrepares(v: View, waited: Outcome, outcome: Outcome)
    requires v.Valid()
    ensures v.LoadSync(waited, outcome).prepared && v.LoadSync(waited, outcome).target == v.target
  {
    v.LiveExists();
    hide View.Valid;
  }

  // --------------------------------------------------------------------- reading

  lemma ReadLeads(v: View, block: bool, waited: Outcome, outcome: Outcome)
    requires v.Valid()
    ensures var w := v.Read(block, waited, outcome);
            && w.Valid() && (block ==> w.prepared && w.target == v.target)
            && (v.target != "" ==> (w.live.Some? || w.prepared) && w.target == v.target)
  {
    hide View.Valid, View.LoadSync, View.LoadAsync;
    v.LoadSyncKeeps(waited, outcome);
    v.LoadAsyncKeeps(waited);
    BlockingReadPrepares(v, waited, outcome);
    if v.target != "" {
      LoadAims(v, waited);
    }
  }

  lemma PreparedIsNotRead(v: View, block: bool, waited: Outcome, outcome: Outcome)
    ensures v.prepared ==> v.Read(block, waited, outcome) == v
  {}

  /** However data is asked for, once what is live settles the view shows its path; at once if it blocks. */
  lemma ReadShowsPath(v: View, block: bool, waited: Outcome, outcome: Outcome, later: Outcome)
    requires v.Valid()
    ensures var r := v.Read(block, waited, outcome);
            var w := Settled(r, later);
            && (v.target != "" ==> w.live == None && w.prepared && w.state.path == v.target)
            && (block ==> r.prepared && r.state.path == v.target)
            && (v.prepared ==> r == v)
  {
    PreparedIsNotRead(v, block, waited, outcome);
    hide View.Valid, View.Read, Settled;
    var r := v.Read(block, waited, outcome);
    ReadLeads(v, block, waited, outcome);
    ShownIsTarget(r);
    LiveIsNotDeleted(r);
    if v.target != "" {
      SettlingPrepares(r, later);
    }
  }

  /** So does a view that preloads and is told to reload; until then only a write it had to wait for prepares it. */
  lemma ReloadShowsPath(v: View, outcome: Outcome, later: Outcome)
    requires v.Valid() && v.preload && v.target != ""
    ensures var r := v.UpdatePath(outcome);
            var w := Settled(r, later);
            && r.live.Some? && (r.prepared <==> v.LiveIs(Writer) && v.inFlight != v.target)
            && w.live == None && w.prepared && w.state.path == v.target
  {
    hide View.Valid, View.LoadAsync, Settled;
    var u := v.(prepared := false);
    v.UnpreparedKeeps();
    u.LoadAsyncKeeps(outcome);
    LoadAims(u, outcome);
    var r := v.UpdatePath(outcome);
    assert r == u.LoadAsync(outcome);
    LoadLeavesUnprepared(u, outcome);
    LiveIsNotDeleted(r);
    SettlingPrepares(r, later);
  }

  /** Nothing is shown by starting a load, unless a write has to be waited for. */
  lemma LoadLeavesUnprepared(v: View, outcome: Outcome)
    requires v.Valid() && v.target != "" && !v.prepared
    ensures v.LoadAsync(outcome).prepared <==> v.LiveIs(Writer) && v.inFlight != v.target
  {
    v.LiveExists();
    hide View.Valid;
  }

  /** Asking again before anything has happened starts nothing, reports nothing and shows nothing else. */
  lemma LoadingTwiceIsOnce(v: View, outcome: Outcome, again: Outcome)
    requires v.Valid()
    ensures v.LoadAsync(outcome).LoadAsync(again) == v.LoadAsync(outcome)
  {
    v.LiveExists();
    v.CancelAsyncKeeps(outcome);
    hide View.Valid;
  }

  lemma ReadingTwiceIsOnce(v: View, block: bool, waited: Outcome, outcome: Outcome, again: Outcome, unused: Outcome)
    requires v.Valid()
    ensures var r := v.Read(block, waited, outcome); r.Read(false, again, unused) == r
  {
    BlockingReadPrepares(v, waited, outcome);
    LoadingTwiceIsOnce(v, waited, again);
    hide View.Valid, View.LoadSync, View.LoadAsync;
  }

  /** Turning preloading on loads exactly what is not prepared yet; turning it off changes nothing else. */
  lemma PreloadingLoads(v: View, value: bool, outcome: Outcome, later: Outcome)
    requires v.Valid() && v.target != ""
    ensures var r := v.SetPreload(value, outcome);
            && r.preload == value
            && (v.prepared || !value ==> r == v.(preload := value))
            && (value != v.preload && value && !v.prepared ==>
                  && r.live.Some?
                  && Settled(r, later).prepared && Settled(r, later).state.path == v.target)
  {
    hide View.Valid, View.LoadAsync, Settled;
    var u := v.(preload := value);
    v.BookkeepingKeeps(u);
    u.LoadAsyncKeeps(outcome);
    LoadAims(u, outcome);
    LoadKeepsPreload(u, outcome);
    var r := u.LoadAsync(outcome);
    LiveIsNotDeleted(r);
    SettlingPrepares(r, later);
  }

  lemma LoadKeepsPreload(v: View, outcome: Outcome)
    ensures v.LoadAsync(outcome).preload == v.preload
  {}

  // ---------------------------------------------------------------------- saving

  /** New data is what the view shows, under its path, once the save settles; data it has already is not saved again. */
  lemma SaveShowsData(v: View, data: Bytes, waited: Outcome, outcome: Outcome, later: Outcome)
    requires v.Valid() && v.target != ""
    ensures var r := v.SetData(data, false, waited, outcome);
            if data == (if v.writeData != [] then v.writeData else v.state.data) then r == v
            else
              && r.LiveIs(Writer) && r.live.value == r.next - 1 >= v.next
              && Settled(r, later).state == State(v.target, data, later.present, later.error)
  {
    hide View.Valid, View.SaveAsync, Settled;
    var u := v.(writeData := data);
    v.BookkeepingKeeps(u);
    SaveStarts(u, waited);
    BlockingSaveAgrees(u, waited, later);
  }

  lemma SaveStarts(v: View, outcome: Outcome)
    requires v.Valid() && v.target != ""
    ensures var w := v.SaveAsync(outcome);
            w.LiveIs(Writer) && w.live.value == w.next - 1 >= v.next && w.target == v.target
  {
    hide View.Valid;
    v.CancelAsyncKeeps(outcome);
  }

  /** Without a path nothing is saved, shown or reported. */
  lemma NoPathNoSave(v: View, data: Bytes, block: bool, waited: Outcome, outcome: Outcome)
    requires v.target == ""
    ensures var w := v.SetData(data, block, waited, outcome); w == v.(writeData := w.writeData)
  {}

  // ----------------------------------------------------------------------- paths

  /** An empty path shows the empty state at once. */
  lemma EmptyPathShowsNothing(v: View, path: string, waited: Outcome, outcome: Outcome)
    requires v.Valid() && Local(path) == "" != v.target
    ensures var w := v.SetPath(path, waited, outcome);
            w.live == None && w.prepared && w.state == EMPTY && w.target == ""
  {
    v.LiveExists();
    hide View.Valid;
  }

  /** Without preloading a new path starts nothing, and shows nothing but a write that had to be waited for. */
  lemma NewPathIsNotLoaded(v: View, path: string, waited: Outcome, outcome: Outcome)
    requires v.Valid() && !v.preload && Local(path) != v.target && Local(path) != ""
    ensures var w := v.SetPath(path, waited, outcome);
            && w.live == None && !w.prepared && w.target == Local(path) && w.next == v.next
            && (!v.LiveIs(Writer) ==> w.state == v.state && w.signals == v.signals)
  {
    v.LiveExists();
    hide View.Valid;
  }

  /** The same path again changes nothing. */
  lemma SamePathIsIgnored(v: View, waited: Outcome, outcome: Outcome)
    ensures v.SetPath("file://" + v.target, waited, outcome) == v
    ensures !("file://" <= v.target) ==> v.SetPath(v.target, waited, outcome) == v
  {
    LocalPaths(v.target);
  }
}
