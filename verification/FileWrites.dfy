/**
  What a reported save is worth.  A write that is cancelled while it runs may stop
  without an error and is still reported as saved: exactly which calls do that.
 */
module FileWrites {
  import opened Basics
  import opened FileView

  /** The call starts another operation over a live write, so that the write is told to stop. */
  predicate CancelsWrite(v: View, e: Event) {
    match e
    case Reload(_) => v.preload && v.inFlight != v.target
    case Read(block, _, _) => !v.prepared && !block && v.inFlight != v.target
    case SetData(data, _, _, _) => (if v.writeData == [] then v.state.data else v.writeData) != data
    case SetPreload(preload, _) => preload && !v.preload && !v.prepared && v.inFlight != v.target
    case _ => false
  }

  /** The outcome of the live operation, if the call waits for it. */
  function Waited(e: Event): Outcome {
    match e
    case WorkerRuns(_, outcome) => outcome
    case Delivered(_) => FINE
    case SetPath(_, waited, _) => waited
    case Reload(outcome) => outcome
    case WaitForJob(outcome) => outcome
    case Read(_, waited, _) => waited
    case SetData(_, _, waited, _) => waited
    case SetPreload(_, outcome) => outcome
  }

  ghost predicate IsCancelled(v: View, i: nat) {
    i in v.operations && v.operations[i].kind == Writer && v.operations[i].cancelled
  }

  /** Live operations have not been cancelled, and only cancelled writes are skipped. */
  ghost predicate Marked(v: View) {
    && (v.live.Some? ==> v.live.value in v.operations && !v.operations[v.live.value].cancelled)
    && (forall i :: i in v.operations && v.operations[i].fault == Skipped ==> IsCancelled(v, i))
  }

  /** Between two views no write was cancelled, except perhaps the live one. */
  ghost predicate Spares(v: View, w: View, but: bool) {
    forall i: nat :: IsCancelled(w, i) ==> IsCancelled(v, i) || (but && v.live == Some(i))
  }

  lemma WaitMarks(v: View, outcome: Outcome)
    requires v.Valid() && Marked(v)
    ensures var w := v.WaitForJob(outcome); Marked(w) && Spares(v, w, false) && w.live == None
  {
    hide View.Valid;
    v.LiveExists();
  }

  lemma CancelMarks(v: View, outcome: Outcome)
    requires v.Valid() && Marked(v)
    ensures var w := v.CancelAsync(outcome); Marked(w) && Spares(v, w, v.LiveIs(Writer)) && w.live == None
  {
    v.LiveExists();
    hide View.Valid;
    if v.LiveIs(Writer) {
      StopMarks(v, outcome);
    }
  }

  lemma StopMarks(v: View, outcome: Outcome)
    requires Marked(v) && v.LiveIs(Writer)
    ensures var w := v.CancelAsync(outcome); Marked(w) && Spares(v, w, true) && w.live == None
  {}

  lemma StartMarks(v: View, kind: Kind, s: State)
    requires Marked(v) && v.live == None
    ensures Marked(v.Start(kind, s)) && Spares(v, v.Start(kind, s), false)
  {}

  lemma RunMarks(v: View, kind: Kind, data: Bytes, outcome: Outcome)
    requires Marked(v) && v.live == None
    ensures Marked(v.RunSync(kind, data, outcome)) && Spares(v, v.RunSync(kind, data, outcome), false)
  {}

  lemma LoadMarks(v: View, outcome: Outcome)
    requires v.Valid() && Marked(v)
    ensures var w := v.LoadAsync(outcome); Marked(w) && Spares(v, w, v.LiveIs(Writer) && v.inFlight != v.target)
  {
    hide View.Valid, View.CancelAsync, View.Start;
    CancelMarks(v, outcome);
    var u := v.CancelAsync(outcome).(inFlight := v.target);
    StartMarks(u, Reader, State(v.target, [], false, 0));
  }

  lemma SaveMarks(v: View, outcome: Outcome)
    requires v.Valid() && Marked(v)
    ensures var w := v.SaveAsync(outcome); Marked(w) && Spares(v, w, v.LiveIs(Writer))
  {
    hide View.Valid, View.CancelAsync, View.Start;
    CancelMarks(v, outcome);
    StartMarks(v.CancelAsync(outcome), Writer, State(v.target, v.writeData, false, 0));
  }

  lemma SyncMarks(v: View, waited: Outcome, outcome: Outcome)
    requires v.Valid() && Marked(v)
    ensures Marked(v.LoadSync(waited, outcome)) && Spares(v, v.LoadSync(waited, outcome), false)
    ensures Marked(v.SaveSync(waited, outcome)) && Spares(v, v.SaveSync(waited, outcome), v.LiveIs(Writer))
  {
    hide View.Valid, View.CancelAsync, View.RunSync, View.WaitForJob;
    v.LiveExists();
    CancelMarks(v, waited);
    WaitMarks(v, waited);
    var u := v.CancelAsync(waited);
    RunMarks(u, Writer, u.writeData, outcome);
    if v.live == None {
      RunMarks(v, Reader, [], outcome);
    }
  }

  lemma SetPathMarks(v: View, path: string, waited: Outcome, outcome: Outcome)
    requires v.Valid() && Marked(v)
    ensures Marked(v.SetPath(path, waited, outcome)) && Spares(v, v.SetPath(path, waited, outcome), false)
  {
    hide View.Valid, View.CancelAsync, View.WaitForJob, View.LoadAsync;
    WaitMarks(v, waited);
    CancelMarks(v, waited);
    v.WaitForJobKeeps(waited);
    v.CancelAsyncKeeps(waited);
    var u := if v.LiveIs(Writer) then v.WaitForJob(waited) else v.CancelAsync(waited);
    u.RetargetKeeps(Local(path));
    LoadMarks(u.(target := Local(path), prepared := false), outcome);
  }

  /** A step cancels the live write exactly when the call says so, and no other write. */
  lemma StepMarks(v: View, e: Event)
    requires v.Valid() && Marked(v)
    ensures Marked(Step(v, e)) && Spares(v, Step(v, e), v.LiveIs(Writer) && CancelsWrite(v, e))
  {
    hide View.Valid, View.LoadAsync, View.LoadSync, View.SaveAsync, View.SaveSync, View.SetPath, View.WaitForJob;
    hide View.SetData, View.Read, View.WorkerRuns, View.Delivered, View.UpdatePath, View.SetPreload;
    match e
    case WorkerRuns(id, outcome) => WorkerMarks(v, id, outcome);
    case Delivered(id) => DeliveredMarks(v, id);
    case SetPath(path, waited, outcome) => SetPathMarks(v, path, waited, outcome);
    case Reload(outcome) => ReloadMarks(v, outcome);
    case WaitForJob(outcome) => WaitMarks(v, outcome);
    case Read(block, waited, outcome) => ReadMarks(v, block, waited, outcome);
    case SetData(data, block, waited, outcome) => SetDataMarks(v, data, block, waited, outcome);
    case SetPreload(preload, outcome) => PreloadMarks(v, preload, outcome);
  }

  lemma WorkerMarks(v: View, id: nat, outcome: Outcome)
    requires Marked(v)
    ensures Marked(v.WorkerRuns(id, outcome)) && Spares(v, v.WorkerRuns(id, outcome), false)
  {}

  lemma DeliveredMarks(v: View, id: nat)
    requires Marked(v)
    ensures Marked(v.Delivered(id)) && Spares(v, v.Delivered(id), false)
  {}

  lemma ReloadMarks(v: View, outcome: Outcome)
    requires v.Valid() && Marked(v)
    ensures var w := v.UpdatePath(outcome);
            Marked(w) && Spares(v, w, v.LiveIs(Writer) && CancelsWrite(v, Reload(outcome)))
  {
    hide View.Valid, View.LoadAsync;
    v.UnpreparedKeeps();
    LoadMarks(v.(prepared := false), outcome);
  }

  lemma PreloadMarks(v: View, preload: bool, outcome: Outcome)
    requires v.Valid() && Marked(v)
    ensures var w := v.SetPreload(preload, outcome);
            Marked(w) && Spares(v, w, v.LiveIs(Writer) && CancelsWrite(v, SetPreload(preload, outcome)))
  {
    hide View.Valid, View.LoadAsync;
    v.BookkeepingKeeps(v.(preload := preload));
    LoadMarks(v.(preload := preload), outcome);
  }

  lemma ReadMarks(v: View, block: bool, waited: Outcome, outcome: Outcome)
    requires v.Valid() && Marked(v)
    ensures var w := v.Read(block, waited, outcome);
            Marked(w) && Spares(v, w, v.LiveIs(Writer) && CancelsWrite(v, Read(block, waited, outcome)))
  {
    hide View.Valid, View.LoadAsync, View.LoadSync;
    SyncMarks(v, waited, outcome);
    LoadMarks(v, waited);
  }

  lemma SetDataMarks(v: View, data: Bytes, block: bool, waited: Outcome, outcome: Outcome)
    requires v.Valid() && Marked(v)
    ensures var w := v.SetData(data, block, waited, outcome);
            Marked(w) && Spares(v, w, v.LiveIs(Writer) && CancelsWrite(v, SetData(data, block, waited, outcome)))
  {
    hide View.Valid, View.SaveAsync, View.SaveSync;
    var u := v.(writeData := data);
    v.BookkeepingKeeps(u);
    SyncMarks(u, waited, outcome);
    SaveMarks(u, waited);
  }

  /** The run cancelled the write while it was live. */
  ghost predicate WasCancelled(events: seq<Event>, i: nat) {
    exists k :: 0 <= k < |events| && CancelledAt(events, k, i)
  }

  ghost predicate CancelledAt(events: seq<Event>, k: nat, i: nat)
    requires k < |events|
  {
    var v := After(INITIAL, events[..k]);
    v.live == Some(i) && v.LiveIs(Writer) && CancelsWrite(v, events[k])
  }

  lemma {:induction false} CancelledWasCancelled(events: seq<Event>, i: nat)
    ensures Marked(After(INITIAL, events))
    ensures IsCancelled(After(INITIAL, events), i) ==> WasCancelled(events, i)
  {
    if events != [] {
      var init, last := events[..|events| - 1], events[|events| - 1];
      CancelledWasCancelled(init, i);
      EveryRunIsValid(init);
      hide Step, View.Valid, CancelsWrite;
      StepMarks(After(INITIAL, init), last);
      if IsCancelled(After(INITIAL, events), i) {
        if IsCancelled(After(INITIAL, init), i) {
          var k :| 0 <= k < |init| && CancelledAt(init, k, i);
          assert events[..k] == init[..k] && CancelledAt(events, k, i);
        } else {
          assert CancelledAt(events, |init|, i);
        }
      }
    }
  }

  /**
    After every run, a write that ended without an error has stored its data, unless a
    call cancelled it while it was live, or the file could not be replaced in the end.
   */
  lemma ReportedIsStored(events: seq<Event>, i: nat)
    ensures var v := After(INITIAL, events);
            i in v.operations && v.operations[i].kind == Writer && v.operations[i].phase != Running
            && v.operations[i].state.error == 0 ==>
              || Stored(v.operations[i])
              || WasCancelled(events, i)
              || v.operations[i].fault == Uncommitted
  {
    CancelledWasCancelled(events, i);
  }

  // ------------------------------------------------------- lost in one step, exactly

  /** The operation was completed like this, and reported. */
  ghost predicate Ended(w: View, id: nat, op: Operation) {
    && id in w.operations && id < w.next && w.operations[id] == op && w.IsCompleted(id)
    && SignalOf(op, id) in w.signals
  }

  /** A write that is reported as saved although the file was not given its data. */
  ghost predicate IsLost(w: View, id: nat) {
    && id in w.operations && w.IsCompleted(id) && !Stored(w.operations[id])
    && SignalOf(w.operations[id], id) == Saved(id) && Saved(id) in w.signals
  }

  lemma LiveIsOld(v: View)
    requires v.Valid() && v.live.Some?
    ensures v.live.value in v.operations && v.live.value < v.next
  {
    assert v.FateFits(v.live.value);
  }

  lemma WaitEnds(v: View, outcome: Outcome)
    requires v.Valid() && v.LiveIs(Writer)
    ensures var id := v.live.value;
            Ended(v.WaitForJob(outcome), id, Ran(v.operations[id], outcome).(connected := false))
  {
    LiveIsOld(v);
    hide View.Valid;
  }

  lemma CancelEnds(v: View, outcome: Outcome)
    requires v.Valid() && v.LiveIs(Writer)
    ensures var id := v.live.value;
            Ended(v.CancelAsync(outcome), id,
                  Ran(v.operations[id].(cancelled := true), outcome).(connected := false))
  {
    LiveIsOld(v);
    hide View.Valid;
  }

  lemma StartLeaves(v: View, kind: Kind, s: State, id: nat, op: Operation)
    requires Ended(v, id, op)
    ensures Ended(v.Start(kind, s), id, op)
  {}

  lemma RunLeaves(v: View, kind: Kind, data: Bytes, outcome: Outcome, id: nat, op: Operation)
    requires Ended(v, id, op)
    ensures Ended(v.RunSync(kind, data, outcome), id, op)
  {}

  lemma LoadEnds(v: View, outcome: Outcome)
    requires v.Valid() && v.LiveIs(Writer) && v.inFlight != v.target
    ensures var id := v.live.value;
            Ended(v.LoadAsync(outcome), id,
                  Ran(v.operations[id].(cancelled := true), outcome).(connected := false))
  {
    hide View.CancelAsync, View.Start;
    var id := v.live.value;
    CancelEnds(v, outcome);
    StartLeaves(v.CancelAsync(outcome).(inFlight := v.target), Reader, State(v.target, [], false, 0), id,
                Ran(v.operations[id].(cancelled := true), outcome).(connected := false));
  }

  lemma SaveEnds(v: View, waited: Outcome, outcome: Outcome)
    requires v.Valid() && v.LiveIs(Writer)
    ensures var id := v.live.value;
            var op := Ran(v.operations[id].(cancelled := true), waited).(connected := false);
            Ended(v.SaveAsync(waited), id, op) && Ended(v.SaveSync(waited, outcome), id, op)
  {
    hide View.CancelAsync, View.Start, View.RunSync, View.Valid;
    var id := v.live.value;
    var op := Ran(v.operations[id].(cancelled := true), waited).(connected := false);
    TargetIsSet(v);
    CancelEnds(v, waited);
    StartLeaves(v.CancelAsync(waited), Writer, State(v.target, v.writeData, false, 0), id, op);
    var u := v.CancelAsync(waited);
    RunLeaves(u, Writer, u.writeData, outcome, id, op);
  }

  lemma TargetIsSet(v: View)
    requires v.Valid() && v.live.Some?
    ensures v.target != ""
  {}

  lemma SetPathEnds(v: View, path: string, waited: Outcome, outcome: Outcome)
    requires v.Valid() && v.LiveIs(Writer) && Local(path) != v.target
    ensures var id := v.live.value;
            Ended(v.SetPath(path, waited, outcome), id, Ran(v.operations[id], waited).(connected := false))
  {
    hide View.WaitForJob, View.Valid, View.Start;
    var id := v.live.value;
    var op := Ran(v.operations[id], waited).(connected := false);
    WaitEnds(v, waited);
    v.WaitForJobKeeps(waited);
    var u := v.WaitForJob(waited).(target := Local(path), prepared := false);
    StartLeaves(u.(inFlight := u.target), Reader, State(u.target, [], false, 0), id, op);
  }

  /** A live write that is still running is told to stop and completed, completed, or left alone. */
  lemma StepEnds(v: View, e: Event)
    requires v.Valid() && v.LiveIs(Writer) && v.operations[v.live.value].phase == Running
    ensures var (id, w) := (v.live.value, Step(v, e));
            if CancelsWrite(v, e) then
              Ended(w, id, Ran(v.operations[id].(cancelled := true), Waited(e)).(connected := false))
            else
              w.live == v.live || Ended(w, id, Ran(v.operations[id], Waited(e)).(connected := false))
  {
    hide View.Valid, View.LoadAsync, View.LoadSync, View.SaveAsync, View.SaveSync, View.SetPath, View.WaitForJob;
    hide Ended, Ran;
    TargetIsSet(v);
    LiveIsOld(v);
    match e
    case WorkerRuns(_, _) =>
    case Delivered(_) =>
    case SetPath(path, waited, outcome) => SetPathStep(v, path, waited, outcome);
    case Reload(outcome) => ReloadStep(v, outcome);
    case WaitForJob(outcome) => WaitEnds(v, outcome);
    case Read(block, waited, outcome) =>
      if !v.prepared {
        ReadStep(v, block, waited, outcome);
      }
    case SetData(data, _, waited, outcome) =>
      v.BookkeepingKeeps(v.(writeData := data));
      SaveEnds(v.(writeData := data), waited, outcome);
    case SetPreload(preload, outcome) => PreloadStep(v, preload, outcome);
  }

  lemma SetPathStep(v: View, path: string, waited: Outcome, outcome: Outcome)
    requires v.Valid() && v.LiveIs(Writer)
    ensures var id := v.live.value;
            if Local(path) == v.target then v.SetPath(path, waited, outcome) == v
            else Ended(v.SetPath(path, waited, outcome), id, Ran(v.operations[id], waited).(connected := false))
  {
    hide View.Valid, View.WaitForJob, View.UpdatePath;
    if Local(path) != v.target {
      SetPathEnds(v, path, waited, outcome);
    }
  }

  lemma LoadStep(v: View, outcome: Outcome)
    requires v.Valid() && v.LiveIs(Writer)
    ensures var id := v.live.value;
            if v.inFlight == v.target then v.LoadAsync(outcome) == v
            else Ended(v.LoadAsync(outcome), id,
                       Ran(v.operations[id].(cancelled := true), outcome).(connected := false))
  {
    if v.inFlight != v.target {
      LoadEnds(v, outcome);
    }
  }

  lemma ReloadStep(v: View, outcome: Outcome)
    requires v.Valid() && v.LiveIs(Writer)
    ensures var id := v.live.value;
            if CancelsWrite(v, Reload(outcome)) then
              Ended(v.UpdatePath(outcome), id,
                    Ran(v.operations[id].(cancelled := true), outcome).(connected := false))
            else v.UpdatePath(outcome).live == v.live
  {
    hide View.Valid, View.LoadAsync, Ended;
    TargetIsSet(v);
    v.UnpreparedKeeps();
    LoadStep(v.(prepared := false), outcome);
  }

  lemma PreloadStep(v: View, preload: bool, outcome: Outcome)
    requires v.Valid() && v.LiveIs(Writer)
    ensures var id := v.live.value;
            if CancelsWrite(v, SetPreload(preload, outcome)) then
              Ended(v.SetPreload(preload, outcome), id,
                    Ran(v.operations[id].(cancelled := true), outcome).(connected := false))
            else v.SetPreload(preload, outcome).live == v.live
  {
    hide View.Valid, View.LoadAsync, Ended;
    v.BookkeepingKeeps(v.(preload := preload));
    LoadStep(v.(preload := preload), outcome);
  }

  lemma ReadStep(v: View, block: bool, waited: Outcome, outcome: Outcome)
    requires v.Valid() && v.LiveIs(Writer) && !v.prepared
    ensures var (id, w) := (v.live.value, v.Read(block, waited, outcome));
            if block then Ended(w, id, Ran(v.operations[id], waited).(connected := false))
            else if v.inFlight == v.target then w == v
            else Ended(w, id, Ran(v.operations[id].(cancelled := true), waited).(connected := false))
  {
    hide View.Valid, View.LoadAsync, Ended, View.WaitForJob;
    TargetIsSet(v);
    LiveIsOld(v);
    WaitEnds(v, waited);
    LoadStep(v, waited);
  }

  /**
    A running write is reported as saved in a step, without having stored its data, exactly
    if the call starts something else over it and the worker sees that in time.
   */
  lemma LostExactly(v: View, e: Event)
    requires v.Valid() && Marked(v) && v.LiveIs(Writer) && v.operations[v.live.value].phase == Running
    requires Waited(e).commits
    ensures IsLost(Step(v, e), v.live.value) <==> CancelsWrite(v, e) && Waited(e).seesCancel
  {
    hide View.Valid, Step, CancelsWrite;
    StepEnds(v, e);
    StepKeeps(v, e);
    if Step(v, e).live == v.live {
      LiveIsPending(Step(v, e));
    }
  }

  lemma LiveIsPending(v: View)
    requires v.Valid() && v.live.Some?
    ensures !v.IsCompleted(v.live.value)
  {
    assert v.FateFits(v.live.value);
  }

  // -------------------------------------------------------------------- example

  /** Without preloading, data is set for a file that was never read. */
  const UNREAD := [SetPreload(false, FINE), SetPath("f", FINE, FINE), SetData([1], false, FINE, FINE)]

  lemma AfterThree(a: Event, b: Event, c: Event)
    ensures After(INITIAL, [a, b, c]) == Step(Step(Step(INITIAL, a), b), c)
  {
    AfterStep(INITIAL, [], a);
    AfterStep(INITIAL, [a], b);
    AfterStep(INITIAL, [a, b], c);
    assert [] + [a] == [a] && [a] + [b] == [a, b] && [a, b] + [c] == [a, b, c];
  }

  lemma UnreadIsWriting()
    ensures var v := After(INITIAL, UNREAD);
            && v.live == Some(0) && v.inFlight == "" && v.target == "f" && !v.prepared && v.signals == []
            && 0 in v.operations && v.next == 1
            && v.operations[0] == Operation(Writer, State("f", [1], false, 0), Running, true, false, Sound)
  {
    AfterThree(UNREAD[0], UNREAD[1], UNREAD[2]);
    hide After, View.Valid;
    var v := Step(Step(INITIAL, UNREAD[0]), UNREAD[1]);
    assert v == INITIAL.(preload := false, target := "f");
  }

  lemma ReadOverWrite(v: View, stop: Outcome)
    requires v.live == Some(0) && v.inFlight != v.target == "f" && !v.prepared && v.signals == []
    requires 0 in v.operations && v.next == 1
    requires v.operations[0] == Operation(Writer, State("f", [1], false, 0), Running, true, false, Sound)
    requires stop.seesCancel
    ensures var w := v.Read(false, stop, FINE);
            && w.signals == [Saved(0)] && w.state == State("f", [1], stop.present, 0) && IsLost(w, 0)
  {
    hide View.Valid;
  }

  /** The file is never written, and a save of it is reported: the data is read while it is being written. */
  lemma UnwrittenIsSaved()
    ensures var v := After(INITIAL, UNREAD + [Read(false, FINE.(seesCancel := true), FINE)]);
            v.signals == [Saved(0)] && v.state == State("f", [1], true, 0) && IsLost(v, 0)
  {
    UnreadIsWriting();
    hide After, IsLost, View.Read;
    AfterStep(INITIAL, UNREAD, Read(false, FINE.(seesCancel := true), FINE));
    ReadOverWrite(After(INITIAL, UNREAD), FINE.(seesCancel := true));
  }
}
