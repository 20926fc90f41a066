/**
  A file view: at most one read or write of its target path is live at a time,
  workers finish whenever they like, and what the view shows is always the whole
  result of one operation.  Each slot runs to its end before the next one.
 */
module FileView {
  import opened Basics

  datatype State = State(path: string, data: Bytes, present: bool, error: nat)

  const EMPTY := State("", [], false, 0)

  datatype Kind = Reader | Writer

  datatype Phase = Running | Finished | Deleted

  /** Why a write that reports no error may still not have stored its data. */
  datatype Fault = Sound | Skipped | Uncommitted

  datatype Operation = Operation(
    kind: Kind, state: State, phase: Phase, connected: bool, cancelled: bool, fault: Fault)

  /** What the outside world makes of an operation. */
  datatype Outcome = Outcome(data: Bytes, present: bool, error: nat, seesCancel: bool, commits: bool)

  datatype Signal = Loaded(op: nat) | LoadFailed(op: nat) | Saved(op: nat) | SaveFailed(op: nat)

  /** What became of an operation in the eyes of the view. */
  datatype Fate = Pending | Disowned | Completed

  /**
    A worker fills in the result; it never changes the path, and writing leaves the data
    alone.  A worker that sees the cancel flag stops without an error, and a file that
    cannot be replaced at the end of an atomic write is only warned about.
   */
  function Ran(op: Operation, outcome: Outcome): Operation {
    if op.phase != Running then op
    else
      var stops := op.cancelled && outcome.seesCancel;
      var error := if stops then 0 else outcome.error;
      op.(phase := Finished,
          state := State(op.state.path, if op.kind == Reader then outcome.data else op.state.data,
                         outcome.present, error),
          fault := if op.kind == Reader || error != 0 then Sound
                   else if stops then Skipped
                   else if !outcome.commits then Uncommitted
                   else Sound)
  }

  /** The file was given the data of this write. */
  predicate Stored(op: Operation) {
    op.kind == Writer && op.phase != Running && op.state.error == 0 && op.fault == Sound
  }

  /** Paths may be given as file URLs. */
  function Local(path: string): string {
    if |path| >= 7 && path[..7] == "file://" then path[7..] else path
  }

  /** A file URL loses its scheme, once; any other path stays as it is. */
  lemma LocalPaths(path: string)
    ensures Local("file://" + path) == path
    ensures !("file://" <= path) ==> Local(path) == path
  {}

  function SignalOf(op: Operation, id: nat): Signal {
    match op.kind
    case Reader => if op.state.error != 0 then LoadFailed(id) else Loaded(id)
    case Writer => if op.state.error != 0 then SaveFailed(id) else Saved(id)
  }

  /** How often an operation has been reported complete. */
  function Reports(signals: seq<Signal>, id: nat): nat {
    if signals == [] then 0
    else Reports(signals[..|signals| - 1], id) + if signals[|signals| - 1].op == id then 1 else 0
  }

  // ------------------------------------------------------ the view as a value

  datatype View = View(
    operations: map<nat, Operation>, next: nat, live: Option<nat>,
    state: State, writeData: Bytes, target: string, inFlight: string,
    prepared: bool, preload: bool, signals: seq<Signal>,
    fate: map<nat, Fate>, shownBy: Option<nat>)
  {
    // ------------------------------------------------------------ invariants

    ghost predicate FateFits(i: nat)
      requires i in operations && i in fate
    {
      && i < next
      && (fate[i] == Pending <==> live == Some(i))
      && (operations[i].connected ==> fate[i] == Pending)
      && (fate[i] == Completed ==> operations[i].phase != Running)
      && (fate[i] == Disowned ==> operations[i].kind == Reader)
    }

    /** A single owner: the pending operation is the live one, connected, and works on the target path. */
    ghost predicate Owned() {
      && fate.Keys == operations.Keys
      && (forall i :: i in operations ==> FateFits(i))
      && (live.Some? ==> live.value in operations && LiveFits(operations[live.value]))
    }

    ghost predicate LiveFits(op: Operation) {
      op.connected && op.phase != Deleted && op.state.path == target != ""
    }

    ghost predicate IsCompleted(i: nat) {
      i in fate && fate[i] == Completed
    }

    /** Every completed operation was reported exactly once, every other one not at all. */
    ghost predicate Reported() {
      forall i :: Reports(signals, i) == if IsCompleted(i) then 1 else 0
    }

    /** The visible state is empty or one completed operation's whole result, and of the target path once prepared. */
    ghost predicate Coherent() {
      && (match shownBy
          case None => state == EMPTY
          case Some(i) => i in operations && IsCompleted(i) && state == operations[i].state)
      && (prepared ==> state.path == target)
    }

    ghost predicate Valid() {
      Owned() && Reported() && Coherent()
    }

    // -------------------------------------------------------------- the slots

    predicate LiveIs(kind: Kind) {
      live.Some? && live.value in operations && operations[live.value].kind == kind
    }

    function WorkerRuns(id: nat, outcome: Outcome): View {
      if id in operations then this.(operations := operations[id := Ran(operations[id], outcome)]) else this
    }

    /** An operation's result becomes the visible state and is reported. */
    function Complete(id: nat): View
      requires id in operations
    {
      var op := operations[id];
      this.(operations := operations[id := op.(connected := false)],
            writeData := [], state := op.state, prepared := true, live := None,
            signals := signals + [SignalOf(op, id)],
            fate := fate[id := Completed], shownBy := Some(id))
    }

    /** Blocks until the live operation's worker is done and completes it. */
    function WaitForJob(outcome: Outcome): View {
      if live.Some? && live.value in operations
      then var v := WorkerRuns(live.value, outcome); v.Complete(live.value)
      else this
    }

    /** A read is disowned; a write is waited for. */
    function CancelAsync(outcome: Outcome): View {
      if live.None? || live.value !in operations then this
      else
        var id := live.value;
        var v := this.(operations := operations[id := operations[id].(cancelled := true)]);
        if operations[id].kind == Reader then
          v.(operations := v.operations[id := v.operations[id].(connected := false)],
             live := None, fate := fate[id := Disowned])
        else v.WaitForJob(outcome)
    }

    function Start(kind: Kind, s: State): View {
      this.(operations := operations[next := Operation(kind, s, Running, true, false, Sound)],
            fate := fate[next := Pending], live := Some(next), next := next + 1)
    }

    function ShowEmpty(): View {
      this.(state := EMPTY, shownBy := None, prepared := true)
    }

    function LoadAsync(outcome: Outcome): View {
      if live.Some? && inFlight == target then this
      else
        var v := CancelAsync(outcome).(inFlight := target);
        if target == "" then v.ShowEmpty() else v.Start(Reader, State(target, [], false, 0))
    }

    function SaveAsync(outcome: Outcome): View {
      if target == "" then this.(writeData := [])
      else CancelAsync(outcome).Start(Writer, State(target, writeData, false, 0))
    }

    /** An operation run to its end within one slot. */
    function RunSync(kind: Kind, data: Bytes, outcome: Outcome): View {
      var v := Start(kind, State(target, data, false, 0));
      v.WaitForJob(outcome)
    }

    function LoadSync(waited: Outcome, read: Outcome): View {
      if target == "" then ShowEmpty()
      else if live.Some? && live.value in operations then WaitForJob(waited)
      else RunSync(Reader, [], read).(writeData := writeData)
    }

    /** The data is taken after the live operation was cancelled, which blanks it when that was a write. */
    function SaveSync(waited: Outcome, written: Outcome): View {
      if target == "" then this.(writeData := [])
      else var v := CancelAsync(waited); v.RunSync(Writer, v.writeData, written)
    }

    function UpdatePath(outcome: Outcome): View {
      var v := this.(prepared := false);
      if target == "" then v.ShowEmpty() else if preload then v.LoadAsync(outcome) else v
    }

    function SetPath(path: string, waited: Outcome, outcome: Outcome): View {
      if Local(path) == target then this
      else
        var v := if LiveIs(Writer) then WaitForJob(waited) else CancelAsync(waited);
        v.(target := Local(path)).UpdatePath(outcome)
    }

    function Read(block: bool, waited: Outcome, outcome: Outcome): View {
      if prepared then this else if block then LoadSync(waited, outcome) else LoadAsync(waited)
    }

    function SetData(data: Bytes, block: bool, waited: Outcome, outcome: Outcome): View {
      if (if writeData == [] then state.data else writeData) == data then this
      else
        var v := this.(writeData := data);
        if block then v.SaveSync(waited, outcome) else v.SaveAsync(waited)
    }

    function SetPreload(value: bool, outcome: Outcome): View {
      if value == preload then this
      else
        var v := this.(preload := value);
        if !prepared && value then v.LoadAsync(outcome) else v
    }

    /** The queued completion of a finished worker arrives; a disconnected one only disappears. */
    function Delivered(id: nat): View {
      if id !in operations || operations[id].phase != Finished then this
      else
        var v := if operations[id].connected && live == Some(id) then Complete(id) else this;
        v.(operations := v.operations[id := v.operations[id].(phase := Deleted)])
    }

    // ------------------------------------------------ every slot keeps the invariants

    /** Once an operation is disowned or completed it stays so. */
    ghost predicate KeepsFates(before: View) {
      forall i :: i in before.fate && before.fate[i] != Pending ==> i in fate && fate[i] == before.fate[i]
    }

    lemma FateShows(i: nat)
      requires Valid()
      ensures i in fate ==> Reports(signals, i) == if fate[i] == Completed then 1 else 0
      ensures i in fate && fate[i] != Completed ==> shownBy != Some(i)
    {
      hide Reports;
      assert IsCompleted(i) <==> i in fate && fate[i] == Completed;
    }

    lemma LiveExists()
      requires Valid()
      ensures live.Some? ==> live.value in operations
    {}

    lemma WorkerRunsKeeps(id: nat, outcome: Outcome)
      requires Valid()
      ensures WorkerRuns(id, outcome).Valid() && WorkerRuns(id, outcome).KeepsFates(this)
    {
      hide Reports;
      var v := WorkerRuns(id, outcome);
      forall i | i in v.operations ensures v.FateFits(i) {
        assert FateFits(i);
      }
      assert forall i :: v.IsCompleted(i) <==> IsCompleted(i);
    }

    lemma CompleteKeeps(id: nat)
      requires Valid() && live == Some(id) && operations[id].phase != Running
      ensures Complete(id).Valid() && Complete(id).KeepsFates(this) && Complete(id).live == None
    {
      var v := Complete(id);
      forall i | i in v.operations ensures v.FateFits(i) {
        assert FateFits(i);
      }
      assert FateFits(id);
      forall i ensures Reports(v.signals, i) == if v.IsCompleted(i) then 1 else 0 {
        assert v.signals[..|signals|] == signals;
        assert v.IsCompleted(i) <==> IsCompleted(i) || i == id;
      }
    }

    lemma WaitForJobKeeps(outcome: Outcome)
      requires Valid()
      ensures WaitForJob(outcome).Valid() && WaitForJob(outcome).KeepsFates(this) && WaitForJob(outcome).live == None
      ensures live.Some? ==> WaitForJob(outcome).Reporting(this, live.value)
    {
      if live.Some? {
        var v := WorkerRuns(live.value, outcome);
        WorkerRunsKeeps(live.value, outcome);
        v.CompleteKeeps(live.value);
      }
    }

    /** Compared with before, exactly one operation was completed: reported last, and shown whole. */
    ghost predicate Reporting(before: View, id: nat) {
      && IsCompleted(id) && !before.IsCompleted(id) && id in operations
      && signals == before.signals + [SignalOf(operations[id], id)]
      && shownBy == Some(id) && state == operations[id].state
    }

    lemma CancelAsyncKeeps(outcome: Outcome)
      requires Valid()
      ensures CancelAsync(outcome).Valid() && CancelAsync(outcome).KeepsFates(this) && CancelAsync(outcome).live == None
      ensures CancelAsync(outcome).target == target
    {
      if live.Some? {
        var id := live.value;
        assert FateFits(id);
        var cancelled := this.(operations := operations[id := operations[id].(cancelled := true)]);
        if operations[id].kind == Reader {
          DisownKeeps(outcome);
        } else {
          TouchKeeps(cancelled);
          cancelled.WaitForJobKeeps(outcome);
        }
      }
    }

    /** Setting the cancel flag of the live operation is invisible. */
    lemma TouchKeeps(v: View)
      requires Valid() && live.Some?
      requires v == this.(operations := operations[live.value := operations[live.value].(cancelled := true)])
      ensures v.Valid()
    {
      hide Reports;
      forall i | i in v.operations ensures v.FateFits(i) {
        assert FateFits(i);
      }
      assert forall i :: v.IsCompleted(i) <==> IsCompleted(i);
    }

    lemma DisownKeeps(outcome: Outcome)
      requires Valid() && live.Some? && operations[live.value].kind == Reader
      ensures CancelAsync(outcome).Valid() && CancelAsync(outcome).KeepsFates(this)
    {
      hide Reports;
      var v := CancelAsync(outcome);
      assert FateFits(live.value);
      forall i | i in v.operations ensures v.FateFits(i) {
        assert FateFits(i);
      }
      assert forall i :: v.IsCompleted(i) <==> IsCompleted(i);
    }

    lemma StartKeeps(kind: Kind, s: State)
      requires Valid() && live == None && s.path == target != ""
      ensures Start(kind, s).Valid() && Start(kind, s).KeepsFates(this)
    {
      hide Reports;
      var v := Start(kind, s);
      forall i | i in operations ensures i != next {
        assert FateFits(i);
      }
      forall i | i in v.operations ensures v.FateFits(i) {
        if i != next {
          assert FateFits(i);
        }
      }
      assert forall i :: v.IsCompleted(i) <==> IsCompleted(i);
    }

    lemma RunSyncKeeps(kind: Kind, data: Bytes, outcome: Outcome)
      requires Valid() && live == None && target != ""
      ensures RunSync(kind, data, outcome).Valid() && RunSync(kind, data, outcome).KeepsFates(this)
    {
      var s := State(target, data, false, 0);
      StartKeeps(kind, s);
      Start(kind, s).WaitForJobKeeps(outcome);
    }

    /** The pending write data plays no part in the invariants, nor do the preload flag and the path in flight. */
    lemma BookkeepingKeeps(v: View)
      requires Valid()
      requires v == this.(writeData := v.writeData, preload := v.preload, inFlight := v.inFlight)
      ensures v.Valid()
    {
      hide Reports;
      forall i | i in v.operations ensures v.FateFits(i) {
        assert FateFits(i);
      }
      assert forall i :: v.IsCompleted(i) <==> IsCompleted(i);
    }

    lemma ShowEmptyKeeps()
      requires this.(prepared := false).Valid() && target == ""
      ensures ShowEmpty().Valid() && ShowEmpty().KeepsFates(this)
    {
      hide Reports;
      var v, w := this.(prepared := false), ShowEmpty();
      forall i | i in w.operations ensures w.FateFits(i) {
        assert v.FateFits(i);
      }
      assert forall i :: w.IsCompleted(i) <==> v.IsCompleted(i);
    }

    lemma UnpreparedKeeps()
      requires Valid()
      ensures this.(prepared := false).Valid()
    {
      hide Reports;
      var v := this.(prepared := false);
      forall i | i in v.operations ensures v.FateFits(i) {
        assert FateFits(i);
      }
      assert forall i :: v.IsCompleted(i) <==> IsCompleted(i);
    }

    lemma RetargetKeeps(path: string)
      requires Valid() && live == None
      ensures this.(target := path, prepared := false).Valid()
    {
      hide Reports;
      var v := this.(target := path, prepared := false);
      forall i | i in v.operations ensures v.FateFits(i) {
        assert FateFits(i);
      }
      assert forall i :: v.IsCompleted(i) <==> IsCompleted(i);
    }

    lemma LoadAsyncKeeps(outcome: Outcome)
      requires Valid()
      ensures LoadAsync(outcome).Valid() && LoadAsync(outcome).KeepsFates(this)
    {
      hide Valid, CancelAsync, Start, ShowEmpty;
      if !(live.Some? && inFlight == target) {
        CancelAsyncKeeps(outcome);
        var v := CancelAsync(outcome);
        v.BookkeepingKeeps(v.(inFlight := target));
        if target == "" {
          v.(inFlight := target).UnpreparedKeeps();
          v.(inFlight := target).ShowEmptyKeeps();
        } else {
          v.(inFlight := target).StartKeeps(Reader, State(target, [], false, 0));
        }
      }
    }

    lemma SaveAsyncKeeps(outcome: Outcome)
      requires Valid()
      ensures SaveAsync(outcome).Valid() && SaveAsync(outcome).KeepsFates(this)
    {
      hide Valid, CancelAsync, Start;
      BookkeepingKeeps(this.(writeData := []));
      if target != "" {
        CancelAsyncKeeps(outcome);
        CancelAsync(outcome).StartKeeps(Writer, State(target, writeData, false, 0));
      }
    }

    lemma LoadSyncKeeps(waited: Outcome, read: Outcome)
      requires Valid()
      ensures LoadSync(waited, read).Valid() && LoadSync(waited, read).KeepsFates(this)
    {
      hide WaitForJob, RunSync, ShowEmpty;
      if target == "" {
        UnpreparedKeeps();
        ShowEmptyKeeps();
      } else if live.Some? {
        WaitForJobKeeps(waited);
      } else {
        RunSyncKeeps(Reader, [], read);
        var v := RunSync(Reader, [], read);
        v.BookkeepingKeeps(v.(writeData := writeData));
      }
    }

    lemma SaveSyncKeeps(waited: Outcome, written: Outcome)
      requires Valid()
      ensures SaveSync(waited, written).Valid() && SaveSync(waited, written).KeepsFates(this)
    {
      hide Valid, CancelAsync, RunSync;
      BookkeepingKeeps(this.(writeData := []));
      if target != "" {
        CancelAsyncKeeps(waited);
        var v := CancelAsync(waited);
        v.RunSyncKeeps(Writer, v.writeData, written);
      }
    }

    lemma UpdatePathKeeps(outcome: Outcome)
      requires this.(prepared := false).Valid()
      ensures UpdatePath(outcome).Valid() && UpdatePath(outcome).KeepsFates(this)
    {
      hide Valid, LoadAsync, ShowEmpty;
      var v := this.(prepared := false);
      if target == "" {
        v.ShowEmptyKeeps();
      } else if preload {
        v.LoadAsyncKeeps(outcome);
      }
    }

    lemma SetPathKeeps(path: string, waited: Outcome, outcome: Outcome)
      requires Valid()
      ensures SetPath(path, waited, outcome).Valid() && SetPath(path, waited, outcome).KeepsFates(this)
    {
      hide Valid, WaitForJob, CancelAsync, UpdatePath;
      var p := Local(path);
      if p != target {
        WaitForJobKeeps(waited);
        CancelAsyncKeeps(waited);
        var v := if LiveIs(Writer) then WaitForJob(waited) else CancelAsync(waited);
        v.RetargetKeeps(p);
        assert v.(target := p).(prepared := false) == v.(target := p, prepared := false);
        v.(target := p).UpdatePathKeeps(outcome);
      }
    }

    lemma DeliveredKeeps(id: nat)
      requires Valid()
      ensures Delivered(id).Valid() && Delivered(id).KeepsFates(this)
    {
      hide Reports;
      if id in operations && operations[id].phase == Finished {
        assert FateFits(id);
        if live == Some(id) {
          CompleteKeeps(id);
          Complete(id).DeletedKeeps(id);
        } else {
          DeletedKeeps(id);
        }
      }
    }

    /** Disposing of an operation that is not live is invisible. */
    lemma DeletedKeeps(id: nat)
      requires Valid() && id in operations && live != Some(id) && operations[id].phase != Running
      ensures this.(operations := operations[id := operations[id].(phase := Deleted)]).Valid()
    {
      hide Reports;
      var v := this.(operations := operations[id := operations[id].(phase := Deleted)]);
      forall i | i in v.operations ensures v.FateFits(i) {
        assert FateFits(i);
      }
      assert forall i :: v.IsCompleted(i) <==> IsCompleted(i);
    }
  }

  // ---------------------------------------------------------------- whole runs

  const INITIAL := View(map[], 0, None, EMPTY, [], "", "", false, true, [], map[], None)

  /** Slots called from outside and steps of workers, with what workers come up with. */
  datatype Event =
    | WorkerRuns(id: nat, outcome: Outcome)
    | Delivered(id: nat)
    | SetPath(path: string, waited: Outcome, outcome: Outcome)
    | Reload(outcome: Outcome)
    | WaitForJob(outcome: Outcome)
    | Read(block: bool, waited: Outcome, outcome: Outcome)
    | SetData(data: Bytes, block: bool, waited: Outcome, outcome: Outcome)
    | SetPreload(preload: bool, outcome: Outcome)

  function Step(v: View, e: Event): View {
    match e
    case WorkerRuns(id, outcome) => v.WorkerRuns(id, outcome)
    case Delivered(id) => v.Delivered(id)
    case SetPath(path, waited, outcome) => v.SetPath(path, waited, outcome)
    case Reload(outcome) => v.UpdatePath(outcome)
    case WaitForJob(outcome) => v.WaitForJob(outcome)
    case Read(block, waited, outcome) => v.Read(block, waited, outcome)
    case SetData(data, block, waited, outcome) => v.SetData(data, block, waited, outcome)
    case SetPreload(preload, outcome) => v.SetPreload(preload, outcome)
  }

  function After(v: View, events: seq<Event>): View {
    if events == [] then v else Step(After(v, events[..|events| - 1]), events[|events| - 1])
  }

  /** Every slot and every worker step keeps the invariants. */
  lemma StepKeeps(v: View, e: Event)
    requires v.Valid()
    ensures Step(v, e).Valid() && Step(v, e).KeepsFates(v)
  {
    hide View.Valid, View.WorkerRuns, View.Delivered, View.SetPath, View.UpdatePath, View.LoadSync, View.LoadAsync;
    hide View.SaveSync, View.SaveAsync, View.WaitForJob;
    match e
    case WorkerRuns(id, outcome) => v.WorkerRunsKeeps(id, outcome);
    case Delivered(id) => v.DeliveredKeeps(id);
    case SetPath(path, waited, outcome) => v.SetPathKeeps(path, waited, outcome);
    case Reload(outcome) =>
      v.UnpreparedKeeps();
      v.UpdatePathKeeps(outcome);
    case WaitForJob(outcome) => v.WaitForJobKeeps(outcome);
    case Read(block, waited, outcome) =>
      v.LoadSyncKeeps(waited, outcome);
      v.LoadAsyncKeeps(waited);
    case SetData(data, block, waited, outcome) =>
      v.BookkeepingKeeps(v.(writeData := data));
      v.(writeData := data).SaveSyncKeeps(waited, outcome);
      v.(writeData := data).SaveAsyncKeeps(waited);
    case SetPreload(preload, outcome) =>
      v.BookkeepingKeeps(v.(preload := preload));
      v.(preload := preload).LoadAsyncKeeps(outcome);
  }

  /** In every run the live operation works on the target path, reports are exact and the state is whole. */
  lemma {:induction false} EveryRunIsValid(events: seq<Event>)
    ensures After(INITIAL, events).Valid()
  {
    if events != [] {
      EveryRunIsValid(events[..|events| - 1]);
      StepKeeps(After(INITIAL, events[..|events| - 1]), events[|events| - 1]);
    }
  }

  /** Whatever happens later, a disowned read is neither reported nor shown, a completed operation reported once. */
  lemma {:induction false} FatesAreFinal(events: seq<Event>, more: seq<Event>, i: nat)
    requires i in After(INITIAL, events).fate && After(INITIAL, events).fate[i] != Pending
    ensures var fate, w := After(INITIAL, events).fate[i], After(INITIAL, events + more);
            && i in w.fate && w.fate[i] == fate
            && Reports(w.signals, i) == (if fate == Completed then 1 else 0)
            && (fate == Disowned ==> w.shownBy != Some(i))
    decreases |more|
  {
    hide View.Valid, Step, Reports;
    EveryRunIsValid(events + more);
    After(INITIAL, events + more).FateShows(i);
    if more == [] {
      assert events + more == events;
    } else {
      var init := more[..|more| - 1];
      FatesAreFinal(events, init, i);
      EveryRunIsValid(events + init);
      StepKeeps(After(INITIAL, events + init), more[|more| - 1]);
      assert (events + more)[..|events + more| - 1] == events + init;
    }
  }

  /** A blocking save writes the data it was given exactly if no write was live, or there was nothing to lose. */
  lemma SaveSyncWritesItsData(v: View, waited: Outcome, written: Outcome)
    requires v.Valid() && v.target != ""
    ensures v.SaveSync(waited, written).state.data == v.writeData <==> !v.LiveIs(Writer) || v.writeData == []
  {
    if v.live.Some? {
      assert v.FateFits(v.live.value);
    }
  }

  /** The live operation's worker comes to an end and its completion arrives. */
  function Settled(v: View, outcome: Outcome): View {
    if v.live.None? then v
    else var w := v.WorkerRuns(v.live.value, outcome); w.Delivered(v.live.value)
  }

  /** What a user of the view can tell: what it shows, and what was reported. */
  ghost predicate LooksLike(v: View, w: View) {
    && v.state == w.state && v.prepared == w.prepared && v.shownBy == w.shownBy
    && v.signals == w.signals && v.live == w.live
  }

  /** A started operation that settles becomes the whole visible state, and is reported in its own way. */
  lemma StartSettles(v: View, kind: Kind, data: Bytes, outcome: Outcome)
    requires v.Valid() && v.live == None && v.target != ""
    ensures var id, started := v.next, v.Start(kind, State(v.target, data, false, 0));
            var w := Settled(started, outcome);
            && w.live == None && w.prepared && w.writeData == []
            && w.state == State(v.target, if kind == Reader then outcome.data else data, outcome.present, outcome.error)
            && w.shownBy == Some(id)
            && w.signals == v.signals + [if kind == Reader
                                         then if outcome.error != 0 then LoadFailed(id) else Loaded(id)
                                         else if outcome.error != 0 then SaveFailed(id) else Saved(id)]
            && LooksLike(v.RunSync(kind, data, outcome), w)
  {
    hide View.Valid;
  }

  /** A blocking load shows and reports what an asynchronous one does once it settles, but keeps the data to write. */
  lemma BlockingLoadAgrees(v: View, waited: Outcome, read: Outcome)
    requires v.Valid() && v.live == None && v.target != ""
    ensures var sync, async := v.LoadSync(waited, read), Settled(v.LoadAsync(waited), read);
            && LooksLike(sync, async)
            && sync.state == State(v.target, read.data, read.present, read.error)
            && sync.writeData == v.writeData && async.writeData == []
  {
    hide View.Valid, View.RunSync, View.Start, Settled;
    v.BookkeepingKeeps(v.(inFlight := v.target));
    StartSettles(v, Reader, [], read);
    StartSettles(v.(inFlight := v.target), Reader, [], read);
  }

  /** An asynchronous save always writes the data it was given; the blocking one agrees exactly if it does too. */
  lemma BlockingSaveAgrees(v: View, waited: Outcome, written: Outcome)
    requires v.Valid() && v.target != ""
    ensures var sync, async := v.SaveSync(waited, written), Settled(v.SaveAsync(waited), written);
            && async.state == State(v.target, v.writeData, written.present, written.error)
            && sync.signals == async.signals
            && (LooksLike(sync, async) <==> !v.LiveIs(Writer) || v.writeData == [])
  {
    var cancelled := v.CancelAsync(waited);
    v.CancelAsyncKeeps(waited);
    SaveSyncWritesItsData(v, waited, written);
    hide View.Valid, View.RunSync, View.Start, Settled, View.CancelAsync, View.LiveIs;
    StartSettles(cancelled, Writer, v.writeData, written);
    StartSettles(cancelled, Writer, cancelled.writeData, written);
  }

  /** A view that preloads and gets a new path shows the file at that path as soon as its read settles. */
  lemma NewPathIsLoaded(v: View, path: string, waited: Outcome, outcome: Outcome, read: Outcome)
    requires v.Valid() && v.preload && Local(path) != v.target && Local(path) != ""
    ensures var w := v.SetPath(path, waited, outcome);
            && w.live.Some? && w.live.value in w.operations && w.LiveIs(Reader)
            && Settled(w, read).state == State(Local(path), read.data, read.present, read.error)
  {
    hide View.Valid, View.WaitForJob, View.CancelAsync, View.Start, Settled;
    v.WaitForJobKeeps(waited);
    v.CancelAsyncKeeps(waited);
    var idle := if v.LiveIs(Writer) then v.WaitForJob(waited) else v.CancelAsync(waited);
    IdleKeepsSettings(v, waited);
    idle.RetargetKeeps(Local(path));
    var moved := idle.(target := Local(path), prepared := false);
    var aimed := moved.(inFlight := moved.target);
    moved.BookkeepingKeeps(aimed);
    IdleCancels(moved, outcome);
    assert v.SetPath(path, waited, outcome) == aimed.Start(Reader, State(aimed.target, [], false, 0));
    StartSettles(aimed, Reader, [], read);
    StartIsLive(aimed, Reader, State(aimed.target, [], false, 0));
  }

  lemma StartIsLive(v: View, kind: Kind, s: State)
    ensures var w := v.Start(kind, s); w.live == Some(v.next) && v.next in w.operations && w.LiveIs(kind)
  {}

  /** There is nothing to cancel without a live operation. */
  lemma IdleCancels(v: View, outcome: Outcome)
    requires v.live == None
    ensures v.CancelAsync(outcome) == v
  {}

  lemma IdleKeepsSettings(v: View, outcome: Outcome)
    ensures v.WaitForJob(outcome).preload == v.preload == v.CancelAsync(outcome).preload
    ensures v.WaitForJob(outcome).target == v.target == v.CancelAsync(outcome).target
  {}

  const FINE := Outcome([], true, 0, false, true)

  /** A write of the data is live. */
  const WRITING := [SetPath("f", FINE, FINE), SetData([1], false, FINE, FINE)]

  lemma AfterStep(v: View, events: seq<Event>, e: Event)
    ensures After(v, events + [e]) == Step(After(v, events), e)
  {
    assert (events + [e])[..|events|] == events;
  }

  lemma AfterNothing(v: View)
    ensures After(v, []) == v
  {}

  lemma WriteCanBeLive()
    ensures var v := After(INITIAL, WRITING);
            && v.LiveIs(Writer) && v.target == "f" && v.live == Some(1) && v.writeData == [1] && v.signals == []
            && v.next == 2
            && v.operations[1] == Operation(Writer, State("f", [1], false, 0), Running, true, false, Sound)
            && v.state == EMPTY
  {
    hide Reports, View.Valid, After;
    AfterNothing(INITIAL);
    var v := INITIAL.SetPath("f", FINE, FINE);
    assert v.target == "f" && v.live == Some(0) && v.writeData == [];
    AfterStep(INITIAL, [], WRITING[0]);
    AfterStep(INITIAL, [WRITING[0]], WRITING[1]);
    assert [] + [WRITING[0]] == [WRITING[0]] && [WRITING[0]] + [WRITING[1]] == WRITING;
  }

  /** A blocking save on top of that write loses the data it is given. */
  lemma OverlappingSaveLosesData()
    ensures var v := After(INITIAL, WRITING + [SetData([2], true, FINE, FINE)]);
            v.state == State("f", [], true, 0) && v.signals == [Saved(1), Saved(2)]
  {
    WriteCanBeLive();
    hide Reports, View.Valid, After;
    AfterStep(INITIAL, WRITING, SetData([2], true, FINE, FINE));
    var v := After(INITIAL, WRITING).(writeData := [2]);
    LiveWriteIsBlanked(v);
  }

  lemma LiveWriteIsBlanked(v: View)
    requires v.LiveIs(Writer) && v.target == "f" && v.live == Some(1) && v.signals == []
    requires v.operations[1].state == State("f", [1], false, 0)
    requires v.operations[1].phase == Running && v.next == 2
    ensures v.SaveSync(FINE, FINE).state == State("f", [], true, 0)
    ensures v.SaveSync(FINE, FINE).signals == [Saved(1), Saved(2)]
  {
    hide View.Valid;
  }

  // ---------------------------------------------------------------- the object

  class FileView {
    var operations: map<nat, Operation>
    var nextOperation: nat
    var liveOperation: Option<nat>
    var state: State
    var writeData: Bytes
    var targetPath: string
    var pathInFlight: string
    var mPrepared: bool
    var mPreload: bool
    var signals: seq<Signal>
    ghost var fate: map<nat, Fate>
    ghost var shownBy: Option<nat>

    ghost function Now(): View
      reads this
    {
      View(operations, nextOperation, liveOperation, state, writeData, targetPath, pathInFlight,
           mPrepared, mPreload, signals, fate, shownBy)
    }

    constructor ()
      ensures Now() == INITIAL
    {
      operations, nextOperation, liveOperation := map[], 0, None;
      state, writeData, targetPath, pathInFlight := EMPTY, [], "", "";
      mPrepared, mPreload, signals := false, true, [];
      fate, shownBy := map[], None;
    }

    method UpdateState(newState: State)
      modifies this`state, this`mPrepared
      ensures state == newState && mPrepared
    {
      var pathChanged := newState.path != state.path;
      var dataChanged := pathChanged || newState.data != state.data;
      mPrepared := true;
      state := state.(path := newState.path);
      if dataChanged {
        state := state.(data := newState.data);
      }
      state := state.(present := newState.present, error := newState.error);
    }

    method ClearState()
      modifies this`state, this`mPrepared, this`shownBy
      ensures Now() == old(Now()).ShowEmpty()
    {
      UpdateState(EMPTY);
      shownBy := None;
    }

    /** The live operation's result becomes the state, and its signal is emitted. */
    method Complete()
      requires liveOperation.Some? && liveOperation.value in operations
      modifies this
      ensures Now() == old(Now()).Complete(old(liveOperation).value)
    {
      hide SignalOf;
      var id := liveOperation.value;
      var op := operations[id];
      operations := operations[id := op.(connected := false)];
      writeData := [];
      UpdateState(op.state);
      Emit(op, id);
      liveOperation := None;
      fate, shownBy := fate[id := Completed], Some(id);
    }

    method Emit(op: Operation, id: nat)
      modifies this`signals
      ensures signals == old(signals) + [SignalOf(op, id)]
    {
      if op.kind == Reader {
        signals := signals + [if op.state.error != 0 then LoadFailed(id) else Loaded(id)];
      } else {
        signals := signals + [if op.state.error != 0 then SaveFailed(id) else Saved(id)];
      }
    }

    method WorkerRuns(id: nat, outcome: Outcome)
      modifies this`operations
      ensures Now() == old(Now()).WorkerRuns(id, outcome)
    {
      if id in operations {
        operations := operations[id := Ran(operations[id], outcome)];
      }
    }

    method Delivered(id: nat)
      requires Now().Valid()
      modifies this
      ensures Now() == old(Now()).Delivered(id)
    {
      if id in operations && operations[id].phase == Finished {
        if operations[id].connected {
          OperationFinished(id);
        }
        operations := operations[id := operations[id].(phase := Deleted)];
      }
    }

    method OperationFinished(sender: nat)
      requires sender in operations
      modifies this
      ensures Now() == if old(liveOperation) == Some(sender) then old(Now()).Complete(sender) else old(Now())
    {
      if Some(sender) != liveOperation {
        return;
      }
      Complete();
    }

    method WaitForJob(outcome: Outcome) returns (waited: bool)
      requires Now().Valid()
      modifies this
      ensures Now() == old(Now()).WaitForJob(outcome) && waited == old(liveOperation.Some?)
    {
      waited := liveOperation.Some?;
      if waited {
        WorkerRuns(liveOperation.value, outcome);
        Complete();
      }
    }

    method CancelAsync(outcome: Outcome)
      requires Now().Valid()
      modifies this
      ensures Now() == old(Now()).CancelAsync(outcome)
    {
      hide Reports, SignalOf, Ran;
      if liveOperation.None? {
        return;
      }
      var id := liveOperation.value;
      ghost var before := Now();
      operations := operations[id := operations[id].(cancelled := true)];
      if operations[id].kind == Reader {
        operations := operations[id := operations[id].(connected := false)];
        liveOperation := None;
        fate := fate[id := Disowned];
      } else {
        before.TouchKeeps(Now());
        hide View.WaitForJob, View.Valid;
        var _ := WaitForJob(outcome);
      }
    }

    method Start(kind: Kind, s: State)
      modifies this`operations, this`fate, this`liveOperation, this`nextOperation
      ensures Now() == old(Now()).Start(kind, s)
    {
      operations := operations[nextOperation := Operation(kind, s, Running, true, false, Sound)];
      fate := fate[nextOperation := Pending];
      liveOperation := Some(nextOperation);
      nextOperation := nextOperation + 1;
    }

    method LoadAsync(outcome: Outcome)
      requires Now().Valid()
      modifies this
      ensures Now() == old(Now()).LoadAsync(outcome)
    {
      hide View.Valid, View.CancelAsync, View.Start, View.ShowEmpty;
      if liveOperation.None? || pathInFlight != targetPath {
        CancelAsync(outcome);
        old(Now()).CancelAsyncKeeps(outcome);
        pathInFlight := targetPath;
        if targetPath == "" {
          ClearState();
        } else {
          Start(Reader, State(targetPath, [], false, 0));
        }
      }
    }

    method SaveAsync(outcome: Outcome)
      requires Now().Valid()
      modifies this
      ensures Now() == old(Now()).SaveAsync(outcome)
    {
      hide View.Valid, View.CancelAsync, View.Start;
      if targetPath == "" {
        writeData := [];
      } else {
        var data := writeData;
        CancelAsync(outcome);
        old(Now()).CancelAsyncKeeps(outcome);
        Start(Writer, State(targetPath, data, false, 0));
      }
    }

    /** A blocking read or write: started, run and completed in one go. */
    method RunSync(kind: Kind, data: Bytes, outcome: Outcome)
      requires Now().Valid() && liveOperation == None && targetPath != ""
      modifies this
      ensures Now() == old(Now()).RunSync(kind, data, outcome)
    {
      hide View.Valid, View.WaitForJob, View.Start;
      Start(kind, State(targetPath, data, false, 0));
      old(Now()).StartKeeps(kind, State(old(targetPath), data, false, 0));
      var _ := WaitForJob(outcome);
    }

    method LoadSync(waited: Outcome, read: Outcome)
      requires Now().Valid()
      modifies this
      ensures Now() == old(Now()).LoadSync(waited, read)
    {
      hide View.WaitForJob, View.RunSync, View.ShowEmpty;
      if targetPath == "" {
        ClearState();
      } else if liveOperation.Some? {
        var _ := WaitForJob(waited);
      } else {
        var data := writeData;
        RunSync(Reader, [], read);
        writeData := data;
      }
    }

    method SaveSync(waited: Outcome, written: Outcome)
      requires Now().Valid()
      modifies this
      ensures Now() == old(Now()).SaveSync(waited, written)
    {
      hide View.Valid, View.CancelAsync, View.RunSync;
      if targetPath == "" {
        writeData := [];
      } else {
        CancelAsync(waited);
        old(Now()).CancelAsyncKeeps(waited);
        RunSync(Writer, writeData, written);
      }
    }

    method UpdatePath(outcome: Outcome)
      requires Now().(prepared := false).Valid()
      modifies this
      ensures Now() == old(Now()).UpdatePath(outcome)
    {
      hide View.Valid, View.LoadAsync, View.ShowEmpty;
      mPrepared := false;
      assert Now() == old(Now()).(prepared := false);
      if targetPath == "" {
        ClearState();
      } else if mPreload {
        LoadAsync(outcome);
      }
    }

    method SetPath(path: string, waited: Outcome, outcome: Outcome)
      requires Now().Valid()
      modifies this
      ensures Now() == old(Now()).SetPath(path, waited, outcome)
    {
      hide View.Valid, View.WaitForJob, View.CancelAsync, View.UpdatePath;
      var p := Local(path);
      if p == targetPath {
        return;
      }
      old(Now()).LiveExists();
      old(Now()).WaitForJobKeeps(waited);
      old(Now()).CancelAsyncKeeps(waited);
      if liveOperation.Some? && operations[liveOperation.value].kind == Writer {
        var _ := WaitForJob(waited);
      } else {
        CancelAsync(waited);
      }
      ghost var cancelled := Now();
      cancelled.RetargetKeeps(p);
      targetPath := p;
      assert Now().(prepared := false) == cancelled.(target := p, prepared := false);
      UpdatePath(outcome);
    }

    /** Reading the data loads it first if it was never prepared. */
    method Data(block: bool, waited: Outcome, outcome: Outcome) returns (data: Bytes)
      requires Now().Valid()
      modifies this
      ensures Now() == old(Now()).Read(block, waited, outcome) && data == state.data
    {
      hide View.Valid, View.LoadSync, View.LoadAsync;
      if !mPrepared {
        if block {
          LoadSync(waited, outcome);
        } else {
          LoadAsync(waited);
        }
      }
      data := state.data;
    }

    method SetData(data: Bytes, block: bool, waited: Outcome, outcome: Outcome)
      requires Now().Valid()
      modifies this
      ensures Now() == old(Now()).SetData(data, block, waited, outcome)
    {
      hide View.Valid, View.SaveSync, View.SaveAsync;
      if (if writeData == [] then state.data else writeData) == data {
        return;
      }
      writeData := data;
      old(Now()).BookkeepingKeeps(Now());
      if block {
        SaveSync(waited, outcome);
      } else {
        SaveAsync(waited);
      }
    }

    method SetPreload(preload: bool, outcome: Outcome)
      requires Now().Valid()
      modifies this
      ensures Now() == old(Now()).SetPreload(preload, outcome)
    {
      hide View.Valid, View.LoadAsync;
      if preload != mPreload {
        mPreload := preload;
        old(Now()).BookkeepingKeeps(Now());
        if !mPrepared && mPreload {
          LoadAsync(outcome);
        }
      }
    }
  }
}
