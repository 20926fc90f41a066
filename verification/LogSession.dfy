/**
  A printing session over a log, in terms of the run that was written: which of its
  messages are printed.
 */
module LogSession {
  import opened Basics
  import opened LogFormat
  import opened LogCodec
  import opened LogCategories
  import LogReader
  import LogMachines
  import LogRoundTrip

  /** Each type of message has its own flag, and fatal ones always pass. */
  ghost predicate Passes(f: CategoryFilter, typ: MsgType) {
    && (typ == Debug ==> f.debug)
    && (typ == Info ==> f.info)
    && (typ == Warning ==> f.warn)
    && (typ == Critical ==> f.critical)
  }

  lemma PassesIsDisplay(f: CategoryFilter, typ: MsgType)
    ensures Passes(f, typ) <==> LogReader.ShouldDisplay(f, typ)
  {}

  /** The rules are applied to the filter the message's category first came with in the run. */
  ghost predicate Lets(whole: Run, rules: LogReader.Rules, key: Content) {
    var first := FirstFilter(whole, key.category);
    first.Some? && Passes(rules(key.category, first.value), key.typ)
  }

  /** The messages of a run that pass, in order. */
  ghost function Selected(whole: Run, rules: LogReader.Rules, run: Run): Run {
    if run == [] then []
    else (if Lets(whole, rules, Key(run[0].0)) then [run[0]] else []) + Selected(whole, rules, run[1..])
  }

  /** The filters chosen so far are those of the categories, with the rules applied. */
  ghost predicate Chosen(filters: LogReader.Filters, rules: LogReader.Rules, r: ReaderState) {
    forall id :: id in filters ==>
      id < |r.categories| && filters[id] == rules(r.categories[id].name, r.categories[id].filter)
  }

  /** The messages of a run, with their times in whole seconds where those can be told. */
  ghost predicate Same(messages: seq<Message>, run: Run, timed: bool) {
    && |messages| == |run|
    && (forall i :: 0 <= i < |run| ==> Key(messages[i]) == Key(run[i].0))
    && (timed ==> forall i :: 0 <= i < |run| ==> messages[i].time == 1000 * Secs(run[i].0.time))
  }

  /** The messages that pass, of those that were read. */
  ghost function Picked(whole: Run, rules: LogReader.Rules, messages: seq<Message>): seq<Message> {
    if messages == [] then []
    else (if Lets(whole, rules, Key(messages[0])) then [messages[0]] else []) + Picked(whole, rules, messages[1..])
  }

  lemma {:induction false} PickedIsSelected(
      whole: Run, rules: LogReader.Rules, messages: seq<Message>, run: Run, timed: bool)
    requires Same(messages, run, timed)
    ensures Same(Picked(whole, rules, messages), Selected(whole, rules, run), timed)
    decreases |run|
  {
    hide Lets, Key, Secs;
    if run != [] {
      PickedIsSelected(whole, rules, messages[1..], run[1..], timed);
    }
  }

  lemma PickedStep(whole: Run, rules: LogReader.Rules, m: Message, messages: seq<Message>)
    ensures Picked(whole, rules, [m] + messages)
         == (if Lets(whole, rules, Key(m)) then [m] else []) + Picked(whole, rules, messages)
  {
    assert ([m] + messages)[1..] == messages;
  }

  /** The filter for a message is that of its category, with the rules applied, and is remembered as that. */
  lemma FilterIsChosen(
      filters: LogReader.Filters, rules: LogReader.Rules, before: ReaderState, r: ReaderState, m: Message)
    requires Chosen(filters, rules, before) && before.categories <= r.categories && Identified(r.categories, m)
    ensures var f := LogReader.FilterFor(filters, rules, r, m);
            && f == rules(m.category, r.categories[m.readCategoryId].filter)
            && Chosen(filters[m.readCategoryId := f], rules, r)
  {
    assert forall id :: id in filters ==> before.categories[id] == r.categories[id];
  }

  lemma FiltersAreFirst(past: Run, w: WriterState, r: ReaderState, later: Run, m: Message)
    requires Tracked(past, w, r) && Identified(r.categories, m)
    ensures FirstFilter(past + later, m.category) == Some(r.categories[m.readCategoryId].filter)
  {
    IdIsNumber(past, w, r, m);
    FirstFilterOfBoth(past, later, m.category);
  }

  /** A session over the rest of a faithful log shows exactly the messages read there that pass. */
  lemma {:induction false} SessionShows(past: Run, w: WriterState, r: ReaderState, run: Run,
                                        filters: LogReader.Filters, rules: LogReader.Rules)
    requires Tracked(past, w, r) && WriterOk(w) && RunSendable(w, run) && RunFaithful(w, run)
    requires Chosen(filters, rules, r)
    ensures LogReader.Shown(filters, rules, r, EncodeAll(w, run))
         == Picked(past + run, rules, DecodeAll(r, EncodeAll(w, run)).messages)
    decreases |run|
  {
    hide Decode, Encode, EncodeAll, DecodeAll, Sendable, Faithful, AfterWrite, Tracked, Identified, Chosen, Key, Picked;
    hide LogReader.FilterFor, LogReader.Shown, LogReader.ShouldDisplay, LogReader.EndsCleanly, Passes;
    LogReader.SessionStep(filters, rules, r, EncodeAll(w, run));
    DecodeAllStep(r, EncodeAll(w, run));
    if run == [] {
      NothingShows(past + run, w, r, filters, rules);
    } else {
      var (m, filter) := run[0];
      var rest := EncodeAll(AfterWrite(w, m), run[1..]);
      EncodeAllStep(w, run);
      RecordFollows(past, w, r, m, filter, rest);
      var d := Decode(r, Encode(w, m, filter) + rest);
      var f := LogReader.FilterFor(filters, rules, d.state, d.message);
      FilterIsChosen(filters, rules, r, d.state, d.message);
      FiltersAreFirst(past + [(m, filter)], AfterWrite(w, m), d.state, run[1..], d.message);
      assert past + [(m, filter)] + run[1..] == past + run;
      PassesIsDisplay(f, d.message.typ);
      SameContent(d.message, d.message);
      SessionShows(past + [(m, filter)], AfterWrite(w, m), d.state, run[1..],
                   filters[d.message.readCategoryId := f], rules);
      PickedStep(past + run, rules, d.message, DecodeAll(d.state, rest).messages);
    }
  }

  lemma SameContent(a: Message, b: Message)
    requires Key(a) == Key(b)
    ensures a.typ == b.typ == Key(b).typ && a.category == b.category == Key(b).category
  {}

  lemma NothingShows(past: Run, w: WriterState, r: ReaderState, filters: LogReader.Filters, rules: LogReader.Rules)
    requires WriterOk(w)
    ensures EncodeAll(w, []) == [] && LogReader.Shown(filters, rules, r, []) == []
    ensures DecodeAll(r, []).messages == [] && Picked(past, rules, []) == []
  {
    NothingIsRead(w, r);
    assert Decode(r, []).Failed?;
  }

  /** Times can be told when no message is before the epoch or too late, and the clock guard holds. */
  ghost predicate Timed(run: Run) {
    && WriterOk(INITIAL_WRITER) && RunClockExact(INITIAL_WRITER, run)
    && forall i :: 0 <= i < |run| ==> 0 <= run[i].0.time < U64 / 2
  }

  /** From the initial states: exactly the messages of the run that pass, in order, each as it was written. */
  lemma WholeSessionShows(run: Run, rules: LogReader.Rules)
    requires RunSendable(INITIAL_WRITER, run) && RunFaithful(INITIAL_WRITER, run)
    ensures Same(LogReader.Shown(map[], rules, INITIAL_READER, EncodeAll(INITIAL_WRITER, run)),
                 Selected(run, rules, run), Timed(run))
  {
    hide RunSendable, RunFaithful, EncodeAll, DecodeAll, Selected, Picked, LogReader.Shown, RunClockExact, AfterRun;
    NothingTracked();
    InitialLockstep();
    SessionShows([], INITIAL_WRITER, INITIAL_READER, run, map[], rules);
    assert [] + run == run;
    RunRoundTrip(INITIAL_WRITER, INITIAL_READER, run);
    if Timed(run) {
      RunClocks(INITIAL_WRITER, INITIAL_READER, run);
    }
    PickedIsSelected(run, rules, DecodeAll(INITIAL_READER, EncodeAll(INITIAL_WRITER, run)).messages, run, Timed(run));
  }

  lemma LastOfSame(messages: seq<Message>, run: Run, timed: bool, n: nat)
    requires Same(messages, run, timed)
    ensures Same(LogReader.LastOf(messages, n), LogReader.LastOf(run, n), timed)
  {
    hide Key, Secs;
  }

  /**
    What is printed of a log that a run was written to: its messages that pass, or the
    last few of them, and no complaint about its end.
   */
  method PrintRun(run: Run, contentHash: Content -> int, tail: nat, rules: LogReader.Rules)
    returns (printed: seq<Message>, ok: bool, ghost selected: Run)
    requires RunSendable(INITIAL_WRITER, run) && RunFaithful(INITIAL_WRITER, run)
    ensures selected == Selected(run, rules, run)
    ensures ok && Same(printed, if tail == 0 then selected else LogReader.LastOf(selected, tail), Timed(run))
  {
    hide EncodeAll, Selected, LogReader.Shown, LogReader.EndsCleanly, RunSendable, RunFaithful, Same, Timed;
    hide LogReader.LeftOver, Unfinished, LogReader.LastOf;
    var file := LogRoundTrip.WriteLog(run, contentHash);
    var session := new LogReader.LogReader(file, tail, rules);
    ok := session.Initialize();
    assert session.reader.input == EncodeAll(INITIAL_WRITER, run);
    InitialLockstep();
    LogReader.WholeLogEndsCleanly(INITIAL_WRITER, INITIAL_READER, run);
    WholeSessionShows(run, rules);
    selected := Selected(run, rules, run);
    ghost var shown := LogReader.Shown(map[], rules, INITIAL_READER, EncodeAll(INITIAL_WRITER, run));
    LastOfSame(shown, selected, Timed(run), tail);
    ok := session.ContinueReading();
    printed := session.printed;
    assert [] + shown == shown && [] + LogReader.LastOf(shown, tail) == LogReader.LastOf(shown, tail);
  }
}
