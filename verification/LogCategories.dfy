/**
  Which category a message that was read belongs to, and with which filter: every message
  carries the id of its category, repeats included, and the filter kept for a category is
  the one the writer was handed when the category first came up.
 */
module LogCategories {
  import opened Basics
  import opened LogFormat
  import opened LogCodec
  import RingBuf

  /** The filter handed over with the first message of a category. */
  function FirstFilter(run: Run, name: Bytes): Option<CategoryFilter> {
    if run == [] then None
    else if run[0].0.category == name then Some(run[0].1)
    else FirstFilter(run[1..], name)
  }

  lemma {:induction false} FirstFilterOfBoth(a: Run, b: Run, name: Bytes)
    ensures FirstFilter(a + b, name)
         == if FirstFilter(a, name).Some? then FirstFilter(a, name) else FirstFilter(b, name)
    decreases |a|
  {
    if a == [] {
      assert a + b == b;
    } else {
      FirstFilterOfBoth(a[1..], b, name);
      assert (a + b)[0] == a[0] && (a + b)[1..] == a[1..] + b;
    }
  }

  lemma FirstFilterOfOne(m: Message, filter: CategoryFilter, name: Bytes)
    ensures FirstFilter([(m, filter)], name) == if m.category == name then Some(filter) else None
  {
    assert FirstFilter([(m, filter)][1..], name) == None;
  }

  // --------------------------------------------------------------- the tracking

  /** The message carries the id of its own category. */
  ghost predicate Identified(categories: seq<Category>, m: Message) {
    m.readCategoryId < |categories| && categories[m.readCategoryId].name == m.category
  }

  ghost predicate WindowIdentified(r: ReaderState) {
    forall i :: 0 <= i < |r.recent| ==> Identified(r.categories, r.recent[i])
  }

  /** The reader's categories are those of the past, with the filters they came with. */
  ghost predicate FiltersKept(past: Run, w: WriterState, r: ReaderState) {
    && (forall i :: 0 <= i < |r.categories| ==>
          FirstFilter(past, r.categories[i].name) == Some(r.categories[i].filter))
    && (forall name :: FirstFilter(past, name).Some? ==> name in w.categories)
  }

  ghost predicate Tracked(past: Run, w: WriterState, r: ReaderState) {
    Lockstep(w, r) && WriterOk(w) && WindowIdentified(r) && FiltersKept(past, w, r)
  }

  lemma NothingTracked()
    ensures Tracked([], INITIAL_WRITER, INITIAL_READER)
  {
    InitialLockstep();
  }

  lemma StaysIdentified(categories: seq<Category>, more: seq<Category>, m: Message)
    requires Identified(categories, m) && categories <= more
    ensures Identified(more, m)
  {}

  lemma PushStaysIdentified(categories: seq<Category>, recent: seq<Message>, m: Message)
    requires Identified(categories, m) && forall i :: 0 <= i < |recent| ==> Identified(categories, recent[i])
    ensures var pushed := RingBuf.Push(CAPACITY, recent, m);
            forall i :: 0 <= i < |pushed| ==> Identified(categories, pushed[i])
  {
    hide Identified;
  }

  /** What a read leaves: the message with its id, one more message in the past, and categories that only grow. */
  ghost predicate Follows(past: Run, w: WriterState, r: ReaderState, m: Message, filter: CategoryFilter, d: Decoded)
    requires WriterOk(w)
  {
    && d.Accepted? && Key(d.message) == Key(m) && Identified(d.state.categories, d.message)
    && r.categories <= d.state.categories
    && Tracked(past + [(m, filter)], AfterWrite(w, m), d.state)
  }

  lemma RepeatFollows(past: Run, w: WriterState, r: ReaderState, m: Message, filter: CategoryFilter, rest: Bytes)
    requires Tracked(past, w, r) && IndexOf(w.recent, Key(m)) != -1
    ensures Follows(past, w, r, m, filter, Decode(r, Encode(w, m, filter) + rest))
  {
    hide Decode, Encode, SameCategories, Secs, ClockAfter, FirstFilter, Identified;
    RepeatReadsBack(w, r, m, filter, rest);
    RepeatDecodes(w, r, m, filter, rest);
    var index := IndexOf(w.recent, Key(m));
    var d := Decode(r, Encode(w, m, filter) + rest);
    SameId(r.categories, r.recent[index], d.message);
    PushStaysIdentified(r.categories, r.recent, d.message);
    KnownCategory(w, r, index);
    OldCategoryKept(past, w, r, m, filter);
  }

  lemma SameId(categories: seq<Category>, a: Message, b: Message)
    requires Identified(categories, a) && b.readCategoryId == a.readCategoryId && b.category == a.category
    ensures Identified(categories, b)
  {}

  /** What is in the window belongs to a category the writer knows. */
  lemma KnownCategory(w: WriterState, r: ReaderState, index: nat)
    requires Lockstep(w, r) && WindowIdentified(r) && index < |r.recent|
    ensures w.recent[index].category in w.categories
  {
    assert Identified(r.categories, r.recent[index]);
    assert Numbered(w, r.recent[index].category, r.recent[index].readCategoryId);
  }

  /** One more message of a known category changes no filter. */
  lemma OldCategoryKept(past: Run, w: WriterState, r: ReaderState, m: Message, filter: CategoryFilter)
    requires FiltersKept(past, w, r) && m.category in w.categories
    ensures FiltersKept(past + [(m, filter)], w, r)
  {
    hide FirstFilter;
    forall name
      ensures FirstFilter(past + [(m, filter)], name)
           == if FirstFilter(past, name).Some? then FirstFilter(past, name)
              else if m.category == name then Some(filter) else None
    {
      FirstFilterOfBoth(past, [(m, filter)], name);
      FirstFilterOfOne(m, filter, name);
    }
  }

  /** The first message of a category brings its filter. */
  lemma NewCategoryKept(past: Run, w: WriterState, r: ReaderState, m: Message, filter: CategoryFilter)
    requires FiltersKept(past, w, r) && m.category !in w.categories
    ensures FiltersKept(past + [(m, filter)], Register(w, m.category), Registered(w, r, m.category, filter))
  {
    hide FirstFilter;
    assert FirstFilter(past, m.category) == None;
    forall name
      ensures FirstFilter(past + [(m, filter)], name)
           == if FirstFilter(past, name).Some? then FirstFilter(past, name)
              else if m.category == name then Some(filter) else None
    {
      FirstFilterOfBoth(past, [(m, filter)], name);
      FirstFilterOfOne(m, filter, name);
    }
  }

  lemma NewFollows(past: Run, w: WriterState, r: ReaderState, m: Message, filter: CategoryFilter, rest: Bytes)
    requires Tracked(past, w, r) && Sendable(w, m) && Faithful(w, m) && IndexOf(w.recent, Key(m)) == -1
    ensures Follows(past, w, r, m, filter, Decode(r, Encode(w, m, filter) + rest))
  {
    hide Decode, Encode, SameCategories, Secs, ClockAfter, FirstFilter, Encodable, SecsTo;
    NewReadsBack(w, r, m, filter, rest);
    NewDecodes(w, r, m, filter, rest);
    RegistrationKeepsLockstep(w, r, m.category, filter);
    var d := Decode(r, Encode(w, m, filter) + rest);
    var r' := Registered(w, r, m.category, filter);
    IdIsSmall(w, r, m.category, filter);
    assert Identified(r'.categories, d.message);
    forall i | 0 <= i < |r.recent| ensures Identified(r'.categories, r.recent[i]) {
      StaysIdentified(r.categories, r'.categories, r.recent[i]);
    }
    hide Identified;
    PushStaysIdentified(r'.categories, r.recent, d.message);
    if m.category in w.categories {
      OldCategoryKept(past, w, r, m, filter);
    } else {
      NewCategoryKept(past, w, r, m, filter);
    }
  }

  lemma IdIsSmall(w: WriterState, r: ReaderState, name: Bytes, filter: CategoryFilter)
    requires Lockstep(w, r) && (name in w.categories || BEGIN_CATEGORIES <= w.nextCategory)
    ensures BEGIN_CATEGORIES <= CategoryId(w, name) < U16
  {
    RegistrationKeepsLockstep(w, r, name, filter);
  }

  /** One record read back keeps track of ids and filters. */
  lemma RecordFollows(past: Run, w: WriterState, r: ReaderState, m: Message, filter: CategoryFilter, rest: Bytes)
    requires Tracked(past, w, r) && Sendable(w, m) && Faithful(w, m)
    ensures Follows(past, w, r, m, filter, Decode(r, Encode(w, m, filter) + rest))
    ensures Decode(r, Encode(w, m, filter) + rest).rest == rest
  {
    hide Decode, Encode, Tracked, Follows, Faithful, Sendable;
    assert Lockstep(w, r) && WriterOk(w) by { TrackedIsInStep(past, w, r); }
    RecordRoundTrip(w, r, m, filter, rest);
    if IndexOf(w.recent, Key(m)) != -1 {
      RepeatFollows(past, w, r, m, filter, rest);
    } else {
      NewFollows(past, w, r, m, filter, rest);
    }
  }

  lemma TrackedIsInStep(past: Run, w: WriterState, r: ReaderState)
    requires Tracked(past, w, r)
    ensures Lockstep(w, r) && WriterOk(w)
  {}

  // ------------------------------------------------------------------ whole runs

  ghost predicate AllIdentified(categories: seq<Category>, messages: seq<Message>) {
    forall i :: 0 <= i < |messages| ==> Identified(categories, messages[i])
  }

  lemma IdentifiedCons(categories: seq<Category>, m: Message, messages: seq<Message>)
    requires Identified(categories, m) && AllIdentified(categories, messages)
    ensures AllIdentified(categories, [m] + messages)
  {}

  lemma {:induction false} RunIds(past: Run, w: WriterState, r: ReaderState, run: Run)
    requires Tracked(past, w, r) && WriterOk(w) && RunSendable(w, run) && RunFaithful(w, run)
    ensures var log := DecodeAll(r, EncodeAll(w, run));
            && Tracked(past + run, AfterRun(w, run), log.state)
            && r.categories <= log.state.categories
            && AllIdentified(log.state.categories, log.messages)
    decreases |run|
  {
    hide Decode, Encode, DecodeAll, EncodeAll, Sendable, Faithful, AfterWrite, Tracked, Identified, AllIdentified;
    if run == [] {
      NothingIsRead(w, r);
      assert past + run == past;
      NoneIdentified(r.categories);
    } else {
      var (m, filter) := run[0];
      var rest := EncodeAll(AfterWrite(w, m), run[1..]);
      EncodeAllStep(w, run);
      DecodeAllStep(r, EncodeAll(w, run));
      RecordFollows(past, w, r, m, filter, rest);
      var d := Decode(r, Encode(w, m, filter) + rest);
      RunIds(past + [(m, filter)], AfterWrite(w, m), d.state, run[1..]);
      assert past + [(m, filter)] + run[1..] == past + run;
      var log := DecodeAll(d.state, rest);
      StaysIdentified(d.state.categories, log.state.categories, d.message);
      IdentifiedCons(log.state.categories, d.message, log.messages);
    }
  }

  lemma NoneIdentified(categories: seq<Category>)
    ensures AllIdentified(categories, [])
  {}

  /**
    Reading back any faithful run, every message, new or repeated, carries the number its
    category has with the writer, and under that number the reader keeps the category's
    name and the filter it first came with.
   */
  lemma MessagesCarryIds(run: Run)
    requires RunSendable(INITIAL_WRITER, run) && RunFaithful(INITIAL_WRITER, run)
    ensures var log, w := DecodeAll(INITIAL_READER, EncodeAll(INITIAL_WRITER, run)), AfterRun(INITIAL_WRITER, run);
            |log.messages| == |run| && forall i :: 0 <= i < |run| ==> CarriesId(run, w, log, i)
  {
    hide DecodeAll, EncodeAll, AfterRun, RunSendable, RunFaithful, Tracked, FirstFilter;
    NothingTracked();
    TrackedIsInStep([], INITIAL_WRITER, INITIAL_READER);
    RunRoundTrip(INITIAL_WRITER, INITIAL_READER, run);
    RunIds([], INITIAL_WRITER, INITIAL_READER, run);
    assert [] + run == run;
    var log, w := DecodeAll(INITIAL_READER, EncodeAll(INITIAL_WRITER, run)), AfterRun(INITIAL_WRITER, run);
    forall i | 0 <= i < |run| ensures CarriesId(run, w, log, i) {
      IdIsNumber(run, w, log.state, log.messages[i]);
    }
  }

  ghost predicate CarriesId(run: Run, w: WriterState, log: Log, i: nat)
    requires i < |run| && i < |log.messages|
  {
    var (name, id) := (run[i].0.category, log.messages[i].readCategoryId);
    && name in w.categories && id == w.categories[name] - BEGIN_CATEGORIES
    && id < |log.state.categories| && log.state.categories[id].name == name
    && FirstFilter(run, name) == Some(log.state.categories[id].filter)
  }

  lemma IdIsNumber(past: Run, w: WriterState, r: ReaderState, m: Message)
    requires Tracked(past, w, r) && Identified(r.categories, m)
    ensures m.category in w.categories && m.readCategoryId == w.categories[m.category] - BEGIN_CATEGORIES
    ensures FirstFilter(past, m.category) == Some(r.categories[m.readCategoryId].filter)
  {
    assert Numbered(w, r.categories[m.readCategoryId].name, m.readCategoryId);
  }
}
