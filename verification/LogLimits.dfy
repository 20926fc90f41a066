/** Short logs at the limits of the format: what is lost, and whose times go wrong. */
module LogLimits {
  import opened Basics
  import opened LogFormat
  import opened LogCodec
  import LogReader
  import LogRoundTrip
  import LogTruncation

  const ALL := CategoryFilter(true, true, true, true)

  function At(typ: MsgType, body: byte, secs: nat): (Message, CategoryFilter) {
    (Message(typ, [1], [body], 1000 * secs, 0), ALL)
  }

  /** The first message of a log is lost if it comes 65535 s after the epoch, whatever follows. */
  lemma LongGapIsLost(rest: Bytes)
    ensures var (m, filter) := At(Info, 1, 0xffff);
            !ReadsBack(INITIAL_WRITER, INITIAL_READER, m, filter, rest)
  {
    hide Encode, ReadsBack;
    InitialLockstep();
    var (m, filter) := At(Info, 1, 0xffff);
    RecordRoundTrip(INITIAL_WRITER, INITIAL_READER, m, filter, rest);
  }

  lemma AfterFirst(m: Message)
    ensures WriterOk(INITIAL_WRITER)
    ensures var w := AfterWrite(INITIAL_WRITER, m);
            w.lastSecs == Secs(m.time) && w.recent == [m.(readCategoryId := 0)] && m.category in w.categories
  {}

  /** If only the first of two messages is faithful, it is read back and the second is not, whatever follows. */
  lemma SecondIsLost(w: WriterState, r: ReaderState, run: Run, tail: Bytes)
    requires Lockstep(w, r) && WriterOk(w) && |run| == 2
    requires Sendable(w, run[0].0) && Faithful(w, run[0].0)
    requires Sendable(AfterWrite(w, run[0].0), run[1].0) && !Faithful(AfterWrite(w, run[0].0), run[1].0)
    ensures var first := Decode(r, EncodeAll(w, run) + tail);
            var (w', second) := (AfterWrite(w, run[0].0), run[1]);
            && first.Accepted? && Key(first.message) == Key(run[0].0)
            && first.rest == Encode(w', second.0, second.1) + tail
            && !ReadsBack(w', first.state, second.0, second.1, tail)
  {
    hide Encode, Decode, Lockstep, ReadsBack, AfterWrite, Sendable, Faithful, EncodeAll;
    var (m, filter) := run[0];
    var w', second := AfterWrite(w, m), run[1];
    var rest := Encode(w', second.0, second.1) + tail;
    TwoRecords(w, run);
    EncodeAllSplit(w, run, tail);
    RecordRoundTrip(w, r, m, filter, rest);
    FirstReadsBack(w, r, m, filter, rest);
    RecordRoundTrip(w', Decode(r, EncodeAll(w, run) + tail).state, second.0, second.1, tail);
  }

  lemma TwoRecords(w: WriterState, run: Run)
    requires WriterOk(w) && |run| == 2
    ensures EncodeAll(AfterWrite(w, run[0].0), run[1..]) == Encode(AfterWrite(w, run[0].0), run[1].0, run[1].1)
  {
    hide Encode, AfterWrite;
    var w' := AfterWrite(w, run[0].0);
    assert run[1..][1..] == [] && EncodeAll(AfterWrite(w', run[1].0), []) == [];
  }

  lemma FirstReadsBack(w: WriterState, r: ReaderState, m: Message, filter: CategoryFilter, rest: Bytes)
    requires WriterOk(w) && ReadsBack(w, r, m, filter, rest)
    ensures var d := Decode(r, Encode(w, m, filter) + rest);
            && d.Accepted? && Key(d.message) == Key(m) && d.rest == rest && Lockstep(AfterWrite(w, m), d.state)
  {
    hide Encode, Decode, Lockstep;
  }

  const BACKWARD: Run := [At(Info, 1, 3), At(Info, 2, 0)]

  lemma BackwardIsUnfaithful()
    ensures WriterOk(INITIAL_WRITER)
    ensures Sendable(INITIAL_WRITER, BACKWARD[0].0) && Faithful(INITIAL_WRITER, BACKWARD[0].0)
    ensures var w := AfterWrite(INITIAL_WRITER, BACKWARD[0].0);
            Sendable(w, BACKWARD[1].0) && !Faithful(w, BACKWARD[1].0)
  {
    AfterFirst(BACKWARD[0].0);
    assert SecsTo(3, 0) == -3 && -3 % 32 == 0x1d;
  }

  /** Of two messages the second is lost when it is three seconds older than the first, whatever follows. */
  lemma BackwardGapIsLost(tail: Bytes)
    ensures var first := Decode(INITIAL_READER, EncodeAll(INITIAL_WRITER, BACKWARD) + tail);
            var (w, second) := (AfterWrite(INITIAL_WRITER, BACKWARD[0].0), BACKWARD[1]);
            && first.Accepted? && Key(first.message) == Key(BACKWARD[0].0)
            && first.rest == Encode(w, second.0, second.1) + tail
            && !ReadsBack(w, first.state, second.0, second.1, tail)
  {
    BackwardIsUnfaithful();
    hide Encode, Decode, ReadsBack, AfterWrite, Sendable, Faithful, EncodeAll, Key;
    InitialLockstep();
    SecondIsLost(INITIAL_WRITER, INITIAL_READER, BACKWARD, tail);
  }

  /** One second older, it is read back, but as 31 seconds younger. */
  lemma BackwardGapIsMisread()
    ensures var run := [At(Info, 1, 1), At(Info, 2, 0)];
            && RunFaithful(INITIAL_WRITER, run) && !RunClockExact(INITIAL_WRITER, run)
            && ClockAfter(AfterWrite(INITIAL_WRITER, run[0].0), 1, run[1].0) == 32
  {
    var run := [At(Info, 1, 1), At(Info, 2, 0)];
    AfterFirst(run[0].0);
    assert SecsTo(1, 0) == -1 && -1 % 32 == 31;
    assert run[1..] == [At(Info, 2, 0)] && run[1..][1..] == [];
  }

  /** A second absolute time is added to the first. */
  lemma SecondAbsoluteIsAdded()
    ensures var run := [At(Fatal, 1, 10), At(Fatal, 2, 20)];
            && RunFaithful(INITIAL_WRITER, run) && !RunClockExact(INITIAL_WRITER, run)
            && ClockAfter(AfterWrite(INITIAL_WRITER, run[0].0), 10, run[1].0) == 30
  {
    var run := [At(Fatal, 1, 10), At(Fatal, 2, 20)];
    AfterFirst(run[0].0);
    assert run[1..] == [At(Fatal, 2, 20)] && run[1..][1..] == [];
  }

  // ------------------------------------------------------------- an unnoticed cut

  /** A message with an empty body, in a category of its own. */
  function Numbered(i: byte): (Message, CategoryFilter) {
    (Message(Info, [i], [], 0, 0), ALL)
  }

  function Categories(k: nat): Run
    requires k <= 0xff
  {
    seq(k, i requires 0 <= i < k => Numbered(i))
  }

  /** The first k categories have the first k ids, and everything written has an empty body. */
  ghost predicate Numbers(w: WriterState, k: nat)
    requires k <= 0xff
  {
    && WriterOk(w) && w.nextCategory == BEGIN_CATEGORIES + k
    && (forall i: byte :: if i < k then [i] in w.categories && w.categories[[i]] == BEGIN_CATEGORIES + i
                          else [i] !in w.categories)
    && (forall i :: 0 <= i < |w.recent| ==> w.recent[i].body == [] && w.recent[i].category in w.categories)
  }

  lemma NumbersStep(w: WriterState, k: nat)
    requires k < 0xff && Numbers(w, k)
    ensures Numbers(AfterWrite(w, Numbered(k).0), k + 1)
  {
    var m := Numbered(k).0;
    assert [k as byte] !in w.categories;
    assert IndexOf(w.recent, Key(m)) == -1;
    assert forall i: byte :: [i] == [k as byte] ==> i == k;
  }

  lemma {:induction false} ManyCategories(k: nat)
    requires k <= 0xff
    ensures WriterOk(INITIAL_WRITER) && Numbers(AfterRun(INITIAL_WRITER, Categories(k)), k)
  {
    hide Numbers, AfterWrite, AfterRun, EncodeAll, Encode;
    if k == 0 {
      StartNumbers();
      LogRoundTrip.NothingWritten();
      assert Categories(0) == [];
    } else {
      var run := Categories(k);
      ManyCategories(k - 1);
      LogRoundTrip.RunGrows(INITIAL_WRITER, run, k - 1);
      assert run[..k - 1] == Categories(k - 1) && run[..k] == run;
      NumbersStep(AfterRun(INITIAL_WRITER, run[..k - 1]), k - 1);
    }
  }

  lemma StepIsSendable(w: WriterState, k: nat)
    requires k < 0xff && Numbers(w, k)
    ensures Sendable(w, Numbered(k).0)
  {}

  const LAST := Message(Info, [254], [1], 0, 0)

  /** Messages of 255 categories, and one more of the last. */
  function FullRun(): Run {
    Categories(0xff) + [(LAST, ALL)]
  }

  lemma FullRunAt(k: nat)
    requires k <= 0xff
    ensures |FullRun()| == 0x100 && FullRun()[k] == (if k < 0xff then Numbered(k) else (LAST, ALL))
    ensures FullRun()[k..] == [FullRun()[k]] + FullRun()[k + 1..]
  {}

  /** The run can be sent, and is steady, from any of its messages on. */
  lemma {:induction false} FullRunCanBeSent(w: WriterState, k: nat)
    requires k <= 0xff && Numbers(w, k) && w.lastSecs == 0
    ensures RunSendable(w, FullRun()[k..]) && Steady(0, FullRun()[k..])
    decreases 0xff - k
  {
    FullRunAt(k);
    var rest := FullRun()[k..];
    assert rest[0] == FullRun()[k] && rest[1..] == FullRun()[k + 1..];
    if k < 0xff {
      hide AfterWrite, Numbers, FullRun;
      AfterNumbered(w, k);
      NumbersStep(w, k);
      StepIsSendable(w, k);
      FullRunCanBeSent(AfterWrite(w, Numbered(k).0), k + 1);
    } else {
      LastIsSendable(w);
      assert rest[1..] == [];
    }
  }

  lemma LastIsSendable(w: WriterState)
    requires Numbers(w, 0xff)
    ensures Sendable(w, LAST)
  {
    assert [254 as byte] in w.categories;
  }

  lemma AfterNumbered(w: WriterState, k: nat)
    requires k < 0xff && Numbers(w, k)
    ensures WriterOk(w) && AfterWrite(w, Numbered(k).0).lastSecs == 0 == Secs(Numbered(k).0.time)
  {}

  /** Behind any log that ends in such a state, the first byte of a record in the last category goes unnoticed. */
  lemma FirstByteGoesUnnoticed(w: WriterState, run: Run)
    requires Numbers(w, 0xff) && WriterOk(INITIAL_WRITER) && AfterRun(INITIAL_WRITER, run) == w
    requires RunSendable(INITIAL_WRITER, run) && RunFaithful(INITIAL_WRITER, run)
    ensures |Encode(w, LAST, ALL)| > 1
    ensures var log := EncodeAll(INITIAL_WRITER, run) + Encode(w, LAST, ALL)[..1];
            LogReader.EndsCleanly(INITIAL_READER, log) && |DecodeAll(INITIAL_READER, log).messages| == |run|
  {
    hide Encode, EncodeAll, DecodeAll, LogReader.EndsCleanly, RunSendable, RunFaithful, AfterRun, Lockstep;
    InitialLockstep();
    assert IndexOf(w.recent, Key(LAST)) == -1;
    assert w.categories[[254 as byte]] == 257;
    var tail := LogTruncation.BeginsWithInteger(w, LAST, ALL);
    var r := LogTruncation.RunThenMore(INITIAL_WRITER, INITIAL_READER, run, Encode(w, LAST, ALL)[..1]);
    LogTruncation.CutInsideId(w, r, LAST, ALL, 1);
  }

  /** The last message of a faithful log is lost to a cut that the reader takes for a clean end. */
  lemma LossCanGoUnnoticed() returns (run: Run, cut: nat)
    ensures RunSendable(INITIAL_WRITER, run) && RunFaithful(INITIAL_WRITER, run)
    ensures |run| == 0x100 && cut < |EncodeAll(INITIAL_WRITER, run)|
    ensures LogReader.EndsCleanly(INITIAL_READER, EncodeAll(INITIAL_WRITER, run)[..cut])
    ensures |DecodeAll(INITIAL_READER, EncodeAll(INITIAL_WRITER, run)[..cut]).messages| == 0xff
  {
    hide Encode, EncodeAll, DecodeAll, LogReader.EndsCleanly, RunSendable, RunFaithful, AfterRun, Steady, Numbers;
    var cats := Categories(0xff);
    run := FullRun();
    StartNumbers();
    ManyCategories(0xff);
    FullRunCanBeSent(INITIAL_WRITER, 0);
    assert run[0..] == run && run[..0xff] == cats && run[..0x100] == run;
    SteadyIsFaithful(INITIAL_WRITER, run);
    PrefixCanBeSent(INITIAL_WRITER, run, 0xff);
    LogRoundTrip.RunGrows(INITIAL_WRITER, run, 0xff);
    var w := AfterRun(INITIAL_WRITER, cats);
    FirstByteGoesUnnoticed(w, cats);
    cut := |EncodeAll(INITIAL_WRITER, cats)| + 1;
    CutBehind(EncodeAll(INITIAL_WRITER, cats), Encode(w, LAST, ALL));
  }

  lemma StartNumbers()
    ensures Numbers(INITIAL_WRITER, 0)
  {}

  lemma CutBehind(a: Bytes, b: Bytes)
    requires |b| > 1
    ensures (a + b)[..|a| + 1] == a + b[..1]
  {}

  /** The beginning of a run can be sent as the run can. */
  lemma {:induction false} PrefixCanBeSent(w: WriterState, run: Run, n: nat)
    requires WriterOk(w) && n <= |run| && RunSendable(w, run) && RunFaithful(w, run)
    ensures RunSendable(w, run[..n]) && RunFaithful(w, run[..n])
    decreases n
  {
    hide Sendable, Faithful, AfterWrite;
    if n > 0 {
      PrefixCanBeSent(AfterWrite(w, run[0].0), run[1..], n - 1);
      assert run[..n][0] == run[0] && run[..n][1..] == run[1..][..n - 1];
    }
  }
}
