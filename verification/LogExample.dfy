/** The detailed log byte by byte, and which messages are written as repeats. */
module LogExample {
  import opened Basics
  import opened LogFormat
  import opened LogCodec
  import LogRoundTrip
  import RingBuf

  // ---------------------------------------------------------------------- layout

  /** Integers take one, three or seven bytes, low byte first. */
  lemma IntegerLayout()
    ensures VarInt(0xfe) == [0xfe] && VarInt(0xff) == [0xff, 0xff, 0x00]
    ensures VarInt(0x1234) == [0xff, 0x34, 0x12] && VarInt(0xfffe) == [0xff, 0xfe, 0xff]
    ensures VarInt(0xffff) == [0xff, 0xff, 0xff, 0xff, 0xff, 0x00, 0x00]
    ensures VarInt(0x1234_5678) == [0xff, 0xff, 0xff, 0x78, 0x56, 0x34, 0x12]
  {
    Two(0xff);
    Two(0x1234);
    Two(0xfffe);
    Four(0xffff);
    Four(0x1234_5678);
  }

  lemma Two(n: nat)
    requires n < U16
    ensures LittleEndian(n, 2) == [n % 256, n / 256]
  {
    assert LittleEndian(n / 256, 1) == [n / 256 % 256] + LittleEndian(n / 256 / 256, 0);
  }

  lemma Four(n: nat)
    requires n < U32
    ensures LittleEndian(n, 4) == [n % 256, n / 256 % 256, n / 0x1_0000 % 256, n / 0x100_0000]
  {
    var high := n / 256 / 256;
    assert LittleEndian(n, 4) == [n % 256] + ([n / 256 % 256] + LittleEndian(high, 2));
    Two(high);
    assert high == n / 0x1_0000 && high / 256 == n / 0x100_0000;
  }

  /** Type and gap share a byte; two tags announce a gap or an absolute time, and 255 a fatal message with one. */
  lemma StampLayout()
    ensures StampBytes(Debug, 0, 0) == [0] && StampBytes(Info, 1, 0) == [9]
    ensures StampBytes(Warning, 28, 0) == [226] && StampBytes(Critical, 28, 0) == [227]
    ensures StampBytes(Warning, 29, 0) == [234, 29]
    ensures StampBytes(Critical, 0x1234, 0) == [235, 0xff, 0x34, 0x12]
    ensures StampBytes(Info, 0x1_0000, 0x0102_0304) == [241, 4, 3, 2, 1, 0, 0, 0, 0]
    ensures StampBytes(Fatal, 0, 0x0102_0304) == [255, 4, 3, 2, 1, 0, 0, 0, 0]
  {
    IntegerLayout();
    EightBytes();
    hide LittleEndian;
    assert VarInt(29) == [29];
  }

  lemma Unfold(n: nat, width: nat)
    requires width > 0
    ensures LittleEndian(n, width) == [n % 256] + LittleEndian(n / 256, width - 1)
  {}

  lemma EightBytes()
    ensures LittleEndian(0x0102_0304, 8) == [4, 3, 2, 1, 0, 0, 0, 0]
  {
    Four(0);
    hide LittleEndian;
    Unfold(0x01, 5);
    Unfold(0x0102, 6);
    Unfold(0x01_0203, 7);
    Unfold(0x0102_0304, 8);
  }

  const QUIET := CategoryFilter(false, true, true, true)
  const ALL := CategoryFilter(true, true, true, true)

  const FIRST := Message(Info, [97], [120], 0, 0)
  const SECOND := Message(Debug, [98], [121], 0, 0)

  /** Two messages of new categories and a repeat, each with what it writes. */
  lemma RecordLayout()
    ensures WriterOk(INITIAL_WRITER)
    ensures Encode(INITIAL_WRITER, FIRST, QUIET) == [0, 1, 97, 14, 3, 1, 1, 120]
    ensures var w := AfterWrite(INITIAL_WRITER, FIRST);
            && Encode(w, SECOND, ALL) == [0, 1, 98, 15, 4, 0, 1, 121]
            && Encode(AfterWrite(w, SECOND), SECOND, ALL) == [1, 0]
            && Encode(AfterWrite(w, SECOND), FIRST, QUIET) == [1, 1]
            && Encode(AfterWrite(w, SECOND), FIRST.(time := 16000), QUIET) == [2, 1, 16]
  {
    hide Encode, AfterWrite;
    AfterFirst();
    FirstLayout();
    var w := AfterWrite(INITIAL_WRITER, FIRST);
    AfterSecond(w);
    SecondLayout(w);
    RepeatLayout(AfterWrite(w, SECOND));
  }

  lemma SmallInteger(n: nat)
    requires n < 0xff
    ensures VarInt(n) == [n]
  {}

  lemma OneByte(b: byte)
    ensures String([b]) == [1, b]
  {
    hide VarInt;
    SmallInteger(1);
  }

  lemma AtOnce(typ: MsgType)
    requires typ != Fatal
    ensures StampBytes(typ, 0, 0) == [CompressedTypeOf(typ)]
  {
    hide FullTimestamp, VarInt, CompressedTypeOf;
    var c: nat := CompressedTypeOf(typ);
    assert c < 4 && (c + 8 * 0) % 256 == c;
  }

  lemma AtZero()
    ensures SecsTo(0, 0) == 0 && Secs(0) == 0
  {}

  /** The first message of a category, of one byte each, at the writer's own time. */
  lemma NewLayout(w: WriterState, m: Message, filter: CategoryFilter, name: byte, body: byte)
    requires WriterOk(w) && IndexOf(w.recent, Key(m)) == -1 && w.nextCategory < 0xff
    requires m.category == [name] && m.category !in w.categories && m.body == [body]
    requires m.time == 0 && w.lastSecs == 0 && m.typ != Fatal
    ensures Encode(w, m, filter)
         == [0, 1, name, Flags(filter), w.nextCategory, CompressedTypeOf(m.typ), 1, body]
  {
    hide String, VarInt, StampBytes, Flags, SecsTo, Secs, CompressedTypeOf, IndexOf;
    OneByte(name);
    OneByte(body);
    SmallInteger(w.nextCategory);
    AtOnce(m.typ);
    AtZero();
    assert CategoryBytes(w, m.category, filter) == [0, 1, name, Flags(filter)];
    var id: byte := w.nextCategory;
    hide CategoryBytes;
    assert Encode(w, m, filter) == [0, 1, name, Flags(filter)] + [id] + [CompressedTypeOf(m.typ)] + [1, body];
  }

  lemma FirstLayout()
    ensures WriterOk(INITIAL_WRITER)
    ensures Encode(INITIAL_WRITER, FIRST, QUIET) == [0, 1, 97, 14, 3, 1, 1, 120]
  {
    hide Encode;
    NewLayout(INITIAL_WRITER, FIRST, QUIET, 97, 120);
  }

  lemma SecondLayout(w: WriterState)
    requires w == WriterState(map[[97] := 3], 4, 0, [FIRST]) && WriterOk(w)
    requires IndexOf(w.recent, Key(SECOND)) == -1
    ensures Encode(w, SECOND, ALL) == [0, 1, 98, 15, 4, 0, 1, 121]
  {
    hide Encode, IndexOf;
    NewLayout(w, SECOND, ALL, 98, 121);
  }

  lemma RepeatLayout(w: WriterState)
    requires w.lastSecs == 0 && WriterOk(w)
    requires IndexOf(w.recent, Key(SECOND)) == 0 && IndexOf(w.recent, Key(FIRST)) == 1
    ensures Encode(w, SECOND, ALL) == [1, 0] && Encode(w, FIRST, QUIET) == [1, 1]
    ensures Encode(w, FIRST.(time := 16000), QUIET) == [2, 1, 16]
  {
    assert VarInt(16) == [16];
    hide VarInt, IndexOf;
    assert [2, 1] + [16] == [2, 1, 16];
    assert Key(FIRST.(time := 16000)) == Key(FIRST);
  }

  lemma AfterFirst()
    ensures WriterOk(INITIAL_WRITER)
    ensures AfterWrite(INITIAL_WRITER, FIRST) == WriterState(map[[97] := 3], 4, 0, [FIRST])
  {}

  lemma AfterSecond(w: WriterState)
    requires w == WriterState(map[[97] := 3], 4, 0, [FIRST])
    ensures WriterOk(w) && IndexOf(w.recent, Key(SECOND)) == -1
    ensures AfterWrite(w, SECOND) == WriterState(map[[97] := 3, [98] := 4], 5, 0, [SECOND, FIRST])
    ensures IndexOf([SECOND, FIRST], Key(SECOND)) == 0 && IndexOf([SECOND, FIRST], Key(FIRST)) == 1
  {
    assert [SECOND] + [FIRST] == [SECOND, FIRST];
  }

  // --------------------------------------------------------------------- repeats

  /** The window holds the newest 256 messages of the run, newest first. */
  ghost predicate HoldsNewest(recent: seq<Message>, run: Run) {
    && |recent| == Min(|run|, 256)
    && forall i :: 0 <= i < |recent| ==> Key(recent[i]) == Key(run[|run| - 1 - i].0)
  }

  lemma PushHoldsNewest(recent: seq<Message>, run: Run, m: Message, filter: CategoryFilter)
    requires HoldsNewest(recent, run)
    ensures HoldsNewest(RingBuf.Push(CAPACITY, recent, m.(readCategoryId := 0)), run + [(m, filter)])
  {
    var pushed := RingBuf.Push(CAPACITY, recent, m.(readCategoryId := 0));
    RingBuf.PushIs(CAPACITY, recent, m.(readCategoryId := 0));
    forall i | 0 <= i < |pushed| ensures Key(pushed[i]) == Key((run + [(m, filter)])[|run| - i].0) {
      if i > 0 {
        assert pushed[i] == recent[i - 1];
      }
    }
  }

  lemma {:induction false} WindowIsNewest(run: Run, n: nat)
    requires WriterOk(INITIAL_WRITER) && n <= |run|
    ensures HoldsNewest(AfterRun(INITIAL_WRITER, run[..n]).recent, run[..n])
  {
    hide Encode, EncodeAll, HoldsNewest, RingBuf.Push;
    if n == 0 {
      LogRoundTrip.NothingWritten();
      EmptyHoldsNewest();
      assert run[..0] == [];
    } else {
      WindowIsNewest(run, n - 1);
      LogRoundTrip.RunGrows(INITIAL_WRITER, run, n - 1);
      var w := AfterRun(INITIAL_WRITER, run[..n - 1]);
      PushHoldsNewest(w.recent, run[..n - 1], run[n - 1].0, run[n - 1].1);
      assert run[..n] == run[..n - 1] + [(run[n - 1].0, run[n - 1].1)];
    }
  }

  lemma EmptyHoldsNewest()
    ensures HoldsNewest([], [])
  {}

  /** One of the last 256 messages has the same type, category and body. */
  ghost predicate AmongNewest(run: Run, m: Message) {
    exists i: nat :: |run| - 256 <= i < |run| && Key(run[i].0) == Key(m)
  }

  lemma {:induction false} FoundIsAmongNewest(recent: seq<Message>, run: Run, m: Message)
    requires HoldsNewest(recent, run)
    ensures IndexOf(recent, Key(m)) != -1 <==> AmongNewest(run, m)
  {
    var index := IndexOf(recent, Key(m));
    if index != -1 {
      assert Key(run[|run| - 1 - index].0) == Key(m);
    }
    if AmongNewest(run, m) {
      var i: nat :| |run| - 256 <= i < |run| && Key(run[i].0) == Key(m);
      assert Key(recent[|run| - 1 - i]) == Key(m);
    }
  }

  /** No category has the id that marks another kind of record. */
  predicate IdsAreFree(w: WriterState) {
    forall name <- w.categories :: w.categories[name] >= BEGIN_CATEGORIES
  }

  lemma {:induction false} IdsStayFree(w: WriterState, run: Run, m: Message, filter: CategoryFilter)
    requires WriterOk(w) && IdsAreFree(w) && RunSendable(w, run + [(m, filter)])
    ensures WriterOk(AfterRun(w, run)) && IdsAreFree(AfterRun(w, run)) && Sendable(AfterRun(w, run), m)
    decreases |run|
  {
    hide AfterWrite, Sendable, IdsAreFree, WriterOk;
    if run == [] {
      assert (run + [(m, filter)])[0] == (m, filter);
    } else {
      assert (run + [(m, filter)])[0] == run[0] && (run + [(m, filter)])[1..] == run[1..] + [(m, filter)];
      WriteLeavesFree(w, run[0].0);
      IdsStayFree(AfterWrite(w, run[0].0), run[1..], m, filter);
    }
  }

  lemma {:induction false} WriteLeavesFree(w: WriterState, m: Message)
    requires WriterOk(w) && IdsAreFree(w) && Sendable(w, m)
    ensures IdsAreFree(AfterWrite(w, m))
  {
    hide IndexOf;
  }

  /** The first byte of a record that is not a repeat. */
  lemma {:induction false} NewStartsOtherwise(w: WriterState, m: Message, filter: CategoryFilter)
    requires WriterOk(w) && IdsAreFree(w) && Sendable(w, m) && IndexOf(w.recent, Key(m)) == -1
    ensures Encode(w, m, filter) != [] && Encode(w, m, filter)[0] !in {1, 2}
  {
    hide String, StampBytes, SecsTo, Secs;
  }

  lemma {:induction false} RepeatStarts(w: WriterState, m: Message, filter: CategoryFilter)
    requires WriterOk(w) && IndexOf(w.recent, Key(m)) != -1
    ensures Encode(w, m, filter) != [] && Encode(w, m, filter)[0] in {1, 2}
  {
    hide SecsTo, VarInt;
  }

  /** After any run a message is written as a repeat exactly if one of the last 256 is the same but for the time. */
  lemma {:induction false} RepeatExactly(run: Run, m: Message, filter: CategoryFilter)
    requires WriterOk(INITIAL_WRITER) && RunSendable(INITIAL_WRITER, run + [(m, filter)])
    ensures var w := AfterRun(INITIAL_WRITER, run);
            && WriterOk(w) && Encode(w, m, filter) != []
            && (Encode(w, m, filter)[0] in {1, 2} <==> AmongNewest(run, m))
  {
    hide Encode, AmongNewest, HoldsNewest, AfterRun, RunSendable;
    var w := AfterRun(INITIAL_WRITER, run);
    IdsStayFree(INITIAL_WRITER, run, m, filter);
    WindowIsNewest(run, |run|);
    assert run[..|run|] == run;
    FoundIsAmongNewest(w.recent, run, m);
    if IndexOf(w.recent, Key(m)) == -1 {
      NewStartsOtherwise(w, m, filter);
    } else {
      RepeatStarts(w, m, filter);
    }
  }
}
