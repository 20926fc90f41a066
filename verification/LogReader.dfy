/**
  Printing a detailed log: read to the end, keep what the category filters let
  through, and print all of it or only the last few.
 */
module LogReader {
  import opened Basics
  import opened LogFormat
  import opened LogCodec
  import LogMachines
  import RingBuf

  function ShouldDisplay(f: CategoryFilter, typ: MsgType): bool {
    match typ
    case Debug => f.debug
    case Info => f.info
    case Warning => f.warn
    case Critical => f.critical
    case Fatal => true
  }

  /** The rules given on the command line, as their effect on one category's filter. */
  type Rules = (Bytes, CategoryFilter) -> CategoryFilter
  type Filters = map<nat, CategoryFilter>

  /** The first message of a category fixes its filter. */
  function FilterFor(filters: Filters, rules: Rules, r: ReaderState, m: Message): CategoryFilter {
    if m.readCategoryId in filters then filters[m.readCategoryId]
    else rules(m.category, CategoryAt(r, m.readCategoryId).filter)
  }

  /** The messages a reading session lets through, in order. */
  function Shown(filters: Filters, rules: Rules, r: ReaderState, input: Bytes): seq<Message>
    decreases |input|
  {
    var d := Decode(r, input);
    if d.Failed? then []
    else
      var f := FilterFor(filters, rules, d.state, d.message);
      (if ShouldDisplay(f, d.message.typ) then [d.message] else [])
      + Shown(filters[d.message.readCategoryId := f], rules, d.state, d.rest)
  }

  /** The call that ends the session leaves the file position where the last message put it. */
  predicate EndsCleanly(r: ReaderState, input: Bytes)
    decreases |input|
  {
    var d := Decode(r, input);
    if d.Failed? then |d.rest| == |input| else EndsCleanly(d.state, d.rest)
  }

  /** What is unread after the last message. */
  function LeftOver(r: ReaderState, input: Bytes): Bytes
    decreases |input|
  {
    var d := Decode(r, input);
    if d.Failed? then input else LeftOver(d.state, d.rest)
  }

  /** The end counts as clean exactly if nothing is left after the last message, or only the beginning of an integer. */
  lemma {:induction false} EndsCleanlyExactly(r: ReaderState, input: Bytes)
    ensures EndsCleanly(r, input) <==> LeftOver(r, input) == [] || Unfinished(LeftOver(r, input))
    decreases |input|
  {
    hide DecodeRepeat, DecodeNew, ReadCategory, ReadVarInt, Unfinished;
    if Decode(r, input).Failed? {
      VarIntFailsExactly(input);
    } else {
      EndsCleanlyExactly(Decode(r, input).state, Decode(r, input).rest);
    }
  }

  /** A log holding whole records only never reports a parse error at its end. */
  lemma {:induction false} WholeLogEndsCleanly(w: WriterState, r: ReaderState, run: Run)
    requires Lockstep(w, r) && WriterOk(w) && RunSendable(w, run) && RunFaithful(w, run)
    ensures EndsCleanly(r, EncodeAll(w, run))
    decreases |run|
  {
    hide Encode, Lockstep;
    if run != [] {
      var (m, filter) := run[0];
      var rest := EncodeAll(AfterWrite(w, m), run[1..]);
      RecordRoundTrip(w, r, m, filter, rest);
      WholeLogEndsCleanly(AfterWrite(w, m), Decode(r, Encode(w, m, filter) + rest).state, run[1..]);
    }
  }

  lemma SessionStep(filters: Filters, rules: Rules, r: ReaderState, input: Bytes)
    ensures var d := Decode(r, input);
            if d.Failed? then
              Shown(filters, rules, r, input) == [] && (EndsCleanly(r, input) <==> |d.rest| == |input|)
            else
              var f := FilterFor(filters, rules, d.state, d.message);
              && Shown(filters, rules, r, input)
                 == (if ShouldDisplay(f, d.message.typ) then [d.message] else [])
                    + Shown(filters[d.message.readCategoryId := f], rules, d.state, d.rest)
              && (EndsCleanly(r, input) <==> EndsCleanly(d.state, d.rest))
              && |d.rest| < |input|
  {
    hide Decode;
  }

  function LastOf<T>(xs: seq<T>, n: nat): seq<T> {
    xs[|xs| - Min(|xs|, n)..]
  }

  class LogReader {
    const reader: LogMachines.EncodedLogReader
    const rules: Rules
    const remainingTail: nat
    var filters: Filters
    var printed: seq<Message>

    ghost predicate Valid()
      reads this, reader, reader.recentMessages, reader.recentMessages.data
    {
      reader.Valid()
    }

    constructor (input: Bytes, tail: nat, rules: Rules)
      ensures Valid() && reader.State() == INITIAL_READER && reader.input == input
      ensures filters == map[] && printed == [] && remainingTail == tail && this.rules == rules
      ensures fresh(reader) && fresh(reader.recentMessages) && fresh(reader.recentMessages.data)
    {
      reader := new LogMachines.EncodedLogReader(input);
      this.rules, remainingTail := rules, tail;
      filters, printed := map[], [];
    }

    /** Only logs of the right version are read. */
    method Initialize() returns (ok: bool)
      requires Valid()
      modifies reader
      ensures Valid() && reader.State() == old(reader.State())
      ensures ok <==> old(reader.input) != [] && old(reader.input)[0] == LogMachines.LOG_VERSION
      ensures ok ==> reader.input == old(reader.input)[1..]
    {
      var success;
      success, ok := reader.ReadHeader();
    }

    /** Prints exactly what is shown, or its last few messages in order, and reports a broken end. */
    method ContinueReading() returns (ok: bool)
      requires Valid()
      modifies this, reader, reader.recentMessages, reader.recentMessages.data
      ensures Valid()
      ensures var shown := old(Shown(filters, rules, reader.State(), reader.input));
              printed == old(printed) + if remainingTail == 0 then shown else LastOf(shown, remainingTail)
      ensures ok <==> old(EndsCleanly(reader.State(), reader.input))
      ensures ok <==> old(LeftOver(reader.State(), reader.input)) == []
                      || Unfinished(old(LeftOver(reader.State(), reader.input)))
    {
      hide ShouldDisplay, FilterFor, Shown, EndsCleanly, Collected, LeftOver, Unfinished;
      EndsCleanlyExactly(reader.State(), reader.input);
      ghost var shown, all := [], Shown(filters, rules, reader.State(), reader.input);
      ghost var clean := EndsCleanly(reader.State(), reader.input);
      var tailRing := new RingBuf.RingBuffer<Message>(remainingTail);
      NothingCollected(tailRing);
      var readCursor, success := |reader.input|, true;
      while success
        invariant Valid() && fresh(tailRing) && fresh(tailRing.data)
        invariant Collected(tailRing, old(printed), shown)
        invariant success ==> Remaining(all, clean, shown) && readCursor == |reader.input|
        invariant !success ==> shown == all && (clean <==> |reader.input| == readCursor)
        decreases success, |reader.input|
      {
        readCursor := |reader.input|;
        success, shown := Next(tailRing, old(printed), shown, all, clean);
        if success {
          readCursor := |reader.input|;
        }
      }
      PrintTail(tailRing, old(printed), shown);
      ok := |reader.input| == readCursor;
    }

    /** What a session that shows `all` and ends cleanly or not still has to read after showing `shown`. */
    ghost predicate Remaining(all: seq<Message>, clean: bool, shown: seq<Message>)
      reads this, reader, reader.recentMessages, reader.recentMessages.data
      requires Valid()
    {
      && all == shown + Shown(filters, rules, reader.State(), reader.input)
      && clean == EndsCleanly(reader.State(), reader.input)
    }

    method Next(tailRing: RingBuf.RingBuffer<Message>, ghost start: seq<Message>,
                ghost shown: seq<Message>, ghost all: seq<Message>, ghost clean: bool)
      returns (success: bool, ghost shown': seq<Message>)
      requires Valid() && Collected(tailRing, start, shown) && Remaining(all, clean, shown)
      requires tailRing != reader.recentMessages && tailRing.data != reader.recentMessages.data
      modifies this`filters, this`printed, reader, reader.recentMessages, reader.recentMessages.data
      modifies tailRing, tailRing.data
      ensures Valid() && Collected(tailRing, start, shown')
      ensures success ==> Remaining(all, clean, shown') && |reader.input| < old(|reader.input|)
      ensures !success ==> shown' == all && (clean <==> |reader.input| == old(|reader.input|))
    {
      hide Decode, ShouldDisplay, FilterFor, Shown, EndsCleanly, Collected;
      SessionStep(filters, rules, reader.State(), reader.input);
      var message;
      success, message := reader.Read();
      shown' := shown;
      if success {
        shown' := Handle(message, tailRing, start, shown);
        assert all == shown' + Shown(filters, rules, reader.State(), reader.input);
      }
    }

    /** Everything shown so far is either printed already or held, as far as it fits, by the ring. */
    ghost predicate Collected(tailRing: RingBuf.RingBuffer<Message>, start: seq<Message>, shown: seq<Message>)
      reads this, tailRing, tailRing.data
    {
      && tailRing.Valid() && tailRing.mCapacity == remainingTail
      && printed == start + (if remainingTail == 0 then shown else [])
      && (remainingTail != 0 ==> tailRing.Contents() == RingBuf.PushAll(remainingTail, shown))
    }

    lemma NothingCollected(tailRing: RingBuf.RingBuffer<Message>)
      requires tailRing.Valid() && tailRing.mCapacity == remainingTail && tailRing.Contents() == []
      ensures Collected(tailRing, printed, [])
    {}

    method Handle(message: Message, tailRing: RingBuf.RingBuffer<Message>,
                  ghost start: seq<Message>, ghost shown: seq<Message>) returns (ghost shown': seq<Message>)
      requires Valid() && Collected(tailRing, start, shown)
      requires tailRing != reader.recentMessages && tailRing.data != reader.recentMessages.data
      modifies this`filters, this`printed, tailRing, tailRing.data
      ensures Valid() && reader.State() == old(reader.State())
      ensures var f := old(FilterFor(filters, rules, reader.State(), message));
              && filters == old(filters)[message.readCategoryId := f]
              && shown' == shown + (if ShouldDisplay(f, message.typ) then [message] else [])
      ensures Collected(tailRing, start, shown')
    {
      hide ShouldDisplay, RingBuf.PushAll, RingBuf.Push;
      var filter := if message.readCategoryId in filters then filters[message.readCategoryId]
                    else rules(message.category, reader.CategoryFilterById(message.readCategoryId));
      filters := filters[message.readCategoryId := filter];
      shown' := shown;
      if ShouldDisplay(filter, message.typ) {
        Show(message, tailRing, start, shown);
        shown' := shown + [message];
      }
    }

    /** Prints a message, or holds it for the end if only a tail is wanted. */
    method Show(message: Message, tailRing: RingBuf.RingBuffer<Message>,
                ghost start: seq<Message>, ghost shown: seq<Message>)
      requires Collected(tailRing, start, shown)
      modifies this`printed, tailRing, tailRing.data
      ensures Collected(tailRing, start, shown + [message])
    {
      hide RingBuf.PushAll, RingBuf.Push;
      RingBuf.PushAllStep(remainingTail, shown, message);
      if remainingTail == 0 {
        printed := printed + [message];
      } else {
        var _ := tailRing.Emplace(message);
      }
    }

    /** The ring is newest first, so it is walked from its far end. */
    method PrintTail(tailRing: RingBuf.RingBuffer<Message>, ghost start: seq<Message>, ghost shown: seq<Message>)
      requires Collected(tailRing, start, shown)
      modifies this`printed
      ensures printed == start + if remainingTail == 0 then shown else LastOf(shown, remainingTail)
    {
      if remainingTail != 0 {
        RingBuf.PushAllIsNewest(remainingTail, shown);
        hide RingBuf.PushAll;
        var i: int := tailRing.mSize - 1;
        while i != -1
          invariant -1 <= i < tailRing.mSize
          invariant printed == start + LastOf(shown, remainingTail)[..tailRing.mSize - 1 - i]
          decreases i + 1
        {
          var message := tailRing.At(i);
          assert message == LastOf(shown, remainingTail)[tailRing.mSize - 1 - i];
          printed := printed + [message];
          i := i - 1;
        }
      }
    }
  }
}
