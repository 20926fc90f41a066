/** Logs that were cut off: what is still read of them, and which cuts the reader notices. */
module LogTruncation {
  import opened Basics
  import opened LogFormat
  import opened LogCodec
  import LogReader

  // ------------------------------------------------------- more bytes at the end

  lemma CategoryExtends(input: Bytes, more: Bytes)
    requires ReadCategory(input).Got?
    ensures ReadCategory(input + more) == Got(ReadCategory(input).value, ReadCategory(input).rest + more)
  {
    hide ReadString;
    StringExtends(input, more);
  }

  lemma RepeatExtends(short: bool, input: Bytes, more: Bytes)
    requires ReadRepeat(short, input).Got?
    ensures ReadRepeat(short, input + more) == Got(ReadRepeat(short, input).value, ReadRepeat(short, input).rest + more)
  {
    hide ReadVarInt;
    assert (input + more)[1..] == input[1..] + more;
    if !short {
      VarIntExtends(input[1..], more);
    }
  }

  lemma StampExtends(input: Bytes, more: Bytes)
    requires ReadStamp(input).Got?
    ensures ReadStamp(input + more) == Got(ReadStamp(input).value, ReadStamp(input).rest + more)
  {
    hide ReadVarInt, ReadU64;
    assert (input + more)[1..] == input[1..] + more;
    if input[0] != 0xff && input[0] / 8 == 0x1d {
      VarIntExtends(input[1..], more);
    } else if input[0] == 0xff || input[0] / 8 == 0x1e {
      ReadU64Extends(input[1..], more);
    }
  }

  /** The same outcome with more bytes left unread. */
  function Longer(d: Decoded, more: Bytes): Decoded
    requires d.Accepted?
  {
    d.(rest := d.rest + more)
  }

  lemma DecodeRepeatExtends(r: ReaderState, short: bool, input: Bytes, more: Bytes)
    requires DecodeRepeat(r, short, input).Accepted?
    ensures DecodeRepeat(r, short, input + more) == Longer(DecodeRepeat(r, short, input), more)
  {
    hide ReadRepeat;
    RepeatExtends(short, input, more);
  }

  lemma DecodeNewExtends(r: ReaderState, id: nat, input: Bytes, more: Bytes)
    requires DecodeNew(r, id, input).Accepted?
    ensures DecodeNew(r, id, input + more) == Longer(DecodeNew(r, id, input), more)
  {
    hide ReadStamp, ReadString;
    StampExtends(input, more);
    StringExtends(ReadStamp(input).rest, more);
  }

  /** A message that is read is read the same way with more bytes behind it. */
  lemma {:induction false} DecodeExtends(r: ReaderState, input: Bytes, more: Bytes)
    requires Decode(r, input).Accepted?
    ensures Decode(r, input + more) == Longer(Decode(r, input), more)
    decreases |input|
  {
    hide ReadVarInt, ReadCategory, DecodeRepeat, DecodeNew;
    VarIntExtends(input, more);
    var Got(next, rest) := ReadVarInt(input);
    if next == 0 {
      CategoryExtends(rest, more);
      var Got(category, rest') := ReadCategory(rest);
      DecodeExtends(r.(categories := r.categories + [category]), rest', more);
    } else if next < BEGIN_CATEGORIES {
      DecodeRepeatExtends(r, next == 1, rest, more);
    } else {
      DecodeNewExtends(r, next - BEGIN_CATEGORIES, rest, more);
    }
  }

  /** For any bytes whatever, cutting a log off takes messages away from its end and changes none of the others. */
  lemma {:induction false} CutGivesPrefix(r: ReaderState, input: Bytes, more: Bytes)
    ensures DecodeAll(r, input).messages <= DecodeAll(r, input + more).messages
    decreases |input|
  {
    hide Decode;
    var d := Decode(r, input);
    if d.Accepted? {
      DecodeExtends(r, input, more);
      CutGivesPrefix(d.state, d.rest, more);
    }
  }

  // ----------------------------------------------------------------- cut records

  /** How many records of a run lie wholly within its first bytes. */
  function WholeRecords(w: WriterState, run: Run, cut: nat): (n: nat)
    requires WriterOk(w)
    ensures n <= |run|
    decreases |run|
  {
    if run == [] || |Encode(w, run[0].0, run[0].1)| > cut then 0
    else 1 + WholeRecords(AfterWrite(w, run[0].0), run[1..], cut - |Encode(w, run[0].0, run[0].1)|)
  }

  /** A record that is cut does not read. */
  lemma CutRecordFails(w: WriterState, r: ReaderState, m: Message, filter: CategoryFilter, cut: nat)
    requires Lockstep(w, r) && WriterOk(w) && Sendable(w, m) && Faithful(w, m) && cut < |Encode(w, m, filter)|
    ensures Decode(r, Encode(w, m, filter)[..cut]).Failed?
  {
    hide Decode, Encode, Lockstep;
    var record := Encode(w, m, filter);
    RecordRoundTrip(w, r, m, filter, []);
    assert record + [] == record == record[..cut] + record[cut..];
    if Decode(r, record[..cut]).Accepted? {
      DecodeExtends(r, record[..cut], record[cut..]);
    }
  }

  lemma CutBetween(record: Bytes, later: Bytes, cut: nat)
    requires cut <= |record + later|
    ensures if |record| <= cut then (record + later)[..cut] == record + later[..cut - |record|]
            else (record + later)[..cut] == record[..cut]
  {}

  /** However a faithful log is cut, exactly the messages whose records are whole are read. */
  lemma {:induction false} CutRun(w: WriterState, r: ReaderState, run: Run, cut: nat)
    requires Lockstep(w, r) && WriterOk(w) && RunSendable(w, run) && RunFaithful(w, run)
    requires cut <= |EncodeAll(w, run)|
    ensures var messages := DecodeAll(r, EncodeAll(w, run)[..cut]).messages;
            |messages| == WholeRecords(w, run, cut) && Carry(messages, run)
    decreases |run|
  {
    hide Decode, Encode, Lockstep, DecodeAll, EncodeAll, Sendable, Faithful, AfterWrite, Key, Carry;
    if run == [] {
      NothingIsRead(w, r);
      CarryNothing(run);
    } else {
      var (m, filter) := run[0];
      var record, later := Encode(w, m, filter), EncodeAll(AfterWrite(w, m), run[1..]);
      EncodeAllStep(w, run);
      CutBetween(record, later, cut);
      DecodeAllStep(r, EncodeAll(w, run)[..cut]);
      if |record| <= cut {
        var rest := later[..cut - |record|];
        RecordRoundTrip(w, r, m, filter, rest);
        var d := Decode(r, record + rest);
        CutRun(AfterWrite(w, m), d.state, run[1..], cut - |record|);
        CarryOne(d.message, DecodeAll(d.state, rest).messages, run);
      } else {
        CutRecordFails(w, r, m, filter, cut);
        CarryNothing(run);
      }
    }
  }

  // ------------------------------------------------------------- unnoticed cuts

  /** The integer a record begins with: a repeat, a registration, or the id of a known category. */
  function FirstInteger(w: WriterState, m: Message): nat {
    var index := IndexOf(w.recent, Key(m));
    if index != -1 then (if SecsTo(w.lastSecs, m.time) < 16 && index < 16 then 1 else 2)
    else if m.category in w.categories then w.categories[m.category]
    else 0
  }

  lemma SmallIntegers()
    ensures VarInt(0) == [0] && VarInt(1) == [1] && VarInt(2) == [2]
  {}

  lemma BeginsWithInteger(w: WriterState, m: Message, filter: CategoryFilter) returns (tail: Bytes)
    requires WriterOk(w)
    ensures FirstInteger(w, m) < U32 && Encode(w, m, filter) == VarInt(FirstInteger(w, m)) + tail
  {
    hide LittleEndian, String, Flags, StampBytes, Secs, SecsTo, Key, IndexOf, VarInt;
    SmallIntegers();
    var record, first := Encode(w, m, filter), VarInt(FirstInteger(w, m));
    if IndexOf(w.recent, Key(m)) == -1 && m.category in w.categories {
      assert [] + first == first;
      var stamp := StampBytes(m.typ, SecsTo(w.lastSecs, m.time), Secs(m.time));
      tail := stamp + String(m.body);
      assert first + stamp + String(m.body) == first + tail;
    } else {
      tail := record[1..];
    }
  }

  /** Some but not all bytes of the id of a new message in a known category are there. */
  predicate InsideId(w: WriterState, m: Message, cut: nat) {
    && IndexOf(w.recent, Key(m)) == -1 && m.category in w.categories
    && w.categories[m.category] < U32 && 0 < cut < |VarInt(w.categories[m.category])|
  }

  /** A failing read leaves all its bytes exactly if it fails at their first integer. */
  lemma FailsAtFirst(r: ReaderState, input: Bytes)
    requires Decode(r, input).Failed?
    ensures LogReader.EndsCleanly(r, input) <==> ReadVarInt(input).Stopped?
  {
    hide DecodeRepeat, DecodeNew, ReadCategory, ReadVarInt;
    VarIntFailsExactly(input);
  }

  lemma CutInteger(n: nat, tail: Bytes, cut: nat)
    requires n < U32 && cut <= |VarInt(n) + tail|
    ensures ReadVarInt((VarInt(n) + tail)[..cut]).Stopped? <==> cut < |VarInt(n)|
  {
    hide LittleEndian, ReadVarInt, VarInt, Unfinished;
    var input := (VarInt(n) + tail)[..cut];
    if cut < |VarInt(n)| {
      assert input == VarInt(n)[..cut];
      VarIntFailsExactly(input);
      assert input != [] ==> Unfinished(input) by { ProperPrefix(n, input); }
    } else {
      var more := tail[..cut - |VarInt(n)|];
      assert input == VarInt(n) + more;
      VarIntRoundTrip(n, more);
    }
  }

  lemma ProperPrefix(n: nat, input: Bytes)
    requires n < U32 && |input| < |VarInt(n)| && input == VarInt(n)[..|input|]
    ensures input != [] ==> Unfinished(input)
  {}

  /** A cut record ends the log cleanly exactly if nothing of it is there, or only the beginning of a known id. */
  lemma CutRecordEnds(w: WriterState, r: ReaderState, m: Message, filter: CategoryFilter, cut: nat)
    requires Lockstep(w, r) && WriterOk(w) && Sendable(w, m) && Faithful(w, m) && cut < |Encode(w, m, filter)|
    ensures LogReader.EndsCleanly(r, Encode(w, m, filter)[..cut]) <==> cut == 0 || InsideId(w, m, cut)
  {
    hide Encode, Lockstep, LogReader.EndsCleanly, Decode, Faithful, Sendable, LittleEndian, SecsTo;
    CutRecordFails(w, r, m, filter, cut);
    FailsAtFirst(r, Encode(w, m, filter)[..cut]);
    var tail := BeginsWithInteger(w, m, filter);
    CutInteger(FirstInteger(w, m), tail, cut);
  }

  /** The cut is at the end of a record, or inside the id of a new message in a known category. */
  predicate CleanCut(w: WriterState, run: Run, cut: nat)
    requires WriterOk(w)
    decreases |run|
  {
    cut == 0 ||
    (run != [] &&
     var record := Encode(w, run[0].0, run[0].1);
     if cut < |record| then InsideId(w, run[0].0, cut)
     else CleanCut(AfterWrite(w, run[0].0), run[1..], cut - |record|))
  }

  /** However a faithful log is cut, the reader takes it for complete exactly at such a cut. */
  lemma {:induction false} CutRunEnds(w: WriterState, r: ReaderState, run: Run, cut: nat)
    requires Lockstep(w, r) && WriterOk(w) && RunSendable(w, run) && RunFaithful(w, run)
    requires cut <= |EncodeAll(w, run)|
    ensures LogReader.EndsCleanly(r, EncodeAll(w, run)[..cut]) <==> CleanCut(w, run, cut)
    decreases |run|
  {
    hide Decode, Encode, Lockstep, Faithful, InsideId, Sendable, AfterWrite, Key, LogReader.EndsCleanly;
    if run == [] {
      NothingEndsCleanly(r);
    } else {
      hide EncodeAll;
      var (m, filter) := run[0];
      var record, later := Encode(w, m, filter), EncodeAll(AfterWrite(w, m), run[1..]);
      EncodeAllStep(w, run);
      CutBetween(record, later, cut);
      if |record| <= cut {
        var rest := later[..cut - |record|];
        RecordIsNotEmpty(w, m, filter);
        RecordRoundTrip(w, r, m, filter, rest);
        EndsLater(r, record + rest);
        CutRunEnds(AfterWrite(w, m), Decode(r, record + rest).state, run[1..], cut - |record|);
      } else {
        CutRecordEnds(w, r, m, filter, cut);
      }
    }
  }

  lemma EndsLater(r: ReaderState, input: Bytes)
    requires Decode(r, input).Accepted?
    ensures LogReader.EndsCleanly(r, input)
       <==> LogReader.EndsCleanly(Decode(r, input).state, Decode(r, input).rest)
  {
    hide Decode;
  }

  lemma NothingEndsCleanly(r: ReaderState)
    ensures LogReader.EndsCleanly(r, [])
  {}

  lemma RecordIsNotEmpty(w: WriterState, m: Message, filter: CategoryFilter)
    requires WriterOk(w)
    ensures Encode(w, m, filter) != []
  {
    hide Encode;
    var tail := BeginsWithInteger(w, m, filter);
  }

  /** A log cut inside the category id of its next message ends cleanly, although the message is lost. */
  lemma CutInsideId(w: WriterState, r: ReaderState, m: Message, filter: CategoryFilter, cut: nat)
    requires Lockstep(w, r) && WriterOk(w) && InsideId(w, m, cut)
    ensures cut < |Encode(w, m, filter)|
    ensures LogReader.EndsCleanly(r, Encode(w, m, filter)[..cut])
    ensures DecodeAll(r, Encode(w, m, filter)[..cut]).messages == []
  {
    hide Encode, VarInt, ReadVarInt;
    var tail := BeginsWithInteger(w, m, filter);
    CutInteger(FirstInteger(w, m), tail, cut);
    VarIntFailsExactly(Encode(w, m, filter)[..cut]);
  }

  /** Such cuts in the smallest: one byte of three, six of seven. */
  lemma UnnoticedCuts(r: ReaderState)
    ensures LogReader.EndsCleanly(r, [0xff]) && LogReader.EndsCleanly(r, [0xff, 0xff, 0xff, 1, 2, 3])
    ensures !LogReader.EndsCleanly(r, [3])
  {}

  // ------------------------------------------------------- a run, then more bytes

  /** After the records of a faithful run the reader goes on with what follows, in lockstep with the writer. */
  lemma {:induction false} RunThenMore(w: WriterState, r: ReaderState, run: Run, more: Bytes) returns (r': ReaderState)
    requires Lockstep(w, r) && WriterOk(w) && RunSendable(w, run) && RunFaithful(w, run)
    ensures Lockstep(AfterRun(w, run), r')
    ensures |DecodeAll(r, EncodeAll(w, run) + more).messages| == |run| + |DecodeAll(r', more).messages|
    ensures LogReader.EndsCleanly(r, EncodeAll(w, run) + more) <==> LogReader.EndsCleanly(r', more)
    decreases |run|
  {
    hide Decode, Encode, Lockstep, Faithful, Sendable;
    if run == [] {
      assert [] + more == more;
      r' := r;
    } else {
      var (m, filter) := run[0];
      var rest := EncodeAll(AfterWrite(w, m), run[1..]) + more;
      EncodeAllSplit(w, run, more);
      RecordRoundTrip(w, r, m, filter, rest);
      r' := RunThenMore(AfterWrite(w, m), Decode(r, Encode(w, m, filter) + rest).state, run[1..], more);
    }
  }
}
