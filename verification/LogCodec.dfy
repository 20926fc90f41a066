/**
  The detailed-log codec on values: what one call of the writer appends, what
  one call of the reader makes of the bytes in front of it, and the theorems
  that tie the two machines together over whole runs.
 */
module LogCodec {
  import opened Basics
  import opened LogFormat
  import RingBuf

  // -------------------------------------------------------------- data model

  datatype MsgType = Debug | Info | Warning | Critical | Fatal

  /** Times are milliseconds since the epoch. */
  datatype Message = Message(typ: MsgType, category: Bytes, body: Bytes, time: int, readCategoryId: nat)

  /** Everything message equality and the message hash look at: all but the time. */
  datatype Content = Content(typ: MsgType, category: Bytes, body: Bytes)

  datatype CategoryFilter = CategoryFilter(debug: bool, info: bool, warn: bool, critical: bool)

  datatype Category = Category(name: Bytes, filter: CategoryFilter)

  datatype WriterState = WriterState(
    categories: map<Bytes, nat>, nextCategory: nat, lastSecs: int, recent: seq<Message>)

  datatype ReaderState = ReaderState(
    categories: seq<Category>, lastSecs: int, recent: seq<Message>)

  const CAPACITY: nat := 256
  const BEGIN_CATEGORIES: nat := 3

  const INITIAL_WRITER := WriterState(map[], BEGIN_CATEGORIES, 0, [])
  const INITIAL_READER := ReaderState([], 0, [])

  function Key(m: Message): Content {
    Content(m.typ, m.category, m.body)
  }

  // ------------------------------------------------------- the recent window

  /** Least index whose element has the given content, -1 if there is none. */
  function IndexOf(recent: seq<Message>, key: Content): (i: int)
    ensures -1 <= i < |recent|
    ensures 0 <= i ==> Key(recent[i]) == key && forall j :: 0 <= j < i ==> Key(recent[j]) != key
    ensures i == -1 ==> forall j :: 0 <= j < |recent| ==> Key(recent[j]) != key
  {
    FirstWhere(recent, (m: Message) => Key(m) == key)
  }

  // ------------------------------------------------------------------- clock

  /** C++ integer division truncates toward zero. */
  function TruncDiv(a: int, b: int): int
    requires b > 0
  {
    if a >= 0 then a / b else -((-a) / b)
  }

  /** Whole seconds since the epoch. */
  function Secs(time: int): int {
    TruncDiv(time, 1000)
  }

  /** Whole seconds from a clock to a time. */
  function SecsTo(clock: int, time: int): int {
    TruncDiv(time - 1000 * clock, 1000)
  }

  lemma SecsToIsDifference(clock: int, time: int)
    requires 0 <= clock <= Secs(time)
    ensures 0 <= SecsTo(clock, time) == Secs(time) - clock
  {}

  // ------------------------------------------------------------------ writer

  function CompressedTypeOf(t: MsgType): (c: nat)
    ensures c < 4
    ensures t != Fatal ==> TypeOfCompressed(c) == t
  {
    match t
    case Debug => 0
    case Info => 1
    case Warning => 2
    case Critical => 3
    case Fatal => 3
  }

  function Flags(f: CategoryFilter): byte {
    (if f.debug then 1 else 0) + (if f.info then 2 else 0) + (if f.warn then 4 else 0) + (if f.critical then 8 else 0)
  }

  /** A repeat: one byte of index and delta when both fit, an index and a varint otherwise. */
  function RepeatBytes(index: nat, delta: int): Bytes
    requires index < CAPACITY
  {
    if delta < 16 && index < 16 then [1, (index + 16 * delta) % 256]
    else [2, index] + VarInt(delta % U32)
  }

  function FullTimestamp(secs: int): Bytes {
    LittleEndian(secs % U64, 8)
  }

  /** The type and time of a new message. */
  function StampBytes(typ: MsgType, delta: int, secs: int): Bytes {
    if typ == Fatal then [0xff] + FullTimestamp(secs)
    else if delta >= 0x1d then
      [CompressedTypeOf(typ) + 8 * (if delta < 0xffff then 0x1d else 0x1e)]
      + (if delta > 0xffff then FullTimestamp(secs) else VarInt(delta))
    else [(CompressedTypeOf(typ) + 8 * delta) % 256]
  }

  /** Looks a category up, registering it under the next id when it is new. */
  function CategoryBytes(w: WriterState, name: Bytes, filter: CategoryFilter): Bytes {
    if name in w.categories then [] else [0] + String(name) + [Flags(filter)]
  }

  function CategoryId(w: WriterState, name: Bytes): nat {
    if name in w.categories then w.categories[name] else w.nextCategory
  }

  /** The id counter is 16 bits wide. */
  function Register(w: WriterState, name: Bytes): WriterState {
    if name in w.categories then w
    else w.(categories := w.categories[name := w.nextCategory], nextCategory := (w.nextCategory + 1) % U16)
  }

  function Remember(w: WriterState, m: Message): WriterState {
    w.(recent := RingBuf.Push(CAPACITY, w.recent, m.(readCategoryId := 0)), lastSecs := Secs(m.time))
  }

  ghost predicate WriterOk(w: WriterState) {
    && |w.recent| <= CAPACITY
    && w.nextCategory < U16
    && (forall n :: n in w.categories ==> w.categories[n] < U16)
  }

  /** The bytes one write appends. */
  function Encode(w: WriterState, m: Message, filter: CategoryFilter): Bytes
    requires WriterOk(w)
  {
    var index := IndexOf(w.recent, Key(m));
    var delta := SecsTo(w.lastSecs, m.time);
    if index != -1 then RepeatBytes(index, delta)
    else CategoryBytes(w, m.category, filter) + VarInt(CategoryId(w, m.category))
         + StampBytes(m.typ, delta, Secs(m.time)) + String(m.body)
  }

  /** The writer after one write. */
  function AfterWrite(w: WriterState, m: Message): (w': WriterState)
    requires WriterOk(w)
    ensures WriterOk(w')
  {
    Remember(if IndexOf(w.recent, Key(m)) != -1 then w else Register(w, m.category), m)
  }

  // ------------------------------------------------------------------ reader

  /** Undefined compressed types read as Info. */
  function TypeOfCompressed(t: nat): MsgType {
    match t
    case 0 => Debug
    case 1 => Info
    case 2 => Warning
    case 3 => Critical
    case _ => Info
  }

  function Unflag(flags: byte): CategoryFilter {
    CategoryFilter(flags % 2 == 1, flags / 2 % 2 == 1, flags / 4 % 2 == 1, flags / 8 % 2 == 1)
  }

  function ReadCategory(input: Bytes): (r: Read<Category>)
    ensures |r.rest| <= |input| && (r.Got? ==> |r.rest| < |input|)
  {
    match ReadString(input)
    case Stopped(rest) => Stopped(rest)
    case Got(name, rest) =>
      match ReadU8(rest)
      case Stopped(rest) => Stopped(rest)
      case Got(flags, rest) => Got(Category(name, Unflag(flags)), rest)
  }

  /** Index and seconds of a back-reference. */
  function ReadRepeat(short: bool, input: Bytes): (r: Read<(nat, nat)>)
    ensures |r.rest| <= |input| && (r.Got? ==> |r.rest| < |input|)
  {
    match ReadU8(input)
    case Stopped(rest) => Stopped(rest)
    case Got(field, rest) =>
      if short then Got((field % 16, field / 16), rest)
      else match ReadVarInt(rest)
        case Stopped(rest) => Stopped(rest)
        case Got(delta, rest) => Got((field as nat, delta), rest)
  }

  /** Type and seconds of a new message. */
  function ReadStamp(input: Bytes): (r: Read<(MsgType, int)>)
    ensures |r.rest| <= |input| && (r.Got? ==> |r.rest| < |input|)
  {
    match ReadU8(input)
    case Stopped(rest) => Stopped(rest)
    case Got(field, rest) =>
      var typ := if field == 0xff then Fatal else TypeOfCompressed(field % 8);
      if field != 0xff && field / 8 == 0x1d then
        match ReadVarInt(rest)
        case Stopped(rest) => Stopped(rest)
        case Got(delta, rest) => Got((typ, delta), rest)
      else if field == 0xff || field / 8 == 0x1e then
        match ReadU64(rest)
        case Stopped(rest) => Stopped(rest)
        case Got(secs, rest) => Got((typ, Signed64(secs)), rest)
      else Got((typ, field / 8), rest)
  }

  datatype Decoded =
    | Accepted(message: Message, state: ReaderState, rest: Bytes)
    | Failed(state: ReaderState, rest: Bytes)

  const NO_CATEGORY := Category([], CategoryFilter(true, true, true, true))

  /** Out-of-range ids give a default category. */
  function CategoryAt(r: ReaderState, id: nat): Category {
    if id < |r.categories| then r.categories[id] else NO_CATEGORY
  }

  /** Every message read, new or repeated, enters the reader's own window. */
  function Accept(r: ReaderState, m: Message, rest: Bytes): Decoded {
    Accepted(m, r.(recent := RingBuf.Push(CAPACITY, r.recent, m)), rest)
  }

  function DecodeRepeat(r: ReaderState, short: bool, input: Bytes): (d: Decoded)
    ensures |d.rest| <= |input|
  {
    match ReadRepeat(short, input)
    case Stopped(rest) => Failed(r, rest)
    case Got((index, delta), rest) =>
      if index >= |r.recent| then Failed(r, rest)
      else
        var r' := r.(lastSecs := r.lastSecs + delta);
        Accept(r', r.recent[index].(time := 1000 * r'.lastSecs), rest)
  }

  function DecodeNew(r: ReaderState, id: nat, input: Bytes): (d: Decoded)
    ensures |d.rest| <= |input|
  {
    match ReadStamp(input)
    case Stopped(rest) => Failed(r, rest)
    case Got((typ, delta), rest) =>
      var r' := r.(lastSecs := r.lastSecs + delta);
      match ReadString(rest)
      case Stopped(rest) => Failed(r', rest)
      case Got(body, rest) =>
        Accept(r', Message(typ, CategoryAt(r, id).name, body, 1000 * r'.lastSecs, id % U16), rest)
  }

  /** One call of read: category registrations are absorbed until a message ends the call. */
  function Decode(r: ReaderState, input: Bytes): (d: Decoded)
    ensures |d.rest| <= |input| && (d.Accepted? ==> |d.rest| < |input|)
    decreases |input|
  {
    match ReadVarInt(input)
    case Stopped(rest) => Failed(r, rest)
    case Got(next, rest) =>
      if next == 0 then
        match ReadCategory(rest)
        case Stopped(rest) => Failed(r, rest)
        case Got(category, rest) =>
          Decode(r.(categories := r.categories + [category]), rest)
      else if next < BEGIN_CATEGORIES then DecodeRepeat(r, next == 1, rest)
      else DecodeNew(r, next - BEGIN_CATEGORIES, rest)
  }

  // --------------------------------------------------------------- lockstep

  /** The two machines hold the same window and number the same categories. */
  ghost predicate Lockstep(w: WriterState, r: ReaderState) {
    && SameWindow(w.recent, r.recent)
    && SameCategories(w, r)
  }

  ghost predicate SameWindow(a: seq<Message>, b: seq<Message>) {
    && |a| == |b| <= CAPACITY
    && forall i :: 0 <= i < |a| ==> Key(a[i]) == Key(b[i])
  }

  ghost predicate SameCategories(w: WriterState, r: ReaderState) {
    && BEGIN_CATEGORIES + |r.categories| <= U16
    && w.nextCategory == (BEGIN_CATEGORIES + |r.categories|) % U16
    && (forall i :: 0 <= i < |r.categories| ==> Numbered(w, r.categories[i].name, i))
    && (forall n :: n in w.categories ==> exists i :: 0 <= i < |r.categories| && r.categories[i].name == n)
  }

  ghost predicate Numbered(w: WriterState, name: Bytes, i: nat) {
    name in w.categories && w.categories[name] == BEGIN_CATEGORIES + i
  }

  lemma InitialLockstep()
    ensures Lockstep(INITIAL_WRITER, INITIAL_READER)
  {}

  /** The sizes the 16-bit id counter and the 32-bit lengths leave room for. */
  ghost predicate Sendable(w: WriterState, m: Message) {
    && |m.category| < U32 && |m.body| < U32
    && (m.category in w.categories || BEGIN_CATEGORIES <= w.nextCategory)
  }

  lemma PushKeepsWindow(a: seq<Message>, b: seq<Message>, x: Message, y: Message)
    requires SameWindow(a, b) && Key(x) == Key(y)
    ensures SameWindow(RingBuf.Push(CAPACITY, a, x), RingBuf.Push(CAPACITY, b, y))
  {}

  lemma FlagsRoundTrip(f: CategoryFilter)
    ensures Unflag(Flags(f)) == f
  {}

  /** The reader after the registration the writer may have put in front of a message. */
  function Registered(w: WriterState, r: ReaderState, name: Bytes, filter: CategoryFilter): ReaderState {
    if name in w.categories then r else r.(categories := r.categories + [Category(name, filter)])
  }

  lemma RegistrationKeepsNumbering(w: WriterState, r: ReaderState, name: Bytes, filter: CategoryFilter)
    requires SameCategories(w, r) && name !in w.categories && BEGIN_CATEGORIES <= w.nextCategory
    ensures SameCategories(Register(w, name), Registered(w, r, name, filter))
  {
    var w', r' := Register(w, name), Registered(w, r, name, filter);
    assert w.nextCategory == BEGIN_CATEGORIES + |r.categories|;
    assert r'.categories[|r.categories|].name == name;
    forall i | 0 <= i < |r'.categories|
      ensures Numbered(w', r'.categories[i].name, i)
    {
      assert i < |r.categories| ==> Numbered(w, r.categories[i].name, i);
    }
    forall n | n in w'.categories
      ensures exists i :: 0 <= i < |r'.categories| && r'.categories[i].name == n
    {
      if n in w.categories {
        var i :| 0 <= i < |r.categories| && r.categories[i].name == n;
        assert r'.categories[i].name == n;
      }
    }
  }

  lemma RegistrationKeepsLockstep(w: WriterState, r: ReaderState, name: Bytes, filter: CategoryFilter)
    requires Lockstep(w, r)
    requires name in w.categories || BEGIN_CATEGORIES <= w.nextCategory
    ensures var id := CategoryId(w, name);
            var r' := Registered(w, r, name, filter);
            && Lockstep(Register(w, name), r')
            && BEGIN_CATEGORIES <= id < BEGIN_CATEGORIES + |r'.categories|
            && r'.categories[id - BEGIN_CATEGORIES].name == name
  {
    if name !in w.categories {
      RegistrationKeepsNumbering(w, r, name, filter);
    }
  }

  // Which branch of the reader a record's first varint selects.

  lemma DecodeCategory(r: ReaderState, name: Bytes, filter: CategoryFilter, tail: Bytes)
    requires |name| < U32
    ensures Decode(r, [0] + (String(name) + ([Flags(filter)] + tail)))
         == Decode(r.(categories := r.categories + [Category(name, filter)]), tail)
  {
    var rest := [Flags(filter)] + tail;
    var input := [0] + (String(name) + rest);
    assert input[1..] == String(name) + rest;
    StringRoundTrip(name, rest);
    FlagsRoundTrip(filter);
    assert rest[1..] == tail;
    assert ReadVarInt(input) == Got(0, String(name) + rest);
    assert ReadCategory(String(name) + rest) == Got(Category(name, filter), tail);
  }

  lemma DecodeId(r: ReaderState, id: nat, tail: Bytes)
    requires BEGIN_CATEGORIES <= id < U32
    ensures Decode(r, VarInt(id) + tail) == DecodeNew(r, id - BEGIN_CATEGORIES, tail)
  {
    VarIntRoundTrip(id, tail);
  }

  lemma DecodeOp(r: ReaderState, op: byte, tail: Bytes)
    requires op == 1 || op == 2
    ensures Decode(r, [op] + tail) == DecodeRepeat(r, op == 1, tail)
  {
    assert ([op] + tail)[1..] == tail;
  }

  /** The reader absorbs the registration the writer may have emitted. */
  lemma DecodeRegistration(w: WriterState, r: ReaderState, name: Bytes, filter: CategoryFilter, tail: Bytes)
    requires |name| < U32
    ensures Decode(r, CategoryBytes(w, name, filter) + tail) == Decode(Registered(w, r, name, filter), tail)
  {
    var input := CategoryBytes(w, name, filter) + tail;
    if name in w.categories {
      assert input == tail;
    } else {
      assert input == [0] + (String(name) + ([Flags(filter)] + tail));
      DecodeCategory(r, name, filter, tail);
    }
  }

  /** It then reaches the stamp with the right category in hand. */
  lemma DecodeReachesStamp(w: WriterState, r: ReaderState, name: Bytes, filter: CategoryFilter, tail: Bytes)
    requires Lockstep(w, r) && |name| < U32
    requires name in w.categories || BEGIN_CATEGORIES <= w.nextCategory
    ensures BEGIN_CATEGORIES <= CategoryId(w, name) < U16
    ensures Decode(r, CategoryBytes(w, name, filter) + (VarInt(CategoryId(w, name)) + tail))
         == DecodeNew(Registered(w, r, name, filter), CategoryId(w, name) - BEGIN_CATEGORIES, tail)
  {
    hide Decode, DecodeNew, VarInt;
    RegistrationKeepsLockstep(w, r, name, filter);
    DecodeRegistration(w, r, name, filter, VarInt(CategoryId(w, name)) + tail);
    DecodeId(Registered(w, r, name, filter), CategoryId(w, name), tail);
  }

  // ------------------------------------------------------------------ stamps

  /** Gaps the five-bit field and its two escapes can carry. */
  predicate Encodable(typ: MsgType, delta: int) {
    || typ == Fatal
    || (if delta >= 0x1d then delta != 0xffff else delta % 32 != 0x1d && delta % 32 != 0x1e)
  }

  /** The seconds the reader adds to its clock for a stamp. */
  function StampSecs(typ: MsgType, delta: int, secs: int): int {
    if typ == Fatal || delta > 0xffff then Signed64(secs % U64)
    else if delta >= 0x1d then delta
    else delta % 32
  }

  lemma FieldBits(low: nat, high: int)
    requires low < 8
    ensures (low + 8 * high) % 256 % 8 == low && (low + 8 * high) % 256 / 8 == high % 32
  {}

  lemma StampRoundTrip(typ: MsgType, delta: int, secs: int, rest: Bytes)
    requires Encodable(typ, delta)
    ensures ReadStamp(StampBytes(typ, delta, secs) + rest) == Got((typ, StampSecs(typ, delta, secs)), rest)
  {
    hide VarInt, LittleEndian, Unsigned;
    var input := StampBytes(typ, delta, secs) + rest;
    var payload := StampBytes(typ, delta, secs)[1..];
    assert input[1..] == payload + rest;
    if typ == Fatal {
      ReadU64RoundTrip(secs % U64, rest);
      assert payload == FullTimestamp(secs);
    } else if delta > 0xffff {
      ReadU64RoundTrip(secs % U64, rest);
      assert payload == FullTimestamp(secs);
      FieldBits(CompressedTypeOf(typ), 0x1e);
    } else if delta >= 0x1d {
      VarIntRoundTrip(delta, rest);
      assert payload == VarInt(delta);
      FieldBits(CompressedTypeOf(typ), 0x1d);
    } else {
      FieldBits(CompressedTypeOf(typ), delta);
      assert payload + rest == rest;
    }
  }

  /** A gap outside those makes the reader run past the stamp. */
  lemma StampOverrun(typ: MsgType, delta: int, secs: int, rest: Bytes)
    requires !Encodable(typ, delta)
    requires ReadStamp(StampBytes(typ, delta, secs) + rest).Got?
    ensures |ReadStamp(StampBytes(typ, delta, secs) + rest).rest| < |rest|
  {
    var input := StampBytes(typ, delta, secs) + rest;
    if delta < 0x1d {
      FieldBits(CompressedTypeOf(typ), delta);
      assert input[1..] == rest;
      if delta % 32 == 0x1d {
        VarIntShortest(rest);
      }
    } else {
      FieldBits(CompressedTypeOf(typ), 0x1e);
      assert |VarInt(delta)| == 7;
    }
  }

  // ---------------------------------------------------------- single message

  /** What a caller can look at before a write to know the record will read back. */
  predicate Faithful(w: WriterState, m: Message) {
    IndexOf(w.recent, Key(m)) != -1 || Encodable(m.typ, SecsTo(w.lastSecs, m.time))
  }

  /** The reader's clock after the record of m. */
  function ClockAfter(w: WriterState, clock: int, m: Message): int {
    var index := IndexOf(w.recent, Key(m));
    var delta := SecsTo(w.lastSecs, m.time);
    clock +
    if index == -1 then StampSecs(m.typ, delta, Secs(m.time))
    else if delta < 16 && index < 16 then delta % 16
    else delta % U32
  }

  ghost predicate ReadsBack(w: WriterState, r: ReaderState, m: Message, filter: CategoryFilter, rest: Bytes)
    requires WriterOk(w)
  {
    var d := Decode(r, Encode(w, m, filter) + rest);
    && d.Accepted?
    && Key(d.message) == Key(m)
    && d.message.time == 1000 * d.state.lastSecs
    && d.state.lastSecs == ClockAfter(w, r.lastSecs, m)
    && d.rest == rest
    && Lockstep(AfterWrite(w, m), d.state)
  }

  lemma NibbleBits(low: nat, high: int)
    requires low < 16
    ensures (low + 16 * high) % 256 % 16 == low && (low + 16 * high) % 256 / 16 == high % 16
  {}

  lemma ShortRepeatRoundTrip(index: nat, delta: int, rest: Bytes)
    requires index < 16
    ensures ReadRepeat(true, [(index + 16 * delta) % 256] + rest) == Got((index, delta % 16), rest)
  {
    var field: byte := (index + 16 * delta) % 256;
    NibbleBits(index, delta);
    assert ([field] + rest)[1..] == rest;
  }

  lemma LongRepeatRoundTrip(index: byte, delta: nat, rest: Bytes)
    requires delta < U32
    ensures ReadRepeat(false, [index] + (VarInt(delta) + rest)) == Got((index as nat, delta), rest)
  {
    VarIntRoundTrip(delta, rest);
    assert ([index] + (VarInt(delta) + rest))[1..] == VarInt(delta) + rest;
  }

  lemma RepeatRoundTrip(index: nat, delta: int, rest: Bytes)
    requires index < CAPACITY
    ensures var bytes := RepeatBytes(index, delta) + rest;
            && bytes != [] && (bytes[0] == 1 || bytes[0] == 2)
            && ReadRepeat(bytes[0] == 1, bytes[1..])
               == Got((index, if delta < 16 && index < 16 then delta % 16 else delta % U32), rest)
  {
    hide ReadRepeat, VarInt;
    var bytes := RepeatBytes(index, delta) + rest;
    if delta < 16 && index < 16 {
      ShortRepeatRoundTrip(index, delta, rest);
      assert bytes[1..] == [(index + 16 * delta) % 256] + rest;
    } else {
      LongRepeatRoundTrip(index, delta % U32, rest);
      assert bytes[1..] == [index] + (VarInt(delta % U32) + rest);
    }
  }

  lemma RepeatReadsBack(w: WriterState, r: ReaderState, m: Message, filter: CategoryFilter, rest: Bytes)
    requires Lockstep(w, r) && WriterOk(w)
    requires IndexOf(w.recent, Key(m)) != -1
    ensures ReadsBack(w, r, m, filter, rest)
  {
    hide ReadRepeat, Secs, SecsTo;
    var index := IndexOf(w.recent, Key(m));
    var delta := SecsTo(w.lastSecs, m.time);
    var input := RepeatBytes(index, delta) + rest;
    RepeatRoundTrip(index, delta, rest);
    DecodeOp(r, input[0], input[1..]);
    assert input == [input[0]] + input[1..];
    var d := DecodeRepeat(r, input[0] == 1, input[1..]);
    PushKeepsWindow(w.recent, r.recent, m.(readCategoryId := 0), d.message);
  }

  /** The record of a repeat decodes to the entry it names, whole but for the time, under the advanced clock. */
  lemma RepeatDecodes(w: WriterState, r: ReaderState, m: Message, filter: CategoryFilter, rest: Bytes)
    requires Lockstep(w, r) && WriterOk(w) && IndexOf(w.recent, Key(m)) != -1
    ensures var clock := ClockAfter(w, r.lastSecs, m);
            Decode(r, Encode(w, m, filter) + rest)
            == Accept(r.(lastSecs := clock), r.recent[IndexOf(w.recent, Key(m))].(time := 1000 * clock), rest)
  {
    hide ReadRepeat, Secs, SecsTo, Decode, RepeatBytes, RingBuf.Push, SameCategories;
    var index := IndexOf(w.recent, Key(m));
    var input := RepeatBytes(index, SecsTo(w.lastSecs, m.time)) + rest;
    RepeatRoundTrip(index, SecsTo(w.lastSecs, m.time), rest);
    DecodeOp(r, input[0], input[1..]);
    assert input == [input[0]] + input[1..];
  }

  lemma EncodeNewSplit(w: WriterState, m: Message, filter: CategoryFilter, rest: Bytes)
    requires WriterOk(w) && IndexOf(w.recent, Key(m)) == -1
    ensures Encode(w, m, filter) + rest
         == CategoryBytes(w, m.category, filter) + (VarInt(CategoryId(w, m.category))
            + (StampBytes(m.typ, SecsTo(w.lastSecs, m.time), Secs(m.time)) + (String(m.body) + rest)))
  {
    var prefix := CategoryBytes(w, m.category, filter);
    var id := VarInt(CategoryId(w, m.category));
    var stamp := StampBytes(m.typ, SecsTo(w.lastSecs, m.time), Secs(m.time));
    hide CategoryBytes, CategoryId, VarInt, StampBytes, String, SecsTo, Secs, IndexOf, WriterOk;
    assert prefix + id + stamp + String(m.body) + rest == prefix + (id + (stamp + (String(m.body) + rest)));
  }

  lemma DecodeNewRoundTrip(r: ReaderState, id: nat, m: Message, delta: int, rest: Bytes)
    requires Encodable(m.typ, delta) && |m.body| < U32
    ensures var clock := r.lastSecs + StampSecs(m.typ, delta, Secs(m.time));
            DecodeNew(r, id, StampBytes(m.typ, delta, Secs(m.time)) + (String(m.body) + rest))
            == Accept(r.(lastSecs := clock),
                      Message(m.typ, CategoryAt(r, id).name, m.body, 1000 * clock, id % U16), rest)
  {
    hide ReadStamp, ReadString, StampBytes, String, StampSecs, Secs, Encodable, RingBuf.Push;
    StampRoundTrip(m.typ, delta, Secs(m.time), String(m.body) + rest);
    StringRoundTrip(m.body, rest);
  }

  lemma NewReachesStamp(w: WriterState, r: ReaderState, m: Message, filter: CategoryFilter, rest: Bytes)
    requires Lockstep(w, r) && WriterOk(w) && Sendable(w, m)
    requires IndexOf(w.recent, Key(m)) == -1
    ensures BEGIN_CATEGORIES <= CategoryId(w, m.category) < U16
    ensures Decode(r, Encode(w, m, filter) + rest)
         == DecodeNew(Registered(w, r, m.category, filter), CategoryId(w, m.category) - BEGIN_CATEGORIES,
              StampBytes(m.typ, SecsTo(w.lastSecs, m.time), Secs(m.time)) + (String(m.body) + rest))
  {
    hide Decode, DecodeNew, CategoryBytes, VarInt, String, StampBytes, Encode, Registered;
    EncodeNewSplit(w, m, filter, rest);
    DecodeReachesStamp(w, r, m.category, filter,
                       StampBytes(m.typ, SecsTo(w.lastSecs, m.time), Secs(m.time)) + (String(m.body) + rest));
  }

  /** The record of a new message decodes to the message under the reader's advanced clock. */
  lemma NewDecodes(w: WriterState, r: ReaderState, m: Message, filter: CategoryFilter, rest: Bytes)
    requires Lockstep(w, r) && WriterOk(w) && Sendable(w, m)
    requires IndexOf(w.recent, Key(m)) == -1 && Faithful(w, m)
    ensures var clock := ClockAfter(w, r.lastSecs, m);
            var id := CategoryId(w, m.category);
            Decode(r, Encode(w, m, filter) + rest)
            == Accept(Registered(w, r, m.category, filter).(lastSecs := clock),
                      Message(m.typ, m.category, m.body, 1000 * clock, (id - BEGIN_CATEGORIES) % U16), rest)
  {
    hide Decode, DecodeNew, VarInt, String, StampBytes, Encode, SecsTo, StampSecs, Secs, Lockstep, Key, IndexOf;
    NewReachesStamp(w, r, m, filter, rest);
    RegistrationKeepsLockstep(w, r, m.category, filter);
    DecodeNewRoundTrip(Registered(w, r, m.category, filter), CategoryId(w, m.category) - BEGIN_CATEGORIES,
                       m, SecsTo(w.lastSecs, m.time), rest);
  }

  lemma NewReadsBack(w: WriterState, r: ReaderState, m: Message, filter: CategoryFilter, rest: Bytes)
    requires Lockstep(w, r) && WriterOk(w) && Sendable(w, m)
    requires IndexOf(w.recent, Key(m)) == -1 && Faithful(w, m)
    ensures ReadsBack(w, r, m, filter, rest)
  {
    NewDecodes(w, r, m, filter, rest);
    RegistrationKeepsLockstep(w, r, m.category, filter);
    var r' := Registered(w, r, m.category, filter);
    var d := Decode(r, Encode(w, m, filter) + rest);
    PushKeepsWindow(w.recent, r'.recent, m.(readCategoryId := 0), d.message);
    LockstepDependsOnTables(Register(w, m.category), r', AfterWrite(w, m), d.state);
  }

  lemma LockstepDependsOnTables(w: WriterState, r: ReaderState, w': WriterState, r': ReaderState)
    requires SameCategories(w, r) && SameWindow(w'.recent, r'.recent)
    requires w'.categories == w.categories && w'.nextCategory == w.nextCategory && r'.categories == r.categories
    ensures Lockstep(w', r')
  {
    forall i | 0 <= i < |r'.categories| ensures Numbered(w', r'.categories[i].name, i) {
      assert Numbered(w, r.categories[i].name, i);
    }
  }

  /** When the stamp is not encodable no continuation of the log makes the record read back. */
  lemma UnfaithfulDoesNotReadBack(w: WriterState, r: ReaderState, m: Message, filter: CategoryFilter, rest: Bytes)
    requires Lockstep(w, r) && WriterOk(w) && Sendable(w, m) && !Faithful(w, m)
    ensures var d := Decode(r, Encode(w, m, filter) + rest);
            !(d.Accepted? && Key(d.message) == Key(m) && d.rest == rest)
  {
    var delta := SecsTo(w.lastSecs, m.time);
    var stamp := StampBytes(m.typ, delta, Secs(m.time));
    var tail := stamp + (String(m.body) + rest);
    NewReachesStamp(w, r, m, filter, rest);
    if ReadStamp(tail).Got? {
      StampOverrun(m.typ, delta, Secs(m.time), String(m.body) + rest);
      var left := ReadStamp(tail).rest;
      if ReadString(left).Got? {
        StringShortest(left);
      }
    }
  }

  /** A record reads back, whatever follows it, exactly when the message is faithful. */
  lemma RecordRoundTrip(w: WriterState, r: ReaderState, m: Message, filter: CategoryFilter, rest: Bytes)
    requires Lockstep(w, r) && WriterOk(w) && Sendable(w, m)
    ensures ReadsBack(w, r, m, filter, rest) <==> Faithful(w, m)
  {
    if !Faithful(w, m) {
      UnfaithfulDoesNotReadBack(w, r, m, filter, rest);
    } else if IndexOf(w.recent, Key(m)) != -1 {
      RepeatReadsBack(w, r, m, filter, rest);
    } else {
      NewReadsBack(w, r, m, filter, rest);
    }
  }

  // -------------------------------------------------------------- whole runs

  /** The messages handed to the writer, each with its category's filter at that moment. */
  type Run = seq<(Message, CategoryFilter)>

  function EncodeAll(w: WriterState, run: Run): Bytes
    requires WriterOk(w)
    decreases |run|
  {
    if run == [] then [] else Encode(w, run[0].0, run[0].1) + EncodeAll(AfterWrite(w, run[0].0), run[1..])
  }

  datatype Log = Log(messages: seq<Message>, state: ReaderState, rest: Bytes)

  /** Reading until a call fails: the messages, and what the failing call left behind. */
  function DecodeAll(r: ReaderState, input: Bytes): Log
    decreases |input|
  {
    var d := Decode(r, input);
    if d.Failed? then Log([], d.state, d.rest)
    else var log := DecodeAll(d.state, d.rest); log.(messages := [d.message] + log.messages)
  }

  ghost predicate RunSendable(w: WriterState, run: Run)
    requires WriterOk(w)
    decreases |run|
  {
    run == [] || (Sendable(w, run[0].0) && RunSendable(AfterWrite(w, run[0].0), run[1..]))
  }

  predicate RunFaithful(w: WriterState, run: Run)
    requires WriterOk(w)
    decreases |run|
  {
    run == [] || (Faithful(w, run[0].0) && RunFaithful(AfterWrite(w, run[0].0), run[1..]))
  }

  /** Each read gives its own message and stops exactly in front of the next record. */
  ghost predicate ReadsInStep(w: WriterState, r: ReaderState, run: Run, tail: Bytes)
    requires WriterOk(w)
    decreases |run|
  {
    run == [] ||
    var d := Decode(r, EncodeAll(w, run) + tail);
    && d.Accepted?
    && Key(d.message) == Key(run[0].0)
    && d.rest == EncodeAll(AfterWrite(w, run[0].0), run[1..]) + tail
    && ReadsInStep(AfterWrite(w, run[0].0), d.state, run[1..], tail)
  }

  lemma EncodeAllSplit(w: WriterState, run: Run, tail: Bytes)
    requires WriterOk(w) && run != []
    ensures EncodeAll(w, run) + tail
         == Encode(w, run[0].0, run[0].1) + (EncodeAll(AfterWrite(w, run[0].0), run[1..]) + tail)
  {}

  lemma EncodeAllStep(w: WriterState, run: Run)
    requires WriterOk(w) && run != []
    ensures EncodeAll(w, run) == Encode(w, run[0].0, run[0].1) + EncodeAll(AfterWrite(w, run[0].0), run[1..])
  {}

  lemma DecodeAllStep(r: ReaderState, input: Bytes)
    ensures var d := Decode(r, input);
            if d.Failed? then DecodeAll(r, input) == Log([], d.state, d.rest)
            else var log := DecodeAll(d.state, d.rest);
                 DecodeAll(r, input) == Log([d.message] + log.messages, log.state, log.rest)
  {
    hide Decode;
  }

  /** A whole run stays in step, whatever is appended to the log later, exactly when every message is faithful. */
  lemma {:induction false} RunInStepExactly(w: WriterState, r: ReaderState, run: Run, tail: Bytes)
    requires Lockstep(w, r) && WriterOk(w) && RunSendable(w, run)
    ensures ReadsInStep(w, r, run, tail) <==> RunFaithful(w, run)
    decreases |run|
  {
    if run != [] {
      var (m, filter) := run[0];
      var rest := EncodeAll(AfterWrite(w, m), run[1..]) + tail;
      EncodeAllSplit(w, run, tail);
      if Faithful(w, m) {
        RecordRoundTrip(w, r, m, filter, rest);
        RunInStepExactly(AfterWrite(w, m), Decode(r, Encode(w, m, filter) + rest).state, run[1..], tail);
      } else {
        UnfaithfulDoesNotReadBack(w, r, m, filter, rest);
      }
    }
  }

  /** The messages are those of the beginning of the run. */
  ghost predicate Carry(messages: seq<Message>, run: Run) {
    |messages| <= |run| && forall i :: 0 <= i < |messages| ==> Key(messages[i]) == Key(run[i].0)
  }

  lemma NothingIsRead(w: WriterState, r: ReaderState)
    requires WriterOk(w)
    ensures EncodeAll(w, []) == [] && DecodeAll(r, []) == Log([], r, [])
  {
    assert Decode(r, []).Failed?;
  }

  lemma CarryNothing(run: Run)
    ensures Carry([], run)
  {}

  lemma CarryOne(first: Message, messages: seq<Message>, run: Run)
    requires run != [] && Key(first) == Key(run[0].0) && Carry(messages, run[1..])
    ensures Carry([first] + messages, run)
  {
    hide Key;
    assert forall i :: 0 <= i < |messages| ==> run[1..][i] == run[i + 1];
  }

  /** Repeated reads return the run's messages in order, consume every byte, then fail at the end. */
  lemma {:induction false} RunRoundTrip(w: WriterState, r: ReaderState, run: Run)
    requires Lockstep(w, r) && WriterOk(w) && RunSendable(w, run) && RunFaithful(w, run)
    ensures var log := DecodeAll(r, EncodeAll(w, run));
            && |log.messages| == |run| && Carry(log.messages, run)
            && log.rest == []
            && Lockstep(AfterRun(w, run), log.state)
    decreases |run|
  {
    hide Decode, Encode, Lockstep, DecodeAll, EncodeAll, Sendable, Faithful, AfterWrite, Key, Carry;
    if run == [] {
      NothingIsRead(w, r);
      CarryNothing(run);
    } else {
      var (m, filter) := run[0];
      var rest := EncodeAll(AfterWrite(w, m), run[1..]);
      EncodeAllStep(w, run);
      DecodeAllStep(r, EncodeAll(w, run));
      RecordRoundTrip(w, r, m, filter, rest);
      var d := Decode(r, Encode(w, m, filter) + rest);
      RunRoundTrip(AfterWrite(w, m), d.state, run[1..]);
      CarryOne(d.message, DecodeAll(d.state, rest).messages, run);
    }
  }

  function AfterRun(w: WriterState, run: Run): WriterState
    requires WriterOk(w)
    decreases |run|
  {
    if run == [] then w else AfterRun(AfterWrite(w, run[0].0), run[1..])
  }

  /** For time that does not run backwards only a new message at a gap of 65535 s is lost. */
  lemma FaithfulForward(w: WriterState, m: Message)
    requires 0 <= w.lastSecs <= Secs(m.time)
    ensures Faithful(w, m) <==>
            || IndexOf(w.recent, Key(m)) != -1
            || m.typ == Fatal
            || Secs(m.time) - w.lastSecs != 0xffff
  {
    SecsToIsDifference(w.lastSecs, m.time);
  }

  /** Time does not run backwards, and only fatal messages come 65535 s after the one before. */
  predicate Steady(clock: int, run: Run)
    decreases |run|
  {
    run == [] ||
    var (m, secs) := (run[0].0, Secs(run[0].0.time));
    clock <= secs && (m.typ == Fatal || secs - clock != 0xffff) && Steady(secs, run[1..])
  }

  /** Such a run is faithful, whatever was written before it. */
  lemma {:induction false} SteadyIsFaithful(w: WriterState, run: Run)
    requires WriterOk(w) && 0 <= w.lastSecs && Steady(w.lastSecs, run)
    ensures RunFaithful(w, run)
    decreases |run|
  {
    hide Faithful;
    if run != [] {
      FaithfulForward(w, run[0].0);
      SteadyIsFaithful(AfterWrite(w, run[0].0), run[1..]);
    }
  }

  // ------------------------------------------------------------------- times

  /** Records that carry seconds since the epoch rather than a gap. */
  predicate Absolute(w: WriterState, m: Message) {
    IndexOf(w.recent, Key(m)) == -1 && (m.typ == Fatal || SecsTo(w.lastSecs, m.time) > 0xffff)
  }

  /** What a caller can look at before a write to know the reader's clock will be right. */
  predicate ClockExact(w: WriterState, m: Message) {
    if Absolute(w, m) then w.lastSecs == 0
    else
      && w.lastSecs <= Secs(m.time)
      && (IndexOf(w.recent, Key(m)) != -1 ==> Secs(m.time) - w.lastSecs < U32)
  }

  /** From agreeing clocks the reader's next clock is the message's seconds exactly under that guard. */
  lemma ClockStep(w: WriterState, m: Message)
    requires 0 <= w.lastSecs && 0 <= m.time < U64 / 2 && Faithful(w, m)
    ensures ClockAfter(w, w.lastSecs, m) == Secs(m.time) <==> ClockExact(w, m)
  {
    hide IndexOf, Key;
    if w.lastSecs <= Secs(m.time) {
      SecsToIsDifference(w.lastSecs, m.time);
    }
  }

  predicate RunClockExact(w: WriterState, run: Run)
    requires WriterOk(w)
    decreases |run|
  {
    run == [] || (ClockExact(w, run[0].0) && RunClockExact(AfterWrite(w, run[0].0), run[1..]))
  }

  /** Time does not run backwards or jump too far, and absolute times come only while the clock is at 0. */
  predicate Timely(clock: int, run: Run)
    decreases |run|
  {
    run == [] ||
    var (m, secs) := (run[0].0, Secs(run[0].0.time));
    && clock <= secs && secs - clock < U32
    && (m.typ == Fatal || secs - clock > 0xffff ==> clock == 0)
    && Timely(secs, run[1..])
  }

  /** The clock guard holds all along such a run, whatever was written before it. */
  lemma {:induction false} TimelyIsExact(w: WriterState, run: Run)
    requires WriterOk(w) && 0 <= w.lastSecs && Timely(w.lastSecs, run)
    ensures RunClockExact(w, run)
    decreases |run|
  {
    hide Secs, SecsTo, IndexOf;
    if run != [] {
      SecsToIsDifference(w.lastSecs, run[0].0.time);
      TimelyIsExact(AfterWrite(w, run[0].0), run[1..]);
    }
  }

  ghost predicate TimesAgree(messages: seq<Message>, run: Run) {
    && |messages| == |run|
    && forall i :: 0 <= i < |run| ==> messages[i].time == 1000 * Secs(run[i].0.time)
  }

  /** Every time of a run is read back floored to seconds exactly when the guard holds at every message. */
  lemma {:induction false} RunClocks(w: WriterState, r: ReaderState, run: Run)
    requires Lockstep(w, r) && WriterOk(w) && RunSendable(w, run) && RunFaithful(w, run)
    requires r.lastSecs == w.lastSecs >= 0
    requires forall i :: 0 <= i < |run| ==> 0 <= run[i].0.time < U64 / 2
    ensures TimesAgree(DecodeAll(r, EncodeAll(w, run)).messages, run) <==> RunClockExact(w, run)
    decreases |run|
  {
    hide Decode, Encode, Lockstep, DecodeAll, EncodeAll, Sendable, Faithful, Key;
    if run == [] {
      NothingIsRead(w, r);
    } else {
      var (m, filter) := run[0];
      var rest := EncodeAll(AfterWrite(w, m), run[1..]);
      EncodeAllStep(w, run);
      DecodeAllStep(r, EncodeAll(w, run));
      RecordRoundTrip(w, r, m, filter, rest);
      ClockStep(w, m);
      var d := Decode(r, Encode(w, m, filter) + rest);
      var log := DecodeAll(d.state, rest);
      if ClockExact(w, m) {
        RunClocks(AfterWrite(w, m), d.state, run[1..]);
        TimesAgreeCons(d.message, log.messages, run);
      }
    }
  }

  lemma TimesAgreeCons(first: Message, messages: seq<Message>, run: Run)
    requires run != [] && first.time == 1000 * Secs(run[0].0.time)
    ensures TimesAgree([first] + messages, run) <==> TimesAgree(messages, run[1..])
  {
    if TimesAgree([first] + messages, run) {
      forall i | 0 <= i < |run[1..]| ensures messages[i].time == 1000 * Secs(run[1..][i].0.time) {
        assert ([first] + messages)[i + 1].time == 1000 * Secs(run[i + 1].0.time);
      }
    }
  }
}
