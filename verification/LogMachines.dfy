/**
  The writer and the reader as the mutable objects they are, each tied call by
  call to the codec on values.
 */
module LogMachines {
  import opened Basics
  import opened LogFormat
  import opened LogCodec
  import RingBuf

  const LOG_VERSION: byte := 2

  class EncodedLogWriter {
    const recentMessages: RingBuf.HashBuffer<Message>
    var categories: map<Bytes, nat>
    var nextCategory: nat
    var lastMessageTime: int
    var buffer: Bytes
    var device: Bytes
    var hasDevice: bool

    ghost predicate Valid()
      reads this, recentMessages, recentMessages.ring, recentMessages.ring.data
    {
      && recentMessages.Valid()
      && recentMessages.ring.mCapacity == CAPACITY
      && ComparesContent()
      && nextCategory < U16
      && (forall n :: n in categories ==> categories[n] < U16)
    }

    ghost predicate ComparesContent() {
      forall a, b :: recentMessages.same(a, b) <==> Key(a) == Key(b)
    }

    ghost function State(): (w: WriterState)
      reads this, recentMessages, recentMessages.ring, recentMessages.ring.data
      requires Valid()
      ensures WriterOk(w)
    {
      WriterState(categories, nextCategory, lastMessageTime, recentMessages.Contents())
    }

    /** The message hash combines the hashes of the compared fields in some way. */
    constructor (contentHash: Content -> int)
      ensures Valid() && State() == INITIAL_WRITER
      ensures buffer == [] && device == [] && !hasDevice
      ensures fresh(recentMessages) && fresh(recentMessages.ring) && fresh(recentMessages.ring.data)
    {
      recentMessages := new RingBuf.HashBuffer(CAPACITY, m => contentHash(Key(m)), (a, b) => Key(a) == Key(b));
      categories, nextCategory, lastMessageTime := map[], BEGIN_CATEGORIES, 0;
      buffer, device, hasDevice := [], [], false;
    }

    method Flush() returns (success: bool)
      modifies this`buffer, this`device
      ensures success && device == old(device) + old(buffer) && buffer == []
    {
      device := device + buffer;
      buffer := [];
      success := true;
    }

    method WriteHeader() returns (success: bool)
      requires buffer == []
      modifies this`buffer, this`device
      ensures success && device == old(device) + [LOG_VERSION] && buffer == []
    {
      buffer := buffer + [LOG_VERSION];
      success := Flush();
    }

    method WriteVarInt(n: nat)
      requires n < U32
      modifies this`buffer
      ensures buffer == old(buffer) + VarInt(n)
    {
      if n < 0xff {
        buffer := buffer + [n];
      } else if n < 0xffff {
        buffer := buffer + [0xff];
        buffer := buffer + LittleEndian(n, 2);
      } else {
        buffer := buffer + [0xff];
        buffer := buffer + LittleEndian(0xffff, 2);
        buffer := buffer + LittleEndian(n, 4);
        assert LittleEndian(0xffff, 2) == [0xff, 0xff];
      }
    }

    method WriteString(bytes: Bytes)
      modifies this`buffer
      ensures buffer == old(buffer) + String(bytes)
    {
      WriteVarInt(|bytes| % U32);
      buffer := buffer + bytes;
    }

    method GetOrCreateCategory(category: Bytes, filter: CategoryFilter) returns (id: nat)
      requires Valid()
      modifies this`buffer, this`categories, this`nextCategory
      ensures Valid()
      ensures id == old(CategoryId(State(), category)) < U16
      ensures buffer == old(buffer) + old(CategoryBytes(State(), category, filter))
      ensures State() == old(Register(State(), category))
    {
      if category in categories {
        id := categories[category];
      } else {
        buffer := buffer + [0];
        WriteString(category);
        id := nextCategory;
        nextCategory := (nextCategory + 1) % U16;
        categories := categories[category := id];
        buffer := buffer + [Flags(filter)];
      }
    }

    method WriteStamp(message: Message)
      modifies this`buffer
      ensures buffer == old(buffer)
              + StampBytes(message.typ, SecsTo(lastMessageTime, message.time), Secs(message.time))
    {
      hide VarInt, FullTimestamp, CompressedTypeOf, SecsTo, Secs;
      if message.typ == Fatal {
        buffer := buffer + [0xff];
        buffer := buffer + FullTimestamp(Secs(message.time));
      } else {
        WriteGap(message.typ, SecsTo(lastMessageTime, message.time), Secs(message.time));
      }
    }

    method WriteGap(typ: MsgType, secondDelta: int, secs: int)
      requires typ != Fatal
      modifies this`buffer
      ensures buffer == old(buffer) + StampBytes(typ, secondDelta, secs)
    {
      hide VarInt, FullTimestamp, CompressedTypeOf;
      var field := CompressedTypeOf(typ);
      if secondDelta >= 0x1d {
        field := field + 8 * (if secondDelta < 0xffff then 0x1d else 0x1e);
      } else {
        field := (field + 8 * secondDelta) % 256;
      }
      buffer := buffer + [field];
      if secondDelta >= 0x1d {
        if secondDelta > 0xffff {
          buffer := buffer + FullTimestamp(secs);
        } else {
          WriteVarInt(secondDelta);
        }
      }
    }

    method WriteRepeat(index: nat, secondDelta: int)
      requires index < CAPACITY
      modifies this`buffer
      ensures buffer == old(buffer) + RepeatBytes(index, secondDelta)
    {
      hide VarInt;
      if secondDelta < 16 && index < 16 {
        buffer := buffer + [1];
        buffer := buffer + [(index + 16 * secondDelta) % 256];
      } else {
        buffer := buffer + [2];
        buffer := buffer + [index];
        WriteVarInt(secondDelta % U32);
      }
    }

    method WriteNew(message: Message, filter: CategoryFilter)
      requires Valid()
      modifies this`buffer, this`categories, this`nextCategory
      ensures Valid() && State() == old(Register(State(), message.category))
      ensures CategoryId(old(State()), message.category) < U16
      ensures buffer == old(buffer) + (
              old(CategoryBytes(State(), message.category, filter))
              + VarInt(CategoryId(old(State()), message.category))
              + StampBytes(message.typ, SecsTo(lastMessageTime, message.time), Secs(message.time))
              + String(message.body))
    {
      hide VarInt, CategoryBytes, StampBytes, String;
      var categoryId := GetOrCreateCategory(message.category, filter);
      WriteVarInt(categoryId);
      WriteStamp(message);
      WriteString(message.body);
    }

    lemma SearchIsIndexOf(message: Message)
      requires Valid()
      ensures RingBuf.Search(recentMessages.Contents(), recentMessages.same, message)
           == IndexOf(recentMessages.Contents(), Key(message))
    {}

    /** Looks the message up, then remembers it with the body it already had. */
    method Recall(message: Message) returns (index: int)
      requires Valid()
      modifies recentMessages.ring, recentMessages.ring.data
      ensures Valid() && index == old(IndexOf(State().recent, Key(message)))
      ensures State() == old(State()).(
              recent := RingBuf.Push(CAPACITY, old(State()).recent, message.(readCategoryId := 0)))
    {
      hide ComparesContent, RingBuf.Search, IndexOf, RingBuf.Push;
      SearchIsIndexOf(message);
      index := recentMessages.IndexOf(message);
      var body := message.body;
      if index != -1 {
        var prevMessage := recentMessages.At(index);
        body := prevMessage.body;
      }
      recentMessages.Emplace(Message(message.typ, message.category, body, message.time, 0));
    }

    /** One write appends the message's record to the device and advances the state as the codec says. */
    method Write(message: Message, filter: CategoryFilter) returns (success: bool)
      requires Valid() && buffer == []
      modifies this, recentMessages.ring, recentMessages.ring.data
      ensures Valid() && buffer == [] && hasDevice == old(hasDevice) == success
      ensures success ==> device == old(device) + old(Encode(State(), message, filter))
      ensures success ==> State() == old(AfterWrite(State(), message))
      ensures !success ==> device == old(device) && State() == old(State())
    {
      hide Encode, AfterWrite, WriterOk, ComparesContent;
      if !hasDevice {
        return false;
      }
      WriteRecord(message, filter);
      success := Flush();
    }

    /** The record goes to the buffer. */
    method WriteRecord(message: Message, filter: CategoryFilter)
      requires Valid() && buffer == []
      modifies this`buffer, this`categories, this`nextCategory, this`lastMessageTime
      modifies recentMessages.ring, recentMessages.ring.data
      ensures Valid() && buffer == old(Encode(State(), message, filter))
      ensures State() == old(AfterWrite(State(), message))
    {
      hide VarInt, StampBytes, String, RepeatBytes, RingBuf.Push, SecsTo, Secs, Flags, ComparesContent, IndexOf;
      var index := Recall(message);
      if index != -1 {
        WriteRepeat(index, SecsTo(lastMessageTime, message.time));
      } else {
        WriteNew(message, filter);
      }
      lastMessageTime := Secs(message.time);
    }
  }

  class EncodedLogReader {
    const recentMessages: RingBuf.RingBuffer<Message>
    var categories: seq<Category>
    var lastMessageTime: int
    var input: Bytes

    ghost predicate Valid()
      reads this, recentMessages, recentMessages.data
    {
      recentMessages.Valid() && recentMessages.mCapacity == CAPACITY
    }

    ghost function State(): ReaderState
      reads this, recentMessages, recentMessages.data
      requires Valid()
    {
      ReaderState(categories, lastMessageTime, recentMessages.Contents())
    }

    /** This state and these unread bytes are the ones of a decoding step, and so is the outcome. */
    ghost predicate Matches(d: Decoded, success: bool, slot: Message)
      reads this, recentMessages, recentMessages.data
      requires Valid()
    {
      && State() == d.state && input == d.rest
      && (success <==> d.Accepted?)
      && (success ==> slot == d.message)
    }

    constructor (input: Bytes)
      ensures Valid() && State() == INITIAL_READER && this.input == input
      ensures fresh(recentMessages) && fresh(recentMessages.data)
    {
      recentMessages := new RingBuf.RingBuffer(CAPACITY);
      categories, lastMessageTime := [], 0;
      this.input := input;
    }

    /** A short read hands over whatever is left. */
    method Take(length: nat) returns (success: bool, bytes: Bytes)
      modifies this`input
      ensures success <==> length <= |old(input)|
      ensures success ==> bytes == old(input)[..length] && input == old(input)[length..]
      ensures !success ==> input == []
    {
      success := length <= |input|;
      var n := if success then length else |input|;
      bytes := input[..n];
      input := input[n..];
    }

    method ReadHeader() returns (success: bool, readable: bool)
      modifies this`input
      ensures success <==> old(input) != []
      ensures readable <==> success && old(input)[0] == LOG_VERSION
      ensures input == if success then old(input)[1..] else []
    {
      var version;
      success, version := Take(1);
      readable := success && version[0] == LOG_VERSION;
    }

    method ReadNextVarInt() returns (success: bool, n: nat)
      modifies this`input
      ensures success <==> ReadVarInt(old(input)).Got?
      ensures input == ReadVarInt(old(input)).rest
      ensures success ==> n == ReadVarInt(old(input)).value
    {
      var bytes := input[..if |input| < 7 then |input| else 7];
      var readLength := |bytes|;
      bytes := bytes + seq(7 - readLength, _ => 0);
      n := 0;
      var skipped;
      if bytes[0] != 0xff && readLength >= 1 {
        n := bytes[0];
        success, skipped := Take(1);
      } else if (bytes[1] != 0xff || bytes[2] != 0xff) && readLength >= 3 {
        n := Unsigned(bytes, 1, 2);
        SameUnsigned(bytes, input, 1, 2);
        success, skipped := Take(3);
      } else if readLength == 7 {
        n := Unsigned(bytes, 3, 4);
        SameUnsigned(bytes, input, 3, 4);
        success, skipped := Take(7);
      } else {
        success := false;
      }
    }

    method ReadNextString() returns (success: bool, bytes: Bytes)
      modifies this`input
      ensures success <==> ReadString(old(input)).Got?
      ensures input == ReadString(old(input)).rest
      ensures success ==> bytes == ReadString(old(input)).value
    {
      var length;
      bytes := [];
      success, length := ReadNextVarInt();
      if success {
        success, bytes := Take(length);
      }
    }

    function CategoryFilterById(id: nat): CategoryFilter
      reads this
    {
      if id < |categories| then categories[id].filter else NO_CATEGORY.filter
    }

    method RegisterCategory() returns (success: bool)
      modifies this`input, this`categories
      ensures success <==> ReadCategory(old(input)).Got?
      ensures input == ReadCategory(old(input)).rest
      ensures categories == old(categories) + if success then [ReadCategory(old(input)).value] else []
    {
      var name, flags;
      success, name := ReadNextString();
      if !success { return; }
      success, flags := Take(1);
      if !success { return; }
      categories := categories + [Category(name, Unflag(flags[0]))];
    }

    method ReadRepeatField(short: bool) returns (success: bool, index: nat, secondDelta: nat)
      modifies this`input
      ensures success <==> ReadRepeat(short, old(input)).Got?
      ensures input == ReadRepeat(short, old(input)).rest
      ensures success ==> (index, secondDelta) == ReadRepeat(short, old(input)).value
    {
      index, secondDelta := 0, 0;
      var field;
      success, field := Take(1);
      if !success { return; }
      if short {
        index, secondDelta := field[0] % 16, field[0] / 16;
      } else {
        index := field[0];
        success, secondDelta := ReadNextVarInt();
      }
    }

    method ReadStampField() returns (success: bool, typ: MsgType, secondDelta: int)
      modifies this`input
      ensures success <==> ReadStamp(old(input)).Got?
      ensures input == ReadStamp(old(input)).rest
      ensures success ==> (typ, secondDelta) == ReadStamp(old(input)).value
    {
      typ, secondDelta := Debug, 0;
      var needsTimeRead := false;
      var field;
      success, field := Take(1);
      if !success { return; }
      if field[0] == 0xff {
        typ, needsTimeRead := Fatal, true;
      } else {
        typ := TypeOfCompressed(field[0] % 8);
        secondDelta := field[0] / 8;
        if secondDelta == 0x1d {
          success, secondDelta := ReadNextVarInt();
          if !success { return; }
        } else if secondDelta == 0x1e {
          needsTimeRead := true;
        }
      }
      if needsTimeRead {
        var bytes;
        ghost var before := input;
        success, bytes := Take(8);
        if !success { return; }
        SameUnsigned(bytes, before, 0, 8);
        secondDelta := Signed64(Unsigned(bytes, 0, 8));
      }
    }

    /** One read: same outcome, message, state and unread bytes as the codec's, failures included. */
    method Read() returns (success: bool, slot: Message)
      requires Valid()
      modifies this, recentMessages, recentMessages.data
      ensures Valid() && Matches(old(Decode(State(), input)), success, slot)
    {
      hide DecodeRepeat, DecodeNew, ReadVarInt, ReadCategory;
      slot := Message(Debug, [], [], 0, 0);
      ghost var goal := Decode(State(), input);
      var next: nat;
      success, next := ReadNextVarInt();
      if !success { return; }
      while next == 0
        invariant Valid() && success
        invariant goal == DecodeFrom(State(), next, input)
        decreases |input|
      {
        success := RegisterCategory();
        if !success { return; }
        success, next := ReadNextVarInt();
        if !success { return; }
      }
      if next < BEGIN_CATEGORIES {
        success, slot := ReadRecent(next == 1);
      } else {
        success, slot := ReadNew(next - BEGIN_CATEGORIES);
      }
    }

    method ReadRecent(short: bool) returns (success: bool, slot: Message)
      requires Valid()
      modifies this, recentMessages, recentMessages.data
      ensures Valid() && Matches(old(DecodeRepeat(State(), short, input)), success, slot)
    {
      hide ReadRepeat, RingBuf.Push;
      slot := Message(Debug, [], [], 0, 0);
      var index, secondDelta;
      success, index, secondDelta := ReadRepeatField(short);
      if !success { return; }
      if index >= recentMessages.mSize {
        return false, slot;
      }
      slot := recentMessages.At(index);
      lastMessageTime := lastMessageTime + secondDelta;
      slot := slot.(time := 1000 * lastMessageTime);
      var _ := recentMessages.Emplace(slot);
    }

    method ReadNew(categoryId: nat) returns (success: bool, slot: Message)
      requires Valid()
      modifies this, recentMessages, recentMessages.data
      ensures Valid() && Matches(old(DecodeNew(State(), categoryId, input)), success, slot)
    {
      hide ReadStamp, ReadString, RingBuf.Push;
      slot := Message(Debug, [], [], 0, 0);
      var category := if categoryId < |categories| then categories[categoryId] else NO_CATEGORY;
      var typ, secondDelta, body;
      success, typ, secondDelta := ReadStampField();
      if !success { return; }
      lastMessageTime := lastMessageTime + secondDelta;
      success, body := ReadNextString();
      if !success { return; }
      slot := Message(typ, category.name, body, 1000 * lastMessageTime, categoryId % U16);
      var _ := recentMessages.Emplace(slot);
    }
  }

  /** The rest of a read call once its first varint is known. */
  ghost function DecodeFrom(r: ReaderState, next: nat, input: Bytes): Decoded {
    if next == 0 then
      match ReadCategory(input)
      case Stopped(rest) => Failed(r, rest)
      case Got(category, rest) => Decode(r.(categories := r.categories + [category]), rest)
    else if next < BEGIN_CATEGORIES then DecodeRepeat(r, next == 1, input)
    else DecodeNew(r, next - BEGIN_CATEGORIES, input)
  }
}
