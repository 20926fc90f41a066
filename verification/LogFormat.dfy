/**
  The byte-level vocabulary of the detailed log: little-endian integers, the
  1/3/7-byte variable-length integer and length-prefixed strings, each as the
  bytes written and as a reader over the bytes still unread.
 */
module LogFormat {
  import opened Basics

  const U16: nat := 0x1_0000
  const U32: nat := 0x1_0000_0000
  const U64: nat := 0x1_0000_0000_0000_0000

  /** One device read: the value and the unread bytes, or a failure and what it left unread. */
  datatype Read<+T> = Got(value: T, rest: Bytes) | Stopped(rest: Bytes)

  // ---------------------------------------------------------------- integers

  function Pow256(k: nat): nat {
    if k == 0 then 1 else 256 * Pow256(k - 1)
  }

  function LittleEndian(n: nat, width: nat): (bytes: Bytes)
    ensures |bytes| == width
  {
    if width == 0 then [] else [n % 256] + LittleEndian(n / 256, width - 1)
  }

  /** The little-endian value of `width` bytes from position `at`. */
  function Unsigned(input: Bytes, at: nat, width: nat): (n: nat)
    requires at + width <= |input|
    ensures n < Pow256(width)
    decreases width
  {
    if width == 0 then 0 else input[at] as nat + 256 * Unsigned(input, at + 1, width - 1)
  }

  /** The two directions of the integer layout are inverse on every in-range value. */
  lemma {:induction false} LittleEndianRoundTrip(n: nat, width: nat, input: Bytes, at: nat)
    requires n < Pow256(width)
    requires at + width <= |input| && input[at..at + width] == LittleEndian(n, width)
    ensures Unsigned(input, at, width) == n
    decreases width
  {
    if width > 0 {
      assert input[at] == input[at..at + width][0];
      assert input[at + 1..at + width] == input[at..at + width][1..];
      assert LittleEndian(n, width)[1..] == LittleEndian(n / 256, width - 1);
      LittleEndianRoundTrip(n / 256, width - 1, input, at + 1);
    }
  }

  lemma LastByte(low: byte, high: nat)
    ensures (low as nat + 256 * high) % 256 == low as nat && (low as nat + 256 * high) / 256 == high
  {}

  lemma {:induction false} UnsignedRoundTrip(input: Bytes, at: nat, width: nat)
    requires at + width <= |input|
    ensures LittleEndian(Unsigned(input, at, width), width) == input[at..at + width]
    decreases width
  {
    if width > 0 {
      UnsignedRoundTrip(input, at + 1, width - 1);
      LastByte(input[at], Unsigned(input, at + 1, width - 1));
      assert input[at..at + width] == [input[at]] + input[at + 1..at + width];
    }
  }

  lemma {:induction false} SameUnsigned(a: Bytes, b: Bytes, at: nat, width: nat)
    requires at + width <= |a| && at + width <= |b|
    requires forall i :: at <= i < at + width ==> a[i] == b[i]
    ensures Unsigned(a, at, width) == Unsigned(b, at, width)
    decreases width
  {
    if width > 0 {
      SameUnsigned(a, b, at + 1, width - 1);
    }
  }

  /** A fixed-width read takes all its bytes, or fails after swallowing what was left. */
  function ReadBytes(input: Bytes, length: nat): (r: Read<Bytes>)
    ensures |r.rest| <= |input|
  {
    if length <= |input| then Got(input[..length], input[length..]) else Stopped([])
  }

  function ReadU8(input: Bytes): (r: Read<byte>)
    ensures |r.rest| <= |input| && (r.Got? ==> |r.rest| < |input|)
  {
    if input == [] then Stopped([]) else Got(input[0], input[1..])
  }

  function ReadU64(input: Bytes): (r: Read<nat>)
    ensures |r.rest| <= |input|
  {
    if 8 <= |input| then Got(Unsigned(input, 0, 8), input[8..]) else Stopped([])
  }

  function Signed64(n: nat): int {
    if n < U64 / 2 then n else n - U64
  }

  lemma PowersOf256()
    ensures Pow256(2) == U16 && Pow256(4) == U32 && Pow256(8) == U64
  {
    assert Pow256(4) == 256 * (256 * (256 * (256 * Pow256(0))));
    assert Pow256(8) == 256 * (256 * (256 * (256 * Pow256(4))));
  }

  lemma ReadU64RoundTrip(n: nat, rest: Bytes)
    requires n < U64
    ensures ReadU64(LittleEndian(n, 8) + rest) == Got(n, rest)
  {
    PowersOf256();
    var input := LittleEndian(n, 8) + rest;
    assert input[0..8] == LittleEndian(n, 8) && input[8..] == rest;
    LittleEndianRoundTrip(n, 8, input, 0);
  }

  // ------------------------------------------------- variable-length integer

  function VarInt(n: nat): Bytes
    requires n < U32
  {
    if n < 0xff then [n]
    else if n < 0xffff then [0xff] + LittleEndian(n, 2)
    else [0xff, 0xff, 0xff] + LittleEndian(n, 4)
  }

  /** Peeks up to seven bytes and skips one, three or seven; a failure consumes nothing. */
  function ReadVarInt(input: Bytes): (r: Read<nat>)
    ensures |r.rest| <= |input| && (r.Got? ==> |r.rest| < |input|)
  {
    if |input| >= 1 && input[0] != 0xff then
      Got(input[0], input[1..])
    else if |input| >= 3 && (input[1] != 0xff || input[2] != 0xff) then
      Got(Unsigned(input, 1, 2), input[3..])
    else if |input| >= 7 then
      Got(Unsigned(input, 3, 4), input[7..])
    else
      Stopped(input)
  }

  lemma TwoBytes(input: Bytes, at: nat)
    requires at + 2 <= |input|
    ensures Unsigned(input, at, 2) == input[at] as nat + 256 * (input[at + 1] as nat)
  {
    assert Unsigned(input, at + 1, 1) == input[at + 1] as nat + 256 * Unsigned(input, at + 2, 0);
  }

  /** Writing then reading any 32-bit value, whatever follows it, gives the value and leaves what follows. */
  lemma VarIntRoundTrip(n: nat, rest: Bytes)
    requires n < U32
    ensures ReadVarInt(VarInt(n) + rest) == Got(n, rest)
  {
    PowersOf256();
    var input := VarInt(n) + rest;
    if n < 0xff {
      assert input[1..] == rest;
    } else if n < 0xffff {
      assert input[1..3] == LittleEndian(n, 2) && input[3..] == rest;
      LittleEndianRoundTrip(n, 2, input, 1);
      TwoBytes(input, 1);
    } else {
      assert input[3..7] == LittleEndian(n, 4) && input[7..] == rest;
      LittleEndianRoundTrip(n, 4, input, 3);
    }
  }

  /** No accepted encoding of a value, canonical or not, is shorter than the written one. */
  lemma VarIntShortest(input: Bytes)
    requires ReadVarInt(input).Got?
    ensures var r := ReadVarInt(input);
            && r.value < U32
            && |r.rest| < |input| && r.rest == input[|input| - |r.rest|..]
            && |VarInt(r.value)| <= |input| - |r.rest|
  {
    PowersOf256();
    if |input| >= 1 && input[0] != 0xff {
    } else if |input| >= 3 && (input[1] != 0xff || input[2] != 0xff) {
      TwoBytes(input, 1);
    }
  }

  /** The first bytes of a written integer, but not all of them. */
  ghost predicate Unfinished(input: Bytes) {
    input != [] && exists n :: 0 <= n < U32 && |input| < |VarInt(n)| && VarInt(n)[..|input|] == input
  }

  /** Reading an integer fails exactly at the end of the bytes or inside an integer. */
  lemma VarIntFailsExactly(input: Bytes)
    ensures ReadVarInt(input).Stopped? <==> input == [] || Unfinished(input)
    ensures ReadVarInt(input).Stopped? ==> ReadVarInt(input).rest == input
  {
    PowersOf256();
    if ReadVarInt(input).Stopped? && input != [] {
      var n := Completed(input);
      assert |input| < |VarInt(n)| && VarInt(n)[..|input|] == input;
    }
    if Unfinished(input) {
      var n :| 0 <= n < U32 && |input| < |VarInt(n)| && VarInt(n)[..|input|] == input;
      assert forall i :: 0 <= i < |input| ==> input[i] == VarInt(n)[i];
      if n < 0xffff {
        TwoBytesOf(n);
      }
    }
  }

  lemma TwoBytesOf(n: nat)
    requires n < 0xffff
    ensures LittleEndian(n, 2) == [n % 256, n / 256] && (n % 256 != 0xff || n / 256 != 0xff)
  {}

  /** Some value whose integer begins with the bytes. */
  lemma Completed(input: Bytes) returns (n: nat)
    requires ReadVarInt(input).Stopped? && input != []
    ensures n < U32 && |input| < |VarInt(n)| && VarInt(n)[..|input|] == input
  {
    PowersOf256();
    if |input| < 3 {
      var low: nat := if |input| == 2 then input[1] else 0;
      n := low + 256;
      TwoBytesOf(n);
    } else {
      var payload := input[3..] + seq(7 - |input|, _ => 1);
      n := Unsigned(payload, 0, 4);
      UnsignedRoundTrip(payload, 0, 4);
      assert payload[..4] == payload;
      TopByte(payload);
      assert VarInt(n) == [0xff, 0xff, 0xff] + payload;
    }
  }

  lemma TopByte(bytes: Bytes)
    requires |bytes| == 4 && bytes[3] == 1
    ensures Unsigned(bytes, 0, 4) >= 0x100_0000
  {
    assert Unsigned(bytes, 3, 1) == 1 + 256 * Unsigned(bytes, 4, 0);
    assert Unsigned(bytes, 2, 2) >= 256;
    assert Unsigned(bytes, 1, 3) >= 0x1_0000;
  }

  /** What reads as an integer still does with more bytes behind it. */
  lemma VarIntExtends(input: Bytes, more: Bytes)
    requires ReadVarInt(input).Got?
    ensures ReadVarInt(input + more) == Got(ReadVarInt(input).value, ReadVarInt(input).rest + more)
  {
    var all := input + more;
    assert forall i :: 0 <= i < |input| ==> all[i] == input[i];
    if |input| >= 3 {
      SameUnsigned(all, input, 1, 2);
    }
    if |input| >= 7 {
      SameUnsigned(all, input, 3, 4);
    }
  }

  // ----------------------------------------------------------------- strings

  /** The length field is 32 bits wide: longer strings would have it truncated. */
  function String(bytes: Bytes): Bytes {
    VarInt(|bytes| % U32) + bytes
  }

  function ReadString(input: Bytes): (r: Read<Bytes>)
    ensures |r.rest| <= |input| && (r.Got? ==> |r.rest| < |input|)
  {
    match ReadVarInt(input)
    case Stopped(rest) => Stopped(rest)
    case Got(length, rest) => ReadBytes(rest, length)
  }

  lemma StringRoundTrip(bytes: Bytes, rest: Bytes)
    requires |bytes| < U32
    ensures ReadString(String(bytes) + rest) == Got(bytes, rest)
  {
    VarIntRoundTrip(|bytes|, bytes + rest);
    assert String(bytes) + rest == VarInt(|bytes|) + (bytes + rest);
    assert (bytes + rest)[..|bytes|] == bytes && (bytes + rest)[|bytes|..] == rest;
  }

  /** Reading a string takes at least as many bytes as writing it does. */
  lemma StringShortest(input: Bytes)
    requires ReadString(input).Got?
    ensures var r := ReadString(input);
            && |r.value| < U32
            && |String(r.value)| <= |input| - |r.rest|
  {
    VarIntShortest(input);
  }

  lemma StringExtends(input: Bytes, more: Bytes)
    requires ReadString(input).Got?
    ensures ReadString(input + more) == Got(ReadString(input).value, ReadString(input).rest + more)
  {
    hide ReadVarInt;
    VarIntExtends(input, more);
    var Got(length, rest) := ReadVarInt(input);
    assert (rest + more)[..length] == rest[..length] && (rest + more)[length..] == rest[length..] + more;
  }

  lemma ReadU64Extends(input: Bytes, more: Bytes)
    requires ReadU64(input).Got?
    ensures ReadU64(input + more) == Got(ReadU64(input).value, ReadU64(input).rest + more)
  {
    SameUnsigned(input + more, input, 0, 8);
    assert (input + more)[8..] == input[8..] + more;
  }
}
