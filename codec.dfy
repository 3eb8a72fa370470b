/**
 * The byte-level part of the Optris CT protocol: opcodes, the XOR checksum,
 * command frames and the decoders that turn fixed-length replies into values.
 * No I/O happens here.
 */
module Codec {
  import opened Wrappers
  import opened Bytes

  /** Devices on one line; valid device addresses run from 1 to this. */
  const NumberOfDevices: int := 4

  /** The first byte of every frame is this plus the (multi-)address, wrapping at 256. */
  const AddressBase: byte := 0xB0

  /** `decimal.MinValue`, the "no temperature" sentinel. */
  const DecimalMinValue: real := -79228162514264337593543950335.0

  /** The implemented opcodes with their wire codes. */
  datatype Command =
    | Unknown
    | ReadTemperature
    | ReadTemperatureLineMode
    | ReadSerialNumber
    | ReadFwVersion
    | ReadEmissivity
    | SetEmissivity
  {
    function Code(): byte {
      match this
      case Unknown => 0x00
      case ReadTemperature => 0x01
      case ReadTemperatureLineMode => 0x2E
      case ReadSerialNumber => 0x0E
      case ReadFwVersion => 0x0F
      case ReadEmissivity => 0x04
      case SetEmissivity => 0x84
    }
  }

  /**
   * A byte counter that starts at 1, after i increments: i + 1, wrapping to 0
   * after 255. Dictionary keys taken from it are held as the byte's integer
   * value.
   */
  function ByteCounter(i: nat): (k: int)
    ensures 0 <= k < 256
    ensures i < 255 ==> k == i + 1
    ensures i == 255 ==> k == 0
  {
    (i + 1) % 256
  }

  /** No two commands share an opcode, so a code tells its command. */
  lemma CodesDistinct(a: Command, b: Command)
    ensures a.Code() == b.Code() <==> a == b
  {
  }

  // ---------------------------------------------------------------------------
  // Checksum

  /** XOR of all bytes, folded from the left; the empty sequence gives 0. */
  function XorFold(s: seq<byte>): byte
  {
    if s == [] then 0 else XorFold(s[..|s| - 1]) ^ s[|s| - 1]
  }

  /** The checksum loop: a byte accumulator XORed with each input byte in turn. */
  method CalculateChecksum(input: seq<byte>) returns (result: byte)
    ensures result == XorFold(input)
  {
    result := 0x0;
    if |input| == 0 {
      return;
    }
    for i := 0 to |input|
      invariant result == XorFold(input[..i])
    {
      assert input[..i + 1][..i] == input[..i];
      result := result ^ input[i];
    }
    assert input[..|input|] == input;
  }

  /** The checksum of a concatenation is the XOR of the two checksums. */
  lemma {:induction false} XorFoldAppend(a: seq<byte>, b: seq<byte>)
    ensures XorFold(a + b) == XorFold(a) ^ XorFold(b)
  {
    if b == [] {
      assert a + b == a;
    } else {
      var front := b[..|b| - 1];
      assert (a + b)[..|a + b| - 1] == a + front;
      assert (a + b)[|a + b| - 1] == b[|b| - 1];
      XorFoldAppend(a, front);
    }
  }

  /** The checksum ignores the order of the two halves. */
  lemma XorFoldSwap(a: seq<byte>, b: seq<byte>)
    ensures XorFold(a + b) == XorFold(b + a)
  {
    XorFoldAppend(a, b);
    XorFoldAppend(b, a);
  }

  /** Appending the checksum to its own input makes the whole sequence XOR to 0. */
  lemma XorFoldSealed(s: seq<byte>)
    ensures XorFold(s + [XorFold(s)]) == 0
  {
    XorFoldAppend(s, [XorFold(s)]);
    XorFoldSingle(XorFold(s));
  }

  // ---------------------------------------------------------------------------
  // Host byte order (a little-endian host for BitConverter)

  /** `List.Reverse` / `Enumerable.Reverse`. */
  function Reversed(s: seq<byte>): (r: seq<byte>)
    ensures |r| == |s|
  {
    if s == [] then [] else Reversed(s[1..]) + [s[0]]
  }

  /** The unsigned value of a big-endian byte pair. */
  function Raw16(high: byte, low: byte): (u: int)
    ensures 0 <= u < 0x1_0000
  {
    ByteAsInt(high);
    ByteAsInt(low);
    high as int * 256 + low as int
  }

  /** Two's-complement reading of a 16-bit pattern. */
  function Signed16(u: int): int
    requires 0 <= u < 0x1_0000
  {
    if u >= 0x8000 then u - 0x1_0000 else u
  }

  /** `(short)x` in C#: keep the low 16 bits, read them as signed. */
  function ToShort(x: int): (r: int)
    ensures -0x8000 <= r < 0x8000
    ensures (r - x) % 0x1_0000 == 0
  {
    Signed16(x % 0x1_0000)
  }

  /** A value that fits a short is kept by the cast. */
  lemma ShortKeeps(x: int)
    requires -0x8000 <= x < 0x8000
    ensures ToShort(x) == x
  {
  }

  /** `BitConverter.ToInt16(bytes, 0)` on a little-endian host. */
  function ToInt16(bytes: seq<byte>): int
    requires |bytes| >= 2
  {
    Signed16(Raw16(bytes[1], bytes[0]))
  }

  /** `BitConverter.ToInt32(bytes, 0)` on a little-endian host. */
  function ToInt32(bytes: seq<byte>): int
    requires |bytes| >= 4
  {
    var u := Raw16(bytes[1], bytes[0]) + 0x1_0000 * Raw16(bytes[3], bytes[2]);
    if u >= 0x8000_0000 then u - 0x1_0000_0000 else u
  }

  /** `BitConverter.GetBytes(short)` on a little-endian host: low byte first. */
  function Int16Bytes(v: int): seq<byte>
    requires -0x8000 <= v < 0x8000
  {
    var u := if v < 0 then v + 0x1_0000 else v;
    [LowByte(u), HighByte(u)]
  }

  /** The low byte of a 16-bit pattern. */
  function LowByte(u: int): byte
    requires 0 <= u < 0x1_0000
  {
    (u % 256) as byte
  }

  /** The high byte of a 16-bit pattern. */
  function HighByte(u: int): byte
    requires 0 <= u < 0x1_0000
  {
    (u / 256) as byte
  }

  /** GetBytes and ToInt16 are inverse. */
  lemma Int16BytesRoundTrip(v: int)
    requires -0x8000 <= v < 0x8000
    ensures |Int16Bytes(v)| == 2 && ToInt16(Int16Bytes(v)) == v
  {
    var u := if v < 0 then v + 0x1_0000 else v;
    IntAsByte(u % 256);
    IntAsByte(u / 256);
    assert LowByte(u) as int == u % 256 && HighByte(u) as int == u / 256;
  }

  // ---------------------------------------------------------------------------
  // Frames

  /** The largest address of a non-empty list (`Enumerable.Max`). */
  function Max(s: seq<byte>): (m: byte)
    requires |s| > 0
    ensures m in s
    ensures forall x :: x in s ==> x <= m
  {
    if |s| == 1 then s[0]
    else
      var rest := Max(s[1..]);
      assert forall x :: x in s ==> x == s[0] || x in s[1..];
      if s[0] >= rest then s[0] else rest
  }

  /** A read frame: the address byte, the opcode, then any suffix bytes. */
  function ReadFrame(multiAddress: byte, cmd: Command, suffix: seq<byte>): (f: seq<byte>)
    ensures |f| == 2 + |suffix| && f[0] - AddressBase == multiAddress && f[1] == cmd.Code() && f[2..] == suffix
  {
    [AddressBase + multiAddress, cmd.Code()] + suffix
  }

  /** The line-mode suffix: the largest configured address and the checksum of opcode and it. */
  function LineModeSuffix(addresses: seq<byte>): (r: seq<byte>)
    requires |addresses| > 0
    ensures |r| == 2 && r[0] in addresses && forall a :: a in addresses ==> a <= r[0]
    ensures r[1] == ReadTemperatureLineMode.Code() ^ r[0]
  {
    var last := Max(addresses);
    XorFoldPair(ReadTemperatureLineMode.Code(), last);
    [last, XorFold([ReadTemperatureLineMode.Code(), last])]
  }

  /**
   * A write frame: the address byte, the opcode, the value bytes reversed,
   * then the checksum of everything after the address byte.
   */
  function WriteFrame(multiAddress: byte, cmd: Command, value: seq<byte>): (f: seq<byte>)
    ensures |f| == 3 + |value| && f[0] - AddressBase == multiAddress && f[1] == cmd.Code()
    ensures f[2..2 + |value|] == Reversed(value)
  {
    var body := [AddressBase + multiAddress, cmd.Code()] + Reversed(value);
    body + [XorFold(body[1..])]
  }

  lemma XorFoldSingle(a: byte)
    ensures XorFold([a]) == a
  {
    assert [a][..0] == [];
  }

  lemma XorFoldPair(a: byte, b: byte)
    ensures XorFold([a, b]) == a ^ b
  {
    XorFoldSingle(a);
    assert [a, b][..1] == [a];
  }

  lemma XorFoldTriple(a: byte, b: byte, c: byte)
    ensures XorFold([a, b, c]) == a ^ b ^ c
  {
    assert [a, b, c][..2] == [a, b];
    XorFoldPair(a, b);
  }

  /**
   * The broadcast line-mode frame is [0xB0, 0x2E, m, 0x2E ^ m] with m the largest
   * configured address, and its bytes after the address byte XOR to zero.
   */
  lemma LineModeFrame(addresses: seq<byte>)
    requires |addresses| > 0
    ensures ReadFrame(0, ReadTemperatureLineMode, LineModeSuffix(addresses)) == [0xB0, 0x2E, Max(addresses), 0x2E ^ Max(addresses)]
    ensures XorFold(ReadFrame(0, ReadTemperatureLineMode, LineModeSuffix(addresses))[1..]) == 0
  {
    LineModeFrameShape(addresses);
    BroadcastTailSealed(ReadFrame(0, ReadTemperatureLineMode, LineModeSuffix(addresses)), Max(addresses));
  }

  lemma LineModeFrameShape(addresses: seq<byte>)
    requires |addresses| > 0
    ensures ReadFrame(0, ReadTemperatureLineMode, LineModeSuffix(addresses)) == [0xB0, 0x2E, Max(addresses), 0x2E ^ Max(addresses)]
  {
    LineModeSuffixValue(addresses);
  }

  lemma BroadcastTailSealed(f: seq<byte>, m: byte)
    requires f == [0xB0, 0x2E, m, 0x2E ^ m]
    ensures XorFold(f[1..]) == 0
  {
    assert f[1..] == [0x2E, m, 0x2E ^ m];
    PairSealed(0x2E, m);
  }

  lemma LineModeSuffixValue(addresses: seq<byte>)
    requires |addresses| > 0
    ensures LineModeSuffix(addresses) == [Max(addresses), 0x2E ^ Max(addresses)]
  {
    XorFoldPair(0x2E, Max(addresses));
  }

  lemma PairSealed(a: byte, b: byte)
    ensures XorFold([a, b, a ^ b]) == 0
  {
    XorFoldTriple(a, b, a ^ b);
    assert a ^ b ^ (a ^ b) == 0;
  }

  /** Every write frame carries a checksum that cancels the bytes after the address byte. */
  lemma WriteFrameSealed(multiAddress: byte, cmd: Command, value: seq<byte>)
    ensures var f := WriteFrame(multiAddress, cmd, value);
      |f| == 3 + |value| && f[0] - AddressBase == multiAddress && XorFold(f[1..]) == 0
  {
    var body := [AddressBase + multiAddress, cmd.Code()] + Reversed(value);
    assert WriteFrame(multiAddress, cmd, value)[1..] == body[1..] + [XorFold(body[1..])];
    XorFoldSealed(body[1..]);
  }

  /**
   * The emissivity frame for milli-units v: [0xB0+a, 0x84, hi, lo, 0x84 ^ hi ^ lo],
   * the value big-endian and the checksum over opcode and value only.
   */
  lemma EmissivityFrame(multiAddress: byte, milli: int)
    requires 0 <= milli < 0x8000
    ensures var hi := HighByte(milli);
      var lo := LowByte(milli);
      WriteFrame(multiAddress, SetEmissivity, Int16Bytes(milli)) == [AddressBase + multiAddress, 0x84, hi, lo, 0x84 ^ hi ^ lo]
  {
    WriteFrameOfPair(multiAddress, SetEmissivity, LowByte(milli), HighByte(milli));
  }

  /** A two-byte value goes out high byte first, followed by the checksum of opcode and value. */
  lemma WriteFrameOfPair(multiAddress: byte, cmd: Command, lo: byte, hi: byte)
    ensures WriteFrame(multiAddress, cmd, [lo, hi]) == [AddressBase + multiAddress, cmd.Code(), hi, lo, cmd.Code() ^ hi ^ lo]
  {
    var code := cmd.Code();
    var body: seq<byte> := [AddressBase + multiAddress, code, hi, lo];
    assert WriteFrame(multiAddress, cmd, [lo, hi]) == body + [XorFold(body[1..])] by {
      ReversedPair(lo, hi);
      assert [AddressBase + multiAddress, code] + [hi, lo] == body;
    }
    assert XorFold(body[1..]) == code ^ hi ^ lo by {
      assert body[1..] == [code, hi, lo];
      XorFoldTriple(code, hi, lo);
    }
    FrameOfBody(body, code ^ hi ^ lo);
  }

  lemma ReversedPair(a: byte, b: byte)
    ensures Reversed([a, b]) == [b, a]
  {
    assert [a, b][1..] == [b];
    assert [b][1..] == [];
  }

  lemma ReversedTriple(a: byte, b: byte, c: byte)
    ensures Reversed([a, b, c]) == [c, b, a]
  {
    assert [a, b, c][1..] == [b, c];
    ReversedPair(b, c);
  }

  lemma FrameOfBody(body: seq<byte>, c: byte)
    requires |body| == 4
    ensures body + [c] == [body[0], body[1], body[2], body[3], c]
  {
  }

  // ---------------------------------------------------------------------------
  // Decoders

  /**
   * Tenths of a degree with a -100 degree offset; any length other than two
   * gives the `decimal.MinValue` sentinel.
   */
  function ConvertToCelsius(data: seq<byte>): (t: real)
    ensures |data| != 2 ==> t == DecimalMinValue
    ensures |data| == 2 ==> 10.0 * t == (Raw16(data[0], data[1]) - 1000) as real
    ensures |data| == 2 ==> -100.0 <= t <= 6453.5
  {
    if |data| != 2 then DecimalMinValue
    else (Raw16(data[0], data[1]) - 1000) as real / 10.0
  }

  /** The worked example: 0x2710 is 10000 raw, hence 900.0 degrees. */
  lemma CelsiusExample()
    ensures ConvertToCelsius([0x27, 0x10]) == 900.0
    ensures ConvertToCelsius([0x03, 0xE8]) == 0.0
    ensures ConvertToCelsius([0x00, 0x00]) == -100.0
  {
  }

  /**
   * A ratio in milli-units (the float result is this value divided by 1000);
   * None stands for the `float.MinValue` sentinel of a wrong-length input.
   */
  function ConvertToFloat(data: seq<byte>): (r: Option<nat>)
    ensures r.Some? <==> |data| == 2
    ensures r.Some? ==> r.value < 0x1_0000 && r.value == Raw16(data[0], data[1])
  {
    if |data| != 2 then None else Some(Raw16(data[0], data[1]))
  }

  /** The echo of an emissivity write, read back as a ratio, gives the written value. */
  lemma RatioRoundTrip(milli: int)
    requires 0 <= milli < 0x8000
    ensures var bytes := Int16Bytes(milli);
      ConvertToFloat(Reversed(bytes)) == Some(milli)
  {
    var bytes := Int16Bytes(milli);
    ReversedPair(bytes[0], bytes[1]);
    assert Reversed(bytes) == [HighByte(milli), LowByte(milli)];
    IntAsByte(milli % 256);
    IntAsByte(milli / 256);
  }

  /**
   * Serial number: the three reply bytes reversed, a zero high byte appended,
   * read as Int32, is the 24-bit big-endian value of the reply.
   */
  lemma SerialNumberValue(reply: seq<byte>)
    requires |reply| == 3
    ensures |Reversed(reply) + [0]| == 4
    ensures ToInt32(Reversed(reply) + [0]) == reply[0] as int * 0x1_0000 + reply[1] as int * 0x100 + reply[2] as int
    ensures 0 <= ToInt32(Reversed(reply) + [0]) < 0x100_0000
  {
    assert reply == [reply[0], reply[1], reply[2]];
    ReversedTriple(reply[0], reply[1], reply[2]);
    var b := Reversed(reply) + [0];
    assert b == [reply[2], reply[1], reply[0], 0];
  }

  /** Firmware version: the two reply bytes reversed, read as Int16, is the signed big-endian value. */
  lemma FwVersionValue(reply: seq<byte>)
    requires |reply| == 2
    ensures |Reversed(reply)| == 2
    ensures ToInt16(Reversed(reply)) == Signed16(Raw16(reply[0], reply[1]))
    ensures -0x8000 <= ToInt16(Reversed(reply)) < 0x8000
  {
    assert Reversed(reply) == [reply[1], reply[0]];
  }
}
