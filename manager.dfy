/**
 * The Optris CT driver object. It keeps the port name, the address list (when
 * built from one), the multi-address frames are sent to and the reply buffer.
 * The serial line is replaced by a per-exchange arrival script and every frame
 * written to it is logged in the ghost field `sent`.
 */
module OptrisCT {
  import opened Wrappers
  import opened Bytes
  import opened Codec
  import opened Polling
  import opened Sampling
  import Single

  /** Why a constructor refuses to build a manager. */
  datatype ManagerError =
    | EmptyComPort
    | EmptyAddressList
    | InvalidAddress(address: byte)
    | CannotOpenPort

  /** A device address the driver accepts: 1 to 4. */
  predicate ValidAddress(a: byte)
  {
    1 <= a as int <= NumberOfDevices
  }

  /** The first address outside 1..4, the one the list constructor reports. */
  function FirstInvalid(list: seq<byte>): (r: Option<byte>)
    ensures r.None? <==> forall i :: 0 <= i < |list| ==> ValidAddress(list[i])
    ensures r.Some? ==> r.value in list && !ValidAddress(r.value)
  {
    if list == [] then None
    else if !ValidAddress(list[0]) then Some(list[0])
    else FirstInvalid(list[1..])
  }

  /**
   * The checks of the list constructor, in order: the port name, the list's
   * length, each address, and only then the open/close probe of the port.
   */
  function ListCheck(comPort: string, list: seq<byte>, portOpens: bool): (r: Option<ManagerError>)
    ensures r.None? <==> |comPort| > 0 && |list| > 0 && FirstInvalid(list).None? && portOpens
    ensures r == Some(EmptyComPort) <==> |comPort| == 0
    ensures r == Some(EmptyAddressList) <==> |comPort| > 0 && |list| == 0
    ensures r.Some? && r.value.InvalidAddress? ==> |comPort| > 0 && FirstInvalid(list) == Some(r.value.address)
  {
    if |comPort| == 0 then Some(EmptyComPort)
    else if |list| == 0 then Some(EmptyAddressList)
    else if FirstInvalid(list).Some? then Some(InvalidAddress(FirstInvalid(list).value))
    else if !portOpens then Some(CannotOpenPort)
    else None
  }

  /** The checks of the single-address constructor: port name, address, then the probe. */
  function AddressCheck(comPort: string, address: byte, portOpens: bool): (r: Option<ManagerError>)
    ensures r.None? <==> |comPort| > 0 && ValidAddress(address) && portOpens
    ensures r == Some(EmptyComPort) <==> |comPort| == 0
    ensures r == Some(InvalidAddress(address)) <==> |comPort| > 0 && !ValidAddress(address)
  {
    if |comPort| == 0 then Some(EmptyComPort)
    else if !ValidAddress(address) then Some(InvalidAddress(address))
    else if !portOpens then Some(CannotOpenPort)
    else None
  }

  /** A refused list is refused whatever the port would do: validation precedes any port I/O. */
  lemma ListCheckedBeforePort(comPort: string, list: seq<byte>)
    requires !(|comPort| > 0 && |list| > 0 && FirstInvalid(list).None?)
    ensures ListCheck(comPort, list, true) == ListCheck(comPort, list, false)
    ensures ListCheck(comPort, list, true).Some? && ListCheck(comPort, list, true) != Some(CannotOpenPort)
  {
  }

  /** A refused address is refused whatever the port would do. */
  lemma AddressCheckedBeforePort(comPort: string, address: byte)
    requires !(|comPort| > 0 && ValidAddress(address))
    ensures AddressCheck(comPort, address, true) == AddressCheck(comPort, address, false)
    ensures AddressCheck(comPort, address, true).Some? && AddressCheck(comPort, address, true) != Some(CannotOpenPort)
  {
  }

  /**
   * Accepting read-back emissivity: the raw value over 1000 in single
   * precision must not exceed the double 1.1. 1100 rounds to the float
   * 1.10000002, which does, so the largest accepted raw value is 1099.
   */
  predicate EmissivityAccepted(raw: nat)
  {
    raw < 1100
  }

  /**
   * Emissivity in milli-units: `value * 1000` is a float product, so it is
   * rounded to single precision before the cast truncates it to a short.
   */
  function Milli(value: real): (m: int)
    requires 0.0 <= value <= 1.1
    ensures 0 <= m <= 1100
    ensures m as real <= Single.Round(value * 1000.0) < m as real + 1.0
  {
    var x := value * 1000.0;
    Single.RoundNear(x);
    var t := Single.Round(x).Floor;
    ShortKeeps(t);
    ToShort(t)
  }

  /**
   * The floats 0.95f and 0.7f (exactly 0.949999988079071044921875 and
   * 0.699999988079071044921875) go out as 950 and 700: their products round
   * up to whole numbers before the truncation.
   */
  lemma MilliOfSingles()
    ensures Milli(0.949999988079071044921875) == 950
    ensures Milli(0.699999988079071044921875) == 700
  {
    assert Single.Pow2(9) == 512.0 && Single.Pow2(10) == 1024.0;
    assert Single.Pow2(-14) == 1.0 / 16384.0;
    var x := 949.999988079071044921875;
    assert Single.ExponentFrom(x, 10) == 9;
    assert x / (1.0 / 16384.0) == 15564799.8046875;
    assert Single.RoundHalfEven(15564799.8046875) == 15564800;
    assert Single.Round(x) == 950.0;
    var y := 699.999988079071044921875;
    assert Single.ExponentFrom(y, 10) == 9;
    assert y / (1.0 / 16384.0) == 11468799.8046875;
    assert Single.RoundHalfEven(11468799.8046875) == 11468800;
    assert Single.Round(y) == 700.0;
  }

  /** The largest float that passes the check `value <= 1.1`: 1.1 itself rounds up to 1.10000002384185791015625. */
  const LargestWritable: real := 1.099999904632568359375

  /** Every emissivity float the range check lets through reads back as accepted. */
  lemma EmissivityReadBack(value: real)
    requires 0.0 <= value <= LargestWritable
    ensures var m := Milli(value);
      EmissivityAccepted(m) && ConvertToFloat(Reversed(Int16Bytes(m))) == Some(m)
  {
    RatioRoundTrip(Milli(value));
  }

  class OptrisCtManager {
    /** The serial port's name; the port is opened and closed around each exchange. */
    const comPort: string
    /** The configured addresses; a manager built from one address has none (a null list). */
    const addressList: Option<seq<byte>>
    /** The address frames go to; 0 is the line-mode broadcast. */
    var multiAddress: byte
    /** The reply buffer the arrival callback appends to. */
    var readBytes: seq<byte>
    /** Every frame written to the line, in order. */
    ghost var sent: seq<seq<byte>>

    /** What the constructors establish and every operation keeps. */
    predicate Valid()
      reads this
    {
      && |comPort| > 0
      && (addressList.Some? ==> |addressList.value| > 0 && FirstInvalid(addressList.value).None?)
      && (multiAddress == 0 || ValidAddress(multiAddress))
    }

    constructor (comPort: string, addressList: Option<seq<byte>>, multiAddress: byte)
      ensures this.comPort == comPort && this.addressList == addressList
      ensures this.multiAddress == multiAddress && readBytes == [] && sent == []
    {
      this.comPort := comPort;
      this.addressList := addressList;
      this.multiAddress := multiAddress;
      readBytes := [];
      sent := [];
    }

    /**
     * The list constructor: after validation and the port probe, the list is
     * stored as given and the multi-address is left at 0.
     */
    static method FromAddressList(comPort: string, list: seq<byte>, portOpens: bool)
      returns (r: Result<OptrisCtManager, ManagerError>)
      ensures r.Failure? <==> ListCheck(comPort, list, portOpens).Some?
      ensures r.Failure? ==> r.error == ListCheck(comPort, list, portOpens).value
      ensures r.Success? ==>
        && fresh(r.value) && r.value.Valid()
        && r.value.comPort == comPort && r.value.addressList == Some(list)
        && r.value.multiAddress == 0 && r.value.readBytes == [] && r.value.sent == []
    {
      if |comPort| == 0 {
        return Failure(EmptyComPort);
      }
      if |list| < 1 {
        return Failure(EmptyAddressList);
      }
      var i := 0;
      while i < |list|
        invariant 0 <= i <= |list|
        invariant forall h :: 0 <= h < i ==> ValidAddress(list[h])
      {
        if !ValidAddress(list[i]) {
          FirstInvalidAt(list, i);
          return Failure(InvalidAddress(list[i]));
        }
        i := i + 1;
      }
      if !portOpens {
        return Failure(CannotOpenPort);
      }
      var stored: seq<byte> := [];
      for h := 0 to |list|
        invariant stored == list[..h]
      {
        stored := stored + [list[h]];
      }
      assert stored == list;
      var m := new OptrisCtManager(comPort, Some(stored), 0);
      return Success(m);
    }

    /** The single-address constructor: no list is kept. */
    static method FromAddress(comPort: string, address: byte, portOpens: bool)
      returns (r: Result<OptrisCtManager, ManagerError>)
      ensures r.Failure? <==> AddressCheck(comPort, address, portOpens).Some?
      ensures r.Failure? ==> r.error == AddressCheck(comPort, address, portOpens).value
      ensures r.Success? ==>
        && fresh(r.value) && r.value.Valid()
        && r.value.comPort == comPort && r.value.addressList == None
        && r.value.multiAddress == address && r.value.readBytes == [] && r.value.sent == []
    {
      if |comPort| == 0 {
        return Failure(EmptyComPort);
      }
      if !ValidAddress(address) {
        return Failure(InvalidAddress(address));
      }
      if !portOpens {
        return Failure(CannotOpenPort);
      }
      var m := new OptrisCtManager(comPort, None, address);
      return Success(m);
    }

    /**
     * Clears the buffer, writes `frame`, then checks the buffer before the
     * first sleep and after each of at most `waitTimeMs / WaitDelay` sleeps,
     * stopping when its length equals `byteCount`.
     */
    method Exchange(frame: seq<byte>, waitTimeMs: nat, byteCount: int, arrivals: Arrivals) returns (ok: bool)
      modifies this`readBytes, this`sent
      ensures sent == old(sent) + [frame]
      ensures readBytes == Reply(arrivals, byteCount, PollBudget(waitTimeMs))
      ensures ok <==> Succeeds(arrivals, byteCount, PollBudget(waitTimeMs))
    {
      readBytes := [];
      sent := sent + [frame];
      readBytes := readBytes + Tick(arrivals, 0);
      var budget := waitTimeMs / WaitDelay;
      var sleepCount := 0;
      while |readBytes| != byteCount && sleepCount < budget
        invariant 0 <= sleepCount <= budget
        invariant sent == old(sent) + [frame]
        invariant readBytes == Received(arrivals, sleepCount)
        invariant StopTick(arrivals, byteCount, budget, sleepCount) == StopTick(arrivals, byteCount, budget, 0)
        decreases budget - sleepCount
      {
        sleepCount := sleepCount + 1;
        readBytes := readBytes + Tick(arrivals, sleepCount);
      }
      ok := |readBytes| == byteCount;
    }

    /** Sends `[0xB0 + multiAddress, cmd] + suffix` and waits for `byteCount` reply bytes. */
    method ExecuteReadCommand(cmd: Command, waitTimeMs: nat, byteCount: int, suffix: seq<byte>, arrivals: Arrivals)
      returns (ok: bool)
      modifies this`readBytes, this`sent
      ensures sent == old(sent) + [ReadFrame(multiAddress, cmd, suffix)]
      ensures readBytes == Reply(arrivals, byteCount, PollBudget(waitTimeMs))
      ensures ok <==> Succeeds(arrivals, byteCount, PollBudget(waitTimeMs))
    {
      var toSend := [AddressBase + multiAddress, cmd.Code()];
      if |suffix| > 0 {
        toSend := toSend + suffix;
      }
      assert toSend == ReadFrame(multiAddress, cmd, suffix);
      ok := Exchange(toSend, waitTimeMs, byteCount, arrivals);
    }

    /** Sends the value bytes reversed after the opcode, then their checksum, and waits for the reply. */
    method ExecuteWriteCommand(cmd: Command, value: seq<byte>, waitTimeMs: nat, byteCount: int, arrivals: Arrivals)
      returns (ok: bool)
      modifies this`readBytes, this`sent
      ensures sent == old(sent) + [WriteFrame(multiAddress, cmd, value)]
      ensures readBytes == Reply(arrivals, byteCount, PollBudget(waitTimeMs))
      ensures ok <==> Succeeds(arrivals, byteCount, PollBudget(waitTimeMs))
    {
      var toSend := [AddressBase + multiAddress, cmd.Code()] + Reversed(value);
      var checksum := CalculateChecksum(toSend[1..]);
      toSend := toSend + [checksum];
      ok := Exchange(toSend, waitTimeMs, byteCount, arrivals);
    }

    /** The serial number: 0 when no 3-byte reply came, else the reply read big-endian. */
    method ReadSerialNumber(arrivals: Arrivals) returns (serial: int)
      modifies this`readBytes, this`sent
      ensures sent == old(sent) + [ReadFrame(multiAddress, Command.ReadSerialNumber, [])]
      ensures var reply := Reply(arrivals, 3, ReplyBudget);
        if |reply| == 3 then
          && serial == reply[0] as int * 0x1_0000 + reply[1] as int * 0x100 + reply[2] as int
          && readBytes == Reversed(reply) + [0]
        else serial == 0 && readBytes == reply
      ensures 0 <= serial < 0x100_0000
    {
      var ok := ExecuteReadCommand(Command.ReadSerialNumber, DefaultWaitMs, 3, [], arrivals);
      if !ok {
        return 0;
      }
      SerialNumberValue(readBytes);
      readBytes := Reversed(readBytes);
      readBytes := readBytes + [0];
      serial := ToInt32(readBytes);
    }

    /** The firmware version: 0 when no 2-byte reply came, else the reply as a signed 16-bit value. */
    method ReadFwVersion(arrivals: Arrivals) returns (version: int)
      modifies this`readBytes, this`sent
      ensures sent == old(sent) + [ReadFrame(multiAddress, Command.ReadFwVersion, [])]
      ensures var reply := Reply(arrivals, 2, ReplyBudget);
        if |reply| == 2 then
          version == Signed16(Raw16(reply[0], reply[1])) && readBytes == Reversed(reply)
        else version == 0 && readBytes == reply
      ensures -0x8000 <= version < 0x8000
    {
      var ok := ExecuteReadCommand(Command.ReadFwVersion, DefaultWaitMs, 2, [], arrivals);
      if !ok {
        return 0;
      }
      FwVersionValue(readBytes);
      readBytes := Reversed(readBytes);
      version := ToInt16(readBytes);
    }

    /**
     * The emissivity in milli-units, or None for the `float.MinValue` answer:
     * no 2-byte reply, or a value the range check refuses.
     */
    method ReadEmissivity(arrivals: Arrivals) returns (emissivity: Option<nat>)
      modifies this`readBytes, this`sent
      ensures sent == old(sent) + [ReadFrame(multiAddress, Command.ReadEmissivity, [])]
      ensures readBytes == Reply(arrivals, 2, ReplyBudget)
      ensures emissivity.Some? <==> |readBytes| == 2 && EmissivityAccepted(Raw16(readBytes[0], readBytes[1]))
      ensures emissivity.Some? ==> emissivity.value == Raw16(readBytes[0], readBytes[1]) < 1100
    {
      var ok := ExecuteReadCommand(Command.ReadEmissivity, DefaultWaitMs, 2, [], arrivals);
      var readValue := ConvertToFloat(readBytes);
      if !ok || readValue.None? || !EmissivityAccepted(readValue.value) {
        return None;
      }
      return readValue;
    }

    /**
     * Writes an emissivity given as the exact value of the float argument.
     * Out of [0, 1.1] nothing is sent; otherwise the milli-units go out high
     * byte first and the write succeeds iff the device echoes those two bytes.
     */
    method SetEmissivity(value: real, arrivals: Arrivals) returns (ok: bool)
      modifies this`readBytes, this`sent
      ensures !(0.0 <= value <= 1.1) ==> !ok && sent == old(sent) && readBytes == old(readBytes)
      ensures 0.0 <= value <= 1.1 ==>
        var m := Milli(value);
        var reply := Reply(arrivals, 2, ReplyBudget);
        && sent == old(sent) + [[AddressBase + multiAddress, 0x84, HighByte(m), LowByte(m), 0x84 ^ HighByte(m) ^ LowByte(m)]]
        && (ok <==> reply == [HighByte(m), LowByte(m)])
        && readBytes == (if |reply| == 2 then Reversed(reply) else reply)
    {
      if value < 0.0 || value > 1.1 {
        return false;
      }
      ok := WriteMilli(Milli(value), arrivals);
    }

    /** The part of SetEmissivity after the range check, on the milli-units. */
    method WriteMilli(m: int, arrivals: Arrivals) returns (ok: bool)
      requires 0 <= m <= 1100
      modifies this`readBytes, this`sent
      ensures var reply := Reply(arrivals, 2, ReplyBudget);
        && sent == old(sent) + [[AddressBase + multiAddress, 0x84, HighByte(m), LowByte(m), 0x84 ^ HighByte(m) ^ LowByte(m)]]
        && (ok <==> reply == [HighByte(m), LowByte(m)])
        && readBytes == (if |reply| == 2 then Reversed(reply) else reply)
    {
      var byteValue := Int16Bytes(m);
      EmissivityFrame(multiAddress, m);
      ghost var reply := Reply(arrivals, 2, ReplyBudget);
      var setResult := ExecuteWriteCommand(Command.SetEmissivity, byteValue, DefaultWaitMs, 2, arrivals);
      assert readBytes == reply && (setResult <==> |reply| == 2);
      EchoMatches(reply, m);
      if !setResult {
        return false;
      }
      readBytes := Reversed(readBytes);
      ok := readBytes == byteValue;
    }

    /**
     * Splits the buffer into two-byte chunks keyed by a byte counter from 1;
     * None when the counter wraps onto a key already stored (the source throws).
     */
    method SplitReadTemperatures() returns (temperatures: Option<map<int, real>>)
      ensures temperatures == ChunkTemperatures(readBytes)
    {
      var stored: map<int, real> := map[];
      var address: int := 1;  // a byte: the increment wraps at 256
      var n := |readBytes| / 2;
      for i := 0 to n
        invariant i <= 256
        invariant address == ByteCounter(i)
        invariant SplitSoFar(readBytes, stored, i)
      {
        if address in stored {
          // only the 257th chunk finds its key taken
          assert i == 256 by { ChunkKeyStep(i); }
          OverlongReplyRejected(readBytes);
          return None;
        }
        SplitStep(readBytes, stored, i);
        stored := stored[address := ConvertToCelsius(readBytes[2 * i..2 * i + 2])];
        address := (address + 1) % 256;
        ChunkKeyNext(i);
      }
      ChunkTemperaturesUnique(readBytes, stored);
      temperatures := Some(stored);
    }

    /**
     * One line-mode exchange: the broadcast frame whose suffix names the
     * largest listed address, expecting two bytes per listed address.
     */
    method RequestLineMode(list: seq<byte>, arrivals: Arrivals) returns (ok: bool)
      requires |list| > 0 && multiAddress == 0
      modifies this`readBytes, this`sent
      ensures sent == old(sent) + [LineModeRequest(list)]
      ensures readBytes == Reply(arrivals, ToShort(2 * |list|), ReplyBudget)
      ensures ok <==> |readBytes| == ToShort(2 * |list|)
    {
      var bytesToRead := ToShort(2 * |list|);
      var lastAddressIndex := Max(list);
      var checksum := CalculateChecksum([ReadTemperatureLineMode.Code(), lastAddressIndex]);
      var suffixBytes := [lastAddressIndex, checksum];
      ok := ExecuteReadCommand(ReadTemperatureLineMode, DefaultWaitMs, bytesToRead, suffixBytes, arrivals);
    }

    /**
     * One turn of the line-mode loop at stopwatch reading j and exchange k:
     * the request, and on a complete reply the split and the recording. It
     * reports the error that ends the loop, or where the loop goes on.
     */
    method LineModeTurn(list: seq<byte>, durationMs: int, clock: Clock, script: Script, j: nat, k: nat,
                        acc: map<int, seq<Sample>>)
      returns (failure: Option<MonitorError>, j': nat, acc': map<int, seq<Sample>>)
      requires Increasing(clock) && clock(j) < durationMs && |list| > 0 && multiAddress == 0
      modifies this`readBytes, this`sent
      ensures sent == old(sent) + [LineModeRequest(list)]
      ensures failure.Some? ==> |list| > 256
      ensures failure.Some? ==>
        LineModeRun(Some(list), durationMs, clock, script, j, k, acc, old(readBytes))
          == Session(Failure(failure.value), k + 1, readBytes)
      ensures failure.None? ==>
        && clock(j) < clock(j')
        && LineModeRun(Some(list), durationMs, clock, script, j, k, acc, old(readBytes))
          == LineModeRun(Some(list), durationMs, clock, script, j', k + 1, acc', readBytes)
    {
      var ok := RequestLineMode(list, script(k));
      if !ok {
        assert clock(j) < clock(j + 1);
        return None, j + 1, acc;
      }
      var timestamp := clock(j + 1);
      var allTemperatures := SplitReadTemperatures();
      if allTemperatures.None? {
        return Some(DuplicateAddressKey), j, acc;
      }
      ChunkValues(readBytes);
      acc' := RecordReading(acc, allTemperatures.value, |readBytes| / 2, timestamp);
      assert clock(j) < clock(j + 2);
      failure, j' := None, j + 2;
    }

    /**
     * Reads one temperature after another while the stopwatch is below
     * `durationMs`, each successful reading stored under the reading taken
     * right after it; readings come from `clock`, exchange k sees `script(k)`.
     */
    method MonitorTemperature(durationMs: int, clock: Clock, script: Script) returns (measurements: seq<Sample>)
      requires Increasing(clock)
      modifies this`readBytes, this`sent
      ensures var s := MonitorRun(durationMs, clock, script, 0, 0, [], old(readBytes));
        && measurements == s.result && readBytes == s.buffer
        && sent == old(sent) + Repeat(ReadFrame(multiAddress, ReadTemperature, []), s.exchanges)
      ensures Chronological(measurements) && InRange(measurements)
    {
      ghost var frame := ReadFrame(multiAddress, ReadTemperature, []);
      measurements := [];
      var j: nat := 0;
      var k: nat := 0;
      while clock(j) < durationMs
        invariant MonitorRun(durationMs, clock, script, j, k, measurements, readBytes)
          == MonitorRun(durationMs, clock, script, 0, 0, [], old(readBytes))
        invariant sent == old(sent) + Repeat(frame, k)
        decreases durationMs - clock(j)
      {
        var ok := ExecuteReadCommand(ReadTemperature, DefaultWaitMs, 2, [], script(k));
        k := k + 1;
        if ok {
          measurements := measurements + [Sample(clock(j + 1), ConvertToCelsius(readBytes))];
          assert clock(j) < clock(j + 2);
          j := j + 2;
        } else {
          assert clock(j) < clock(j + 1);
          j := j + 1;
        }
      }
      MonitorSeries(durationMs, clock, script, 0, 0, [], old(readBytes));
    }

    /**
     * Line mode: broadcasts to address 0, asks for two bytes per listed
     * address, and appends each chunk's temperature (plus a zero correction)
     * to its key's series under the reading taken right after the reply.
     */
    method MonitorTemperatureLineMode(durationMs: int, clock: Clock, script: Script)
      returns (measurements: Result<map<int, seq<Sample>>, MonitorError>)
      requires Increasing(clock) && Valid()
      modifies this`readBytes, this`sent, this`multiAddress
      ensures multiAddress == 0 && Valid()
      ensures var s := LineModeRun(addressList, durationMs, clock, script, 0, 0, map[], old(readBytes));
        && measurements == s.result && readBytes == s.buffer
        && sent == old(sent) + (if addressList.Some? then Repeat(LineModeRequest(addressList.value), s.exchanges) else [])
      ensures addressList.Some? && |addressList.value| <= 255 ==>
        && measurements.Success?
        && (measurements.value == map[] || measurements.value.Keys == ChunkKeys(|addressList.value|))
        && SameTimes(measurements.value)
        && forall a :: a in measurements.value ==> Chronological(measurements.value[a]) && InRange(measurements.value[a])
    {
      multiAddress := 0;
      if addressList.None? {
        // the first turn of the loop dereferences the missing list
        NullListFails(durationMs, clock, script, 0, 0, map[], readBytes);
        measurements := if clock(0) < durationMs then Failure(NullAddressList) else Success(map[]);
        return;
      }
      var list := addressList.value;
      var result := LineModeLoop(list, durationMs, clock, script);
      measurements := result;
      if |list| <= 255 {
        LineModeAligned(list, durationMs, clock, script, 0, 0, map[], old(readBytes));
      }
    }

    /** The monitoring loop of line mode over a list of addresses: it runs as LineModeRun says. */
    method LineModeLoop(list: seq<byte>, durationMs: int, clock: Clock, script: Script)
      returns (measurements: Result<map<int, seq<Sample>>, MonitorError>)
      requires Increasing(clock) && |list| > 0 && multiAddress == 0
      modifies this`readBytes, this`sent
      ensures var s := LineModeRun(Some(list), durationMs, clock, script, 0, 0, map[], old(readBytes));
        && measurements == s.result && readBytes == s.buffer
        && sent == old(sent) + Repeat(LineModeRequest(list), s.exchanges)
    {
      ghost var frame := LineModeRequest(list);
      var result: map<int, seq<Sample>> := map[];
      var j: nat := 0;
      var k: nat := 0;
      while clock(j) < durationMs
        invariant LineModeRun(Some(list), durationMs, clock, script, j, k, result, readBytes)
          == LineModeRun(Some(list), durationMs, clock, script, 0, 0, map[], old(readBytes))
        invariant sent == old(sent) + Repeat(frame, k)
        decreases durationMs - clock(j)
      {
        var failure, j', result' := LineModeTurn(list, durationMs, clock, script, j, k, result);
        k := k + 1;
        if failure.Some? {
          return Failure(failure.value);
        }
        j, result := j', result';
      }
      measurements := Success(result);
    }
  }

  /**
   * The foreach over one reading, in the dictionary's insertion order (chunk
   * 0 first): each key's series is created when missing, then gains the
   * reading's value plus the zero correction at `timestamp`.
   */
  method RecordReading(acc: map<int, seq<Sample>>, temps: map<int, real>, chunks: nat, timestamp: int)
    returns (r: map<int, seq<Sample>>)
    requires chunks <= 256 && temps.Keys == ChunkKeys(chunks)
    ensures r == Record(acc, temps, timestamp)
  {
    r := acc;
    assert r == RecordKeys(acc, temps, timestamp, ChunkKeys(0)) by {
      assert ChunkKeys(0) == {};
      RecordKeysNone(acc, temps, timestamp);
    }
    for i := 0 to chunks
      invariant ChunkKeys(i) <= temps.Keys
      invariant r == RecordKeys(acc, temps, timestamp, ChunkKeys(i))
    {
      var address := ByteCounter(i);
      ChunkKeyStep(i);
      ChunkKeysGrow(i + 1, chunks);
      // a missing key first gets an empty series
      var series := if address in r then r[address] else [];
      // the correction added to every value is the constant 0 (OptrisCtManager.cs:286)
      var sample := Sample(timestamp, temps[address] + 0.0);
      assert RecordKeys(acc, temps, timestamp, ChunkKeys(i + 1)) == r[address := series + [sample]] by {
        RecordKeysStep(acc, temps, timestamp, ChunkKeys(i), address);
        assert sample == Sample(timestamp, temps[address]);
      }
      r := r[address := series + [sample]];
    }
  }

  /** A two-byte echo reversed equals the little-endian value iff it is the value high byte first. */
  lemma EchoMatches(reply: seq<byte>, m: int)
    requires 0 <= m < 0x8000
    ensures |reply| == 2 && Reversed(reply) == Int16Bytes(m) <==> reply == [HighByte(m), LowByte(m)]
  {
    if |reply| == 2 {
      ReversedPair(reply[0], reply[1]);
      assert reply == [reply[0], reply[1]];
    }
  }

  /** The reported address is the one at the first invalid position. */
  lemma {:induction false} FirstInvalidAt(list: seq<byte>, i: nat)
    requires i < |list| && !ValidAddress(list[i])
    requires forall h :: 0 <= h < i ==> ValidAddress(list[h])
    ensures FirstInvalid(list) == Some(list[i])
  {
    if i > 0 {
      FirstInvalidAt(list[1..], i - 1);
    }
  }
}
