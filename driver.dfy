/** The MLX90642 driver object: register reads and the EEPROM write built
    step by step on the bus, and on them frame-ready detection, the raw
    frame and sensor-temperature reads and the refresh-rate update. */
module Driver {
  import opened Words
  import opened Registers
  import opened TwoWire
  import opened Protocol

  class Mlx90642 {
    /** The bus the sensor sits on. In C++ this is the global `Wire`
        object, shared by every driver object; here each object holds its
        own copy. */
    var bus: Bus

    /** The progress reading seen by the previous IsNewDataAvailable call.
        In C++ this is a function-local static, shared by every driver
        object; here it belongs to the one object modelled. */
    var lastProgress: Word

    constructor (bus: Bus)
      ensures this.bus == bus && lastProgress == 0
    {
      this.bus := bus;
      lastProgress := 0;
    }

    /** `isNewDataAvailable`: one read of the progress counter; reports a
        new frame when the counter has wrapped below the previous reading,
        and keeps the reading for the next call whatever happened. */
    method IsNewDataAvailable() returns (newFrame: bool)
      modifies this
      ensures var progress := ReadValue(old(bus), PROGRESS_ADDR);
        newFrame == (progress < old(lastProgress)) && lastProgress == progress
      ensures bus == ReadEffect(old(bus), PROGRESS_ADDR)
    {
      var progress := ReadUnsigned(PROGRESS_ADDR);
      newFrame := progress < lastProgress;
      lastProgress := progress;
    }

    /** `readAddr_unsigned`: send the address MSB first without a stop,
        request two bytes and pack them MSB first; the sentinel when the
        address is not acknowledged or fewer than two bytes come back. */
    method ReadUnsigned(addr: Word) returns (w: Word)
      modifies this`bus
      ensures w == ReadValue(old(bus), addr)
      ensures bus == ReadEffect(old(bus), addr)
    {
      AddressPhase(bus, addr);
      var sent := bus.Transmit(SENSOR_ADDR, [Hi(addr), Lo(addr)], false);
      if sent.1 == 0 {
        DataPhase(bus, addr);
      }
      bus := sent.0;
      if sent.1 != 0 {
        return SENTINEL;
      }
      var received := bus.Request(SENSOR_ADDR, 2);
      bus := received.0;
      var reply := received.1;
      if |reply| < 2 {
        return SENTINEL;
      }
      var hi, lo := reply[0], reply[1];
      w := Pack(hi, lo);
    }

    /** `readAddr_signed`: the same exchange, the same 16 bits read as two's
        complement; the sentinel's bit pattern, -1, on failure. */
    method ReadSigned(addr: Word) returns (v: Int16)
      modifies this`bus
      ensures v == ToSigned(ReadValue(old(bus), addr))
      ensures bus == ReadEffect(old(bus), addr)
    {
      AddressPhase(bus, addr);
      var sent := bus.Transmit(SENSOR_ADDR, [Hi(addr), Lo(addr)], false);
      if sent.1 == 0 {
        DataPhase(bus, addr);
      }
      bus := sent.0;
      if sent.1 != 0 {
        return ToSigned(SENTINEL);
      }
      var received := bus.Request(SENSOR_ADDR, 2);
      bus := received.0;
      var reply := received.1;
      if |reply| < 2 {
        return ToSigned(SENTINEL);
      }
      var hi, lo := reply[0], reply[1];
      v := ToSigned(Pack(hi, lo));
    }

    /** `readTa`, without the division by 100: the raw signed sensor
        temperature register. */
    method ReadTa() returns (raw: Int16)
      modifies this`bus
      ensures raw == ToSigned(ReadValue(old(bus), TA_ADDR))
      ensures bus == ReadEffect(old(bus), TA_ADDR)
    {
      raw := ReadSigned(TA_ADDR);
    }

    /** `readTempC`, without the division by 50: entry i of the caller's
        array receives the signed read of pixel i, for i = 0, 1, ..., 767 in
        that order; entries past the frame are left alone. */
    method ReadTempC(tram: array<Int16>)
      requires tram.Length >= NUM_PIXELS
      modifies this`bus, tram
      ensures bus == FrameBus(old(bus), NUM_PIXELS)
      ensures forall i :: 0 <= i < NUM_PIXELS ==>
        tram[i] == ToSigned(FrameValues(old(bus), NUM_PIXELS)[i])
      ensures forall i :: NUM_PIXELS <= i < tram.Length ==> tram[i] == old(tram[i])
    {
      for i := 0 to NUM_PIXELS
        invariant bus == FrameBus(old(bus), i)
        invariant forall j :: 0 <= j < i ==> tram[j] == ToSigned(FrameValues(old(bus), i)[j])
        invariant forall j :: NUM_PIXELS <= j < tram.Length ==> tram[j] == old(tram[j])
      {
        var raw := ReadSigned(PixAddr(i));
        tram[i] := raw;
      }
    }

    /** `writeEEPROM`: one transaction carrying opcode, sub-opcode, address
        and value (each MSB first), ended with a stop; false exactly when
        the transaction is not acknowledged. The settling delay after it is
        not modelled. */
    method WriteEeprom(eepromAddr: Word, newValue: Word) returns (ok: bool)
      modifies this`bus
      ensures ok == WriteOk(old(bus))
      ensures bus == WriteEffect(old(bus), eepromAddr, newValue)
    {
      var command := EepromCommand(eepromAddr, newValue);
      CommandRoundTrip(command, eepromAddr, newValue);
      var sent := bus.Transmit(SENSOR_ADDR, command, true);
      bus := sent.0;
      if sent.1 != 0 {
        return false;
      }
      return true;
    }

    /** `setRefreshRate`: reject a code outside 2..5 before any bus access;
        read the configuration word, clear bits 0..2 and set the code,
        write it to EEPROM, re-read it and succeed only if its bits 0..2
        are the code. */
    method SetRefreshRate(rate: Byte) returns (ok: bool)
      modifies this`bus
      ensures (bus, ok) == RefreshOutcome(old(bus), rate)
    {
      if rate < 2 || rate > 5 {
        return false;
      }
      var ctrl := ReadUnsigned(CONFIG_ADDR);
      if ctrl == SENTINEL {
        return false;
      }
      ctrl := ClearRate(ctrl);
      ctrl := SetRate(ctrl, rate);
      var written := WriteEeprom(CONFIG_ADDR, ctrl);
      if !written {
        return false;
      }
      var ctrl2 := ReadUnsigned(CONFIG_ADDR);
      if ctrl2 == SENTINEL {
        return false;
      }
      return RateBits(ctrl2) == rate;
    }
  }

  /** Successive `isNewDataAvailable` calls on one driver, as a polling
      loop makes them, with the sensor setting its progress counter to
      `progress[i]` before call i: the reports are those Wraps gives for the
      readings returned, starting from the stored reading, and on a
      fault-free bus they are those Wraps gives for the counter values. */
  method PollNewData(d: Mlx90642, progress: seq<Word>) returns (reports: seq<bool>)
    modifies d
    ensures d.bus == PollBus(old(d.bus), progress)
    ensures reports == Wraps(old(d.lastProgress), PollReadings(old(d.bus), progress))
    ensures d.lastProgress ==
      if progress == [] then old(d.lastProgress) else PollReadings(old(d.bus), progress)[|progress| - 1]
    ensures old(d.bus).Healthy(|old(d.bus).log|, 2 * |progress|) ==>
      reports == Wraps(old(d.lastProgress), progress)
  {
    ghost var b0, last0 := d.bus, d.lastProgress;
    reports := [];
    for i := 0 to |progress|
      invariant d.bus == PollBus(b0, progress[..i])
      invariant reports == Wraps(last0, PollReadings(b0, progress[..i]))
      invariant d.lastProgress == if i == 0 then last0 else PollReadings(b0, progress[..i])[i - 1]
    {
      d.bus := Advance(d.bus, progress[i]);
      ghost var polled := d.bus;
      var newFrame := d.IsNewDataAvailable();
      assert progress[..i + 1][..i] == progress[..i];
      ghost var seen := PollReadings(b0, progress[..i]);
      assert PollReadings(b0, progress[..i + 1]) == seen + [ReadValue(polled, PROGRESS_ADDR)];
      WrapsSnoc(last0, seen, ReadValue(polled, PROGRESS_ADDR));
      reports := reports + [newFrame];
    }
    assert progress[..|progress|] == progress;
    if b0.Healthy(|b0.log|, 2 * |progress|) {
      PollHealthy(b0, progress);
    }
  }
}
