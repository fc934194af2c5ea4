/** An abstract two-wire bus with one MLX90642 on it, standing in for the
    Arduino `Wire` transport. The sensor is a sparse map from word addresses
    to words plus the register pointer that an address write latches. Every
    transaction is appended to a log, write transactions with their bytes.
    Faults are injected by transaction number (the position the transaction
    takes in the log): a write in `nacks` is not acknowledged, a read in
    `shorts` delivers fewer than the two bytes asked for, and an EEPROM write
    in `uncommitted` is acknowledged but never stored. */
module TwoWire {
  import opened Words
  import opened Registers

  /** The status `endTransmission` reports when the device does not
      acknowledge (any non-zero status is a failure to the driver). */
  const NACK: nat := 2

  /** One bus transaction: a write of some bytes, ended with or without a
      stop condition, and the status it ended with; or a read request and
      the number of bytes that came back. */
  datatype Txn =
    | Write(device: nat, bytes: seq<Byte>, stop: bool, status: nat)
    | Read(device: nat, quantity: nat, delivered: nat)

  /** How the sensor decodes the bytes of an EEPROM write command. */
  function ParseCommand(bytes: seq<Byte>): Option<(Word, Word)> {
    if |bytes| == 6 && bytes[0] == EEPROM_OPCODE && bytes[1] == EEPROM_SUBOPCODE
    then Some((Pack(bytes[2], bytes[3]), Pack(bytes[4], bytes[5])))
    else None
  }

  /** The sensor decodes the driver's command into the address and value
      it was built from, and no other bytes decode to that write. */
  lemma CommandRoundTrip(bytes: seq<Byte>, addr: Word, val: Word)
    ensures ParseCommand(bytes) == Some((addr, val)) <==> bytes == EepromCommand(addr, val)
  {
    if ParseCommand(bytes) == Some((addr, val)) {
      PackSplit(addr);
      PackSplit(val);
      assert bytes == EepromCommand(addr, val);
    }
  }

  datatype Bus = Bus(
    mem: map<Word, Word>,
    pointer: Word,
    log: seq<Txn>,
    nacks: set<nat>,
    shorts: set<nat>,
    uncommitted: set<nat>)
  {
    /** The word stored at an address; an address never written reads 0. */
    function WordAt(a: Word): Word {
      if a in mem then mem[a] else 0
    }

    /** No fault is injected into transactions from..from+count-1. */
    predicate Healthy(from: nat, count: nat) {
      forall j :: from <= j < from + count ==> j !in nacks && j !in shorts && j !in uncommitted
    }

    /** A write transaction (`beginTransmission`, `write` of each byte,
        `endTransmission(stop)`), returning the new bus and the status.
        An acknowledged two-byte write latches the register pointer; an
        acknowledged EEPROM command stores its value unless the fault
        schedule drops it; anything else leaves the sensor as it was. */
    function Transmit(device: nat, bytes: seq<Byte>, stop: bool): (r: (Bus, nat))
      ensures r.0.log == log + [Write(device, bytes, stop, r.1)]
      ensures r.1 == 0 <==> device == SENSOR_ADDR && |log| !in nacks
      ensures r.0.nacks == nacks && r.0.shorts == shorts && r.0.uncommitted == uncommitted
      ensures r.1 != 0 ==> r.0.mem == mem && r.0.pointer == pointer
      ensures r.1 == 0 && |bytes| == 2 ==> r.0.mem == mem && r.0.pointer == Pack(bytes[0], bytes[1])
    {
      var ok := device == SENSOR_ADDR && |log| !in nacks;
      var status := if ok then 0 else NACK;
      var logged := this.(log := log + [Write(device, bytes, stop, status)]);
      if !ok then (logged, status)
      else if |bytes| == 2 then (logged.(pointer := Pack(bytes[0], bytes[1])), status)
      else match ParseCommand(bytes)
        case Some((a, v)) =>
          (if |log| in uncommitted then logged else logged.(mem := mem[a := v]), status)
        case None => (logged, status)
    }

    /** A read request (`requestFrom(device, quantity)`), returning the new
        bus and the bytes made available: the word at the register pointer,
        most significant byte first, cut short when the schedule says so. */
    function Request(device: nat, quantity: nat): (r: (Bus, seq<Byte>))
      ensures |r.1| <= quantity && |r.1| <= 2
      ensures |r.1| == 2 <==> device == SENSOR_ADDR && quantity >= 2 && |log| !in shorts
      ensures |r.1| == 2 ==> Pack(r.1[0], r.1[1]) == WordAt(pointer)
      ensures r.0 == this.(log := log + [Read(device, quantity, |r.1|)])
    {
      var w := WordAt(pointer);
      var limit := if device != SENSOR_ADDR then 0 else if |log| in shorts then 1 else 2;
      var n := if quantity < limit then quantity else limit;
      var reply := [Hi(w), Lo(w)][..n];
      PackSplit(w);
      (this.(log := log + [Read(device, quantity, n)]), reply)
    }
  }

  /** On a fault-free transaction the sensor acknowledges the driver's
      EEPROM command and stores exactly its value at exactly its address. */
  lemma CommandStores(b: Bus, addr: Word, val: Word)
    requires b.Healthy(|b.log|, 1)
    ensures var r := b.Transmit(SENSOR_ADDR, EepromCommand(addr, val), true);
      r.1 == 0 && r.0.mem == b.mem[addr := val] && r.0.pointer == b.pointer
  {
    CommandRoundTrip(EepromCommand(addr, val), addr, val);
  }
}
