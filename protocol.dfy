/** What each driver operation does, stated at the level of the sensor's
    registers and the bus log rather than of individual bytes. The driver's
    methods are proved to do exactly this; the lemmas here state what the
    driver promises about it. */
module Protocol {
  import opened Words
  import opened Registers
  import opened TwoWire

  // ---------------------------------------------------------------------
  // Register reads (`readAddr_unsigned`, `readAddr_signed`)

  /** A register read fails when the address write is not acknowledged or
      the reply that follows it is short. */
  predicate ReadFails(b: Bus) {
    |b.log| in b.nacks || |b.log| + 1 in b.shorts
  }

  /** The word a register read returns: the stored word, or the sentinel
      on failure. */
  function ReadValue(b: Bus, addr: Word): (w: Word)
    ensures ReadFails(b) ==> w == SENTINEL
    ensures !ReadFails(b) ==> w == b.WordAt(addr)
  {
    if ReadFails(b) then SENTINEL else b.WordAt(addr)
  }

  /** The bus after a register read: the address is written MSB first
      without a stop; only if that is acknowledged does a 2-byte request
      follow. The sensor's memory and the fault schedule are untouched. */
  function ReadEffect(b: Bus, addr: Word): (r: Bus)
    ensures r.mem == b.mem && r.nacks == b.nacks && r.shorts == b.shorts
    ensures r.uncommitted == b.uncommitted
    ensures |r.log| == |b.log| + (if |b.log| in b.nacks then 1 else 2)
  {
    var k := |b.log|;
    if k in b.nacks then
      b.(log := b.log + [Write(SENSOR_ADDR, [Hi(addr), Lo(addr)], false, NACK)])
    else
      b.(pointer := addr,
         log := b.log + [Write(SENSOR_ADDR, [Hi(addr), Lo(addr)], false, 0),
                         Read(SENSOR_ADDR, 2, if k + 1 in b.shorts then 1 else 2)])
  }

  /** The address phase of a register read: the address bytes, MSB first
      and without a stop. When they are not acknowledged, the bus is left
      as a failed register read leaves it; when they are, the sensor has
      latched the very address that was split into those bytes. */
  lemma AddressPhase(b: Bus, addr: Word)
    ensures var s := b.Transmit(SENSOR_ADDR, [Hi(addr), Lo(addr)], false);
      (s.1 == 0 <==> |b.log| !in b.nacks) &&
      (s.1 != 0 ==> s.0 == ReadEffect(b, addr)) &&
      (s.1 == 0 ==> s.0 == b.(pointer := addr, log := b.log + [Write(SENSOR_ADDR, [Hi(addr), Lo(addr)], false, 0)]))
  {
    PackSplit(addr);
  }

  /** The data phase of a register read, once the address is latched: the
      reply falls short exactly when the read fails, the bus is left as the
      register read leaves it, and the two reply bytes packed MSB first are
      the word stored at the address. */
  lemma DataPhase(b: Bus, addr: Word)
    requires |b.log| !in b.nacks
    ensures var latched := b.(pointer := addr, log := b.log + [Write(SENSOR_ADDR, [Hi(addr), Lo(addr)], false, 0)]);
      var q := latched.Request(SENSOR_ADDR, 2);
      q.0 == ReadEffect(b, addr) &&
      (|q.1| < 2 <==> ReadFails(b)) &&
      (|q.1| >= 2 ==> Pack(q.1[0], q.1[1]) == ReadValue(b, addr))
  {
    var latched := b.(pointer := addr, log := b.log + [Write(SENSOR_ADDR, [Hi(addr), Lo(addr)], false, 0)]);
    assert latched.WordAt(latched.pointer) == b.WordAt(addr);
    assert |latched.log| == |b.log| + 1;
    var q := latched.Request(SENSOR_ADDR, 2);
    assert q.0.log == b.log + [Write(SENSOR_ADDR, [Hi(addr), Lo(addr)], false, 0), Read(SENSOR_ADDR, 2, |q.1|)];
  }

  // ---------------------------------------------------------------------
  // EEPROM write (`writeEEPROM`)

  /** The EEPROM write reports success exactly when it is acknowledged. */
  function WriteOk(b: Bus): (ok: bool)
    ensures forall bytes: seq<Byte> :: ok <==> b.Transmit(SENSOR_ADDR, bytes, true).1 == 0
  {
    |b.log| !in b.nacks
  }

  /** The bus after an EEPROM write: one transaction carrying the six-byte
      command, ended with a stop; the value is stored if the transaction is
      acknowledged and the sensor commits it. */
  function WriteEffect(b: Bus, addr: Word, val: Word): (r: Bus)
    ensures r.nacks == b.nacks && r.shorts == b.shorts && r.uncommitted == b.uncommitted
    ensures r.pointer == b.pointer && |r.log| == |b.log| + 1
  {
    var k := |b.log|;
    b.(mem := if WriteOk(b) && k !in b.uncommitted then b.mem[addr := val] else b.mem,
       log := b.log + [Write(SENSOR_ADDR, EepromCommand(addr, val), true, if WriteOk(b) then 0 else NACK)])
  }

  // ---------------------------------------------------------------------
  // Refresh rate (`setRefreshRate`)

  /** The bus after `setRefreshRate(rate)` and its result: validate the
      code, read the configuration word, write it back with bits 0..2
      replaced by the code, re-read it and compare its bits 0..2 with the
      code; stop with false at the first failure. */
  function RefreshOutcome(b: Bus, rate: Byte): (r: (Bus, bool))
    ensures r.0.nacks == b.nacks && r.0.shorts == b.shorts && r.0.uncommitted == b.uncommitted
  {
    if !ValidRate(rate) then (b, false)
    else
      var ctrl := ReadValue(b, CONFIG_ADDR);
      var b1 := ReadEffect(b, CONFIG_ADDR);
      if ctrl == SENTINEL then (b1, false)
      else
        var b2 := WriteEffect(b1, CONFIG_ADDR, WithRate(ctrl, rate));
        if !WriteOk(b1) then (b2, false)
        else
          var ctrl2 := ReadValue(b2, CONFIG_ADDR);
          (ReadEffect(b2, CONFIG_ADDR), ctrl2 != SENTINEL && RateBits(ctrl2) == rate)
  }

  /** What a refresh-rate update does to the sensor, whatever faults occur:
      an invalid code touches nothing; a failed first read writes nothing;
      only the configuration word can change, and only to the old word with
      the new code. */
  lemma RefreshGuarantees(b: Bus, rate: Byte)
    ensures var r := RefreshOutcome(b, rate);
      !ValidRate(rate) ==> r == (b, false)
    ensures var r := RefreshOutcome(b, rate);
      ValidRate(rate) && ReadValue(b, CONFIG_ADDR) == SENTINEL ==> r == (ReadEffect(b, CONFIG_ADDR), false)
    ensures var r := RefreshOutcome(b, rate);
      r.0.mem == b.mem ||
      (ValidRate(rate) && r.0.mem == b.mem[CONFIG_ADDR := WithRate(b.WordAt(CONFIG_ADDR), rate)])
  {
    if ValidRate(rate) && ReadValue(b, CONFIG_ADDR) != SENTINEL {
      assert ReadValue(b, CONFIG_ADDR) == b.WordAt(CONFIG_ADDR);
    }
  }

  /** Success means the code was valid, the first read and the write went
      through, and the stored word now carries the code in bits 0..2 and
      the old word's bits 3..15. */
  lemma RefreshSuccess(b: Bus, rate: Byte)
    ensures var r := RefreshOutcome(b, rate);
      r.1 ==> ValidRate(rate) && ReadValue(b, CONFIG_ADDR) != SENTINEL && WriteOk(ReadEffect(b, CONFIG_ADDR))
    ensures var r := RefreshOutcome(b, rate);
      r.1 ==> RateBits(r.0.WordAt(CONFIG_ADDR)) == rate && r.0.WordAt(CONFIG_ADDR) / 8 == b.WordAt(CONFIG_ADDR) / 8
  {
    var r := RefreshOutcome(b, rate);
    if r.1 {
      var ctrl := ReadValue(b, CONFIG_ADDR);
      assert ctrl == b.WordAt(CONFIG_ADDR);
      var b2 := WriteEffect(ReadEffect(b, CONFIG_ADDR), CONFIG_ADDR, WithRate(ctrl, rate));
      assert r.0.WordAt(CONFIG_ADDR) == b2.WordAt(CONFIG_ADDR) == ReadValue(b2, CONFIG_ADDR);
    }
  }

  /** On a fault-free bus with a readable configuration word, the update
      succeeds, stores the merged word and uses five transactions. */
  lemma RefreshHealthy(b: Bus, rate: Byte)
    requires ValidRate(rate) && b.Healthy(|b.log|, 5)
    requires b.WordAt(CONFIG_ADDR) != SENTINEL
    ensures var r := RefreshOutcome(b, rate);
      r.1 && r.0.mem == b.mem[CONFIG_ADDR := WithRate(b.WordAt(CONFIG_ADDR), rate)] &&
      |r.0.log| == |b.log| + 5
  {
    var c := b.WordAt(CONFIG_ADDR);
    var merged := WithRate(c, rate);
    WithRateNotSentinel(c, rate);
    var k := |b.log|;
    assert k !in b.nacks && k + 1 !in b.shorts;
    var b1 := ReadEffect(b, CONFIG_ADDR);
    assert ReadValue(b, CONFIG_ADDR) == c && |b1.log| == k + 2;
    assert k + 2 !in b1.nacks && k + 2 !in b1.uncommitted;
    var b2 := WriteEffect(b1, CONFIG_ADDR, merged);
    assert b2.mem == b.mem[CONFIG_ADDR := merged] && |b2.log| == k + 3;
    assert k + 3 !in b2.nacks && k + 4 !in b2.shorts;
    assert ReadValue(b2, CONFIG_ADDR) == merged;
  }

  /** A configuration word that really is 0xFFFF cannot be told from a
      failed read: the update gives up after the first read, with no write,
      even on a bus with no faults. */
  lemma RefreshStoredSentinel(b: Bus, rate: Byte)
    requires ValidRate(rate) && b.WordAt(CONFIG_ADDR) == SENTINEL
    ensures RefreshOutcome(b, rate) == (ReadEffect(b, CONFIG_ADDR), false)
  {
  }

  /** A verification read that is not acknowledged makes the update fail,
      although the write itself went through. */
  lemma RefreshRereadFails(b: Bus, rate: Byte)
    requires ValidRate(rate) && b.Healthy(|b.log|, 3) && |b.log| + 3 in b.nacks
    requires b.WordAt(CONFIG_ADDR) != SENTINEL
    ensures var r := RefreshOutcome(b, rate);
      !r.1 && r.0.mem == b.mem[CONFIG_ADDR := WithRate(b.WordAt(CONFIG_ADDR), rate)]
  {
  }

  /** Once the first read and the write have gone through, the result is
      the comparison of the re-read's rate bits with the code alone: the
      sentinel test on the re-read never turns a confirmation into a
      failure. */
  lemma RefreshConfirms(b: Bus, rate: Byte)
    requires ValidRate(rate) && ReadValue(b, CONFIG_ADDR) != SENTINEL
    requires WriteOk(ReadEffect(b, CONFIG_ADDR))
    ensures var b1 := ReadEffect(b, CONFIG_ADDR);
      var b2 := WriteEffect(b1, CONFIG_ADDR, WithRate(ReadValue(b, CONFIG_ADDR), rate));
      RefreshOutcome(b, rate).1 <==> RateBits(ReadValue(b2, CONFIG_ADDR)) == rate
  {
    var b1 := ReadEffect(b, CONFIG_ADDR);
    var b2 := WriteEffect(b1, CONFIG_ADDR, WithRate(ReadValue(b, CONFIG_ADDR), rate));
    SentinelNeverConfirms(ReadValue(b2, CONFIG_ADDR), rate);
  }

  /** Configuration word 0x1235 (code 5) changed to code 4 on a bus free
      of faults for the five transactions: the update succeeds and stores
      0x1234. */
  lemma RefreshExample(b: Bus)
    requires b.WordAt(CONFIG_ADDR) == 0x1235 && b.Healthy(|b.log|, 5)
    ensures var r := RefreshOutcome(b, 4);
      r.1 && r.0.WordAt(CONFIG_ADDR) == 0x1234
  {
    assert WithRate(0x1235, 4) == 0x1234;
    RefreshHealthy(b, 4);
  }

  // ---------------------------------------------------------------------
  // Frame synchronisation (`isNewDataAvailable`)

  /** What successive `isNewDataAvailable` calls report for successive
      progress readings, starting from the stored reading `last`: a call
      reports a wrap exactly when its reading is below the one before. */
  function Wraps(last: Word, readings: seq<Word>): (r: seq<bool>)
    ensures |r| == |readings|
    ensures forall i :: 0 <= i < |readings| ==>
      r[i] == (readings[i] < if i == 0 then last else readings[i - 1])
    decreases readings
  {
    if readings == [] then []
    else [readings[0] < last] + Wraps(readings[0], readings[1..])
  }

  /** From the initial stored reading 0, the first call never reports a wrap. */
  lemma FirstPollNeverWraps(readings: seq<Word>)
    requires readings != []
    ensures !Wraps(0, readings)[0]
  {
  }

  /** Readings 10, 50, 90, 5, 40 report a wrap only at the fourth call. */
  lemma WrapsExample()
    ensures Wraps(0, [10, 50, 90, 5, 40]) == [false, false, false, true, false]
  {
  }

  /** One more reading adds one report: whether it is below the reading
      before it, or below `last` for the first one. */
  lemma {:induction false} WrapsSnoc(last: Word, readings: seq<Word>, x: Word)
    ensures Wraps(last, readings + [x]) ==
      Wraps(last, readings) + [x < if readings == [] then last else readings[|readings| - 1]]
    decreases readings
  {
    if readings != [] {
      assert (readings + [x])[1..] == readings[1..] + [x];
      WrapsSnoc(readings[0], readings[1..], x);
    }
  }

  /** The sensor advancing its own progress counter between two polls: the
      word at 0x3C10 becomes `v`; nothing else changes. */
  function Advance(b: Bus, v: Word): (r: Bus)
    ensures r.WordAt(PROGRESS_ADDR) == v
    ensures forall a :: a != PROGRESS_ADDR ==> r.WordAt(a) == b.WordAt(a)
    ensures r.log == b.log && r.pointer == b.pointer
    ensures r.nacks == b.nacks && r.shorts == b.shorts && r.uncommitted == b.uncommitted
  {
    b.(mem := b.mem[PROGRESS_ADDR := v])
  }

  /** The bus after successive polls, the sensor having set its progress
      counter to `progress[i]` before poll i. */
  function PollBus(b: Bus, progress: seq<Word>): (r: Bus)
    ensures r.nacks == b.nacks && r.shorts == b.shorts && r.uncommitted == b.uncommitted
    ensures |r.log| >= |b.log|
  {
    if progress == [] then b
    else ReadEffect(Advance(PollBus(b, progress[..|progress| - 1]), progress[|progress| - 1]), PROGRESS_ADDR)
  }

  /** The readings those polls return: each is the counter value the sensor
      had reached, or the sentinel when that poll's read failed. */
  function PollReadings(b: Bus, progress: seq<Word>): (rs: seq<Word>)
    ensures |rs| == |progress|
    ensures forall i :: 0 <= i < |progress| ==> rs[i] == progress[i] || rs[i] == SENTINEL
  {
    if progress == [] then []
    else
      var before := progress[..|progress| - 1];
      PollReadings(b, before) +
        [ReadValue(Advance(PollBus(b, before), progress[|progress| - 1]), PROGRESS_ADDR)]
  }

  /** Reading i is what poll i returns: a register read of 0x3C10 on the bus
      the earlier polls left, once the sensor has set its counter to
      `progress[i]`; so it is 0xFFFF exactly when that read fails. */
  lemma {:induction false} PollReadingsAt(b: Bus, progress: seq<Word>, i: nat)
    requires i < |progress|
    ensures PollReadings(b, progress)[i] ==
      ReadValue(Advance(PollBus(b, progress[..i]), progress[i]), PROGRESS_ADDR)
    decreases |progress|
  {
    var before := progress[..|progress| - 1];
    if i < |before| {
      assert before[..i] == progress[..i];
      PollReadingsAt(b, before, i);
    } else {
      assert progress[..i] == before;
    }
  }

  /** On a fault-free bus, each poll takes two transactions and returns the
      counter value the sensor had reached. */
  lemma {:induction false} PollHealthy(b: Bus, progress: seq<Word>)
    requires b.Healthy(|b.log|, 2 * |progress|)
    ensures |PollBus(b, progress).log| == |b.log| + 2 * |progress|
    ensures PollReadings(b, progress) == progress
    decreases |progress|
  {
    if progress != [] {
      var before, v := progress[..|progress| - 1], progress[|progress| - 1];
      assert b.Healthy(|b.log|, 2 * |before|);
      PollHealthy(b, before);
      var polled := Advance(PollBus(b, before), v);
      var k := |b.log| + 2 * |before|;
      assert |polled.log| == k && k !in b.nacks && k + 1 !in b.shorts;
      assert ReadValue(polled, PROGRESS_ADDR) == v;
      assert progress == before + [v];
    }
  }

  /** A driver polling a fault-free sensor whose counter runs 10, 50, 90,
      then wraps to 5 and goes on to 40, reports the new frame at the fourth
      call and only there. */
  lemma PollWrapsExample(b: Bus)
    requires b.Healthy(|b.log|, 10)
    ensures Wraps(0, PollReadings(b, [10, 50, 90, 5, 40])) == [false, false, false, true, false]
  {
    PollHealthy(b, [10, 50, 90, 5, 40]);
    WrapsExample();
  }

  // ---------------------------------------------------------------------
  // Frame read (`readTempC`, raw register values)

  /** The bus after reading pixels 0..n-1 in index order. */
  function FrameBus(b: Bus, n: nat): (r: Bus)
    requires n <= NUM_PIXELS
    ensures r.mem == b.mem && r.nacks == b.nacks && r.shorts == b.shorts
    ensures r.uncommitted == b.uncommitted
    ensures |r.log| >= |b.log| && r.log[..|b.log|] == b.log
  {
    if n == 0 then b else ReadEffect(FrameBus(b, n - 1), PixAddr(n - 1))
  }

  /** The words read for pixels 0..n-1, in index order. */
  function FrameValues(b: Bus, n: nat): (vs: seq<Word>)
    requires n <= NUM_PIXELS
    ensures |vs| == n
  {
    if n == 0 then []
    else FrameValues(b, n - 1) + [ReadValue(FrameBus(b, n - 1), PixAddr(n - 1))]
  }

  /** Entry i of a frame comes from pixel i's register alone: it is that
      register's word, or the failure sentinel. */
  lemma {:induction false} FramePixelSource(b: Bus, n: nat, i: nat)
    requires n <= NUM_PIXELS && i < n
    ensures FrameValues(b, n)[i] == SENTINEL || FrameValues(b, n)[i] == b.WordAt(PixAddr(i))
  {
    if i < n - 1 {
      FramePixelSource(b, n - 1, i);
    }
  }

  /** On a fault-free bus every entry is its pixel's word, and the frame
      takes two transactions per pixel. */
  lemma {:induction false} FrameHealthy(b: Bus, n: nat)
    requires n <= NUM_PIXELS && b.Healthy(|b.log|, 2 * n)
    ensures |FrameBus(b, n).log| == |b.log| + 2 * n
    ensures forall i :: 0 <= i < n ==> FrameValues(b, n)[i] == b.WordAt(PixAddr(i))
  {
    if n > 0 {
      assert b.Healthy(|b.log|, 2 * (n - 1));
      FrameHealthy(b, n - 1);
      var k := |FrameBus(b, n - 1).log|;
      assert k !in b.nacks && k + 1 !in b.shorts;
    }
  }

  /** The register addresses a log sends, in order: one per two-byte
      write. */
  function SentAddresses(log: seq<Txn>): seq<Word> {
    if log == [] then []
    else
      var last := log[|log| - 1];
      SentAddresses(log[..|log| - 1]) +
        if last.Write? && |last.bytes| == 2 then [Pack(last.bytes[0], last.bytes[1])] else []
  }

  /** A register read sends exactly one address, the one it reads. */
  lemma ReadSendsAddress(b: Bus, a: Word)
    ensures SentAddresses(ReadEffect(b, a).log) == SentAddresses(b.log) + [a]
  {
    PackSplit(a);
    var sent := Write(SENSOR_ADDR, [Hi(a), Lo(a)], false, if |b.log| in b.nacks then NACK else 0);
    var log := ReadEffect(b, a).log;
    if |b.log| in b.nacks {
      assert log[..|log| - 1] == b.log;
    } else {
      assert log[..|log| - 1] == b.log + [sent];
      assert (b.log + [sent])[..|b.log|] == b.log;
    }
  }

  /** pix_addr(0), ..., pix_addr(n-1): distinct and strictly increasing. */
  function PixelAddresses(n: nat): (r: seq<Word>)
    requires n <= NUM_PIXELS
    ensures |r| == n
    ensures forall i :: 0 <= i < n ==> r[i] == PixAddr(i)
    ensures forall i, j :: 0 <= i < j < n ==> r[i] < r[j]
  {
    if n == 0 then [] else PixelAddresses(n - 1) + [PixAddr(n - 1)]
  }

  /** A frame read addresses exactly pix_addr(0), ..., pix_addr(n-1), in
      that order, whatever faults occur. */
  lemma {:induction false} FrameAddresses(b: Bus, n: nat)
    requires n <= NUM_PIXELS
    ensures SentAddresses(FrameBus(b, n).log) == SentAddresses(b.log) + PixelAddresses(n)
  {
    if n > 0 {
      FrameAddresses(b, n - 1);
      ReadSendsAddress(FrameBus(b, n - 1), PixAddr(n - 1));
      assert SentAddresses(b.log) + PixelAddresses(n - 1) + [PixAddr(n - 1)] ==
        SentAddresses(b.log) + PixelAddresses(n);
    }
  }
}
