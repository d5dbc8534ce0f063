/**
 * The session side of src/beurer/transport/usb_hid.py: `connect`'s handshake,
 * and one iteration of the receive loop `receive_packet` with its keepalive
 * counter. A session records the frames put on the transmit queue in the
 * order they were put there, which is the order the transmit loop writes them.
 */
module Receive {
  import opened Wrappers
  import opened Hex
  import opened Frames
  import opened Packet

  /** The receive loop keeps `num` at or below this; one more successful
      read sends a keepalive and resets it. */
  const KeepaliveLimit: nat := 10

  datatype Session = Session(dev: Device, num: nat, tx: seq<Frame>)

  /** The time `connect` sets: 2025-08-30 16:24:25, hard-coded in the source. */
  const HandshakeTime := DateTime(2025, 8, 30, 16, 24, 25)

  /** The frames `connect` enqueues after opening the device. */
  function Handshake(): (fs: seq<Frame>)
    ensures |fs| == 6
    ensures FrameOf(fs[0], [0x81, 0x01])
    ensures FrameOf(fs[1], [0x8e, 0x03, 0x11])
    ensures FrameOf(fs[2], [0x83, 0x19, 0x08, 0x1e, 0x10, 0x18, 0x19, 0x05, 0x04])
    ensures FrameOf(fs[3], [0x80])
    ensures FrameOf(fs[4], [0x9b, 0x01, 0x1c])
    ensures FrameOf(fs[5], [0x9b, 0x00, 0x1b])
    ensures forall k :: 0 <= k < 6 ==> AllBytes(fs[k])
  {
    assert ValidDateTime(HandshakeTime);
    assert Weekday(HandshakeTime) == 5;  // a Saturday
    [GetModelFrame(), GetUserFrame(), SetTimeFrame(HandshakeTime)] + ConfigureFrames()
  }

  /** `connect`: a new, empty transmit queue receives the handshake; the
      receive loop starts with its counter at zero. The device fields and
      sinks are the transport's own and survive. */
  function Connect(dev: Device): (s: Session)
    ensures s.dev == dev && s.num == 0
    ensures |s.tx| == 6 && s.tx == Handshake()
  {
    Session(dev, 0, Handshake())
  }

  /** The counter update of one loop iteration: `num` goes up on a successful
      read, and once it passes the limit it is reset and a keepalive is due. */
  function CounterStep(num: nat, gotData: bool): (r: (nat, bool))
    ensures r.1 ==> r.0 == 0
    ensures num <= KeepaliveLimit ==> r.0 <= KeepaliveLimit
    ensures num <= KeepaliveLimit && !gotData ==> r == (num, false)
    ensures num <= KeepaliveLimit ==> (r.1 <==> gotData && num == KeepaliveLimit)
  {
    var n := if gotData then num + 1 else num;
    if n > KeepaliveLimit then (0, true) else (n, false)
  }

  function Tick(s: Session, gotData: bool): Session
  {
    var (n, emit) := CounterStep(s.num, gotData);
    s.(num := n, tx := if emit then s.tx + [KeepaliveFrame()] else s.tx)
  }

  /** One iteration of `receive_packet`. `raw` is what `hid.read` returned;
      an empty read is a timeout. A ValueError raised by `handle_packet`
      ends the receive thread, which the Failure result stands for. */
  function ReceiveStep(s: Session, raw: seq<uint8>): (r: Result<Session, PyError>)
    ensures s.num <= KeepaliveLimit && |raw| == 0 ==> r == Success(s)
    ensures r.Success? && s.num <= KeepaliveLimit ==> r.value.num <= KeepaliveLimit
    ensures r.Success? && s.num <= KeepaliveLimit ==>
              (r.value.tx == s.tx + [KeepaliveFrame()] <==> |raw| > 0 && s.num == KeepaliveLimit)
    ensures r.Success? ==> r.value.tx == s.tx || r.value.tx == s.tx + [KeepaliveFrame()]
  {
    if |raw| > 0 then
      var dev :- HandlePacket(Hexlify(raw), s.dev);
      Success(Tick(s.(dev := dev), true))
    else
      Success(Tick(s, false))
  }

  /** A successful iteration leaves the device as the byte-level decoder
      says, and the receive thread dies exactly on a reading report too
      short to hold both values. */
  lemma ReceiveStepDecodes(s: Session, raw: seq<uint8>)
    requires |raw| > 0
    ensures ReceiveStep(s, raw).Failure? <==> DecodeAndApply(raw, s.dev).Failure?
    ensures ReceiveStep(s, raw).Failure? <==> Raises(raw)
    ensures ReceiveStep(s, raw).Success? ==> ReceiveStep(s, raw).value.dev == DecodeAndApply(raw, s.dev).value
  {
    HandleHexlified(raw, s.dev);
    if 2 <= |raw| && raw[0] == 0xeb && raw[1] == 0x01 {
      assert StartsWith(raw, [0xeb, 0x01]);
    }
  }

  /** Where a run of the receive loop ends: the last session reached, and
      the exception that killed the thread, if one did. */
  datatype Run = Run(last: Session, raised: Option<PyError>)

  /** The receive loop over the successive results of `hid.read`. The first
      report that raises ends the thread; `handle_packet` raises before it
      puts anything on a queue and before the counter moves, so the session
      reached is the one before that report. */
  function ReceiveLoop(s: Session, results: seq<seq<uint8>>): (r: Run)
    ensures s.num <= KeepaliveLimit ==> r.last.num <= KeepaliveLimit
    ensures s.tx <= r.last.tx
    decreases |results|
  {
    if |results| == 0 then Run(s, None)
    else
      var step := ReceiveStep(s, results[0]);
      if step.Failure? then Run(s, Some(step.error))
      else ReceiveLoop(step.value, results[1..])
  }

  /** A run that completes takes its first report without raising and
      carries on from the session that report leaves. */
  lemma LoopStep(s: Session, results: seq<seq<uint8>>)
    requires |results| > 0 && ReceiveLoop(s, results).raised.None?
    ensures ReceiveStep(s, results[0]).Success?
    ensures ReceiveLoop(s, results) == ReceiveLoop(ReceiveStep(s, results[0]).value, results[1..])
  {
  }

  /** The reports the receive thread handles before one raises: the longest
      prefix of `results` in which no report raises. */
  function Survived(results: seq<seq<uint8>>): (p: seq<seq<uint8>>)
    ensures |p| <= |results| && p == results[..|p|]
    ensures forall i :: 0 <= i < |p| ==> !Raises(p[i])
    ensures |p| < |results| ==> Raises(results[|p|])
    decreases |results|
  {
    if |results| == 0 || Raises(results[0]) then []
    else [results[0]] + Survived(results[1..])
  }

  /** The thread dies exactly when some report raises; it then stands where
      a run over the reports before that one, which completes, leaves it. */
  lemma {:induction false} ReceiveLoopStops(s: Session, results: seq<seq<uint8>>)
    ensures ReceiveLoop(s, results).raised.Some? <==> |Survived(results)| < |results|
    ensures ReceiveLoop(s, Survived(results)) == Run(ReceiveLoop(s, results).last, None)
    decreases |results|
  {
    if |results| > 0 {
      var raw := results[0];
      if |raw| > 0 {
        ReceiveStepDecodes(s, raw);
      }
      if !Raises(raw) {
        var s1 := ReceiveStep(s, raw).value;
        var p := Survived(results);
        assert p == [raw] + Survived(results[1..]);
        assert p[0] == raw && p[1..] == Survived(results[1..]);
        ReceiveLoopStops(s1, results[1..]);
        assert ReceiveLoop(s, p) == ReceiveLoop(s1, p[1..]);
      }
    }
  }

  /** The run over the reports before the first that raises completes, and
      ends where the whole run ends. */
  lemma SurvivorsRun(s: Session, results: seq<seq<uint8>>)
    ensures ReceiveLoop(s, Survived(results)).raised.None?
    ensures ReceiveLoop(s, Survived(results)).last == ReceiveLoop(s, results).last
  {
    ReceiveLoopStops(s, results);
  }

  /** The number of successful (non-empty) results. */
  function SuccessfulReads(results: seq<seq<uint8>>): nat
  {
    if |results| == 0 then 0 else (if |results[0]| > 0 then 1 else 0) + SuccessfulReads(results[1..])
  }

  function Keepalives(k: nat): (fs: seq<Frame>)
    ensures |fs| == k
    ensures forall i :: 0 <= i < k ==> fs[i] == KeepaliveFrame()
  {
    seq(k, _ => KeepaliveFrame())
  }

  lemma KeepalivesSplit(a: nat, b: nat)
    ensures Keepalives(a) + Keepalives(b) == Keepalives(a + b)
  {
  }

  /** Where the counter stands after `n` successful reads from zero: it
      goes round a circle of eleven positions. */
  function Position(n: nat): (p: nat)
    ensures p <= KeepaliveLimit
  {
    if n <= KeepaliveLimit then n else Position(n - (KeepaliveLimit + 1))
  }

  /** How many times `n` successful reads from zero go round the circle,
      that is, how many keepalives they send. */
  function Laps(n: nat): nat
  {
    if n <= KeepaliveLimit then 0 else 1 + Laps(n - (KeepaliveLimit + 1))
  }

  /** The circle is the remainder and quotient of division by eleven. */
  lemma {:induction false} CircleIsDivision(n: nat)
    ensures Position(n) == n % (KeepaliveLimit + 1)
    ensures Laps(n) == n / (KeepaliveLimit + 1)
  {
    if n > KeepaliveLimit {
      CircleIsDivision(n - 11);
      assert n == (n - 11) + 11;
    }
  }

  lemma CircleArithmetic(a: nat, rest: nat)
    requires a <= KeepaliveLimit + 1
    ensures Position(Position(a) + rest) == Position(a + rest)
    ensures Laps(a) + Laps(Position(a) + rest) == Laps(a + rest)
  {
    if a == 11 {
      assert Position(a + rest) == Position(rest);
      assert Laps(a + rest) == 1 + Laps(rest);
    }
  }

  /** The counter of the receive loop on its own: where a run of reads
      leaves it and how many keepalives it sends on the way. */
  function CounterRun(num: nat, results: seq<seq<uint8>>): (r: (nat, nat))
    decreases |results|
  {
    if |results| == 0 then (num, 0)
    else
      var (n, emit) := CounterStep(num, |results[0]| > 0);
      var (final, sent) := CounterRun(n, results[1..]);
      (final, sent + if emit then 1 else 0)
  }

  /** One successful iteration, seen from the counter: the transmit queue
      gains a keepalive exactly when the counter step says so. */
  lemma StepCounter(s: Session, raw: seq<uint8>)
    requires ReceiveStep(s, raw).Success?
    ensures ReceiveStep(s, raw).value.num == CounterStep(s.num, |raw| > 0).0
    ensures ReceiveStep(s, raw).value.tx
            == s.tx + Keepalives(if CounterStep(s.num, |raw| > 0).1 then 1 else 0)
  {
    assert Keepalives(1) == [KeepaliveFrame()];
    assert s.tx + Keepalives(0) == s.tx;
  }

  /** A successful run of the receive loop moves the counter as
      `CounterRun` does, whatever the reports contain, and the transmit
      queue gains exactly the keepalives `CounterRun` counts. */
  lemma {:induction false} ReceiveLoopCounter(s: Session, results: seq<seq<uint8>>)
    requires ReceiveLoop(s, results).raised.None?
    ensures ReceiveLoop(s, results).last.num == CounterRun(s.num, results).0
    ensures ReceiveLoop(s, results).last.tx == s.tx + Keepalives(CounterRun(s.num, results).1)
    decreases |results|
  {
    if |results| == 0 {
      assert s.tx + Keepalives(0) == s.tx;
    } else {
      LoopStep(s, results);
      var s1 := ReceiveStep(s, results[0]).value;
      var e := if CounterStep(s.num, |results[0]| > 0).1 then 1 else 0;
      StepCounter(s, results[0]);
      ReceiveLoopCounter(s1, results[1..]);
      var c := CounterRun(s1.num, results[1..]).1;
      assert CounterRun(s.num, results).1 == c + e;
      KeepalivesSplit(e, c);
      assert s.tx + Keepalives(e) + Keepalives(c) == s.tx + Keepalives(c + e);
    }
  }

  /** The counter in closed form: from a value in range, a run sends one
      keepalive per eleven successful reads and ends at the remainder. */
  lemma {:induction false} CounterRunClosedForm(num: nat, results: seq<seq<uint8>>)
    requires num <= KeepaliveLimit
    ensures CounterRun(num, results).0 == Position(num + SuccessfulReads(results))
    ensures CounterRun(num, results).1 == Laps(num + SuccessfulReads(results))
    decreases |results|
  {
    if |results| > 0 {
      var a := num + (if |results[0]| > 0 then 1 else 0);
      var rest := SuccessfulReads(results[1..]);
      assert num + SuccessfulReads(results) == a + rest;
      var n := CounterStep(num, |results[0]| > 0).0;
      if a == KeepaliveLimit + 1 {
        assert Laps(a) == 1 && Position(a) == 0 && n == 0;
      } else {
        assert Laps(a) == 0 && Position(a) == a && n == a;
      }
      CounterRunClosedForm(n, results[1..]);
      CircleArithmetic(a, rest);
    }
  }

  /** Whether or not the thread dies, the counter and the transmit queue
      move as `CounterRun` says over the reports handled before it dies. */
  lemma {:induction false} ReceiveLoopCounterAll(s: Session, results: seq<seq<uint8>>)
    ensures ReceiveLoop(s, results).last.num == CounterRun(s.num, Survived(results)).0
    ensures ReceiveLoop(s, results).last.tx == s.tx + Keepalives(CounterRun(s.num, Survived(results)).1)
  {
    SurvivorsRun(s, results);
    ReceiveLoopCounter(s, Survived(results));
  }

  /** Keepalive cadence: starting from a counter in range, the transmit
      queue gains exactly one keepalive per eleven successful reads among
      the reports handled before the thread dies (all of them, if none
      raises), nothing else, and the counter holds the remainder. */
  lemma {:induction false} ReceiveLoopKeepalives(s: Session, results: seq<seq<uint8>>)
    requires s.num <= KeepaliveLimit
    ensures ReceiveLoop(s, results).last.num == Position(s.num + SuccessfulReads(Survived(results)))
    ensures ReceiveLoop(s, results).last.tx == s.tx + Keepalives(Laps(s.num + SuccessfulReads(Survived(results))))
  {
    ReceiveLoopCounterAll(s, results);
    CounterClosedFormFor(ReceiveLoop(s, results).last, s, Survived(results));
  }

  /** The closed form of the counter, transferred to any session whose
      counter and queue agree with `CounterRun`. */
  lemma CounterClosedFormFor(t: Session, s: Session, results: seq<seq<uint8>>)
    requires s.num <= KeepaliveLimit
    requires t.num == CounterRun(s.num, results).0
    requires t.tx == s.tx + Keepalives(CounterRun(s.num, results).1)
    ensures t.num == Position(s.num + SuccessfulReads(results))
    ensures t.tx == s.tx + Keepalives(Laps(s.num + SuccessfulReads(results)))
  {
    CounterRunClosedForm(s.num, results);
  }

  /** The bpm value a raw report contributes to its sink. */
  function BpmOf(raw: seq<uint8>): seq<int>
  {
    if FullReading(raw) && raw[3] < Suppressed then [raw[3]] else []
  }

  /** The SpO2 value a raw report contributes to its sink. */
  function Spo2Of(raw: seq<uint8>): seq<int>
  {
    if FullReading(raw) && raw[4] < Suppressed then [raw[4]] else []
  }

  function BpmReadings(results: seq<seq<uint8>>): seq<int>
  {
    if |results| == 0 then [] else BpmOf(results[0]) + BpmReadings(results[1..])
  }

  function Spo2Readings(results: seq<seq<uint8>>): seq<int>
  {
    if |results| == 0 then [] else Spo2Of(results[0]) + Spo2Readings(results[1..])
  }

  lemma StepSinks(s: Session, raw: seq<uint8>)
    requires ReceiveStep(s, raw).Success?
    ensures ReceiveStep(s, raw).value.dev.bpm == s.dev.bpm + BpmOf(raw)
    ensures ReceiveStep(s, raw).value.dev.spo2 == s.dev.spo2 + Spo2Of(raw)
  {
    if |raw| > 0 {
      ReceiveStepDecodes(s, raw);
      if FullReading(raw) {
        DecodeReading(raw, s.dev);
      } else {
        assert !StartsWith(raw, [0xeb, 0x01]) || |raw| < 5;
      }
    } else {
      assert s.dev.bpm + [] == s.dev.bpm && s.dev.spo2 + [] == s.dev.spo2;
    }
  }

  /** The sinks after a run, from the sinks after its first report. */
  lemma SinksStep(t: Session, s1: Session, s: Session, results: seq<seq<uint8>>)
    requires |results| > 0
    requires s1.dev.bpm == s.dev.bpm + BpmOf(results[0])
    requires s1.dev.spo2 == s.dev.spo2 + Spo2Of(results[0])
    requires t.dev.bpm == s1.dev.bpm + BpmReadings(results[1..])
    requires t.dev.spo2 == s1.dev.spo2 + Spo2Readings(results[1..])
    ensures t.dev.bpm == s.dev.bpm + BpmReadings(results)
    ensures t.dev.spo2 == s.dev.spo2 + Spo2Readings(results)
  {
    assert BpmReadings(results) == BpmOf(results[0]) + BpmReadings(results[1..]);
    assert Spo2Readings(results) == Spo2Of(results[0]) + Spo2Readings(results[1..]);
    Associative(s.dev.bpm, BpmOf(results[0]), BpmReadings(results[1..]));
    Associative(s.dev.spo2, Spo2Of(results[0]), Spo2Readings(results[1..]));
  }

  lemma Associative(a: seq<int>, b: seq<int>, c: seq<int>)
    ensures (a + b) + c == a + (b + c)
  {
  }

  /** Over a run in which no report raises, samples reach the sinks in the
      order their reports were read, each unsuppressed reading once, and
      nothing else reaches them. */
  lemma {:induction false} CompleteRunSinks(s: Session, results: seq<seq<uint8>>)
    requires ReceiveLoop(s, results).raised.None?
    ensures ReceiveLoop(s, results).last.dev.bpm == s.dev.bpm + BpmReadings(results)
    ensures ReceiveLoop(s, results).last.dev.spo2 == s.dev.spo2 + Spo2Readings(results)
    decreases |results|
  {
    if |results| > 0 {
      LoopStep(s, results);
      var s1 := ReceiveStep(s, results[0]).value;
      StepSinks(s, results[0]);
      CompleteRunSinks(s1, results[1..]);
      SinksStep(ReceiveLoop(s, results).last, s1, s, results);
    }
  }

  /** Samples stay on the sinks when the thread dies: each sink holds what
      it held, then every unsuppressed reading of the reports handled before
      the first one that raised, in arrival order. */
  lemma ReceiveLoopSinks(s: Session, results: seq<seq<uint8>>)
    ensures ReceiveLoop(s, results).last.dev.bpm == s.dev.bpm + BpmReadings(Survived(results))
    ensures ReceiveLoop(s, results).last.dev.spo2 == s.dev.spo2 + Spo2Readings(Survived(results))
  {
    SurvivorsRun(s, results);
    CompleteRunSinks(s, Survived(results));
  }

  /** A report that raises after one that does not: the thread dies on the
      second, and whatever the first put on the sinks stays there. With
      `eb 01 00 3c 5a` then `eb 01`, bpm 60 and SpO2 90 stay queued. */
  lemma ThreadDeathKeepsReadings(s: Session, results: seq<seq<uint8>>)
    requires |results| == 2 && !Raises(results[0]) && Raises(results[1])
    ensures ReceiveLoop(s, results).raised.Some?
    ensures ReceiveLoop(s, results).last.dev.bpm == s.dev.bpm + BpmOf(results[0])
    ensures ReceiveLoop(s, results).last.dev.spo2 == s.dev.spo2 + Spo2Of(results[0])
  {
    var first := [results[0]];
    assert Survived(results[1..]) == [];
    assert Survived(results) == first;
    ReceiveLoopStops(s, results);
    ReceiveLoopSinks(s, results);
    assert BpmReadings(first) == BpmOf(results[0]);
    assert Spo2Readings(first) == Spo2Of(results[0]);
  }

  /** The concrete case: `eb 01 00 3c 5a` contributes bpm 60 and SpO2 90. */
  lemma FullReadingValues()
    ensures !Raises([0xeb, 0x01, 0x00, 60, 90])
    ensures BpmOf([0xeb, 0x01, 0x00, 60, 90]) == [60]
    ensures Spo2Of([0xeb, 0x01, 0x00, 60, 90]) == [90]
    ensures Raises([0xeb, 0x01])
  {
  }
}
