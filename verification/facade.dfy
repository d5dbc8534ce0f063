/**
 * src/beurer/po.py: the `BeurerPO` object callers hold, and the module-level
 * `discover`. A `BeurerPO` owns a transport whose bpm and SpO2 sinks are the
 * object's own two queues; the queues are the `bpm` and `spo2` fields of the
 * session's device state, so the transport pushes where the caller takes.
 */
module Facade {
  import opened Hex
  import opened Packet
  import opened Receive
  import opened Discovery

  /** Beurer reuses the GigaDevice vendor id; this is the PO 80 product id. */
  const BeurerVid: int := 0x28e9
  const Po80Pid: int := 0x028a

  /** `path` is the HID path of the device; before `connect` the session
      holds an empty transmit queue. */
  datatype BeurerPO = BeurerPO(path: seq<uint8>, session: Session)
  {
    function Bpm(): seq<int> { session.dev.bpm }
    function Spo2(): seq<int> { session.dev.spo2 }
  }

  /** `BeurerPO(hid_path)`: a fresh transport wired to two new, empty and
      distinct queues. */
  function New(path: seq<uint8>): (po: BeurerPO)
    ensures po.path == path
    ensures po.Bpm() == [] && po.Spo2() == []
    ensures po.session.dev.model.None? && po.session.dev.user.None?
    ensures po.session.tx == []
  {
    BeurerPO(path, Session(FreshDevice(), 0, []))
  }

  /** `connect`: the transport connects to this object's path; the queues
      keep whatever they hold. */
  function ConnectPO(po: BeurerPO): (r: BeurerPO)
    ensures r.path == po.path && r.Bpm() == po.Bpm() && r.Spo2() == po.Spo2()
    ensures r.session.dev == po.session.dev
    ensures r.session.tx == Handshake() && r.session.num == 0
  {
    po.(session := Connect(po.session.dev))
  }

  /** `bpm_available`: some bpm value is waiting. */
  function BpmAvailable(po: BeurerPO): (b: bool)
    ensures b <==> po.Bpm() != []
  {
    |po.Bpm()| > 0
  }

  /** `spo2_available`: some SpO2 value is waiting. */
  function Spo2Available(po: BeurerPO): (b: bool)
    ensures b <==> po.Spo2() != []
  {
    |po.Spo2()| > 0
  }

  /** `get_bpm`: take the oldest bpm value. The source blocks while the
      queue is empty; here the caller must have seen `bpm_available`. */
  function GetBpm(po: BeurerPO): (r: (int, BeurerPO))
    requires BpmAvailable(po)
    ensures [r.0] + r.1.Bpm() == po.Bpm()
    ensures r.1.Spo2() == po.Spo2()
    ensures r.1 == po.(session := po.session.(dev := po.session.dev.(bpm := r.1.Bpm())))
  {
    (po.Bpm()[0], po.(session := po.session.(dev := po.session.dev.(bpm := po.Bpm()[1..]))))
  }

  /** `get_spo2`: take the oldest SpO2 value, under the same condition. */
  function GetSpo2(po: BeurerPO): (r: (int, BeurerPO))
    requires Spo2Available(po)
    ensures [r.0] + r.1.Spo2() == po.Spo2()
    ensures r.1.Bpm() == po.Bpm()
    ensures r.1 == po.(session := po.session.(dev := po.session.dev.(spo2 := r.1.Spo2())))
  {
    (po.Spo2()[0], po.(session := po.session.(dev := po.session.dev.(spo2 := po.Spo2()[1..]))))
  }

  /** The values a run of takes returned and the object afterwards. */
  datatype Taken = Taken(values: seq<int>, rest: BeurerPO)

  /** `n` successive `get_bpm` calls. */
  function TakeBpm(po: BeurerPO, n: nat): Taken
    requires n <= |po.Bpm()|
    decreases n
  {
    if n == 0 then Taken([], po)
    else
      var (v, po1) := GetBpm(po);
      var t := TakeBpm(po1, n - 1);
      Taken([v] + t.values, t.rest)
  }

  /** `n` successive `get_spo2` calls. */
  function TakeSpo2(po: BeurerPO, n: nat): Taken
    requires n <= |po.Spo2()|
    decreases n
  {
    if n == 0 then Taken([], po)
    else
      var (v, po1) := GetSpo2(po);
      var t := TakeSpo2(po1, n - 1);
      Taken([v] + t.values, t.rest)
  }

  /** The bpm queue is first in, first out: `n` takes return its first `n`
      values in order and leave the rest; the SpO2 queue is untouched. */
  lemma {:induction false} TakeBpmInOrder(po: BeurerPO, n: nat)
    requires n <= |po.Bpm()|
    ensures TakeBpm(po, n).values == po.Bpm()[..n]
    ensures TakeBpm(po, n).rest.Bpm() == po.Bpm()[n..]
    ensures TakeBpm(po, n).rest.Spo2() == po.Spo2()
    decreases n
  {
    if n > 0 {
      var (v, po1) := GetBpm(po);
      TakeBpmInOrder(po1, n - 1);
      assert po1.Bpm() == po.Bpm()[1..];
      assert [v] + po1.Bpm()[..n - 1] == po.Bpm()[..n];
      assert po1.Bpm()[n - 1..] == po.Bpm()[n..];
    }
  }

  /** The same for the SpO2 queue. */
  lemma {:induction false} TakeSpo2InOrder(po: BeurerPO, n: nat)
    requires n <= |po.Spo2()|
    ensures TakeSpo2(po, n).values == po.Spo2()[..n]
    ensures TakeSpo2(po, n).rest.Spo2() == po.Spo2()[n..]
    ensures TakeSpo2(po, n).rest.Bpm() == po.Bpm()
    decreases n
  {
    if n > 0 {
      var (v, po1) := GetSpo2(po);
      TakeSpo2InOrder(po1, n - 1);
      assert po1.Spo2() == po.Spo2()[1..];
      assert [v] + po1.Spo2()[..n - 1] == po.Spo2()[..n];
      assert po1.Spo2()[n - 1..] == po.Spo2()[n..];
    }
  }

  /** Readings come out in the order their reports arrived: after the
      receive loop has run over `results`, taking every queued bpm value
      returns the values that were queued before, then each unsuppressed bpm
      of the reading reports handled before the thread died (all of them, if
      none raised), in arrival order; likewise for SpO2. */
  lemma ReadingsInArrivalOrder(po: BeurerPO, results: seq<seq<uint8>>)
    ensures var after := po.(session := ReceiveLoop(po.session, results).last);
            && TakeBpm(after, |after.Bpm()|).values == po.Bpm() + BpmReadings(Survived(results))
            && TakeSpo2(after, |after.Spo2()|).values == po.Spo2() + Spo2Readings(Survived(results))
  {
    var after := po.(session := ReceiveLoop(po.session, results).last);
    ReceiveLoopSinks(po.session, results);
    TakeBpmInOrder(after, |after.Bpm()|);
    TakeSpo2InOrder(after, |after.Spo2()|);
    assert after.Bpm()[..|after.Bpm()|] == after.Bpm();
    assert after.Spo2()[..|after.Spo2()|] == after.Spo2();
  }

  /** `discover()`: support only the Beurer vendor and PO 80 product ids,
      and wrap each matching record, in enumeration order, in a fresh
      `BeurerPO` for its path. */
  method DiscoverDevices(records: seq<HidRecord>) returns (devices: seq<BeurerPO>)
    ensures |devices| == |Filter(records, [BeurerVid], [Po80Pid])|
    ensures forall k :: 0 <= k < |devices| ==>
              devices[k] == New(Filter(records, [BeurerVid], [Po80Pid])[k].path)
    ensures forall k :: 0 <= k < |devices| ==>
              exists d :: d in records && d.vendorId == BeurerVid && d.productId == Po80Pid
                          && d.path == devices[k].path
  {
    var vids := ParseIds([Integer(BeurerVid)]);
    var pids := ParseIds([Integer(Po80Pid)]);
    assert vids.value == [BeurerVid] && pids.value == [Po80Pid];
    var hids := Discover(records, vids.value, pids.value);
    devices := seq(|hids|, k requires 0 <= k < |hids| => New(hids[k].path));
    forall k | 0 <= k < |devices|
      ensures exists d :: d in records && d.vendorId == BeurerVid && d.productId == Po80Pid
                          && d.path == devices[k].path
    {
      var d := hids[k];
      assert d in hids;
      assert d in records && Supported(d, [BeurerVid], [Po80Pid]);
      assert d.vendorId == BeurerVid && d.productId == Po80Pid;
      assert devices[k].path == d.path;
    }
  }
}
