/**
 * The inbound decoder `handle_packet` of src/beurer/transport/usb_hid.py.
 *
 * The receive loop never looks at the raw report directly: it hexlifies it
 * and `handle_packet` matches prefixes of that text and slices it. The model
 * keeps that text layer (`HandlePacket`) and relates it to a decoder that
 * reads the raw bytes by position (`Decode`), which is what the text layer
 * amounts to.
 */
module Packet {
  import opened Wrappers
  import opened Hex

  /** What `handle_packet` writes: the last model and user strings (kept as
      bytes) and the two sample sinks, oldest value first. */
  datatype Device = Device(model: Option<seq<uint8>>, user: Option<seq<uint8>>,
                           bpm: seq<int>, spo2: seq<int>)

  /** Readings at or above this value mean "no finger / invalid" and are
      never pushed to a sink. */
  const Suppressed: int := 127

  /** A transport with nothing received yet and empty sinks. */
  function FreshDevice(): (d: Device)
    ensures d.bpm == [] && d.spo2 == []
    ensures d.model.None? && d.user.None?
  {
    Device(None, None, [], [])
  }

  /** Push `v` onto the sink `q` unless it is suppressed. */
  function PushReading(q: seq<int>, v: int): (r: seq<int>)
    ensures v < Suppressed ==> r == q + [v]
    ensures v >= Suppressed ==> r == q
    ensures q <= r && |r| <= |q| + 1
    ensures forall k :: |q| <= k < |r| ==> r[k] < Suppressed
  {
    if v < Suppressed then q + [v] else q
  }

  /** `handle_packet(data)` on the hexlified text `data`. The three tests are
      separate `if`s in the source, applied one after the other; a raised
      ValueError (from `bytes.fromhex` or `int`) leaves every field as it was. */
  function HandlePacket(data: string, dev: Device): (r: Result<Device, PyError>)
    ensures r.Success? ==> dev.bpm <= r.value.bpm && |r.value.bpm| <= |dev.bpm| + 1
    ensures r.Success? ==> dev.spo2 <= r.value.spo2 && |r.value.spo2| <= |dev.spo2| + 1
  {
    var dev1 :-
      if PySlice(data, 0, 2) == "f1" then
        (match FromHex(PySlice(data, 2, 10))
         case Some(m) => Success(dev.(model := Some(m)))
         case None => Failure(ValueError))
      else Success(dev);
    var dev2 :-
      if PySlice(data, 0, 4) == "fe03" then
        (match FromHex(PySlice(data, 4, 18))
         case Some(u) => Success(dev1.(user := Some(u)))
         case None => Failure(ValueError))
      else Success(dev1);
    if PySlice(data, 0, 4) == "eb01" then
      var bpm :- ParseHexInt(PySlice(data, 6, 8));
      var spo2 :- ParseHexInt(PySlice(data, 8, 10));
      Success(dev2.(bpm := PushReading(dev2.bpm, bpm), spo2 := PushReading(dev2.spo2, spo2)))
    else
      Success(dev2)
  }

  /** At most one of the three prefix tests of `handle_packet` can hold, for
      any text at all. */
  lemma BranchesExclusive(data: string)
    ensures !(PySlice(data, 0, 2) == "f1" && PySlice(data, 0, 4) == "fe03")
    ensures !(PySlice(data, 0, 2) == "f1" && PySlice(data, 0, 4) == "eb01")
    ensures !(PySlice(data, 0, 4) == "fe03" && PySlice(data, 0, 4) == "eb01")
  {
    if PySlice(data, 0, 4) == "fe03" || PySlice(data, 0, 4) == "eb01" {
      assert |data| >= 4;
      assert PySlice(data, 0, 4)[1] == data[1];
      assert PySlice(data, 0, 4)[0] == data[0];
      assert PySlice(data, 0, 2) == data[0..2];
      assert PySlice(data, 0, 2)[1] == data[1];
      assert PySlice(data, 0, 2)[0] == data[0];
    }
  }

  // ---------------------------------------------------------------------
  // The same decoder, read directly off the raw bytes.

  /** What one received report means. */
  datatype Event =
    | ModelInfo(model: seq<uint8>)
    | UserInfo(user: seq<uint8>)
    | Reading(bpm: uint8, spo2: uint8)
    | Unknown

  /** Decode a raw report by byte position: model is bytes 1..4, user is
      bytes 2..8, bpm is byte 3 and SpO2 byte 4 (each cut short by a short
      report). A reading report too short to hold both values raises. */
  function Decode(raw: seq<uint8>): Result<Event, PyError>
  {
    if StartsWith(raw, [0xf1]) then Success(ModelInfo(raw[1..Min(5, |raw|)]))
    else if StartsWith(raw, [0xfe, 0x03]) then Success(UserInfo(raw[2..Min(9, |raw|)]))
    else if StartsWith(raw, [0xeb, 0x01]) then
      if |raw| < 5 then Failure(ValueError) else Success(Reading(raw[3], raw[4]))
    else Success(Unknown)
  }

  /** The effect of an event on the device state. */
  function Apply(dev: Device, ev: Event): Device
  {
    match ev
    case ModelInfo(m) => dev.(model := Some(m))
    case UserInfo(u) => dev.(user := Some(u))
    case Reading(b, s) => dev.(bpm := PushReading(dev.bpm, b), spo2 := PushReading(dev.spo2, s))
    case Unknown => dev
  }

  /** A report whose handling raises: a reading report too short to hold
      both values. */
  predicate Raises(raw: seq<uint8>)
  {
    2 <= |raw| < 5 && raw[0] == 0xeb && raw[1] == 0x01
  }

  /** A reading report long enough to hold both values. */
  predicate FullReading(raw: seq<uint8>)
  {
    |raw| >= 5 && raw[0] == 0xeb && raw[1] == 0x01
  }

  function DecodeAndApply(raw: seq<uint8>, dev: Device): Result<Device, PyError>
  {
    match Decode(raw)
    case Success(ev) => Success(Apply(dev, ev))
    case Failure(e) => Failure(e)
  }

  lemma HexTags()
    ensures Hexlify([0xf1]) == "f1"
    ensures Hexlify([0xfe, 0x03]) == "fe03"
    ensures Hexlify([0xeb, 0x01]) == "eb01"
  {
    assert Hexlify([0x03]) == "03";
    assert Hexlify([0x01]) == "01";
    assert [0xfe, 0x03][1..] == [0x03];
    assert [0xeb, 0x01][1..] == [0x01];
  }

  /** The prefix tests on the hexlified text are tests on the first raw
      bytes. */
  lemma TextPrefixes(raw: seq<uint8>)
    ensures PySlice(Hexlify(raw), 0, 2) == "f1" <==> StartsWith(raw, [0xf1])
    ensures PySlice(Hexlify(raw), 0, 4) == "fe03" <==> StartsWith(raw, [0xfe, 0x03])
    ensures PySlice(Hexlify(raw), 0, 4) == "eb01" <==> StartsWith(raw, [0xeb, 0x01])
  {
    HexTags();
    HexPrefix(raw, [0xf1]);
    HexPrefix(raw, [0xfe, 0x03]);
    HexPrefix(raw, [0xeb, 0x01]);
  }

  /** Reading a number out of text[2i:2i+2] reads raw byte i, and fails when
      the report is too short to hold it. */
  lemma TextByte(raw: seq<uint8>, i: nat)
    ensures i < |raw| ==> ParseHexInt(PySlice(Hexlify(raw), 2 * i, 2 * i + 2)) == Success(raw[i])
    ensures |raw| <= i ==> ParseHexInt(PySlice(Hexlify(raw), 2 * i, 2 * i + 2)).Failure?
  {
    var t := PySlice(Hexlify(raw), 2 * i, 2 * i + 2);
    var cut := PySlice(raw, i, i + 1);
    HexlifySlice(raw, i, i + 1);
    assert t == Hexlify(cut);
    if i < |raw| {
      SingleByteCut(raw, i);
      ParseHexIntByte(raw[i]);
    } else {
      assert cut == [];
      assert t == [];
    }
  }

  lemma SingleByteCut(raw: seq<uint8>, i: nat)
    requires i < |raw|
    ensures PySlice(raw, i, i + 1) == [raw[i]]
  {
  }

  /** Reading bytes out of text[2i:2j] gives raw[i:j]. */
  lemma TextBytes(raw: seq<uint8>, i: nat, j: nat)
    requires i <= j
    ensures FromHex(PySlice(Hexlify(raw), 2 * i, 2 * j)) == Some(PySlice(raw, i, j))
  {
    HexlifySlice(raw, i, j);
    FromHexHexlify(PySlice(raw, i, j));
  }

  /** `HandlePacket` agrees with `Decode` on any text whose prefixes and
      slices read as the corresponding bytes of `raw`. */
  lemma HandleBySlices(data: string, raw: seq<uint8>, dev: Device)
    requires PySlice(data, 0, 2) == "f1" <==> StartsWith(raw, [0xf1])
    requires PySlice(data, 0, 4) == "fe03" <==> StartsWith(raw, [0xfe, 0x03])
    requires PySlice(data, 0, 4) == "eb01" <==> StartsWith(raw, [0xeb, 0x01])
    requires FromHex(PySlice(data, 2, 10)) == Some(PySlice(raw, 1, 5))
    requires FromHex(PySlice(data, 4, 18)) == Some(PySlice(raw, 2, 9))
    requires 3 < |raw| ==> ParseHexInt(PySlice(data, 6, 8)) == Success(raw[3])
    requires |raw| <= 3 ==> ParseHexInt(PySlice(data, 6, 8)).Failure?
    requires 4 < |raw| ==> ParseHexInt(PySlice(data, 8, 10)) == Success(raw[4])
    requires |raw| <= 4 ==> ParseHexInt(PySlice(data, 8, 10)).Failure?
    ensures HandlePacket(data, dev) == DecodeAndApply(raw, dev)
  {
    BranchesExclusive(data);
    if StartsWith(raw, [0xf1]) {
      assert PySlice(raw, 1, 5) == raw[1..Min(5, |raw|)];
    } else if StartsWith(raw, [0xfe, 0x03]) {
      assert PySlice(raw, 2, 9) == raw[2..Min(9, |raw|)];
    }
  }

  /** Decoding through hexlify-then-slice is decoding by byte position. */
  lemma HandleHexlified(raw: seq<uint8>, dev: Device)
    ensures HandlePacket(Hexlify(raw), dev) == DecodeAndApply(raw, dev)
  {
    TextPrefixes(raw);
    TextBytes(raw, 1, 5);
    TextBytes(raw, 2, 9);
    TextByte(raw, 3);
    TextByte(raw, 4);
    HandleBySlices(Hexlify(raw), raw, dev);
  }

  lemma DecodeModel(raw: seq<uint8>, dev: Device)
    requires |raw| >= 1 && raw[0] == 0xf1
    ensures DecodeAndApply(raw, dev) == Success(dev.(model := Some(raw[1..Min(5, |raw|)])))
  {
    assert StartsWith(raw, [0xf1]);
  }

  lemma DecodeUser(raw: seq<uint8>, dev: Device)
    requires |raw| >= 2 && raw[0] == 0xfe && raw[1] == 0x03
    ensures DecodeAndApply(raw, dev) == Success(dev.(user := Some(raw[2..Min(9, |raw|)])))
  {
    assert StartsWith(raw, [0xfe, 0x03]);
  }

  lemma DecodeReading(raw: seq<uint8>, dev: Device)
    requires FullReading(raw)
    ensures DecodeAndApply(raw, dev) == Success(Apply(dev, Reading(raw[3], raw[4])))
  {
    assert StartsWith(raw, [0xeb, 0x01]);
  }

  lemma DecodeShortReading(raw: seq<uint8>, dev: Device)
    requires Raises(raw)
    ensures DecodeAndApply(raw, dev) == Failure(ValueError)
  {
    assert StartsWith(raw, [0xeb, 0x01]);
  }

  lemma DecodeOther(raw: seq<uint8>, dev: Device)
    requires !StartsWith(raw, [0xf1]) && !StartsWith(raw, [0xfe, 0x03]) && !StartsWith(raw, [0xeb, 0x01])
    ensures DecodeAndApply(raw, dev) == Success(dev)
  {
  }

  /** An `f1` report sets the model to raw[1..5) (cut short by a short
      report) and touches nothing else. */
  lemma ModelReport(raw: seq<uint8>, dev: Device)
    requires |raw| >= 1 && raw[0] == 0xf1
    ensures HandlePacket(Hexlify(raw), dev) == Success(dev.(model := Some(raw[1..Min(5, |raw|)])))
  {
    HandleHexlified(raw, dev);
    DecodeModel(raw, dev);
  }

  /** An `fe 03` report sets the user to raw[2..9) (cut short by a short
      report) and touches nothing else. */
  lemma UserReport(raw: seq<uint8>, dev: Device)
    requires |raw| >= 2 && raw[0] == 0xfe && raw[1] == 0x03
    ensures HandlePacket(Hexlify(raw), dev) == Success(dev.(user := Some(raw[2..Min(9, |raw|)])))
  {
    HandleHexlified(raw, dev);
    DecodeUser(raw, dev);
  }

  /** An `eb 01` report reads bpm from raw[3] and SpO2 from raw[4]; each is
      pushed to its own sink exactly when it is below 127, independently of
      the other; model and user stay as they were. */
  lemma ReadingReport(raw: seq<uint8>, dev: Device)
    requires FullReading(raw)
    ensures HandlePacket(Hexlify(raw), dev).Success?
    ensures var d := HandlePacket(Hexlify(raw), dev).value;
            && d.model == dev.model && d.user == dev.user
            && (raw[3] < 127 ==> d.bpm == dev.bpm + [raw[3]])
            && (raw[3] >= 127 ==> d.bpm == dev.bpm)
            && (raw[4] < 127 ==> d.spo2 == dev.spo2 + [raw[4]])
            && (raw[4] >= 127 ==> d.spo2 == dev.spo2)
  {
    HandleHexlified(raw, dev);
    DecodeReading(raw, dev);
  }

  /** An `eb 01` report shorter than five bytes makes `int('', 16)` raise. */
  lemma ShortReadingReport(raw: seq<uint8>, dev: Device)
    requires Raises(raw)
    ensures HandlePacket(Hexlify(raw), dev) == Failure(ValueError)
  {
    HandleHexlified(raw, dev);
    DecodeShortReading(raw, dev);
  }

  /** A report that matches none of the three prefixes changes nothing. */
  lemma OtherReport(raw: seq<uint8>, dev: Device)
    requires !StartsWith(raw, [0xf1]) && !StartsWith(raw, [0xfe, 0x03]) && !StartsWith(raw, [0xeb, 0x01])
    ensures HandlePacket(Hexlify(raw), dev) == Success(dev)
  {
    HandleHexlified(raw, dev);
    DecodeOther(raw, dev);
  }
}
