/**
 * src/beurer/transport/hid.py, an older copy of the same driver with
 * camelCase names. Its command builders and `handle_packet` are written out
 * here as that file has them and shown to behave exactly like the
 * usb_hid.py versions; its id parsing, `discover` filter and receive-loop
 * counter are textually the same as usb_hid.py's and share the Discovery and
 * Receive definitions.
 */
module LegacyHid {
  import opened Wrappers
  import opened Hex
  import opened Frames
  import opened Packet
  import Receive

  function GetModel(): (f: Frame)
    ensures f == GetModelFrame() && |f| == FrameSize
  {
    [0x81] + [0x01] + Zeros(62)
  }

  function GetUser(): (f: Frame)
    ensures f == GetUserFrame() && |f| == FrameSize
  {
    [0x8e] + [0x03] + [0x11] + Zeros(61)
  }

  function Configure(): (fs: seq<Frame>)
    ensures fs == ConfigureFrames()
    ensures forall k :: 0 <= k < |fs| ==> |fs[k]| == FrameSize
  {
    [[0x80] + Zeros(63),
     [0x9b] + [0x01] + [0x1c] + Zeros(61),
     [0x9b] + [0x00] + [0x1b] + Zeros(61)]
  }

  function SetTime(dt: DateTime): (f: Frame)
    requires ValidDateTime(dt)
    ensures f == SetTimeFrame(dt) && |f| == FrameSize
  {
    var head := [0x83] + [dt.year - 2000] + [dt.month] + [dt.day] + [dt.hour] + [dt.minute]
                + [dt.second] + [Weekday(dt)] + [0x04];
    head + Zeros(64 - |head|)
  }

  /** What `connect` enqueues: getModel, getUser, setTime, configure. */
  function Handshake(): (fs: seq<Frame>)
    ensures |fs| == 6
    ensures fs == Receive.Handshake()
  {
    assert ValidDateTime(Receive.HandshakeTime);
    [GetModel(), GetUser(), SetTime(Receive.HandshakeTime)] + Configure()
  }

  /** This file's `handle_packet`: the same three tests, a `return` right
      after the `eb01` branch, and an `eb00` branch that cuts three
      twelve-digit groups out of the text and then drops them. */
  function HandlePacket(data: string, dev: Device): (r: Result<Device, PyError>)
    ensures PySlice(data, 0, 4) == "eb00" ==> r == Success(dev)
    ensures r.Failure? ==>
              PySlice(data, 0, 2) == "f1" || PySlice(data, 0, 4) == "fe03" || PySlice(data, 0, 4) == "eb01"
  {
    assert PySlice(data, 0, 4) == "eb00" ==> PySlice(data, 0, 2) == "eb";
    assert "eb" != "f1" && "eb00" != "fe03" && "eb00" != "eb01" by {
      assert "f1"[0] == 'f' && "fe03"[0] == 'f' && "eb01"[3] == '1';
    }
    var dev1 :-
      if PySlice(data, 0, 2) == "f1" then
        (match FromHex(PySlice(data, 2, 10))
         case Some(m) => Success(dev.(model := Some(m)))
         case None => Failure(ValueError))
      else Success(dev);
    var dev2 :-
      if PySlice(data, 0, 4) == "fe03" then
        (match FromHex(PySlice(data, 4, 18))
         case Some(u) => Success(dev1.(user := Some(u)))
         case None => Failure(ValueError))
      else Success(dev1);
    if PySlice(data, 0, 4) == "eb01" then
      var bpm :- ParseHexInt(PySlice(data, 6, 8));
      var spo2 :- ParseHexInt(PySlice(data, 8, 10));
      Success(dev2.(bpm := PushReading(dev2.bpm, bpm), spo2 := PushReading(dev2.spo2, spo2)))
    else if PySlice(data, 0, 4) == "eb00" then
      var groups := seq(3, (k: nat) => PySlice(data, 12 * k + 4, 12 * k + 12));
      Success(dev2)
    else
      Success(dev2)
  }

  /** Both files' `handle_packet` do the same thing on every text. */
  lemma HandlePacketAgrees(data: string, dev: Device)
    ensures HandlePacket(data, dev) == Packet.HandlePacket(data, dev)
  {
  }

  /** An `eb 00` report changes nothing: not the model, the user, or
      either sink. */
  lemma HistoryReport(raw: seq<uint8>, dev: Device)
    requires |raw| >= 2 && raw[0] == 0xeb && raw[1] == 0x00
    ensures HandlePacket(Hexlify(raw), dev) == Success(dev)
  {
    var text := Hexlify(raw);
    HistoryMatchesNothing(raw);
    OtherReport(raw, dev);
    HandlePacketAgrees(text, dev);
  }

  lemma HistoryMatchesNothing(raw: seq<uint8>)
    requires |raw| >= 2 && raw[0] == 0xeb && raw[1] == 0x00
    ensures !StartsWith(raw, [0xf1]) && !StartsWith(raw, [0xfe, 0x03]) && !StartsWith(raw, [0xeb, 0x01])
  {
    assert raw[..2][1] == 0x00;
  }

  /** This file's receive-loop iteration: the same counter around its own
      `handle_packet`. */
  function ReceiveStep(s: Receive.Session, raw: seq<uint8>): (r: Result<Receive.Session, PyError>)
    ensures r == Receive.ReceiveStep(s, raw)
  {
    if |raw| > 0 then
      HandlePacketAgrees(Hexlify(raw), s.dev);
      var dev :- HandlePacket(Hexlify(raw), s.dev);
      Success(Receive.Tick(s.(dev := dev), true))
    else
      Success(Receive.Tick(s, false))
  }
}
