/**
 The voice path: frames built by createVoicePacket, relayed by the server with the speaker's
 session inserted after the header byte, and taken apart by processUDPData.
 */
module VoicePacket {
  import opened Bytes
  import opened MumbleVarint
  import opened PacketSink
  import opened PacketStream

  const FRAME_ROOM: nat := 1023

  /** What reaches the audio decoder: the codec number, the bytes, and their count as a short. */
  datatype Delivery = Nothing | Audio(codec: byte, bytes: seq<byte>, size: i16)

  function HeaderByte(codec2: bool): byte {
    if codec2 then 5 * 32 else 4 * 32
  }

  function Writes(number: u64, audio: seq<byte>): seq<Write> {
    [OfInt(Quint64, number), OfInt(Int, |audio|), OfBlock(audio)]
  }

  function VoiceFrame(codec2: bool, number: u64, audio: seq<byte>): seq<byte>
    requires |audio| < 0x8000_0000
  {
    [HeaderByte(codec2)] + Run(Fresh(FRAME_ROOM), Writes(number, audio)).bytes
  }

  /** What one varint read leaves. */
  function AfterVarint(s: seq<byte>): seq<byte> {
    s[Decode(s).used..]
  }

  /** After the header byte: session, sequence number, size (low byte kept), and the rest is audio. */
  function Receive(kind: byte, s: seq<byte>): Delivery {
    var sized := AfterVarint(AfterVarint(s));
    var audio := AfterVarint(sized);
    if audio == [] then Nothing
    else Audio(if kind == 1 then Narrow(UChar, Decode(sized).value) / 32 else kind, audio, ToInt16(|audio|))
  }

  /** A datagram of the voice connection; 32 in front marks a ping reply. */
  function ReceiveDatagram(ready: bool, d: seq<byte>): Delivery
    requires d != []
  {
    if !ready || d[0] == 32 then Nothing else Receive(d[0] / 32, d[1..])
  }

  /** pds >> v */
  method Take(pds: PacketDataStream) returns (v: u64)
    requires pds.Valid()
    modifies pds`offset, pds`ok
    ensures pds.Valid() && v == Decode(old(pds.Rest())).value && pds.Rest() == AfterVarint(old(pds.Rest()))
  {
    hide Decode;
    v := pds.ReadVarint();
  }

  /** pds << number; pds << size; pds.append(audio, size) */
  method WriteFrame(pds: PacketDataStream, number: u64, audio: seq<byte>)
    requires pds.Valid() && |audio| < 0x8000_0000
    modifies pds, pds.data
    ensures pds.Valid() && pds.Sunk() == Run(old(pds.Sunk()), Writes(number, audio))
  {
    hide Encode, Run, PutBlock, PutBytes;
    ghost var k := pds.Sunk();
    pds.WriteInt(Quint64, number);
    pds.WriteInt(Int, |audio|);
    pds.AppendBlock(audio);
    RunOfThree(k, Writes(number, audio));
  }

  /** The stream behind the header byte, and what was written to it. */
  method FrameBytes(number: u64, audio: seq<byte>) returns (body: seq<byte>)
    requires |audio| < 0x8000_0000
    ensures body == Run(Fresh(FRAME_ROOM), Writes(number, audio)).bytes
  {
    hide Run, Writes;
    var data := new byte[FRAME_ROOM];
    var pds := new PacketDataStream(data);
    WriteFrame(pds, number, audio);
    body := pds.data[..pds.offset];
  }

  class VoiceClient {
    var useCodec2: bool
    var encryptionSet: bool
    var sequenceNumber: u64

    /** createVoicePacket; frames is what the codec library says the packet holds. */
    method CreateVoicePacket(encodedAudio: seq<byte>, frames: int) returns (frame: seq<byte>)
      requires |encodedAudio| < 0x8000_0000
      modifies this`sequenceNumber
      ensures frame == VoiceFrame(useCodec2, old(sequenceNumber), encodedAudio)
      ensures sequenceNumber == (old(sequenceNumber) + frames) % 0x1_0000_0000_0000_0000
    {
      hide Run, Writes;
      var kind: byte := if useCodec2 then 5 * 32 else 4 * 32;
      var body := FrameBytes(sequenceNumber, encodedAudio);
      sequenceNumber := (sequenceNumber + frames) % 0x1_0000_0000_0000_0000;
      frame := [kind] + body;
    }

    method ProcessIncomingAudioPacket(s: seq<byte>, kind: byte) returns (d: Delivery)
      requires |s| < 0x8000_0000
      ensures d == Receive(kind, s)
    {
      hide Receive;
      var data := new byte[|s|](i requires 0 <= i < |s| => s[i]);
      assert data[..] == s;
      var pds := new PacketDataStream(data);
      d := TakeApart(pds, kind);
    }

    method TakeApart(pds: PacketDataStream, kind: byte) returns (d: Delivery)
      requires pds.Valid()
      modifies pds`offset, pds`ok
      ensures d == Receive(kind, old(pds.Rest()))
    {
      hide AfterVarint, Narrow, Decode;
      var session := Take(pds);
      var number := Take(pds);
      var head := Take(pds);
      var audioHead := Narrow(UChar, head);
      var codec := kind;
      if kind == 1 {
        codec := audioHead / 32;
      }
      d := Deliver(pds, codec);
    }

    /** What is left after the header fields goes to the decoder. */
    method Deliver(pds: PacketDataStream, codec: byte) returns (d: Delivery)
      requires pds.Valid()
      modifies pds`offset, pds`ok
      ensures var audio := old(pds.Rest());
        d == if audio == [] then Nothing else Audio(codec, audio, ToInt16(|audio|))
    {
      var audioSize := pds.maxsize - pds.offset;
      if audioSize <= 0 {
        return Nothing;
      }
      var qba := pds.DataBlock(audioSize);
      return Audio(codec, qba, ToInt16(audioSize));
    }

    method ProcessUDPData(datagram: seq<byte>) returns (d: Delivery)
      requires 0 < |datagram| <= 0x8000_0000
      ensures d == ReceiveDatagram(encryptionSet, datagram)
    {
      if !encryptionSet {
        return Nothing;
      }
      var kind := datagram[0];
      if kind == 32 {
        return Nothing;
      }
      d := ProcessIncomingAudioPacket(datagram[1..], kind / 32);
    }
  }

  lemma RunOfThree(k: Sink, ws: seq<Write>)
    requires |k.bytes| <= k.cap && |ws| == 3 && AllTyped(ws)
    ensures Run(k, ws) == ws[2].Effect(ws[1].Effect(ws[0].Effect(k)))
    ensures IdealOf(ws) == ws[0].Ideal() + ws[1].Ideal() + ws[2].Ideal()
  {
    hide Write.Effect, Write.Ideal, Write.Typed;
    RunOfTwo(k, ws[..2]);
  }

  lemma RunOfTwo(k: Sink, ws: seq<Write>)
    requires |k.bytes| <= k.cap && |ws| == 2 && AllTyped(ws)
    ensures Run(k, ws) == ws[1].Effect(ws[0].Effect(k))
    ensures IdealOf(ws) == ws[0].Ideal() + ws[1].Ideal()
  {
    hide Write.Effect, Write.Ideal, Write.Typed;
    assert ws[..1][..0] == [];
    assert Run(k, ws[..1]) == ws[0].Effect(k);
    assert IdealOf(ws[..1]) == [] + ws[0].Ideal();
  }

  /** What the server forwards: the speaker's session goes between the header byte and the rest. */
  function Relayed(session: u64, frame: seq<byte>): seq<byte>
    requires frame != []
  {
    [frame[0]] + Encode(session) + frame[1..]
  }

  lemma ReceiveFields(kind: byte, session: u64, number: u64, size: u64, audio: seq<byte>)
    ensures Receive(kind, Encode(session) + (Encode(number) + (Encode(size) + audio)))
         == if audio == [] then Nothing
            else Audio(if kind == 1 then Narrow(UChar, size) / 32 else kind, audio, ToInt16(|audio|))
  {
    hide Encode, Decode, Narrow, ToInt16;
    var s2 := Encode(size) + audio;
    var s1 := Encode(number) + s2;
    var s := Encode(session) + s1;
    RoundTrip(session, s1);
    RoundTrip(number, s2);
    RoundTrip(size, audio);
    assert s[|Encode(session)|..] == s1;
    assert s1[|Encode(number)|..] == s2;
    assert s2[|Encode(size)|..] == audio;
  }

  /** Does the packet fit the 1024-byte frame? */
  predicate Fits(number: u64, audio: seq<byte>)
    requires |audio| < 0x8000_0000
  {
    |Encode(number)| + |Encode(|audio|)| + |audio| <= FRAME_ROOM
  }

  lemma FrameBody(number: u64, audio: seq<byte>)
    requires |audio| < 0x8000_0000
    ensures var b := Run(Fresh(FRAME_ROOM), Writes(number, audio)).bytes;
      var e := Encode(number) + Encode(|audio|);
      b == if Fits(number, audio) then e + audio else e + Zeros(FRAME_ROOM - |e|)
  {
    hide Encode;
    var k := Fresh(FRAME_ROOM);
    RunOfThree(k, Writes(number, audio));
    Lengths(number);
    Lengths(|audio|);
    var e1, e2 := Encode(number), Encode(|audio|);
    var k1 := PutBytes(k, e1);
    PutBytesStands(k, [], e1);
    PutBytesStands(k1, [] + e1, e2);
    assert [] + e1 + e2 == e1 + e2;
  }

  lemma Lengths(v: u64)
    ensures 1 <= |Encode(v)| <= 9
  {
  }

  /** What follows the size field: the audio, or the zeros written in its place. */
  function Carried(number: u64, audio: seq<byte>): seq<byte>
    requires |audio| < 0x8000_0000
  {
    Lengths(number);
    Lengths(|audio|);
    if Fits(number, audio) then audio else Zeros(FRAME_ROOM - |Encode(number)| - |Encode(|audio|)|)
  }

  lemma FrameParts(codec2: bool, number: u64, audio: seq<byte>)
    requires |audio| < 0x8000_0000
    ensures var f := VoiceFrame(codec2, number, audio);
      && f[0] == HeaderByte(codec2)
      && f[1..] == Encode(number) + (Encode(|audio|) + Carried(number, audio))
  {
    hide Encode, Run, Fits;
    FrameBody(number, audio);
    var e1, e2, c := Encode(number), Encode(|audio|), Carried(number, audio);
    assert e1 + e2 + c == e1 + (e2 + c);
  }

  lemma RelayedBody(codec2: bool, session: u64, number: u64, audio: seq<byte>)
    requires |audio| < 0x8000_0000
    ensures var d := Relayed(session, VoiceFrame(codec2, number, audio));
      && d[0] == HeaderByte(codec2)
      && d[1..] == Encode(session) + (Encode(number) + (Encode(|audio|) + Carried(number, audio)))
  {
    hide Encode, VoiceFrame, Carried;
    FrameParts(codec2, number, audio);
  }

  /**
   Sender, server and receiver together: the decoder is given the codec number and exactly the
   audio that was sent if and only if the packet fits the frame, for every session and number.
   */
  lemma VoiceReachesThePeer(codec2: bool, session: u64, number: u64, audio: seq<byte>)
    requires 0 < |audio| < 0x8000_0000
    ensures ReceiveDatagram(true, Relayed(session, VoiceFrame(codec2, number, audio)))
         == Audio(if codec2 then 5 else 4, audio, ToInt16(|audio|))
        <==> Fits(number, audio)
    ensures Fits(number, audio) ==> ToInt16(|audio|) == |audio|
  {
    hide Encode, VoiceFrame, Relayed, Receive;
    RelayedBody(codec2, session, number, audio);
    Lengths(number);
    Lengths(|audio|);
    ReceiveFields(HeaderByte(codec2) / 32, session, number, |audio|, Carried(number, audio));
  }

  /** The header byte is the codec's number in the top three bits, with the low five clear. */
  lemma HeaderIs(codec2: bool, number: u64, audio: seq<byte>)
    requires |audio| < 0x8000_0000
    ensures VoiceFrame(codec2, number, audio)[0] == if codec2 then 160 else 128
  {
    hide Run;
  }

  /** Nothing is delivered before encryption is set up, nor for a ping reply; all else is taken apart. */
  lemma SilentDatagrams(d: seq<byte>, ready: bool)
    requires d != []
    ensures ReceiveDatagram(false, d) == Nothing
    ensures d[0] == 32 ==> ReceiveDatagram(ready, d) == Nothing
    ensures d[0] != 32 ==> ReceiveDatagram(true, d) == Receive(d[0] / 32, d[1..])
  {
    hide Receive;
  }

  /** A packet fits when number, size and audio take at most 1023 bytes. */
  lemma FitsIs(number: u64, audio: seq<byte>)
    requires |audio| < 0x8000_0000
    ensures Fits(number, audio) <==> |Encode(number)| + |Encode(|audio|)| + |audio| <= 1023
  {
    hide Encode;
  }

  /** What replaces audio that does not fit. */
  lemma CarriedIs(number: u64, audio: seq<byte>)
    requires |audio| < 0x8000_0000
    ensures Fits(number, audio) ==> Carried(number, audio) == audio
    ensures !Fits(number, audio) ==>
      && |Carried(number, audio)| == 1023 - |Encode(number)| - |Encode(|audio|)|
      && forall b <- Carried(number, audio) :: b == 0
  {
    hide Encode, Fits;
    Lengths(number);
    Lengths(|audio|);
  }
}
