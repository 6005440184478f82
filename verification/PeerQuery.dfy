/**
 The parameter query between two stations: the request getStationParameters sends, the answer
 processCommand builds from its table, and what setStationParameters takes from the answer.
 The leading byte is the message type, the second the size of the body.
 */
module PeerQuery {
  import opened Bytes
  import opened Options
  import opened ProtoWire
  import opened ProtoMessage
  import P = ParametersMessage
  import J = JoinConferenceMessage
  import L = LeaveConferenceMessage

  const PARAMETERS: byte := 0
  const JOIN_CONFERENCE: byte := 1
  const LEAVE_CONFERENCE: byte := 2

  /** The columns of the station table that the query carries. */
  datatype Row = Row(inCall: i32, conferenceId: i32, calledBy: i32)

  /** get_station_by_id: a station that is not in the table has the constructor's defaults. */
  function Lookup(table: map<i32, Row>, id: i32): Row {
    if id in table then table[id] else Row(0, -1, 0)
  }

  /** The value of a uint32 field, 0 where absent. */
  function Get(m: Message, i: nat): u32 {
    if i in m.known && m.known[i].Number? then m.known[i].n else 0
  }

  function Set(m: Message, i: nat, n: i32): Message {
    Store(m, i, Some(Number(ToUInt32(n))))
  }

  function Request(id: i32): Message {
    Set(EMPTY, 0, id)
  }

  /** The message processCommand answers a request body with. */
  function Answer(table: map<i32, Row>, body: seq<byte>): Message {
    var param := Parse(P.Fields(), body).msg;
    var row := Lookup(table, ToInt32(Get(param, 0)));
    Set(Set(Set(param, 3, row.calledBy), 1, row.inCall), 2, row.conferenceId)
  }

  function Framed(m: Message): seq<byte>
    requires SizeOf(P.Fields(), m) < 0x100
  {
    [PARAMETERS, SizeOf(P.Fields(), m)] + Serialize(P.Fields(), m)
  }

  /** What setStationParameters reads from an answer's body. */
  function Taken(body: seq<byte>): Row {
    var param := Parse(P.Fields(), body).msg;
    Row(ToInt32(Get(param, 1)), ToInt32(Get(param, 2)), ToInt32(Get(param, 3)))
  }

  datatype Signal = NoSignal | JoinConference(number: i32, id: i32, server: i32) | LeaveConference

  /** The fields of a station that the query reads and sets. */
  class Station {
    const id: i32
    var row: Row
    var waiting: bool

    constructor (i: i32, r: Row)
      ensures id == i && row == r && !waiting
    {
      id := i;
      row := r;
      waiting := false;
    }
  }

  class TelnetServer {
    var table: map<i32, Row>

    /** An answer that does not fit its one-byte size is sent with the bytes that happen to be in the buffer. */
    method ProcessCommand(data: seq<byte>) returns (reply: seq<byte>, signal: Signal)
      requires |data| >= 2
      ensures data[1] < 2 ==> reply == [] && signal == NoSignal
      ensures data[1] >= 2 && data[0] == 0 ==> |reply| >= 2 && reply[0] == 0
      ensures data[1] >= 2 && data[0] != 0 ==> reply == []
      ensures signal.JoinConference? ==> data[0] == 1
      ensures signal.LeaveConference? ==> data[0] == 2
      ensures data[1] >= 2 && data[0] == PARAMETERS ==>
        var m := Answer(table, data[2..]);
        && signal == NoSignal
        && |reply| == 2 + SizeOf(P.Fields(), m) % 0x100
        && reply[0] == PARAMETERS && reply[1] == SizeOf(P.Fields(), m) % 0x100
        && (SizeOf(P.Fields(), m) < 0x100 ==> reply == Framed(m))
      ensures data[1] >= 2 && data[0] == JOIN_CONFERENCE ==>
        var join := Parse(J.Fields(), data[2..]).msg;
        reply == [] && signal == JoinConference(ToInt32(Get(join, 1)), ToInt32(Get(join, 2)), ToInt32(Get(join, 0)))
      ensures data[1] >= 2 && data[0] == LEAVE_CONFERENCE ==>
        var leave := Parse(L.Fields(), data[2..]).msg;
        reply == [] && signal == if 0 in leave.known && leave.known[0] == Truth(true) then LeaveConference else NoSignal
      ensures data[1] >= 2 && data[0] > LEAVE_CONFERENCE ==> reply == [] && signal == NoSignal
    {
      hide ParseLoop, Serialize, SizeOf;
      var kind, size, command := data[0], data[1], data[2..];
      if size < 2 {
        return [], NoSignal;
      }
      if kind == PARAMETERS {
        reply := AnswerQuery(command);
        signal := NoSignal;
      } else if kind == JOIN_CONFERENCE {
        signal := Join(command);
        reply := [];
      } else if kind == LEAVE_CONFERENCE {
        signal := Leave(command);
        reply := [];
      } else {
        return [], NoSignal;
      }
    }

    method AnswerQuery(command: seq<byte>) returns (reply: seq<byte>)
      ensures var m := Answer(table, command);
        && |reply| == 2 + SizeOf(P.Fields(), m) % 0x100
        && reply[0] == PARAMETERS && reply[1] == SizeOf(P.Fields(), m) % 0x100
        && (SizeOf(P.Fields(), m) < 0x100 ==> reply == Framed(m))
    {
      hide ParseLoop, Serialize, SizeOf, Proper, Wrote;
      var param := new P.Parameters();
      var ok, entire := param.MergePartialFromCodedStream(command);
      ghost var parsed := param.Msg();
      assert parsed == Parse(P.Fields(), command).msg;
      FieldIsGet(param, 0);
      var row := Lookup(table, ToInt32(param.stationId));
      param.SetCallerId(ToUInt32(row.calledBy));
      param.SetInCall(ToUInt32(row.inCall));
      param.SetChannelId(ToUInt32(row.conferenceId));
      assert param.Msg() == Answer(table, command);
      AnswerIsProper(table, command);
      reply := Pack(param);
    }

    /** Type, size and body; SerializeToArray refuses a buffer shorter than the message. */
    method Pack(param: P.Parameters) returns (reply: seq<byte>)
      requires param.Valid() && Proper(P.Fields(), param.Msg())
      ensures var m := param.Msg();
        && |reply| == 2 + SizeOf(P.Fields(), m) % 0x100
        && reply[0] == PARAMETERS && reply[1] == SizeOf(P.Fields(), m) % 0x100
        && (SizeOf(P.Fields(), m) < 0x100 ==> reply == Framed(m))
    {
      hide Serialize, SizeOf, Proper, Wrote;
      FieldsAreSmall();
      SizeIsLength(P.Fields(), param.Msg());
      var full := param.ByteSize();
      var size: byte := full % 0x100;
      var binData := new byte[size + 2];
      if full <= size {
        ghost var before := binData[..];
        var end := param.SerializeWithCachedSizesToArray(binData, 2);
        BodyWritten(P.Fields(), param.Msg(), binData[..], before);
        assert binData[2..] == binData[..][2..];
      }
      reply := [PARAMETERS, size] + binData[2..];
    }

    method Join(command: seq<byte>) returns (signal: Signal)
      ensures var join := Parse(J.Fields(), command).msg;
        signal == JoinConference(ToInt32(Get(join, 1)), ToInt32(Get(join, 2)), ToInt32(Get(join, 0)))
    {
      hide ParseLoop;
      var join := new J.JoinConference();
      var ok, entire := join.MergePartialFromCodedStream(command);
      JoinFieldsAreGet(join);
      signal := JoinConference(ToInt32(join.channelId), ToInt32(join.callerId), ToInt32(join.serverId));
    }

    method Leave(command: seq<byte>) returns (signal: Signal)
      ensures var leave := Parse(L.Fields(), command).msg;
        signal == if 0 in leave.known && leave.known[0] == Truth(true) then LeaveConference else NoSignal
    {
      hide ParseLoop;
      var leave := new L.LeaveConference();
      var ok, entire := leave.MergePartialFromCodedStream(command);
      signal := if leave.leave then LeaveConference else NoSignal;
    }
  }

  class Controller {
    var table: map<i32, Row>

    /** getStationParameters: the bytes sent to the peer. */
    method GetStationParameters(s: Station) returns (sent: seq<byte>)
      modifies s
      ensures s.waiting && s.row == old(s.row)
      ensures SizeOf(P.Fields(), Request(s.id)) < 0x100 && sent == Framed(Request(s.id))
    {
      hide Serialize, SizeOf;
      s.waiting := true;
      var params := new P.Parameters();
      params.SetStationId(ToUInt32(s.id));
      RequestSizes(s.id);
      var size := params.ByteSize();
      var data := new byte[size + 2];
      ghost var before := data[..];
      var end := params.SerializeWithCachedSizesToArray(data, 2);
      BodyWritten(P.Fields(), params.Msg(), data[..], before);
      assert data[2..] == data[..][2..];
      sent := [PARAMETERS, size] + data[2..];
    }

    /** setStationParameters: an answer of another type is ignored. */
    method SetStationParameters(s: Station, data: seq<byte>)
      requires |data| >= 2
      modifies this, s
      ensures data[0] != 0 ==> s.row == old(s.row) && s.waiting == old(s.waiting) && table == old(table)
      ensures data[0] == PARAMETERS ==> s.row == Taken(data[2..]) && !s.waiting
      ensures data[0] == PARAMETERS ==>
        table == if s.id in old(table) then old(table)[s.id := Taken(data[2..])] else old(table)
    {
      hide ParseLoop;
      var kind := data[0];
      if kind != PARAMETERS {
        return;
      }
      var param := new P.Parameters();
      var ok, entire := param.MergePartialFromCodedStream(data[2..]);
      FieldIsGet(param, 1);
      FieldIsGet(param, 2);
      FieldIsGet(param, 3);
      s.row := Row(ToInt32(param.inCall), ToInt32(param.channelId), ToInt32(param.callerId));
      s.waiting := false;
      if s.id in table {
        table := table[s.id := s.row];
      }
    }
  }

  lemma FieldsAreSmall()
    ensures Small(P.Fields())
  {
  }

  /** A field that did not arrive reads as 0. */
  lemma MissingIsZero(body: seq<byte>, i: nat)
    ensures var m := Parse(P.Fields(), body).msg;
      Get(m, i) == if i in m.known && m.known[i].Number? then m.known[i].n else 0
  {
    hide ParseLoop;
  }

  /** The getters. */
  lemma FieldIsGet(p: P.Parameters, i: nat)
    requires p.Valid() && i < 4
    ensures p.Values()[i] == Number(Get(p.Msg(), i))
  {
  }

  lemma JoinFieldsAreGet(j: J.JoinConference)
    requires j.Valid()
    ensures j.serverId == Get(j.Msg(), 0) && j.channelId == Get(j.Msg(), 1) && j.callerId == Get(j.Msg(), 2)
  {
  }

  lemma AnswerIsProper(table: map<i32, Row>, body: seq<byte>)
    ensures Proper(P.Fields(), Answer(table, body))
  {
    hide ParseLoop;
    FieldsAreSmall();
    ParsedIsProper(P.Fields(), body, EMPTY);
  }

  /** A buffer of the right length that was written from position 2 on ends in what was written. */
  lemma BodyWritten(schema: Schema, m: Message, t: seq<byte>, before: seq<byte>)
    requires Wrote(t, before, 2, Serialize(schema, m)) && |before| == 2 + |Serialize(schema, m)|
    ensures |t| >= 2 && t[2..] == Serialize(schema, m)
  {
    hide Serialize;
  }

  // ---------------------------------------------------------------- the query as a whole

  lemma NumberSizes(n: u32)
    ensures 1 <= VarintSize(n) <= 5
  {
  }

  /** A request's body is 2 to 6 bytes long, so the size check lets it pass. */
  lemma RequestSizes(id: i32)
    ensures Proper(P.Fields(), Request(id))
    ensures 2 <= SizeOf(P.Fields(), Request(id)) <= 6
    ensures SizeOf(P.Fields(), Request(id)) == |Serialize(P.Fields(), Request(id))|
  {
    hide VarintSize, VarintBytes;
    var m := Request(id);
    NumberSizes(ToUInt32(id));
    FieldsAreSmall();
    SizeIsLength(P.Fields(), m);
    SizeStep(P.Fields(), m, 0);
    SizeStep(P.Fields(), m, 1);
    SizeStep(P.Fields(), m, 2);
    SizeStep(P.Fields(), m, 3);
  }

  lemma AnswerSizes(id: i32, row: Row)
    ensures var m := Full(id, row);
      && Proper(P.Fields(), m) && 8 <= SizeOf(P.Fields(), m) <= 24
      && SizeOf(P.Fields(), m) == |Serialize(P.Fields(), m)|
  {
    hide VarintSize, KnownSize, Serialize, Proper, Full;
    var m := Full(id, row);
    FullHasAll(id, row);
    NumberSizes(ToUInt32(id));
    NumberSizes(ToUInt32(row.inCall));
    NumberSizes(ToUInt32(row.conferenceId));
    NumberSizes(ToUInt32(row.calledBy));
    FieldsAreSmall();
    SizeIsLength(P.Fields(), m);
    SizeField(P.Fields(), m, 0, true, Number(ToUInt32(id)));
    SizeField(P.Fields(), m, 1, true, Number(ToUInt32(row.inCall)));
    SizeField(P.Fields(), m, 2, true, Number(ToUInt32(row.conferenceId)));
    SizeField(P.Fields(), m, 3, true, Number(ToUInt32(row.calledBy)));
    NoFieldsNoSize();
  }

  lemma FullHasAll(id: i32, row: Row)
    ensures var m := Full(id, row);
      && Proper(P.Fields(), m) && m.unknown == [] && m.known.Keys == {0, 1, 2, 3}
      && m.known[0] == Number(ToUInt32(id)) && m.known[1] == Number(ToUInt32(row.inCall))
      && m.known[2] == Number(ToUInt32(row.conferenceId)) && m.known[3] == Number(ToUInt32(row.calledBy))
  {
  }

  /** The answer to an ordinary request: all four fields. */
  function Full(id: i32, row: Row): Message {
    Set(Set(Set(Request(id), 3, row.calledBy), 1, row.inCall), 2, row.conferenceId)
  }

  /**
   A query answered by the peer and applied on return gives the caller exactly the peer's row for
   that station, for all 32-bit values; both bodies fit the one-byte size and pass its check.
   */
  lemma QueryReturnsTheRow(table: map<i32, Row>, id: i32)
    ensures var q := Serialize(P.Fields(), Request(id));
      var m := Answer(table, q);
      var a := Serialize(P.Fields(), m);
      && 2 <= |q| <= 6 && |q| == SizeOf(P.Fields(), Request(id))
      && 8 <= |a| <= 24 && |a| == SizeOf(P.Fields(), m)
      && Taken(a) == Lookup(table, id)
  {
    hide Serialize, ParseLoop, SizeOf, Proper;
    RequestSizes(id);
    FieldsAreSmall();
    ParseSerialized(P.Fields(), Request(id));
    var row := Lookup(table, id);
    AnswerSizes(id, row);
    ParseSerialized(P.Fields(), Full(id, row));
  }

  /** The request, byte by byte: type 0, size, then the station id as field 1. */
  lemma RequestBytes(id: i32)
    ensures var body := [8] + VarintBytes(ToUInt32(id));
      |body| < 256 && SizeOf(P.Fields(), Request(id)) == |body| && Framed(Request(id)) == [0, |body|] + body
  {
    hide VarintBytes, Serialize, SizeOf, Proper;
    RequestSizes(id);
    P.WireForm(Request(id));
    NoFieldsNoSize();
    var v := VarintBytes(ToUInt32(id));
    assert [8] + v + ([] + ([] + ([] + []))) + [] == [8] + v;
  }

  /** The answer, byte by byte: type 0, size, then station id, in_call, conference and called_by as fields 1 to 4. */
  lemma AnswerBytes(table: map<i32, Row>, id: i32)
    ensures var row := if id in table then table[id] else Row(0, -1, 0);
      var body := [8] + VarintBytes(ToUInt32(id)) + ([16] + VarintBytes(ToUInt32(row.inCall))
        + ([24] + VarintBytes(ToUInt32(row.conferenceId)) + ([32] + VarintBytes(ToUInt32(row.calledBy)))));
      var m := Answer(table, Serialize(P.Fields(), Request(id)));
      |body| < 256 && SizeOf(P.Fields(), m) == |body| && Framed(m) == [0, |body|] + body
  {
    hide VarintBytes, Serialize, SizeOf, Proper, ParseLoop;
    var row := Lookup(table, id);
    RequestSizes(id);
    FieldsAreSmall();
    ParseSerialized(P.Fields(), Request(id));
    AnswerSizes(id, row);
    FullHasAll(id, row);
    P.WireForm(Full(id, row));
    NoFieldsNoSize();
    var last := [32] + VarintBytes(ToUInt32(row.calledBy));
    assert last + [] == last;
    assert forall s: seq<byte> :: s + [] == s;
  }

  /** The whole exchange between two objects. */
  method Query(caller: Controller, peer: TelnetServer, s: Station) returns (sent: seq<byte>, reply: seq<byte>)
    modifies caller, s
    ensures s.row == Lookup(peer.table, s.id) && !s.waiting
    ensures 4 <= |sent| <= 8 && 10 <= |reply| <= 26
  {
    hide Serialize, ParseLoop, SizeOf, Answer, Taken, Request;
    QueryReturnsTheRow(peer.table, s.id);
    sent := caller.GetStationParameters(s);
    assert sent[2..] == Serialize(P.Fields(), Request(s.id));
    var signal;
    reply, signal := peer.ProcessCommand(sent);
    assert reply[2..] == Serialize(P.Fields(), Answer(peer.table, sent[2..]));
    caller.SetStationParameters(s, reply);
  }
}
