/**
 The roster of online stations and the calls made on it, as values: what each server message,
 call and disconnect does to the vector of stations, and what it sends. The loops of the source
 are kept as loops over an index, so that removing while indexing forward means what it does there.
 */
module Roster {
  import opened Bytes
  import opened Options

  /** A station's fields; mute and deaf are unset until the server mentions them. */
  datatype Entry = Entry(id: i32, radioId: string, callsign: string, inCall: i32, conferenceId: i32, calledBy: i32,
                         mute: Option<bool>, deaf: Option<bool>)

  /** The fields of a UserState message the client looks at. */
  datatype UserState = UserState(session: i32, name: string, channelId: Option<i32>, selfMute: Option<bool>,
                                 deaf: Option<bool>, selfDeaf: Option<bool>, comment: Option<string>)

  function Or<T>(o: Option<T>, default: T): T {
    if o.Some? then o.value else default
  }

  /** Messages to the server. */
  datatype Outgoing =
    | SetState(session: i32, actor: Option<i32>, channelId: Option<i32>, mute: bool, deaf: bool)
    | MakeChannel(name: string)

  /** What happened, in order: messages sent, stations entering the roster and leaving it. */
  datatype Note = Sent(m: Outgoing) | Entered(id: i32) | Left(id: i32)

  datatype Client = Client(session: i32, channel: i32, roster: seq<Entry>, log: seq<Note>)

  function Send(c: Client, m: Outgoing): Client {
    c.(log := c.log + [Sent(m)])
  }

  // ---------------------------------------------------------------- removal

  /** The removal loop: after deleting at i the index still advances. */
  function RemoveFrom(r: seq<Entry>, id: i32, i: nat): seq<Entry>
    decreases |r| - i
  {
    if i >= |r| then r
    else if r[i].id == id then RemoveFrom(r[..i] + r[i + 1..], id, i + 1)
    else RemoveFrom(r, id, i + 1)
  }

  /** All entries but those of one session, in order. */
  function Without(r: seq<Entry>, id: i32): seq<Entry> {
    if r == [] then [] else (if r[0].id == id then [] else [r[0]]) + Without(r[1..], id)
  }

  ghost predicate Distinct(r: seq<Entry>) {
    forall i, j | 0 <= i < j < |r| :: r[i].id != r[j].id
  }

  /** What the loop leaves of s when it enters it at the front: the entry after a deleted one is not looked at. */
  function Skipping(s: seq<Entry>, id: i32): seq<Entry> {
    if s == [] then []
    else if s[0].id != id then [s[0]] + Skipping(s[1..], id)
    else if |s| == 1 then []
    else [s[1]] + Skipping(s[2..], id)
  }

  /** One turn of the loop. */
  lemma RemoveTurn(r: seq<Entry>, id: i32, i: nat)
    ensures RemoveFrom(r, id, i) ==
      if i >= |r| then r
      else if r[i].id == id then RemoveFrom(r[..i] + r[i + 1..], id, i + 1)
      else RemoveFrom(r, id, i + 1)
  {
  }

  lemma SkippingTurn(s: seq<Entry>, id: i32)
    ensures s == [] ==> Skipping(s, id) == []
    ensures s != [] && s[0].id != id ==> Skipping(s, id) == [s[0]] + Skipping(s[1..], id)
    ensures |s| == 1 && s[0].id == id ==> Skipping(s, id) == []
    ensures |s| >= 2 && s[0].id == id ==> Skipping(s, id) == [s[1]] + Skipping(s[2..], id)
  {
  }

  lemma {:induction false} RemoveFromSkips(r: seq<Entry>, id: i32, i: nat)
    requires i <= |r|
    ensures RemoveFrom(r, id, i) == r[..i] + Skipping(r[i..], id)
    decreases |r| - i
  {
    hide RemoveFrom, Skipping;
    var before, s := r[..i], r[i..];
    RemoveTurn(r, id, i);
    SkippingTurn(s, id);
    if s == [] {
      assert before + [] == r;
    } else if s[0].id != id {
      RemoveFromSkips(r, id, i + 1);
      assert r[..i + 1] == before + [s[0]] && r[i + 1..] == s[1..];
      assert before + [s[0]] + Skipping(s[1..], id) == before + ([s[0]] + Skipping(s[1..], id));
    } else if |s| == 1 {
      var r' := before + r[i + 1..];
      assert r' == before + [] == before;
      RemoveTurn(r', id, i + 1);
    } else {
      var r' := before + r[i + 1..];
      RemoveFromSkips(r', id, i + 1);
      assert r'[..i + 1] == before + [s[1]] && r'[i + 1..] == s[2..];
      assert before + [s[1]] + Skipping(s[2..], id) == before + ([s[1]] + Skipping(s[2..], id));
    }
  }

  /** No two neighbours of the session. */
  predicate Apart(s: seq<Entry>, id: i32) {
    |s| < 2 || (!(s[0].id == id && s[1].id == id) && Apart(s[1..], id))
  }

  lemma {:induction false} WithoutHasNone(s: seq<Entry>, id: i32)
    ensures forall e <- Without(s, id) :: e.id != id && e in s
  {
    if s != [] {
      WithoutHasNone(s[1..], id);
    }
  }

  lemma {:induction false} SkippingIsWithout(s: seq<Entry>, id: i32)
    ensures Skipping(s, id) == Without(s, id) <==> Apart(s, id)
    decreases |s|
  {
    if s != [] && s[0].id != id {
      SkippingIsWithout(s[1..], id);
      assert Without(s, id)[1..] == Without(s[1..], id) && Skipping(s, id)[1..] == Skipping(s[1..], id);
    } else if |s| > 1 {
      var t := s[1..];
      if t[0].id == id {
        WithoutHasNone(s, id);
        assert Skipping(s, id)[0].id == id;
      } else {
        SkippingIsWithout(t[1..], id);
        assert s[2..] == t[1..];
        assert Without(s, id) == [] + Without(t, id) == [t[0]] + Without(t[1..], id);
        assert Without(s, id)[1..] == Without(t[1..], id) && Skipping(s, id)[1..] == Skipping(t[1..], id);
      }
    }
  }

  lemma {:induction false} DistinctIsApart(s: seq<Entry>, id: i32)
    requires Distinct(s)
    ensures Apart(s, id)
  {
    if |s| >= 2 {
      DistinctIsApart(s[1..], id);
    }
  }

  /** The loop deletes exactly the session's entries if and only if no two of them are neighbours. */
  lemma RemovalIsExact(r: seq<Entry>, id: i32)
    ensures RemoveFrom(r, id, 0) == Without(r, id) <==> Apart(r, id)
    ensures Distinct(r) ==> RemoveFrom(r, id, 0) == Without(r, id)
  {
    hide Distinct, Apart;
    RemoveFromSkips(r, id, 0);
    assert r[0..] == r && r[..0] + Skipping(r, id) == Skipping(r, id);
    SkippingIsWithout(r, id);
    if Distinct(r) {
      DistinctIsApart(r, id);
    }
  }

  // ---------------------------------------------------------------- server messages

  function Updated(e: Entry, us: UserState): Entry {
    Entry(e.id, e.radioId, Or(us.comment, e.callsign), e.inCall, Or(us.channelId, 0), e.calledBy,
          if us.selfMute.Some? then us.selfMute else e.mute,
          if us.deaf.Some? then Some(Or(us.selfDeaf, false)) else e.deaf)
  }

  function NewEntry(us: UserState): Entry {
    Updated(Entry(us.session, us.name, "", 0, -1, 0, None, None), us)
  }

  predicate Knows(r: seq<Entry>, id: i32) {
    exists i | 0 <= i < |r| :: r[i].id == id
  }

  function UpdateAll(r: seq<Entry>, us: UserState): (u: seq<Entry>)
    ensures |u| == |r|
    ensures forall i | 0 <= i < |r| :: u[i] == if r[i].id == us.session then Updated(r[i], us) else r[i]
  {
    seq(|r|, i requires 0 <= i < |r| => if r[i].id == us.session then Updated(r[i], us) else r[i])
  }

  /** The part of processUserState before the roster is touched. */
  function NoteChannel(c: Client, us: UserState): Client {
    if us.channelId.Some? && (c.session == -1 || us.session == c.session) then c.(channel := us.channelId.value) else c
  }

  /** Does it emit channelReady? */
  predicate AnnouncesChannel(c: Client, us: UserState) {
    us.session == c.session && us.channelId.Some? && us.channelId.value > 1
  }

  /** The roster part of processUserState. */
  function NoteUser(c: Client, us: UserState): Client {
    if us.session == c.session then c.(roster := RemoveFrom(c.roster, us.session, 0), log := c.log + [Left(us.session)])
    else if Knows(c.roster, us.session) then c.(roster := UpdateAll(c.roster, us))
    else c.(roster := c.roster + [NewEntry(us)], log := c.log + [Entered(us.session)])
  }

  /** processUserRemove */
  function NoteRemoval(c: Client, session: i32): Client {
    c.(roster := RemoveFrom(c.roster, session, 0), log := c.log + [Left(session)])
  }

  // ---------------------------------------------------------------- calls

  datatype CallOutcome = Busy(conference: i32) | Through(session: i32)
  datatype DisconnectOutcome = WrongChannel | NotOurs | Found(session: i32)

  function Pulled(e: Entry, c: Client): Entry {
    e.(calledBy := c.session, inCall := 1, conferenceId := c.channel)
  }

  function Released(e: Entry): Entry {
    e.(calledBy := 0, inCall := 0, conferenceId := -1)
  }

  /** The loop of callStation. */
  function CallFrom(c: Client, radioId: string, i: nat, session: i32): (Client, CallOutcome)
    decreases |c.roster| - i
  {
    if i >= |c.roster| then (c, Through(session))
    else
      var e := c.roster[i];
      if e.radioId != radioId then CallFrom(c, radioId, i + 1, session)
      else if e.conferenceId > 1 then (c, Busy(e.conferenceId))
      else CallFrom(c.(roster := c.roster[i := Pulled(e, c)]), radioId, i + 1, e.id)
  }

  /** callStation: the new state and the returned number. */
  function CallStation(c: Client, radioId: string): (Client, i32) {
    var (c', out) := CallFrom(c, radioId, 0, 0);
    match out
    case Busy(conference) => (c', conference)
    case Through(session) =>
      if session == 0 then (c', -1) else (Send(c', PullMessage(c, session)), 0)
  }

  function PullMessage(c: Client, session: i32): Outgoing {
    SetState(session, Some(c.session), Some(c.channel), false, false)
  }

  /** The loop of disconnectStation. */
  function DisconnectFrom(c: Client, radioId: string, i: nat, session: i32): (Client, DisconnectOutcome)
    decreases |c.roster| - i
  {
    if i >= |c.roster| then (c, Found(session))
    else
      var e := c.roster[i];
      if e.radioId != radioId then DisconnectFrom(c, radioId, i + 1, session)
      else if e.conferenceId != c.channel then (c, WrongChannel)
      else if e.calledBy != c.session then (c, NotOurs)
      else DisconnectFrom(c.(roster := c.roster[i := Released(e)]), radioId, i + 1, e.id)
  }

  function ReleaseMessage(c: Client, session: i32): Outgoing {
    SetState(session, Some(c.session), Some(1), true, true)
  }

  /** disconnectStation */
  function DisconnectStation(c: Client, radioId: string): (Client, i32) {
    var (c', out) := DisconnectFrom(c, radioId, 0, 0);
    match out
    case WrongChannel => (c', -2)
    case NotOurs => (c', -3)
    case Found(session) =>
      if session == 0 then (c', -1) else (Send(c', ReleaseMessage(c, session)), 0)
  }

  /** Is this one of the stations this client pulled into its present channel? */
  predicate InOurCall(c: Client, e: Entry) {
    e.calledBy == c.session && e.inCall == 1 && e.conferenceId == c.channel
  }

  /** disconnectAllStations */
  function DisconnectAllFrom(c: Client, i: nat): (c': Client)
    ensures c'.session == c.session && c'.channel == c.channel && |c'.roster| == |c.roster|
    decreases |c.roster| - i
  {
    if i >= |c.roster| then c
    else if InOurCall(c, c.roster[i]) then
      DisconnectAllFrom(Send(c.(roster := c.roster[i := Released(c.roster[i])]), ReleaseMessage(c, c.roster[i].id)), i + 1)
    else DisconnectAllFrom(c, i + 1)
  }

  function DisconnectAll(c: Client): Client {
    DisconnectAllFrom(c, 0)
  }

  /** disconnectFromCall */
  function LeaveCall(c: Client): Client {
    if c.channel < 2 then c else Send(c, SetState(c.session, None, Some(1), true, true))
  }

  /** joinChannel */
  function JoinChannel(c: Client, id: i32): Client {
    Send(c, SetState(c.session, None, Some(id), false, false)).(channel := id)
  }

  /** createChannel */
  function CreateChannel(c: Client, name: string): Client {
    Send(Send(c, MakeChannel(name)), SetState(c.session, Some(c.session), None, false, false))
  }

  // ---------------------------------------------------------------- the keypad driver

  datatype Driver = Driver(dialing: string, conference: i32)

  datatype Node = Node(client: Client, driver: Driver)

  /** channelReady: call whoever was dialled. */
  function ChannelReady(n: Node): Node {
    if n.driver.dialing == "" then n
    else
      var (c, res) := CallStation(n.client, n.driver.dialing);
      if res < 0 then Node(LeaveCall(c), Driver("", -1))
      else if res > 1 then Node(JoinChannel(c, res), Driver("", n.client.channel))
      else Node(c, Driver("", n.client.channel))
  }

  function Strip(keys: seq<char>, drop: set<char>): string {
    if keys == [] then "" else (if keys[0] in drop then "" else [keys[0]]) + Strip(keys[1..], drop)
  }

  /** haveCall; name is the random channel name. */
  function HaveCall(n: Node, keys: seq<char>, name: string): Node {
    var n' := n.(driver := n.driver.(dialing := Strip(keys, {'*', 'C', 'D'})));
    if n.driver.conference < 2 then n'.(client := CreateChannel(n.client, name)) else ChannelReady(n')
  }

  /** haveCommand */
  function HaveCommand(n: Node, keys: seq<char>): Node {
    var number := Strip(keys, {'*', 'D'});
    if number == "B" then Node(LeaveCall(n.client), n.driver.(conference := -1))
    else if number == "A" then Node(LeaveCall(DisconnectAll(n.client)), n.driver.(conference := -1))
    else if number == "#9" then n
    else n.(client := DisconnectStation(n.client, number).0)
  }

  /** processUserState, with the slot that channelReady calls in the middle. */
  function HaveUserState(n: Node, us: UserState): Node {
    var n' := n.(client := NoteChannel(n.client, us));
    var n'' := if AnnouncesChannel(n.client, us) then ChannelReady(n') else n';
    n''.(client := NoteUser(n''.client, us))
  }

  datatype Event =
    | GotUserState(us: UserState)
    | GotUserRemove(session: i32)
    | Dialled(keys: seq<char>, name: string)
    | Commanded(command: seq<char>)

  function Step(n: Node, ev: Event): Node {
    match ev
    case GotUserState(us) => HaveUserState(n, us)
    case GotUserRemove(session) => n.(client := NoteRemoval(n.client, session))
    case Dialled(keys, name) => HaveCall(n, keys, name)
    case Commanded(keys) => HaveCommand(n, keys)
  }

  function Run(n: Node, evs: seq<Event>): Node {
    if evs == [] then n else Step(Run(n, evs[..|evs| - 1]), evs[|evs| - 1])
  }
}
