/**
 What holds of the roster over every run of server messages, dialled numbers and commands, with no
 assumption on radio ids, session numbers or the server: sessions stay distinct, the vector refines
 a map from session to station that only server messages change, and the own session, once gone,
 does not come back.
 */
module RosterRuns {
  import opened Bytes
  import opened Options
  import opened Roster
  import opened RosterLaws

  // ---------------------------------------------------------------- calls keep the stations

  /** What calls and disconnects do not touch: who the station is and what the server said of it. */
  function Lasting(e: Entry): Entry {
    e.(inCall := 0, conferenceId := 0, calledBy := 0)
  }

  /** The same stations in the same order. */
  ghost predicate SameStations(r: seq<Entry>, r': seq<Entry>) {
    |r'| == |r| && forall i | 0 <= i < |r| :: Lasting(r'[i]) == Lasting(r[i])
  }

  lemma {:induction false} CallsKeepStations(c: Client, radioId: string, i: nat, session: i32)
    ensures SameStations(c.roster, CallFrom(c, radioId, i, session).0.roster)
    ensures CallFrom(c, radioId, i, session).0.session == c.session
    decreases |c.roster| - i
  {
    if i < |c.roster| {
      var e := c.roster[i];
      CallsKeepStations(c, radioId, i + 1, session);
      CallsKeepStations(c.(roster := c.roster[i := Pulled(e, c)]), radioId, i + 1, e.id);
    }
  }

  lemma {:induction false} DisconnectsKeepStations(c: Client, radioId: string, i: nat, session: i32)
    ensures SameStations(c.roster, DisconnectFrom(c, radioId, i, session).0.roster)
    ensures DisconnectFrom(c, radioId, i, session).0.session == c.session
    decreases |c.roster| - i
  {
    if i < |c.roster| {
      var e := c.roster[i];
      DisconnectsKeepStations(c, radioId, i + 1, session);
      DisconnectsKeepStations(c.(roster := c.roster[i := Released(e)]), radioId, i + 1, e.id);
    }
  }

  lemma ReadyKeepsStations(n: Node)
    ensures SameStations(n.client.roster, ChannelReady(n).client.roster)
    ensures ChannelReady(n).client.session == n.client.session
  {
    hide CallFrom;
    CallsKeepStations(n.client, n.driver.dialing, 0, 0);
  }

  lemma CallKeepsStations(n: Node, keys: seq<char>, name: string)
    ensures SameStations(n.client.roster, HaveCall(n, keys, name).client.roster)
    ensures HaveCall(n, keys, name).client.session == n.client.session
  {
    hide ChannelReady, Strip;
    ReadyKeepsStations(n.(driver := n.driver.(dialing := Strip(keys, {'*', 'C', 'D'}))));
  }

  lemma CommandKeepsStations(n: Node, keys: seq<char>)
    ensures SameStations(n.client.roster, HaveCommand(n, keys).client.roster)
    ensures HaveCommand(n, keys).client.session == n.client.session
  {
    hide DisconnectFrom, DisconnectAllFrom, Strip;
    DisconnectsKeepStations(n.client, Strip(keys, {'*', 'D'}), 0, 0);
    DisconnectAllIsExact(n.client);
  }

  /** The state in which processUserState reaches the vector. */
  function BeforeRoster(n: Node, us: UserState): Node {
    var n' := n.(client := NoteChannel(n.client, us));
    if AnnouncesChannel(n.client, us) then ChannelReady(n') else n'
  }

  lemma BeforeRosterKeepsStations(n: Node, us: UserState)
    ensures HaveUserState(n, us).client == NoteUser(BeforeRoster(n, us).client, us)
    ensures SameStations(n.client.roster, BeforeRoster(n, us).client.roster)
    ensures BeforeRoster(n, us).client.session == n.client.session
  {
    hide ChannelReady, NoteUser;
    ReadyKeepsStations(n.(client := NoteChannel(n.client, us)));
  }

  lemma SameStationsDistinct(r: seq<Entry>, r': seq<Entry>)
    requires SameStations(r, r')
    ensures Distinct(r) ==> Distinct(r')
    ensures forall id :: Knows(r', id) ==> Knows(r, id)
  {
    forall i | 0 <= i < |r|
      ensures r'[i].id == r[i].id
    {
      assert Lasting(r'[i]) == Lasting(r[i]);
    }
    forall id | Knows(r', id)
      ensures Knows(r, id)
    {
      var i :| 0 <= i < |r'| && r'[i].id == id;
      assert r[i].id == id;
    }
  }

  // ---------------------------------------------------------------- sessions stay distinct

  /** Distinct sessions stay distinct, whatever happens. */
  lemma StepKeepsDistinct(n: Node, ev: Event)
    requires Distinct(n.client.roster)
    ensures Distinct(Step(n, ev).client.roster) && Step(n, ev).client.session == n.client.session
  {
    hide Distinct, HaveUserState, HaveCall, HaveCommand, RemoveFrom, BeforeRoster;
    match ev {
      case GotUserState(us) =>
        var c := BeforeRoster(n, us).client;
        BeforeRosterKeepsStations(n, us);
        SameStationsDistinct(n.client.roster, c.roster);
        RosterIsAMap(c, us);
      case GotUserRemove(session) =>
        RemovalIsExact(n.client.roster, session);
        WithoutDistinct(n.client.roster, session);
      case Dialled(keys, name) =>
        CallKeepsStations(n, keys, name);
        SameStationsDistinct(n.client.roster, HaveCall(n, keys, name).client.roster);
      case Commanded(keys) =>
        CommandKeepsStations(n, keys);
        SameStationsDistinct(n.client.roster, HaveCommand(n, keys).client.roster);
    }
  }

  /** So over every run each removal loop deletes exactly the named session. */
  lemma {:induction false} RunKeepsDistinct(n: Node, evs: seq<Event>)
    requires Distinct(n.client.roster)
    ensures Distinct(Run(n, evs).client.roster) && Run(n, evs).client.session == n.client.session
    ensures var r := Run(n, evs).client.roster; forall id :: RemoveFrom(r, id, 0) == Without(r, id)
    decreases |evs|
  {
    hide Distinct, Step, RemoveFrom, Without;
    if evs != [] {
      RunKeepsDistinct(n, evs[..|evs| - 1]);
      StepKeepsDistinct(Run(n, evs[..|evs| - 1]), evs[|evs| - 1]);
    }
    forall id
      ensures RemoveFrom(Run(n, evs).client.roster, id, 0) == Without(Run(n, evs).client.roster, id)
    {
      RemovalIsExact(Run(n, evs).client.roster, id);
    }
  }

  // ---------------------------------------------------------------- the map over runs

  /** The stations by session, without the fields that calls change. */
  function Directory(r: seq<Entry>): map<i32, Entry> {
    map id | id in AsMap(r) :: Lasting(AsMap(r)[id])
  }

  /** What an event makes of the map. */
  function Heard(m: map<i32, Entry>, own: i32, ev: Event): map<i32, Entry> {
    match ev
    case GotUserState(us) =>
      if us.session == own then m - {own}
      else if us.session in m then m[us.session := Lasting(Updated(m[us.session], us))]
      else m[us.session := Lasting(NewEntry(us))]
    case GotUserRemove(session) => m - {session}
    case Dialled(_, _) => m
    case Commanded(_) => m
  }

  function HeardAll(m: map<i32, Entry>, own: i32, evs: seq<Event>): map<i32, Entry> {
    if evs == [] then m else Heard(HeardAll(m, own, evs[..|evs| - 1]), own, evs[|evs| - 1])
  }

  lemma {:induction false} SameDirectory(r: seq<Entry>, r': seq<Entry>)
    requires SameStations(r, r')
    ensures Directory(r') == Directory(r)
  {
    if r != [] {
      assert Lasting(r'[0]) == Lasting(r[0]);
      forall i | 0 <= i < |r[1..]|
        ensures Lasting(r'[1..][i]) == Lasting(r[1..][i])
      {
        assert Lasting(r'[i + 1]) == Lasting(r[i + 1]);
      }
      SameDirectory(r[1..], r'[1..]);
      DirectoryFirst(r);
      DirectoryFirst(r');
    }
  }

  lemma DirectoryFirst(r: seq<Entry>)
    requires r != []
    ensures Directory(r) == Directory(r[1..])[r[0].id := Lasting(r[0])]
  {
  }

  lemma LastingUpdate(e: Entry, us: UserState)
    ensures Lasting(Updated(Lasting(e), us)) == Lasting(Updated(e, us))
  {
  }

  lemma UserInDirectory(c: Client, us: UserState)
    requires Distinct(c.roster)
    ensures Directory(NoteUser(c, us).roster) == Heard(Directory(c.roster), c.session, GotUserState(us))
    ensures Directory(NoteRemoval(c, us.session).roster) == Directory(c.roster) - {us.session}
  {
    hide Distinct, NoteUser, NoteRemoval, Lasting, Updated, NewEntry, AsMap;
    RosterIsAMap(c, us);
    if us.session in AsMap(c.roster) {
      LastingUpdate(AsMap(c.roster)[us.session], us);
    }
  }

  lemma DirectoryStep(n: Node, ev: Event)
    requires Distinct(n.client.roster)
    ensures Directory(Step(n, ev).client.roster) == Heard(Directory(n.client.roster), n.client.session, ev)
  {
    hide Distinct, HaveUserState, HaveCall, HaveCommand, NoteRemoval, BeforeRoster, Directory;
    match ev {
      case GotUserState(us) =>
        var c := BeforeRoster(n, us).client;
        BeforeRosterKeepsStations(n, us);
        SameStationsDistinct(n.client.roster, c.roster);
        SameDirectory(n.client.roster, c.roster);
        UserInDirectory(c, us);
      case GotUserRemove(session) =>
        UserInDirectory(n.client, UserState(session, "", None, None, None, None, None));
      case Dialled(keys, name) =>
        CallKeepsStations(n, keys, name);
        SameDirectory(n.client.roster, HaveCall(n, keys, name).client.roster);
      case Commanded(keys) =>
        CommandKeepsStations(n, keys);
        SameDirectory(n.client.roster, HaveCommand(n, keys).client.roster);
    }
  }

  /**
   Over every run the vector stands for a map from session to station: another's UserState inserts
   or updates, our own and a UserRemove remove, and calls and commands change nothing in it.
   */
  lemma {:induction false} RunRefinesMap(n: Node, evs: seq<Event>)
    requires Distinct(n.client.roster)
    ensures Directory(Run(n, evs).client.roster) == HeardAll(Directory(n.client.roster), n.client.session, evs)
    ensures forall id :: Knows(Run(n, evs).client.roster, id)
                    <==> id in HeardAll(Directory(n.client.roster), n.client.session, evs)
    decreases |evs|
  {
    hide Distinct, Step, Heard, Knows;
    if evs != [] {
      var init := evs[..|evs| - 1];
      RunRefinesMap(n, init);
      RunKeepsDistinct(n, init);
      DirectoryStep(Run(n, init), evs[|evs| - 1]);
    }
    forall id
      ensures Knows(Run(n, evs).client.roster, id) <==> id in Directory(Run(n, evs).client.roster)
    {
      KeysOfMap(Run(n, evs).client.roster, id);
    }
  }

  // ---------------------------------------------------------------- the own session

  lemma {:induction false} SkippingKeeps(s: seq<Entry>, id: i32)
    ensures forall e <- Skipping(s, id) :: e in s
    decreases |s|
  {
    if s != [] {
      if s[0].id != id {
        SkippingKeeps(s[1..], id);
      } else if |s| > 1 {
        SkippingKeeps(s[2..], id);
      }
    }
  }

  lemma RemovalAddsNobody(r: seq<Entry>, id: i32, own: i32)
    requires !Knows(r, own)
    ensures !Knows(RemoveFrom(r, id, 0), own)
  {
    hide RemoveFrom, Skipping;
    RemoveFromSkips(r, id, 0);
    assert r[0..] == r && r[..0] + Skipping(r, id) == Skipping(r, id);
    SkippingKeeps(r, id);
    var s := RemoveFrom(r, id, 0);
    forall i | 0 <= i < |s|
      ensures s[i].id != own
    {
      assert s[i] in r;
    }
  }

  /** No step brings our own session into the roster. */
  lemma OwnStaysAway(n: Node, ev: Event)
    requires !Knows(n.client.roster, n.client.session)
    ensures !Knows(Step(n, ev).client.roster, n.client.session)
  {
    hide HaveUserState, HaveCall, HaveCommand, RemoveFrom, BeforeRoster, Knows;
    match ev {
      case GotUserState(us) =>
        var c := BeforeRoster(n, us).client;
        BeforeRosterKeepsStations(n, us);
        SameStationsDistinct(n.client.roster, c.roster);
        NoteUserAddsOthers(c, us);
      case GotUserRemove(session) =>
        RemovalAddsNobody(n.client.roster, session, n.client.session);
      case Dialled(keys, name) =>
        CallKeepsStations(n, keys, name);
        SameStationsDistinct(n.client.roster, HaveCall(n, keys, name).client.roster);
      case Commanded(keys) =>
        CommandKeepsStations(n, keys);
        SameStationsDistinct(n.client.roster, HaveCommand(n, keys).client.roster);
    }
  }

  lemma NoteUserAddsOthers(c: Client, us: UserState)
    requires !Knows(c.roster, c.session)
    ensures !Knows(NoteUser(c, us).roster, c.session)
  {
    hide RemoveFrom;
    RemovalAddsNobody(c.roster, us.session, c.session);
  }

  /** A UserState of our own removes our entry, and no run brings it back. */
  lemma {:induction false} OwnEntryGoesForGood(n: Node, us: UserState, evs: seq<Event>)
    requires Distinct(n.client.roster) && us.session == n.client.session
    ensures !Knows(Run(HaveUserState(n, us), evs).client.roster, n.client.session)
    decreases |evs|
  {
    hide Distinct, HaveUserState, Step, Knows;
    var n1 := HaveUserState(n, us);
    OwnMessage(n, us);
    if evs != [] {
      var init := evs[..|evs| - 1];
      OwnEntryGoesForGood(n, us, init);
      RunKeepsDistinct(n1, init);
      OwnStaysAway(Run(n1, init), evs[|evs| - 1]);
    }
  }

  lemma OwnMessage(n: Node, us: UserState)
    requires Distinct(n.client.roster) && us.session == n.client.session
    ensures var c := HaveUserState(n, us).client;
      Distinct(c.roster) && c.session == n.client.session && !Knows(c.roster, n.client.session)
  {
    hide Distinct, HaveUserState, BeforeRoster, RemoveFrom, Knows;
    var c := BeforeRoster(n, us).client;
    BeforeRosterKeepsStations(n, us);
    SameStationsDistinct(n.client.roster, c.roster);
    RemovalIsExact(c.roster, us.session);
    WithoutDistinct(c.roster, us.session);
  }
}
