/**
 What the server guarantees of the stations it introduces makes every call safe, so that over every
 run a station is sent home only while we hold it. Without the guarantee it is not so: the runs at
 the end, from an empty roster, send a station home that was never pulled.
 */
module ServerGuarantee {
  import opened Bytes
  import opened CallOwnership
  import opened Options
  import opened Roster
  import opened RosterLaws
  import opened RosterRuns

  /** Radio ids are distinct and no session is 0. */
  ghost predicate Named(r: seq<Entry>) {
    DistinctNames(r) && forall e <- r :: e.id != 0
  }

  /**
   What the server guarantees of its messages: a station it introduces has a nonzero session and a
   radio id that nobody present has.
   */
  ghost predicate Served(n: Node, ev: Event) {
    ev.GotUserState? && ev.us.session != n.client.session && !Knows(n.client.roster, ev.us.session)
    ==> ev.us.session != 0 && forall e <- n.client.roster :: e.radioId != ev.us.name
  }

  ghost predicate AllServed(n: Node, evs: seq<Event>) {
    evs == [] || (AllServed(n, evs[..|evs| - 1]) && Served(Run(n, evs[..|evs| - 1]), evs[|evs| - 1]))
  }

  // ---------------------------------------------------------------- the guarantee makes calls safe

  lemma NamedIsSafe(c: Client, radioId: string)
    requires Named(c.roster)
    ensures CallSafe(c, radioId)
  {
    hide Held;
    forall k | 0 <= k < |c.roster| && Reached(c.roster, radioId, 0, k)
      ensures c.roster[k].id != 0 && LastNamed(c.roster, radioId, k)
    {
      assert c.roster[k] in c.roster;
    }
  }

  lemma NamedStepIsSafe(n: Node, ev: Event)
    requires Named(n.client.roster)
    ensures StepSafe(n, ev)
  {
    hide Named, CallSafe;
    if ev.GotUserState? {
      NamedIsSafe(NoteChannel(n.client, ev.us), n.driver.dialing);
    } else if ev.Dialled? {
      NamedIsSafe(n.client, Strip(ev.keys, {'*', 'C', 'D'}));
    }
  }

  lemma SameStationsNamed(r: seq<Entry>, r': seq<Entry>)
    requires SameStations(r, r') && Named(r)
    ensures Named(r')
  {
    forall i | 0 <= i < |r|
      ensures r'[i].radioId == r[i].radioId && r'[i].id == r[i].id != 0
    {
      assert Lasting(r'[i]) == Lasting(r[i]) && r[i] in r;
    }
  }

  lemma RemovalNamed(r: seq<Entry>, id: i32)
    requires Named(r) && Distinct(r)
    ensures Named(RemoveFrom(r, id, 0))
  {
    hide RemoveFrom, Distinct, DistinctNames;
    RemovalIsExact(r, id);
    WithoutDistinctNames(r, id);
    WithoutHasNone(r, id);
  }

  lemma UpdateNamed(r: seq<Entry>, us: UserState)
    requires Named(r)
    ensures Named(UpdateAll(r, us))
  {
    hide Updated;
    var u := UpdateAll(r, us);
    forall i | 0 <= i < |r|
      ensures u[i].radioId == r[i].radioId && u[i].id == r[i].id != 0
    {
      UpdatedKeepsName(r[i], us);
      assert r[i] in r;
    }
  }

  lemma EntryNamed(r: seq<Entry>, us: UserState)
    requires Named(r) && us.session != 0 && forall e <- r :: e.radioId != us.name
    ensures Named(r + [NewEntry(us)])
  {
    hide NewEntry;
    NewIsUnmarked(us);
    var u := r + [NewEntry(us)];
    forall i, j | 0 <= i < j < |u|
      ensures u[i].radioId != u[j].radioId
    {
      assert u[i] in r;
    }
  }

  lemma UserNamed(c: Client, us: UserState)
    requires Named(c.roster) && Distinct(c.roster)
    requires us.session != c.session && !Knows(c.roster, us.session) ==>
      us.session != 0 && forall e <- c.roster :: e.radioId != us.name
    ensures Named(NoteUser(c, us).roster)
  {
    hide Named, Distinct, RemoveFrom, UpdateAll, NewEntry, Knows;
    if us.session == c.session {
      RemovalNamed(c.roster, us.session);
    } else if Knows(c.roster, us.session) {
      UpdateNamed(c.roster, us);
    } else {
      EntryNamed(c.roster, us);
    }
  }

  lemma StationsBack(r: seq<Entry>, r': seq<Entry>, name: string)
    requires SameStations(r, r') && forall e <- r :: e.radioId != name
    ensures forall e <- r' :: e.radioId != name
  {
    forall e | e in r'
      ensures e.radioId != name
    {
      var i :| 0 <= i < |r'| && r'[i] == e;
      assert Lasting(r'[i]) == Lasting(r[i]) && r[i] in r;
    }
  }

  lemma StationsSymmetric(r: seq<Entry>, r': seq<Entry>)
    requires SameStations(r, r')
    ensures SameStations(r', r)
  {
  }

  lemma NamedStep(n: Node, ev: Event)
    requires Named(n.client.roster) && Distinct(n.client.roster) && Served(n, ev)
    ensures Named(Step(n, ev).client.roster)
  {
    hide Named, Distinct, HaveUserState, HaveCall, HaveCommand, RemoveFrom, BeforeRoster, SameStations, Knows, NoteUser;
    match ev {
      case GotUserState(us) =>
        var r, c := n.client.roster, BeforeRoster(n, us).client;
        BeforeRosterKeepsStations(n, us);
        StationsSymmetric(r, c.roster);
        SameStationsDistinct(r, c.roster);
        SameStationsDistinct(c.roster, r);
        SameStationsNamed(r, c.roster);
        if us.session != c.session && !Knows(c.roster, us.session) {
          StationsBack(r, c.roster, us.name);
        }
        UserNamed(c, us);
      case GotUserRemove(session) =>
        RemovalNamed(n.client.roster, session);
      case Dialled(keys, name) =>
        CallKeepsStations(n, keys, name);
        SameStationsNamed(n.client.roster, HaveCall(n, keys, name).client.roster);
      case Commanded(keys) =>
        CommandKeepsStations(n, keys);
        SameStationsNamed(n.client.roster, HaveCommand(n, keys).client.roster);
    }
  }

  /** Served runs make only safe calls. */
  lemma {:induction false} ServedIsSafe(n: Node, evs: seq<Event>)
    requires Distinct(n.client.roster) && Named(n.client.roster) && AllServed(n, evs)
    ensures AllSafe(n, evs) && Named(Run(n, evs).client.roster)
    decreases |evs|
  {
    hide Distinct, Named, Served, StepSafe, Step;
    if evs != [] {
      var init := evs[..|evs| - 1];
      ServedIsSafe(n, init);
      RunKeepsDistinct(n, init);
      NamedStepIsSafe(Run(n, init), evs[|evs| - 1]);
      NamedStep(Run(n, init), evs[|evs| - 1]);
    }
  }

  /**
   From any quiet start (nothing sent, nobody called) with a nonzero own session: over every run,
   every release of another station was preceded by a pull of it with no release, arrival or
   departure of that station in between; and for every station releases never outnumber pulls.
   */
  lemma EveryReleaseIsOurs(n: Node, evs: seq<Event>, id: i32)
    requires n.client.session != 0 && n.client.log == [] && Distinct(n.client.roster) && Named(n.client.roster)
    requires forall e <- n.client.roster :: e.calledBy != n.client.session
    requires AllServed(n, evs)
    ensures var c := Run(n, evs).client;
      && ReleasesAreOwned(c.log, n.client.session)
      && Releases(c.log, n.client.session, id) <= Pulls(c.log, n.client.session, id)
  {
    hide Run, AllServed, AllSafe, Named, Distinct, Held;
    ServedIsSafe(n, evs);
    RunExact(n, evs);
    ReleasesBounded(Run(n, evs).client.log, n.client.session, id);
  }

  // ---------------------------------------------------------------- why the guarantee is needed

  function Start(own: i32): Node {
    Node(Client(own, -1, [], []), Driver("", -1))
  }

  function Comes(id: i32, name: string, channel: Option<i32>): Event {
    GotUserState(UserState(id, name, channel, None, None, None, None))
  }

  function Newcomer(id: i32, name: string, channel: i32): Entry {
    Entry(id, name, "", 0, channel, 0, None, None)
  }

  lemma RunNext(n: Node, evs: seq<Event>, ev: Event)
    ensures Run(n, evs + [ev]) == Step(Run(n, evs), ev)
  {
    assert (evs + [ev])[..|evs|] == evs;
  }

  lemma CountNext(log: seq<Note>, n: Note, own: i32, id: i32)
    ensures Pulls(log + [n], own, id) == Pulls(log, own, id) + if IsPull(n, own, id) then 1 else 0
    ensures Releases(log + [n], own, id) == Releases(log, own, id) + if IsRelease(n, own, id) then 1 else 0
  {
    assert (log + [n])[..|log|] == log;
  }

  /** Another station appears: one entry and one note more. */
  lemma Introduced(n: Node, id: i32, name: string, channel: Option<i32>)
    requires id != n.client.session && n.client.session != -1 && !Knows(n.client.roster, id)
    ensures Step(n, Comes(id, name, channel)) == n.(client := n.client.(
      roster := n.client.roster + [Newcomer(id, name, Or(channel, 0))], log := n.client.log + [Entered(id)]))
  {
    hide ChannelReady;
  }

  /** The number 1 is dialled outside a conference. */
  lemma OneDialled(n: Node)
    requires n.driver.conference < 2
    ensures Step(n, Dialled("1C", "x")) == Node(CreateChannel(n.client, "x"), n.driver.(dialing := "1"))
  {
    hide ChannelReady, CreateChannel;
    StripOne();
  }

  lemma StripOne()
    ensures Strip("1C", {'*', 'C', 'D'}) == "1" && Strip("AD", {'*', 'D'}) == "A" && Strip("1D", {'*', 'D'}) == "1"
  {
    assert "1C"[1..] == "C" && "C"[1..] == "" && "AD"[1..] == "D" && "D"[1..] == "" && "1D"[1..] == "D";
  }

  /** Our channel is announced while 1 is being dialled. */
  lemma Announced(n: Node, roster: seq<Entry>, id: i32)
    requires n.client.session == 7 && n.driver.dialing == "1"
    requires forall e <- roster :: e.id != 7
    requires var c := n.client.(channel := 5);
      CallStation(c, "1") ==
        if id == 0 then (c.(roster := roster), -1) else (Send(c.(roster := roster), PullMessage(c, id)), 0)
    ensures var c := n.client.(channel := 5, roster := roster);
      Step(n, Comes(7, "", Some(5))).client ==
        if id == 0 then c.(log := c.log + [Sent(SetState(7, None, Some(1), true, true))] + [Left(7)])
        else c.(log := c.log + [Sent(SetState(id, Some(7), Some(5), false, false))] + [Left(7)])
  {
    hide CallStation, RemoveFrom;
    NobodyRemoved(roster, 7);
    RemoveFromSkips(roster, 7, 0);
    assert roster[0..] == roster && roster[..0] + Skipping(roster, 7) == Skipping(roster, 7);
  }

  lemma {:induction false} NobodyRemoved(r: seq<Entry>, id: i32)
    requires forall e <- r :: e.id != id
    ensures Skipping(r, id) == r
  {
    if r != [] {
      NobodyRemoved(r[1..], id);
    }
  }

  lemma AllDismissed(n: Node)
    requires n.client.channel == 5
    ensures Step(n, Commanded("AD")).client ==
      Send(DisconnectAll(n.client), SetState(n.client.session, None, Some(1), true, true))
  {
    hide DisconnectAll;
    StripOne();
    DisconnectAllIsExact(n.client);
  }

  lemma BothMarked(c: Client, a: Entry, b: Entry)
    requires c.roster == [a, b] && a.radioId == b.radioId == "1" && a.conferenceId <= 1 && b.conferenceId <= 1
    requires b.id != 0
    ensures CallStation(c, "1") == (Send(c.(roster := [Pulled(a, c), Pulled(b, c)]), PullMessage(c, b.id)), 0)
  {
    var c1 := c.(roster := [Pulled(a, c), b]);
    var c2 := c.(roster := [Pulled(a, c), Pulled(b, c)]);
    assert c.roster[0 := Pulled(a, c)] == c1.roster && c1.roster[1 := Pulled(b, c)] == c2.roster;
    assert CallFrom(c, "1", 0, 0) == CallFrom(c1, "1", 1, a.id) == CallFrom(c2, "1", 2, b.id) == (c2, Through(b.id));
  }

  lemma OneMarked(c: Client, a: Entry)
    requires c.roster == [a] && a.radioId == "1" && a.conferenceId <= 1 && a.id == 0
    ensures CallStation(c, "1") == (c.(roster := [Pulled(a, c)]), -1)
  {
    var c1 := c.(roster := [Pulled(a, c)]);
    assert c.roster[0 := Pulled(a, c)] == c1.roster;
    assert CallFrom(c, "1", 0, 0) == CallFrom(c1, "1", 1, 0) == (c1, Through(0));
  }

  function SharedRadioId(): seq<Event> {
    [Comes(1, "1", None), Comes(2, "1", None), Dialled("1C", "x"), Comes(7, "", Some(5)), Commanded("AD")]
  }

  /** Two stations under one radio id: calling it pulls one and marks both, and both are sent home. */
  lemma SharedRadioIdBreaksOwnership()
    ensures var log := Run(Start(7), SharedRadioId()).client.log;
      Pulls(log, 7, 1) == 0 && Releases(log, 7, 1) == 1 && !ReleasesAreOwned(log, 7)
  {
    hide Run, Step, Pulls, Releases, ReleasesAreOwned, DisconnectAll, CallStation;
    var a, b := Newcomer(1, "1", 0), Newcomer(2, "1", 0);
    var n4 := SharedCall();
    var c := n4.client;
    AllDismissed(n4);
    DisconnectAllIsExact(c);
    var r1, r2 := Sent(ReleaseMessage(c, 1)), Sent(ReleaseMessage(c, 2));
    assert c.roster[1..][1..] == [];
    assert ReleaseNotes(c, c.roster[1..]) == [r2] + [];
    assert ReleaseNotes(c, c.roster) == [r1] + ([r2] + []);
    var last := Sent(SetState(7, None, Some(1), true, true));
    var log := Run(Start(7), SharedRadioId()).client.log;
    assert log == c.log + [r1] + [r2] + [last];
    CountNext(c.log, r1, 7, 1);
    CountNext(c.log + [r1], r2, 7, 1);
    CountNext(c.log + [r1] + [r2], last, 7, 1);
    MoreThanPulled(log, 7, 1);
  }

  lemma MoreThanPulled(log: seq<Note>, own: i32, id: i32)
    requires Releases(log, own, id) > Pulls(log, own, id)
    ensures !ReleasesAreOwned(log, own)
  {
    hide Releases, Pulls, ReleasesAreOwned;
    if ReleasesAreOwned(log, own) {
      ReleasesBounded(log, own, id);
    }
  }

  /** The first four events: only the second station is pulled, both are marked. */
  lemma SharedCall() returns (n4: Node)
    ensures Run(Start(7), SharedRadioId()) == Step(n4, Commanded("AD"))
    ensures n4.client.session == 7 && n4.client.channel == 5
    ensures n4.client.roster == [Pulled(Newcomer(1, "1", 0), n4.client), Pulled(Newcomer(2, "1", 0), n4.client)]
    ensures Pulls(n4.client.log, 7, 1) == 0 && Releases(n4.client.log, 7, 1) == 0
  {
    hide Run, Step, Pulls, Releases, CallStation;
    var s, a, b := SharedRadioId(), Newcomer(1, "1", 0), Newcomer(2, "1", 0);
    var n0 := Start(7);
    FiveEvents(n0, s);
    Introduced(n0, 1, "1", None);
    var n1 := Step(n0, s[0]);
    assert n1.client.roster == [a];
    Introduced(n1, 2, "1", None);
    var n2 := Step(n1, s[1]);
    assert n2.client.roster == [a, b] && n2.client.log == [] + [Entered(1)] + [Entered(2)];
    OneDialled(n2);
    var n3 := Step(n2, s[2]);
    var m, u := Sent(MakeChannel("x")), Sent(SetState(7, Some(7), None, false, false));
    assert n3.client.log == [] + [Entered(1)] + [Entered(2)] + [m] + [u];
    var c := n3.client.(channel := 5);
    BothMarked(c, a, b);
    Announced(n3, [Pulled(a, c), Pulled(b, c)], 2);
    n4 := Step(n3, s[3]);
    var p := Sent(SetState(2, Some(7), Some(5), false, false));
    NothingCounted(7, 1);
    CountNext([], Entered(1), 7, 1);
    CountNext([] + [Entered(1)], Entered(2), 7, 1);
    CountNext([] + [Entered(1)] + [Entered(2)], m, 7, 1);
    CountNext([] + [Entered(1)] + [Entered(2)] + [m], u, 7, 1);
    CountNext(n3.client.log, p, 7, 1);
    CountNext(n3.client.log + [p], Left(7), 7, 1);
  }

  lemma NothingCounted(own: i32, id: i32)
    ensures Pulls([], own, id) == 0 && Releases([], own, id) == 0
  {
  }

  lemma FiveEvents(n: Node, s: seq<Event>)
    requires |s| == 5
    ensures Run(n, s) == Step(Step(Step(Step(Step(n, s[0]), s[1]), s[2]), s[3]), s[4])
  {
    hide Step;
    FourEvents(n, s[..4]);
    RunNext(n, s[..4], s[4]);
    assert s == s[..4] + [s[4]];
  }

  lemma FourEvents(n: Node, s: seq<Event>)
    requires |s| == 4
    ensures Run(n, s) == Step(Step(Step(Step(n, s[0]), s[1]), s[2]), s[3])
  {
    hide Step;
    RunNext(n, [], s[0]);
    RunNext(n, [s[0]], s[1]);
    RunNext(n, [s[0], s[1]], s[2]);
    RunNext(n, [s[0], s[1], s[2]], s[3]);
    assert [] + [s[0]] == [s[0]] && [s[0]] + [s[1]] == [s[0], s[1]] && [s[0], s[1]] + [s[2]] == [s[0], s[1], s[2]];
    assert [s[0], s[1], s[2]] + [s[3]] == s;
  }

  function SessionZero(): seq<Event> {
    [Comes(0, "1", None), Dialled("1C", "x"), Comes(7, "", Some(5)), Commanded("AD")]
  }

  /** A station with session 0 is marked as called, but no message moves it; it is sent home all the same. */
  lemma SessionZeroBreaksOwnership()
    ensures var log := Run(Start(7), SessionZero()).client.log;
      Pulls(log, 7, 0) == 0 && Releases(log, 7, 0) == 1 && !ReleasesAreOwned(log, 7)
  {
    hide Run, Step, Pulls, Releases, ReleasesAreOwned, DisconnectAll, CallStation;
    var s, a := SessionZero(), Newcomer(0, "1", 0);
    var n0 := Start(7);
    FourEvents(n0, s);
    Introduced(n0, 0, "1", None);
    var n1 := Step(n0, s[0]);
    assert n1.client.roster == [a] && n1.client.log == [] + [Entered(0)];
    OneDialled(n1);
    var n2 := Step(n1, s[1]);
    var m, u := Sent(MakeChannel("x")), Sent(SetState(7, Some(7), None, false, false));
    assert n2.client.log == [] + [Entered(0)] + [m] + [u];
    var c := n2.client.(channel := 5);
    OneMarked(c, a);
    Announced(n2, [Pulled(a, c)], 0);
    var n3 := Step(n2, s[2]);
    var d, leave := n3.client, Sent(SetState(7, None, Some(1), true, true));
    AllDismissed(n3);
    DisconnectAllIsExact(d);
    var r := Sent(ReleaseMessage(d, 0));
    assert d.roster[1..] == [] && ReleaseNotes(d, d.roster) == [r] + [];
    var log := Run(n0, s).client.log;
    assert log == d.log + [r] + [leave];
    NothingCounted(7, 0);
    CountNext([], Entered(0), 7, 0);
    CountNext([] + [Entered(0)], m, 7, 0);
    CountNext([] + [Entered(0)] + [m], u, 7, 0);
    CountNext(n2.client.log, leave, 7, 0);
    CountNext(n2.client.log + [leave], Left(7), 7, 0);
    CountNext(d.log, r, 7, 0);
    CountNext(d.log + [r], leave, 7, 0);
    MoreThanPulled(log, 7, 0);
  }

  function OwnSessionZero(): seq<Event> {
    [Comes(0, "", Some(5)), Comes(1, "1", Some(5)), Commanded("1D")]
  }

  /** With own session 0 every station counts as called by us: one in our channel is sent home uncalled. */
  lemma OwnSessionZeroBreaksOwnership()
    ensures var log := Run(Start(0), OwnSessionZero()).client.log;
      Pulls(log, 0, 1) == 0 && Releases(log, 0, 1) == 1 && !ReleasesAreOwned(log, 0)
  {
    hide Run, Step, Pulls, Releases, ReleasesAreOwned;
    var s, a := OwnSessionZero(), Newcomer(1, "1", 5);
    var n0 := Start(0);
    ThreeEvents(n0, s);
    var n1 := Step(n0, s[0]);
    OwnChannel();
    Introduced(n1, 1, "1", Some(5));
    var n2 := Step(n1, s[1]);
    assert n2.client == Client(0, 5, [a], [] + [Left(0)] + [Entered(1)]);
    var r := Sent(ReleaseMessage(n2.client, 1));
    OneReleased(n2, a);
    var log := Run(n0, s).client.log;
    assert log == [] + [Left(0)] + [Entered(1)] + [r];
    NothingCounted(0, 1);
    CountNext([], Left(0), 0, 1);
    CountNext([] + [Left(0)], Entered(1), 0, 1);
    CountNext([] + [Left(0)] + [Entered(1)], r, 0, 1);
    MoreThanPulled(log, 0, 1);
  }

  lemma ThreeEvents(n: Node, s: seq<Event>)
    requires |s| == 3
    ensures Run(n, s) == Step(Step(Step(n, s[0]), s[1]), s[2])
  {
    hide Step;
    RunNext(n, [], s[0]);
    RunNext(n, [s[0]], s[1]);
    RunNext(n, [s[0], s[1]], s[2]);
    assert [] + [s[0]] == [s[0]] && [s[0]] + [s[1]] == [s[0], s[1]] && [s[0], s[1]] + [s[2]] == s;
  }

  lemma OwnChannel()
    ensures Step(Start(0), Comes(0, "", Some(5))) == Node(Client(0, 5, [], [Left(0)]), Driver("", -1))
  {
    assert [] + [Left(0)] == [Left(0)];
  }

  lemma OneReleased(n: Node, a: Entry)
    requires n.client.roster == [a] && a.radioId == "1" && a.conferenceId == n.client.channel && a.id != 0
    requires a.calledBy == n.client.session
    ensures Step(n, Commanded("1D")).client ==
      Send(n.client.(roster := [Released(a)]), ReleaseMessage(n.client, a.id))
  {
    hide DisconnectAll;
    StripOne();
    var c, c1 := n.client, n.client.(roster := [Released(a)]);
    assert c.roster[0 := Released(a)] == c1.roster;
    assert DisconnectFrom(c, "1", 0, 0) == DisconnectFrom(c1, "1", 1, a.id) == (c1, Found(a.id));
  }
}
