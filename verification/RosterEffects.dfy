/**
 What server messages, calls and keypad commands do to the roster, the channel, the driver and the
 server, spelled out field by field and message by message; and what a station's conference is
 after the last UserState that names it.
 */
module RosterEffects {
  import opened Bytes
  import opened CallOwnership
  import opened Options
  import opened Roster
  import opened RosterLaws
  import opened RosterRuns

  // ---------------------------------------------------------------- UserState

  /** A UserState of another session rewrites the stations of that session and no others. */
  lemma OthersUserState(n: Node, us: UserState, i: nat)
    requires us.session != n.client.session && i < |n.client.roster|
    ensures var r := HaveUserState(n, us).client.roster;
      && |r| >= |n.client.roster|
      && var e, e' := n.client.roster[i], r[i];
      && (e.id != us.session ==> e' == e)
      && (e.id == us.session ==>
            && e'.id == e.id && e'.radioId == e.radioId && e'.inCall == e.inCall && e'.calledBy == e.calledBy
            && e'.conferenceId == (if us.channelId.Some? then us.channelId.value else 0)
            && e'.mute == (if us.selfMute.Some? then us.selfMute else e.mute)
            && e'.deaf == (if us.deaf.None? then e.deaf
                           else if us.selfDeaf.Some? then us.selfDeaf else Some(false))
            && e'.callsign == (if us.comment.Some? then us.comment.value else e.callsign))
  {
    hide ChannelReady;
    if !Knows(n.client.roster, us.session) {
      assert n.client.roster[i].id != us.session;
    }
  }

  /** One that names a session not present adds a station at the end, and only such a one does. */
  lemma NewUserState(n: Node, us: UserState)
    requires us.session != n.client.session
    ensures var r, r' := n.client.roster, HaveUserState(n, us).client.roster;
      if exists i | 0 <= i < |r| :: r[i].id == us.session then |r'| == |r| && HaveUserState(n, us).client.log == n.client.log
      else
        && |r'| == |r| + 1 && r'[..|r|] == r
        && r'[|r|] == Entry(us.session, us.name, if us.comment.Some? then us.comment.value else "", 0,
                            if us.channelId.Some? then us.channelId.value else 0, 0, us.selfMute,
                            if us.deaf.None? then None else if us.selfDeaf.Some? then us.selfDeaf else Some(false))
        && HaveUserState(n, us).client.log == n.client.log + [Entered(us.session)]
  {
    hide ChannelReady;
  }

  /** The channel, and the driver, after a UserState that does not announce a conference channel of ours. */
  lemma ChannelAfter(n: Node, us: UserState)
    requires !(us.session == n.client.session && us.channelId.Some? && us.channelId.value > 1)
    ensures var n' := HaveUserState(n, us);
      && n'.driver == n.driver && n'.client.session == n.client.session
      && (us.channelId.Some? && us.session == n.client.session ==> n'.client.channel == us.channelId.value)
      && (us.channelId.Some? && n.client.session == -1 ==> n'.client.channel == us.channelId.value)
      && (us.channelId.None? ==> n'.client.channel == n.client.channel)
      && (us.session != n.client.session && n.client.session != -1 ==> n'.client.channel == n.client.channel)
      && (us.session == n.client.session ==> n'.client.log == n.client.log + [Left(us.session)])
  {
    hide ChannelReady, RemoveFrom, UpdateAll, NewEntry, Knows;
  }

  /** What the removal loops leave: of each station, itself unless it is of the session; and the rest in order. */
  lemma WithoutFirst(e: Entry, s: seq<Entry>, id: i32)
    ensures Without([], id) == []
    ensures Without([e] + s, id) == if e.id == id then Without(s, id) else [e] + Without(s, id)
  {
    assert ([e] + s)[1..] == s;
    assert [] + Without(s, id) == Without(s, id);
  }

  // ---------------------------------------------------------------- calls and disconnects

  /** A call to the station at k, the only one of its radio id. */
  lemma CallEffect(c: Client, k: nat)
    requires DistinctNames(c.roster) && k < |c.roster|
    ensures var e := c.roster[k];
      var pulled := c.roster[k := Entry(e.id, e.radioId, e.callsign, 1, c.channel, c.session, e.mute, e.deaf)];
      CallStation(c, e.radioId) ==
        if e.conferenceId > 1 then (c, e.conferenceId)
        else if e.id == 0 then (c.(roster := pulled), -1)
        else (c.(roster := pulled, log := c.log + [Sent(SetState(e.id, Some(c.session), Some(c.channel), false, false))]), 0)
  {
    hide CallStation, DisconnectStation, DistinctNames;
    OnlyTheNamedStation(c, c.roster[k].radioId);
    FindIsOnly(c.roster, c.roster[k].radioId, k);
  }

  /** A disconnect of the station at k, the only one of its radio id. */
  lemma DisconnectEffect(c: Client, k: nat)
    requires DistinctNames(c.roster) && k < |c.roster|
    ensures var e := c.roster[k];
      var released := c.roster[k := Entry(e.id, e.radioId, e.callsign, 0, -1, 0, e.mute, e.deaf)];
      DisconnectStation(c, e.radioId) ==
        if e.conferenceId != c.channel then (c, -2)
        else if e.calledBy != c.session then (c, -3)
        else if e.id == 0 then (c.(roster := released), -1)
        else (c.(roster := released, log := c.log + [Sent(SetState(e.id, Some(c.session), Some(1), true, true))]), 0)
  {
    hide CallStation, DisconnectStation, DistinctNames;
    OnlyTheNamedStation(c, c.roster[k].radioId);
    FindIsOnly(c.roster, c.roster[k].radioId, k);
  }

  /** Neither does anything when nobody has the radio id. */
  lemma NobodyNamedSo(c: Client, radioId: string)
    requires forall e <- c.roster :: e.radioId != radioId
    ensures CallStation(c, radioId) == (c, -1) && DisconnectStation(c, radioId) == (c, -1)
  {
    hide CallFrom, DisconnectFrom;
    CallPast(c, radioId, 0, 0);
  }

  /** Releasing everybody: the stations held in our channel, each with its message, in roster order. */
  lemma ReleaseAllEffect(c: Client, k: nat)
    requires k < |c.roster|
    ensures var d, e := DisconnectAll(c), c.roster[k];
      && |d.roster| == |c.roster| && d.session == c.session && d.channel == c.channel
      && d.log == c.log + ReleaseNotes(c, c.roster)
      && d.roster[k] ==
           if e.calledBy == c.session && e.inCall == 1 && e.conferenceId == c.channel
           then Entry(e.id, e.radioId, e.callsign, 0, -1, 0, e.mute, e.deaf) else e
  {
    hide DisconnectAll, ReleaseNotes;
    DisconnectAllIsExact(c);
  }

  // ---------------------------------------------------------------- keypad commands

  /** Stripping drops the control keys and keeps the others in order. */
  lemma StripFirst(k: char, s: seq<char>, drop: set<char>)
    ensures Strip("", drop) == ""
    ensures Strip([k] + s, drop) == if k in drop then Strip(s, drop) else [k] + Strip(s, drop)
  {
    assert ([k] + s)[1..] == s;
    assert "" + Strip(s, drop) == Strip(s, drop);
  }

  /** B: leave the conference. The roster stays; what is being dialled stays. */
  lemma CommandB(n: Node, keys: seq<char>)
    requires Strip(keys, {'*', 'D'}) == "B"
    ensures HaveCommand(n, keys) == Node(
      n.client.(log := n.client.log +
        if n.client.channel >= 2 then [Sent(SetState(n.client.session, None, Some(1), true, true))] else []),
      Driver(n.driver.dialing, -1))
  {
    hide Strip;
    assert n.client.log + [] == n.client.log;
  }

  /** A: release everybody, then leave. */
  lemma CommandA(n: Node, keys: seq<char>)
    requires Strip(keys, {'*', 'D'}) == "A"
    ensures var n', c := HaveCommand(n, keys), n.client;
      && n'.driver == Driver(n.driver.dialing, -1) && n'.client.session == c.session && n'.client.channel == c.channel
      && n'.client.log == c.log + ReleaseNotes(c, c.roster)
           + (if c.channel >= 2 then [Sent(SetState(c.session, None, Some(1), true, true))] else [])
      && |n'.client.roster| == |c.roster|
      && forall k | 0 <= k < |c.roster| :: var e := c.roster[k];
           n'.client.roster[k] ==
             if e.calledBy == c.session && e.inCall == 1 && e.conferenceId == c.channel
             then Entry(e.id, e.radioId, e.callsign, 0, -1, 0, e.mute, e.deaf) else e
  {
    hide Strip, DisconnectAll, ReleaseNotes;
    DisconnectAllIsExact(n.client);
    var d := DisconnectAll(n.client);
    assert d.log + [] == d.log;
  }

  /** #9 only speaks. */
  lemma Command9(n: Node, keys: seq<char>)
    requires Strip(keys, {'*', 'D'}) == "#9"
    ensures HaveCommand(n, keys) == n
  {
    hide Strip;
  }

  /** Any other number disconnects the station of that radio id, if it is one we called into our channel. */
  lemma CommandNumber(n: Node, keys: seq<char>, k: nat)
    requires Strip(keys, {'*', 'D'}) !in {"A", "B", "#9"} && DistinctNames(n.client.roster)
    ensures (forall e <- n.client.roster :: e.radioId != Strip(keys, {'*', 'D'})) ==> HaveCommand(n, keys) == n
    ensures k < |n.client.roster| && n.client.roster[k].radioId == Strip(keys, {'*', 'D'}) ==>
      var c, e := n.client, n.client.roster[k];
      HaveCommand(n, keys) ==
        if e.conferenceId != c.channel || e.calledBy != c.session then n
        else Node(
          c.(roster := c.roster[k := Entry(e.id, e.radioId, e.callsign, 0, -1, 0, e.mute, e.deaf)],
             log := c.log + if e.id == 0 then [] else [Sent(SetState(e.id, Some(c.session), Some(1), true, true))]),
          n.driver)
  {
    hide Strip, DisconnectStation, DistinctNames;
    var number := Strip(keys, {'*', 'D'});
    assert n.client.log + [] == n.client.log;
    if forall e <- n.client.roster :: e.radioId != number {
      NobodyNamedSo(n.client, number);
    }
    if k < |n.client.roster| && n.client.roster[k].radioId == number {
      DisconnectEffect(n.client, k);
    }
  }

  // ---------------------------------------------------------------- a station left alone

  /** The event neither names the session nor calls or disconnects the radio id, nor dismisses everybody. */
  predicate LeavesAlone(n: Node, ev: Event, id: i32, radioId: string) {
    match ev
    case GotUserState(us) =>
      us.session != id
      && (us.session == n.client.session && us.channelId.Some? && us.channelId.value > 1 ==>
            n.driver.dialing == "" || n.driver.dialing != radioId)
    case GotUserRemove(session) => session != id
    case Dialled(keys, _) =>
      n.driver.conference >= 2 ==> Strip(keys, {'*', 'C', 'D'}) == "" || Strip(keys, {'*', 'C', 'D'}) != radioId
    case Commanded(keys) => Strip(keys, {'*', 'D'}) != "A" && Strip(keys, {'*', 'D'}) != radioId
  }

  predicate AllLeaveAlone(n: Node, evs: seq<Event>, id: i32, radioId: string) {
    evs == [] ||
    (AllLeaveAlone(n, evs[..|evs| - 1], id, radioId)
     && LeavesAlone(Run(n, evs[..|evs| - 1]), evs[|evs| - 1], id, radioId))
  }

  lemma {:induction false} SkippingKeepsOthers(s: seq<Entry>, id: i32, e: Entry)
    requires e in s && e.id != id
    ensures e in Skipping(s, id)
    decreases |s|
  {
    hide Skipping;
    SkippingTurn(s, id);
    if s[0].id != id {
      if s[0] != e {
        assert e in s[1..];
        SkippingKeepsOthers(s[1..], id, e);
      }
    } else {
      assert e in s[1..];
      if s[1] != e {
        assert s[1..] == [s[1]] + s[2..];
        assert e in s[2..];
        SkippingKeepsOthers(s[2..], id, e);
      }
    }
  }

  lemma RemovalKeepsOthers(r: seq<Entry>, id: i32, e: Entry)
    requires e in r && e.id != id
    ensures e in RemoveFrom(r, id, 0)
  {
    hide RemoveFrom, Skipping;
    RemoveFromSkips(r, id, 0);
    assert r[0..] == r && r[..0] + Skipping(r, id) == Skipping(r, id);
    SkippingKeepsOthers(r, id, e);
  }

  lemma ReadyLeavesAlone(n: Node, e: Entry)
    requires e in n.client.roster && (n.driver.dialing == "" || n.driver.dialing != e.radioId)
    ensures e in ChannelReady(n).client.roster
  {
    hide CallStation, Reached, CallFrom;
    var number := n.driver.dialing;
    CallRoster(n.client, number);
    var k :| 0 <= k < |n.client.roster| && n.client.roster[k] == e;
    if number != "" {
      NotReached(n.client.roster, number, k);
      assert CallStation(n.client, number).0.roster[k] == e;
    }
  }

  lemma NotReached(r: seq<Entry>, radioId: string, k: nat)
    requires k < |r| && r[k].radioId != radioId
    ensures !Reached(r, radioId, 0, k)
  {
  }

  lemma {:induction false} DisconnectLeavesAlone(c: Client, radioId: string, i: nat, session: i32, k: nat)
    requires k < |c.roster| && c.roster[k].radioId != radioId
    ensures var d := DisconnectFrom(c, radioId, i, session).0;
      |d.roster| == |c.roster| && d.roster[k] == c.roster[k]
    decreases |c.roster| - i
  {
    if i < |c.roster| {
      var e := c.roster[i];
      DisconnectLeavesAlone(c, radioId, i + 1, session, k);
      if e.radioId == radioId {
        DisconnectLeavesAlone(c.(roster := c.roster[i := Released(e)]), radioId, i + 1, e.id, k);
      }
    }
  }

  lemma CommandLeavesAlone(n: Node, keys: seq<char>, e: Entry)
    requires e in n.client.roster && LeavesAlone(n, Commanded(keys), e.id, e.radioId)
    ensures e in HaveCommand(n, keys).client.roster
  {
    hide DisconnectFrom, Strip, DisconnectAll;
    var k :| 0 <= k < |n.client.roster| && n.client.roster[k] == e;
    DisconnectLeavesAlone(n.client, Strip(keys, {'*', 'D'}), 0, 0, k);
  }

  lemma UserStateLeavesAlone(c: Client, us: UserState, e: Entry)
    requires e in c.roster && us.session != e.id
    ensures e in NoteUser(c, us).roster
  {
    hide RemoveFrom, NewEntry, Updated, Knows;
    RemovalKeepsOthers(c.roster, us.session, e);
    var k :| 0 <= k < |c.roster| && c.roster[k] == e;
    assert UpdateAll(c.roster, us)[k] == e;
  }

  lemma StepLeavesAlone(n: Node, ev: Event, e: Entry)
    requires e in n.client.roster && LeavesAlone(n, ev, e.id, e.radioId)
    ensures e in Step(n, ev).client.roster
  {
    hide ChannelReady, NoteUser, HaveCommand, RemoveFrom, Strip;
    match ev {
      case GotUserState(us) =>
        var n' := n.(client := NoteChannel(n.client, us));
        if AnnouncesChannel(n.client, us) {
          ReadyLeavesAlone(n', e);
        }
        BeforeRosterKeepsStations(n, us);
        UserStateLeavesAlone(BeforeRoster(n, us).client, us, e);
      case GotUserRemove(session) => RemovalKeepsOthers(n.client.roster, session, e);
      case Dialled(keys, name) =>
        var n' := n.(driver := n.driver.(dialing := Strip(keys, {'*', 'C', 'D'})));
        if n.driver.conference >= 2 {
          ReadyLeavesAlone(n', e);
        }
      case Commanded(keys) => CommandLeavesAlone(n, keys, e);
    }
  }

  lemma {:induction false} RunLeavesAlone(n: Node, evs: seq<Event>, e: Entry)
    requires e in n.client.roster && AllLeaveAlone(n, evs, e.id, e.radioId)
    ensures e in Run(n, evs).client.roster
    decreases |evs|
  {
    hide Step, LeavesAlone;
    if evs != [] {
      RunLeavesAlone(n, evs[..|evs| - 1], e);
      StepLeavesAlone(Run(n, evs[..|evs| - 1]), evs[|evs| - 1], e);
    }
  }

  /**
   After another station's UserState its conference is the channel the message carries, or 0; and so
   it stays over every run that neither names its session nor calls or disconnects its radio id.
   */
  lemma ConferenceOverRuns(n: Node, us: UserState, e: Entry, later: seq<Event>)
    requires us.session != n.client.session
    requires e in HaveUserState(n, us).client.roster && e.id == us.session
    requires AllLeaveAlone(HaveUserState(n, us), later, e.id, e.radioId)
    ensures e.conferenceId == (if us.channelId.Some? then us.channelId.value else 0)
    ensures e in Run(HaveUserState(n, us), later).client.roster
  {
    hide HaveUserState, Run, AllLeaveAlone;
    var r, r' := n.client.roster, HaveUserState(n, us).client.roster;
    NewUserState(n, us);
    var k :| 0 <= k < |r'| && r'[k] == e;
    if k < |r| {
      OthersUserState(n, us, k);
    }
    RunLeavesAlone(HaveUserState(n, us), later, e);
  }
}
