/**
 The client's roster of station objects and the keypad driver, updated in place. Every method is
 tied to the functions of Roster through the value its objects stand for.
 */
module MumbleClient {
  import opened Bytes
  import opened Options
  import opened Roster

  class Station {
    const id: i32
    var radioId: string
    var callsign: string
    var inCall: i32
    var conferenceId: i32
    var calledBy: i32
    var mute: Option<bool>
    var deaf: Option<bool>

    ghost function View(): Entry
      reads this
    {
      Entry(id, radioId, callsign, inCall, conferenceId, calledBy, mute, deaf)
    }

    constructor (i: i32)
      ensures View() == Entry(i, "", "", 0, -1, 0, None, None)
    {
      id := i;
      radioId := "";
      callsign := "";
      inCall := 0;
      conferenceId := -1;
      calledBy := 0;
      mute := None;
      deaf := None;
    }

    /** The assignments of processUserState to a station it knows or has just made. */
    method Update(us: UserState)
      modifies this
      ensures View() == Updated(old(View()), us)
      ensures radioId == old(radioId) && inCall == old(inCall) && calledBy == old(calledBy)
      ensures conferenceId == if us.channelId.Some? then us.channelId.value else 0
      ensures mute == if us.selfMute.Some? then us.selfMute else old(mute)
      ensures deaf == if us.deaf.None? then old(deaf) else if us.selfDeaf.Some? then us.selfDeaf else Some(false)
      ensures callsign == if us.comment.Some? then us.comment.value else old(callsign)
    {
      conferenceId := Or(us.channelId, 0);
      if us.selfMute.Some? {
        mute := Some(us.selfMute.value);
      }
      if us.deaf.Some? {
        deaf := Some(Or(us.selfDeaf, false));
      }
      if us.comment.Some? {
        callsign := us.comment.value;
      }
    }
  }

  ghost function Views(s: seq<Station>): (v: seq<Entry>)
    reads s
    ensures |v| == |s| && forall i | 0 <= i < |s| :: v[i] == s[i].View()
  {
    if s == [] then [] else [s[0].View()] + Views(s[1..])
  }

  class MumbleClient {
    var sessionId: i32
    var channelId: i32
    var stations: seq<Station>
    /** The messages handed to the socket and the stations announced, in order. */
    var log: seq<Note>

    /** No two slots of the vector point to one object. */
    ghost predicate Valid()
      reads this
    {
      forall i, j | 0 <= i < j < |stations| :: stations[i] != stations[j]
    }

    ghost function View(): Client
      reads this, stations
    {
      Client(sessionId, channelId, Views(stations), log)
    }

    constructor ()
      ensures Valid() && View() == Client(-1, -1, [], [])
    {
      sessionId := -1;
      channelId := -1;
      stations := [];
      log := [];
    }

    method SendMessage(m: Outgoing)
      modifies this`log
      ensures View() == Send(old(View()), m)
    {
      log := log + [Sent(m)];
    }

    /** The loop that deletes a session's stations. */
    method RemoveStations(session: i32)
      requires Valid()
      modifies this`stations, this`log
      ensures Valid() && View() ==
        old(View()).(roster := RemoveFrom(old(View()).roster, session, 0), log := old(log) + [Left(session)])
      ensures forall s <- stations :: s in old(stations)
    {
      hide RemoveFrom, Views;
      var i := 0;
      while i < |stations|
        invariant Valid() && log == old(log)
        invariant RemoveFrom(Views(stations), session, i) == RemoveFrom(old(Views(stations)), session, 0)
        invariant forall s <- stations :: s in old(stations)
        decreases |stations| - i
      {
        RemoveTurn(Views(stations), session, i);
        if stations[i].id == session {
          ghost var v := Views(stations);
          stations := stations[..i] + stations[i + 1..];
          assert Views(stations) == v[..i] + v[i + 1..];
        }
        i := i + 1;
      }
      RemoveTurn(Views(stations), session, i);
      log := log + [Left(session)];
    }

    /** processUserState; listener is the object whose slot is connected to channelReady. */
    method ProcessUserState(us: UserState, listener: DtmfCommand)
      requires Valid() && listener.mumble == this
      modifies this, stations, listener
      ensures Valid() && Node(View(), listener.View()) == HaveUserState(old(Node(View(), listener.View())), us)
      ensures forall s <- stations :: s in old(stations) || fresh(s)
    {
      hide NoteUser, Roster.ChannelReady, Views;
      if sessionId == -1 && us.channelId.Some? {
        channelId := us.channelId.value;
      }
      if us.session == sessionId && us.channelId.Some? {
        channelId := us.channelId.value;
        if channelId > 1 {
          assert View() == NoteChannel(old(View()), us);
          listener.ChannelReady(channelId);
        }
      }
      NoteStation(us);
    }

    /** The part of processUserState that updates the vector. */
    method NoteStation(us: UserState)
      requires Valid()
      modifies this, stations
      ensures Valid() && View() == NoteUser(old(View()), us)
      ensures forall s <- stations :: s in old(stations) || fresh(s)
    {
      hide RemoveFrom, UpdateAll, Knows, NewEntry, Views;
      if us.session == sessionId {
        RemoveStations(sessionId);
      } else {
        var setStation := UpdateStations(us);
        if !setStation {
          AddStation(us);
        }
      }
    }

    method AddStation(us: UserState)
      requires Valid()
      modifies this`stations, this`log
      ensures Valid() && View() ==
        old(View()).(roster := old(View()).roster + [NewEntry(us)], log := old(log) + [Entered(us.session)])
      ensures forall s <- stations :: s in old(stations) || fresh(s)
    {
      hide Views, Updated;
      var s := new Station(us.session);
      s.radioId := us.name;
      s.Update(us);
      ghost var v := Views(stations);
      assert v == old(Views(stations));
      stations := stations + [s];
      assert Views(stations) == v + [NewEntry(us)];
      log := log + [Entered(us.session)];
    }

    /** The loop over the known stations. */
    method UpdateStations(us: UserState) returns (setStation: bool)
      requires Valid()
      modifies stations
      ensures View() == old(View()).(roster := if setStation then UpdateAll(old(View()).roster, us) else old(View()).roster)
      ensures setStation == Knows(old(View()).roster, us.session)
    {
      hide Updated, Views, UpdateAll, Knows, UpdatedUpTo;
      setStation := false;
      var i := 0;
      ghost var v := Views(stations);
      UpdateStart(v, us);
      while i < |stations|
        invariant i <= |stations| == |v| && UpdatedUpTo(v, Views(stations), us, i)
        invariant setStation ==> Knows(v, us.session)
        invariant !setStation ==> forall k | 0 <= k < i :: v[k].id != us.session
      {
        ghost var w := Views(stations);
        UpdateTurn(v, w, us, i);
        if stations[i].id == us.session {
          UpdateAt(i, us);
          setStation := true;
          KnownAt(v, i);
        }
        i := i + 1;
      }
      AllUpdated(v, Views(stations), us);
      if !setStation {
        NobodyKnown(v, us);
      }
    }

    method UpdateAt(i: nat, us: UserState)
      requires Valid() && i < |stations|
      modifies stations[i]
      ensures Views(stations) == old(Views(stations))[i := Updated(old(Views(stations))[i], us)]
    {
      hide Updated, Views;
      stations[i].Update(us);
    }

    /** callStation's assignments to one station. */
    method PullAt(i: nat)
      requires Valid() && i < |stations|
      modifies stations[i]
      ensures View() == old(View()).(roster := old(View()).roster[i := Pulled(old(View()).roster[i], old(View()))])
    {
      hide Views;
      var s := stations[i];
      s.calledBy := sessionId;
      s.inCall := 1;
      s.conferenceId := channelId;
      assert Views(stations) == old(Views(stations))[i := s.View()];
    }

    /** The assignments of both disconnects to one station. */
    method ReleaseAt(i: nat)
      requires Valid() && i < |stations|
      modifies stations[i]
      ensures View() == old(View()).(roster := old(View()).roster[i := Released(old(View()).roster[i])])
    {
      hide Views;
      var s := stations[i];
      s.calledBy := 0;
      s.inCall := 0;
      s.conferenceId := -1;
      assert Views(stations) == old(Views(stations))[i := s.View()];
    }

    method ProcessUserRemove(session: i32)
      requires Valid()
      modifies this`stations, this`log
      ensures Valid() && View() == NoteRemoval(old(View()), session)
      ensures forall s <- stations :: s in old(stations)
    {
      RemoveStations(session);
    }

    method JoinChannel(id: i32)
      modifies this`log, this`channelId
      ensures View() == Roster.JoinChannel(old(View()), id)
    {
      SendMessage(SetState(sessionId, None, Some(id), false, false));
      channelId := id;
    }

    method CallStation(radioId: string) returns (res: i32)
      requires Valid()
      modifies this`log, stations
      ensures (View(), res) == Roster.CallStation(old(View()), radioId)
    {
      hide CallFrom, Pulled, Views;
      var session: i32 := 0;
      var i := 0;
      while i < |stations|
        invariant i <= |stations| && log == old(log)
        invariant CallFrom(View(), radioId, i, session) == CallFrom(old(View()), radioId, 0, 0)
      {
        var s := stations[i];
        CallTurn(View(), radioId, i, session);
        if s.radioId == radioId {
          session := s.id;
          if s.conferenceId > 1 {
            return s.conferenceId;
          }
          PullAt(i);
        }
        i := i + 1;
      }
      CallTurn(View(), radioId, i, session);
      if session == 0 {
        return -1;
      }
      SendMessage(SetState(session, Some(sessionId), Some(channelId), false, false));
      return 0;
    }

    method DisconnectFromCall()
      modifies this`log
      ensures View() == LeaveCall(old(View()))
    {
      if channelId < 2 {
        return;
      }
      SendMessage(SetState(sessionId, None, Some(1), true, true));
    }

    method DisconnectStation(radioId: string) returns (res: i32)
      requires Valid()
      modifies this`log, stations
      ensures (View(), res) == Roster.DisconnectStation(old(View()), radioId)
    {
      hide DisconnectFrom, Released, Views;
      var session: i32 := 0;
      var i := 0;
      while i < |stations|
        invariant i <= |stations| && log == old(log)
        invariant DisconnectFrom(View(), radioId, i, session) == DisconnectFrom(old(View()), radioId, 0, 0)
      {
        var s := stations[i];
        DisconnectTurn(View(), radioId, i, session);
        if s.radioId == radioId {
          session := s.id;
          if s.conferenceId != channelId {
            return -2;
          }
          if s.calledBy != sessionId {
            return -3;
          }
          ReleaseAt(i);
        }
        i := i + 1;
      }
      DisconnectTurn(View(), radioId, i, session);
      if session == 0 {
        return -1;
      }
      SendMessage(SetState(session, Some(sessionId), Some(1), true, true));
      return 0;
    }

    method DisconnectAllStations()
      requires Valid()
      modifies this`log, stations
      ensures View() == DisconnectAll(old(View()))
    {
      hide DisconnectAllFrom, Released, Views;
      var i := 0;
      while i < |stations|
        invariant i <= |stations| && DisconnectAllFrom(View(), i) == DisconnectAll(old(View()))
      {
        var s := stations[i];
        DisconnectAllTurn(View(), i);
        if s.calledBy == sessionId && s.inCall == 1 && s.conferenceId == channelId {
          ReleaseAt(i);
          SendMessage(SetState(s.id, Some(sessionId), Some(1), true, true));
        }
        i := i + 1;
      }
      DisconnectAllTurn(View(), i);
    }

    /** createChannel; name is the random name where none is given. */
    method CreateChannel(name: string)
      modifies this`log
      ensures View() == Roster.CreateChannel(old(View()), name)
    {
      SendMessage(MakeChannel(name));
      SendMessage(SetState(sessionId, Some(sessionId), None, false, false));
    }
  }

  /** w is v with the stations below i updated. */
  ghost predicate UpdatedUpTo(v: seq<Entry>, w: seq<Entry>, us: UserState, i: nat) {
    && |w| == |v|
    && (forall k | 0 <= k < |v| && k < i :: w[k] == if v[k].id == us.session then Updated(v[k], us) else v[k])
    && (forall k | i <= k < |v| :: w[k] == v[k])
  }

  lemma UpdateStart(v: seq<Entry>, us: UserState)
    ensures UpdatedUpTo(v, v, us, 0)
  {
    hide Updated;
  }

  lemma UpdateTurn(v: seq<Entry>, w: seq<Entry>, us: UserState, i: nat)
    requires i < |v| && UpdatedUpTo(v, w, us, i)
    ensures w[i] == v[i]
    ensures UpdatedUpTo(v, if v[i].id == us.session then w[i := Updated(w[i], us)] else w, us, i + 1)
  {
    hide Updated;
  }

  lemma AllUpdated(v: seq<Entry>, w: seq<Entry>, us: UserState)
    requires UpdatedUpTo(v, w, us, |v|)
    ensures w == UpdateAll(v, us)
  {
    hide Updated;
  }

  lemma KnownAt(v: seq<Entry>, i: nat)
    requires i < |v|
    ensures Knows(v, v[i].id)
  {
  }

  lemma NobodyKnown(v: seq<Entry>, us: UserState)
    requires forall k | 0 <= k < |v| :: v[k].id != us.session
    ensures !Knows(v, us.session) && UpdateAll(v, us) == v
  {
    hide Updated;
  }

  // One turn of each loop of Roster.

  lemma CallTurn(c: Client, radioId: string, i: nat, session: i32)
    ensures CallFrom(c, radioId, i, session) ==
      if i >= |c.roster| then (c, Through(session))
      else if c.roster[i].radioId != radioId then CallFrom(c, radioId, i + 1, session)
      else if c.roster[i].conferenceId > 1 then (c, Busy(c.roster[i].conferenceId))
      else CallFrom(c.(roster := c.roster[i := Pulled(c.roster[i], c)]), radioId, i + 1, c.roster[i].id)
  {
  }

  lemma DisconnectTurn(c: Client, radioId: string, i: nat, session: i32)
    ensures DisconnectFrom(c, radioId, i, session) ==
      if i >= |c.roster| then (c, Found(session))
      else if c.roster[i].radioId != radioId then DisconnectFrom(c, radioId, i + 1, session)
      else if c.roster[i].conferenceId != c.channel then (c, WrongChannel)
      else if c.roster[i].calledBy != c.session then (c, NotOurs)
      else DisconnectFrom(c.(roster := c.roster[i := Released(c.roster[i])]), radioId, i + 1, c.roster[i].id)
  {
  }

  lemma DisconnectAllTurn(c: Client, i: nat)
    ensures DisconnectAllFrom(c, i) ==
      if i >= |c.roster| then c
      else if InOurCall(c, c.roster[i]) then
        DisconnectAllFrom(Send(c.(roster := c.roster[i := Released(c.roster[i])]), ReleaseMessage(c, c.roster[i].id)), i + 1)
      else DisconnectAllFrom(c, i + 1)
  {
  }

  lemma StripTurn(s: seq<char>, drop: set<char>, i: nat)
    requires i <= |s|
    ensures i == |s| ==> Strip(s[i..], drop) == ""
    ensures i < |s| ==> Strip(s[i..], drop) == (if s[i] in drop then "" else [s[i]]) + Strip(s[i + 1..], drop)
    ensures i < |s| && s[i] in drop ==> Strip(s[i..], drop) == Strip(s[i + 1..], drop)
  {
    if i < |s| {
      assert s[i..][1..] == s[i + 1..];
      assert "" + Strip(s[i + 1..], drop) == Strip(s[i + 1..], drop);
    }
  }

  class DtmfCommand {
    const mumble: MumbleClient
    var dialingNumber: string
    var conferenceId: i32

    ghost function View(): Driver
      reads this
    {
      Driver(dialingNumber, conferenceId)
    }

    constructor (m: MumbleClient)
      ensures mumble == m && View() == Driver("", -1)
    {
      mumble := m;
      dialingNumber := "";
      conferenceId := -1;
    }

    method HaveCall(dtmf: seq<char>, name: string)
      requires mumble.Valid()
      modifies this, mumble, mumble.stations
      ensures mumble.Valid() && mumble.stations == old(mumble.stations)
      ensures Node(mumble.View(), View()) == Roster.HaveCall(old(Node(mumble.View(), View())), dtmf, name)
    {
      hide Roster.ChannelReady, Roster.CreateChannel, Views, Strip;
      dialingNumber := StripKeys(dtmf, {'*', 'C', 'D'});
      if conferenceId < 2 {
        mumble.CreateChannel(name);
      } else {
        ChannelReady(conferenceId);
      }
    }

    /** The loop that drops control keys. */
    method StripKeys(dtmf: seq<char>, drop: set<char>) returns (number: string)
      ensures number == Strip(dtmf, drop)
    {
      hide Strip;
      number := "";
      var i := 0;
      assert dtmf[0..] == dtmf && "" + Strip(dtmf, drop) == Strip(dtmf, drop);
      while i < |dtmf|
        invariant i <= |dtmf| && number + Strip(dtmf[i..], drop) == Strip(dtmf, drop)
      {
        StripTurn(dtmf, drop, i);
        if dtmf[i] !in drop {
          assert number + ([dtmf[i]] + Strip(dtmf[i + 1..], drop)) == number + [dtmf[i]] + Strip(dtmf[i + 1..], drop);
          number := number + [dtmf[i]];
        }
        i := i + 1;
      }
      StripTurn(dtmf, drop, i);
      assert number + "" == number;
    }

    method ChannelReady(number: i32)
      requires mumble.Valid()
      modifies this, mumble`log, mumble`channelId, mumble.stations
      ensures mumble.Valid()
      ensures Node(mumble.View(), View()) == Roster.ChannelReady(old(Node(mumble.View(), View())))
    {
      hide Roster.CallStation, Roster.JoinChannel, LeaveCall, Views;
      if dialingNumber == "" {
        return;
      }
      ghost var c := mumble.View();
      conferenceId := mumble.channelId;
      var res := mumble.CallStation(dialingNumber);
      assert (mumble.View(), res) == Roster.CallStation(c, dialingNumber);
      if res < 0 {
        conferenceId := -1;
        mumble.DisconnectFromCall();
      } else if res > 1 {
        mumble.JoinChannel(res);
      }
      dialingNumber := "";
    }

    method HaveCommand(dtmf: seq<char>)
      requires mumble.Valid()
      modifies this, mumble`log, mumble.stations
      ensures mumble.Valid()
      ensures Node(mumble.View(), View()) == Roster.HaveCommand(old(Node(mumble.View(), View())), dtmf)
    {
      hide Roster.DisconnectStation, DisconnectAll, LeaveCall, Strip, Views;
      var number := StripKeys(dtmf, {'*', 'D'});
      if number == "B" {
        conferenceId := -1;
        mumble.DisconnectFromCall();
        return;
      }
      if number == "A" {
        conferenceId := -1;
        mumble.DisconnectAllStations();
        mumble.DisconnectFromCall();
        return;
      }
      if number == "#9" {
        return;
      }
      var res := mumble.DisconnectStation(number);
    }
  }
}
