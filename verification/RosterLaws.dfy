/**
 What each server message, call and disconnect does to the roster: the vector is a map from
 session to station, calls and disconnects touch exactly the station they name, and releasing
 everybody releases exactly the stations held in the present channel.
 */
module RosterLaws {
  import opened Bytes
  import opened Options
  import opened Roster

  // ---------------------------------------------------------------- the vector as a map

  function AsMap(r: seq<Entry>): map<i32, Entry> {
    if r == [] then map[] else AsMap(r[1..])[r[0].id := r[0]]
  }

  lemma {:induction false} KeysOfMap(r: seq<Entry>, id: i32)
    ensures id in AsMap(r) <==> Knows(r, id)
  {
    if r != [] {
      KeysOfMap(r[1..], id);
      if Knows(r[1..], id) {
        var i :| 0 <= i < |r[1..]| && r[1..][i].id == id;
        assert r[i + 1].id == id;
      }
      if Knows(r, id) && r[0].id != id {
        var i :| 0 <= i < |r| && r[i].id == id;
        assert r[1..][i - 1].id == id;
      }
    }
  }

  lemma {:induction false} MapWithout(r: seq<Entry>, id: i32)
    ensures AsMap(Without(r, id)) == AsMap(r) - {id}
  {
    if r != [] {
      MapWithout(r[1..], id);
      assert Without(r, id) == (if r[0].id == id then [] else [r[0]]) + Without(r[1..], id);
      if r[0].id == id {
        assert Without(r, id) == Without(r[1..], id);
      }
    }
  }

  lemma {:induction false} MapAppend(r: seq<Entry>, e: Entry)
    requires !Knows(r, e.id)
    ensures AsMap(r + [e]) == AsMap(r)[e.id := e]
  {
    if r == [] {
      assert [e][1..] == [];
    } else {
      assert r[0].id != e.id;
      forall i | 0 <= i < |r[1..]|
        ensures r[1..][i].id != e.id
      {
        assert r[i + 1].id != e.id;
      }
      MapAppend(r[1..], e);
      assert (r + [e])[1..] == r[1..] + [e];
    }
  }

  lemma {:induction false} MapUpdate(r: seq<Entry>, us: UserState)
    requires Distinct(r) && Knows(r, us.session)
    ensures us.session in AsMap(r)
    ensures AsMap(UpdateAll(r, us)) == AsMap(r)[us.session := Updated(AsMap(r)[us.session], us)]
  {
    hide Updated, Distinct, Knows;
    KeysOfMap(r, us.session);
    KnowsFirst(r, us.session);
    UpdatedKeepsName(r[0], us);
    var u := UpdateAll(r, us);
    assert u[1..] == UpdateAll(r[1..], us);
    DistinctRest(r);
    if r[0].id == us.session {
      MapUntouched(r[1..], us);
    } else {
      MapUpdate(r[1..], us);
    }
  }

  lemma UpdatedKeepsName(e: Entry, us: UserState)
    ensures Updated(e, us).id == e.id && Updated(e, us).radioId == e.radioId
  {
  }

  lemma KnowsFirst(r: seq<Entry>, id: i32)
    ensures Knows(r, id) == (r != [] && (r[0].id == id || Knows(r[1..], id)))
  {
    if r != [] && Knows(r[1..], id) {
      var i :| 0 <= i < |r[1..]| && r[1..][i].id == id;
      assert r[i + 1].id == id;
    }
    if Knows(r, id) && r[0].id != id {
      var i :| 0 <= i < |r| && r[i].id == id;
      assert r[1..][i - 1].id == id;
    }
  }

  lemma DistinctRest(r: seq<Entry>)
    requires Distinct(r) && r != []
    ensures Distinct(r[1..]) && !Knows(r[1..], r[0].id)
  {
  }

  lemma DistinctMore(e: Entry, r: seq<Entry>)
    requires Distinct(r) && !Knows(r, e.id)
    ensures Distinct([e] + r)
  {
  }

  lemma MapUntouched(r: seq<Entry>, us: UserState)
    requires !Knows(r, us.session)
    ensures UpdateAll(r, us) == r
  {
  }

  /** The vector refines a map from session to station: what each server message does to it. */
  lemma RosterIsAMap(c: Client, us: UserState)
    requires Distinct(c.roster)
    ensures Distinct(NoteUser(c, us).roster)
    ensures AsMap(NoteUser(c, us).roster) ==
      if us.session == c.session then AsMap(c.roster) - {us.session}
      else if us.session in AsMap(c.roster) then AsMap(c.roster)[us.session := Updated(AsMap(c.roster)[us.session], us)]
      else AsMap(c.roster)[us.session := NewEntry(us)]
    ensures Distinct(NoteRemoval(c, us.session).roster)
    ensures AsMap(NoteRemoval(c, us.session).roster) == AsMap(c.roster) - {us.session}
  {
    hide RemoveFrom;
    RemovalIsExact(c.roster, us.session);
    MapWithout(c.roster, us.session);
    WithoutDistinct(c.roster, us.session);
    KeysOfMap(c.roster, us.session);
    if us.session != c.session {
      if Knows(c.roster, us.session) {
        MapUpdate(c.roster, us);
      } else {
        MapAppend(c.roster, NewEntry(us));
      }
    }
  }

  lemma {:induction false} WithoutDistinct(r: seq<Entry>, id: i32)
    requires Distinct(r)
    ensures Distinct(Without(r, id)) && !Knows(Without(r, id), id)
  {
    hide Distinct;
    WithoutHasNone(r, id);
    if r != [] {
      DistinctRest(r);
      WithoutDistinct(r[1..], id);
      if r[0].id != id {
        WithoutHasNone(r[1..], id);
        DistinctMore(r[0], Without(r[1..], id));
      } else {
        assert Without(r, id) == [] + Without(r[1..], id) == Without(r[1..], id);
      }
    }
  }

  lemma {:induction false} WithoutDistinctNames(r: seq<Entry>, id: i32)
    requires DistinctNames(r)
    ensures DistinctNames(Without(r, id))
  {
    if r != [] {
      WithoutDistinctNames(r[1..], id);
      WithoutHasNone(r[1..], id);
      var w := Without(r[1..], id);
      assert Without(r, id) == (if r[0].id == id then [] else [r[0]]) + w;
      if r[0].id == id {
        assert Without(r, id) == w;
      }
    }
  }

  ghost predicate DistinctNames(r: seq<Entry>) {
    forall i, j | 0 <= i < j < |r| :: r[i].radioId != r[j].radioId
  }

  // ---------------------------------------------------------------- calls touch exactly one station

  /** The first station with a radio id, or -1. */
  function Find(r: seq<Entry>, radioId: string): (i: int)
    ensures -1 <= i < |r|
    ensures i >= 0 ==> r[i].radioId == radioId
  {
    if r == [] then -1
    else if r[0].radioId == radioId then 0
    else var i := Find(r[1..], radioId); if i < 0 then -1 else i + 1
  }

  lemma {:induction false} FindIsOnly(r: seq<Entry>, radioId: string, k: nat)
    requires DistinctNames(r) && k < |r|
    ensures r[k].radioId == radioId <==> k == Find(r, radioId)
  {
    if k > 0 {
      FindIsOnly(r[1..], radioId, k - 1);
    }
  }

  /** No station from index i on has the radio id. */
  ghost predicate Absent(r: seq<Entry>, radioId: string, i: nat) {
    forall k | i <= k < |r| :: r[k].radioId != radioId
  }

  lemma {:induction false} CallPast(c: Client, radioId: string, i: nat, session: i32)
    requires Absent(c.roster, radioId, i)
    ensures CallFrom(c, radioId, i, session) == (c, Through(session))
    ensures DisconnectFrom(c, radioId, i, session) == (c, Found(session))
    decreases |c.roster| - i
  {
    if i < |c.roster| {
      CallPast(c, radioId, i + 1, session);
    }
  }

  lemma {:induction false} CallAt(c: Client, radioId: string, j: nat, i: nat)
    requires j <= i < |c.roster| && c.roster[i].radioId == radioId
    requires forall k | 0 <= k < |c.roster| && k != i :: c.roster[k].radioId != radioId
    ensures var e := c.roster[i];
      CallFrom(c, radioId, j, 0) ==
        if e.conferenceId > 1 then (c, Busy(e.conferenceId))
        else (c.(roster := c.roster[i := Pulled(e, c)]), Through(e.id))
    ensures var e := c.roster[i];
      DisconnectFrom(c, radioId, j, 0) ==
        if e.conferenceId != c.channel then (c, WrongChannel)
        else if e.calledBy != c.session then (c, NotOurs)
        else (c.(roster := c.roster[i := Released(e)]), Found(e.id))
    decreases i - j
  {
    if j < i {
      CallAt(c, radioId, j + 1, i);
    } else {
      var e := c.roster[i];
      CallPast(c.(roster := c.roster[i := Pulled(e, c)]), radioId, i + 1, e.id);
      CallPast(c.(roster := c.roster[i := Released(e)]), radioId, i + 1, e.id);
    }
  }

  /** With distinct radio ids a call pulls exactly the named station, and a disconnect releases exactly it. */
  lemma OnlyTheNamedStation(c: Client, radioId: string)
    requires DistinctNames(c.roster)
    ensures var i := Find(c.roster, radioId);
      && (i < 0 ==> CallStation(c, radioId) == (c, -1) && DisconnectStation(c, radioId) == (c, -1))
      && (i >= 0 ==> var e := c.roster[i];
            && CallStation(c, radioId) ==
                 (if e.conferenceId > 1 then (c, e.conferenceId)
                  else var c' := c.(roster := c.roster[i := Pulled(e, c)]);
                    if e.id == 0 then (c', -1) else (Send(c', PullMessage(c, e.id)), 0))
            && DisconnectStation(c, radioId) ==
                 (if e.conferenceId != c.channel then (c, -2)
                  else if e.calledBy != c.session then (c, -3)
                  else var c' := c.(roster := c.roster[i := Released(e)]);
                    if e.id == 0 then (c', -1) else (Send(c', ReleaseMessage(c, e.id)), 0)))
  {
    hide CallFrom, DisconnectFrom;
    var i := Find(c.roster, radioId);
    forall k | 0 <= k < |c.roster|
      ensures c.roster[k].radioId == radioId <==> k == i
    {
      FindIsOnly(c.roster, radioId, k);
    }
    if i < 0 {
      CallPast(c, radioId, 0, 0);
    } else {
      CallAt(c, radioId, 0, i);
    }
  }

  // ---------------------------------------------------------------- releasing everybody

  function AllReleased(c: Client, r: seq<Entry>): seq<Entry> {
    seq(|r|, i requires 0 <= i < |r| => if InOurCall(c, r[i]) then Released(r[i]) else r[i])
  }

  /** One message for each station held in the present channel, in roster order. */
  function ReleaseNotes(c: Client, r: seq<Entry>): seq<Note> {
    if r == [] then []
    else (if InOurCall(c, r[0]) then [Sent(ReleaseMessage(c, r[0].id))] else []) + ReleaseNotes(c, r[1..])
  }

  /** One turn of the loop. */
  lemma ReleasesTurn(c: Client, d: Client, i: nat)
    requires d.session == c.session && d.channel == c.channel
    ensures i >= |d.roster| ==> DisconnectAllFrom(d, i) == d
    ensures i < |d.roster| ==>
      var e := d.roster[i];
      var e' := if InOurCall(c, e) then Released(e) else e;
      var notes := if InOurCall(c, e) then [Sent(ReleaseMessage(c, e.id))] else [];
      DisconnectAllFrom(d, i) == DisconnectAllFrom(d.(roster := d.roster[i := e'], log := d.log + notes), i + 1)
  {
    hide Released;
    if i < |d.roster| {
      assert d.roster[i := d.roster[i]] == d.roster && d.log + [] == d.log;
    }
  }

  lemma {:induction false} ReleasesFrom(c: Client, d: Client, i: nat)
    requires d.session == c.session && d.channel == c.channel && i <= |d.roster|
    ensures DisconnectAllFrom(d, i) ==
      d.(roster := d.roster[..i] + AllReleased(c, d.roster[i..]), log := d.log + ReleaseNotes(c, d.roster[i..]))
    decreases |d.roster| - i
  {
    hide DisconnectAllFrom, AllReleased, ReleaseNotes, Released, InOurCall, ReleaseMessage;
    var s := d.roster[i..];
    ReleasesTurn(c, d, i);
    ReleasedStep(c, s);
    if i == |d.roster| {
      assert d.roster[..i] + [] == d.roster && d.log + [] == d.log;
    } else {
      var e := d.roster[i];
      assert s[1..] == d.roster[i + 1..];
      var e' := if InOurCall(c, e) then Released(e) else e;
      var notes := if InOurCall(c, e) then [Sent(ReleaseMessage(c, e.id))] else [];
      var d' := d.(roster := d.roster[i := e'], log := d.log + notes);
      ReleasesFrom(c, d', i + 1);
      assert d'.roster[..i + 1] == d.roster[..i] + [e'] && d'.roster[i + 1..] == s[1..];
      assert d.log + notes + ReleaseNotes(c, s[1..]) == d.log + (notes + ReleaseNotes(c, s[1..]));
      assert d.roster[..i] + [e'] + AllReleased(c, s[1..]) == d.roster[..i] + ([e'] + AllReleased(c, s[1..]));
    }
  }

  lemma ReleasedStep(c: Client, s: seq<Entry>)
    ensures s == [] ==> AllReleased(c, s) == [] && ReleaseNotes(c, s) == []
    ensures s != [] ==>
      && AllReleased(c, s) == [if InOurCall(c, s[0]) then Released(s[0]) else s[0]] + AllReleased(c, s[1..])
      && ReleaseNotes(c, s) ==
           (if InOurCall(c, s[0]) then [Sent(ReleaseMessage(c, s[0].id))] else []) + ReleaseNotes(c, s[1..])
    ensures s != [] ==>
      var ours := s[0].calledBy == c.session && s[0].inCall == 1 && s[0].conferenceId == c.channel;
      ReleaseNotes(c, s) ==
        (if ours then [Sent(SetState(s[0].id, Some(c.session), Some(1), true, true))] else []) + ReleaseNotes(c, s[1..])
  {
  }

  /** disconnectAllStations releases exactly the stations held in the channel; called again it sends nothing. */
  lemma DisconnectAllIsExact(c: Client)
    ensures DisconnectAll(c) == c.(roster := AllReleased(c, c.roster), log := c.log + ReleaseNotes(c, c.roster))
    ensures DisconnectAll(DisconnectAll(c)) == DisconnectAll(c)
  {
    hide DisconnectAllFrom, AllReleased, ReleaseNotes;
    ReleasesOfAll(c);
    var d := DisconnectAll(c);
    ReleasesOfAll(d);
    NobodyInCall(c, d);
    NobodyLeft(d, d.roster);
    assert d.log + [] == d.log;
  }

  lemma ReleasesOfAll(c: Client)
    ensures DisconnectAll(c) == c.(roster := AllReleased(c, c.roster), log := c.log + ReleaseNotes(c, c.roster))
  {
    hide DisconnectAllFrom, AllReleased, ReleaseNotes;
    ReleasesFrom(c, c, 0);
    assert c.roster[0..] == c.roster && c.roster[..0] + AllReleased(c, c.roster) == AllReleased(c, c.roster);
  }

  lemma NobodyInCall(c: Client, d: Client)
    requires d.session == c.session && d.channel == c.channel && d.roster == AllReleased(c, c.roster)
    ensures forall e <- d.roster :: !InOurCall(d, e)
  {
  }

  lemma {:induction false} NobodyLeft(d: Client, r: seq<Entry>)
    requires forall e <- r :: !InOurCall(d, e)
    ensures AllReleased(d, r) == r && ReleaseNotes(d, r) == []
  {
    if r != [] {
      NobodyLeft(d, r[1..]);
    }
  }
}
