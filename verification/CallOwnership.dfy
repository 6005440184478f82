/**
 Who may be sent home. A mark on a roster entry says that we called the station; the mark is held
 when the last thing that happened to the station was our pulling it. Calls are the one operation
 that can set a mark that is not held. When they do so is stated exactly, and as long as they do
 not, every station sent back to channel 1 was pulled by us and not released since.
 */
module CallOwnership {
  import opened Bytes
  import opened Options
  import opened Roster
  import opened RosterLaws
  import opened RosterRuns

  /** A message that moves another station into a call. */
  predicate IsPull(n: Note, own: i32, id: i32) {
    n.Sent? && n.m.SetState? && n.m.session == id && id != own && n.m.channelId.Some? && !n.m.mute
  }

  /** A message that sends another station back to channel 1. */
  predicate IsRelease(n: Note, own: i32, id: i32) {
    n.Sent? && n.m.SetState? && n.m.session == id && id != own && n.m.channelId == Some(1) && n.m.mute
  }

  predicate ComesOrGoes(n: Note, id: i32) {
    n == Entered(id) || n == Left(id)
  }

  /** The last thing that happened to the station was our pulling it. */
  predicate Held(log: seq<Note>, own: i32, id: i32) {
    if log == [] then false
    else
      var last, before := log[|log| - 1], log[..|log| - 1];
      if IsPull(last, own, id) then true
      else if IsRelease(last, own, id) || ComesOrGoes(last, id) then false
      else Held(before, own, id)
  }

  /** Every release in the log is of a station held at that point. */
  ghost predicate ReleasesAreOwned(log: seq<Note>, own: i32) {
    forall k, id | 0 <= k < |log| && IsRelease(log[k], own, id) :: Held(log[..k], own, id)
  }

  /** Every other station marked as called by us is held. */
  ghost predicate MarksHeld(c: Client) {
    forall e <- c.roster :: e.calledBy == c.session && e.id != c.session ==> Held(c.log, c.session, e.id)
  }

  /** What every step keeps as long as the calls in it are safe. */
  ghost predicate Owned(c: Client) {
    c.session != 0 && Distinct(c.roster) && MarksHeld(c) && ReleasesAreOwned(c.log, c.session)
  }

  // ---------------------------------------------------------------- one note more

  lemma HeldNext(log: seq<Note>, own: i32, n: Note, id: i32)
    ensures Held(log + [n], own, id) ==
      (IsPull(n, own, id) || (!IsRelease(n, own, id) && !ComesOrGoes(n, id) && Held(log, own, id)))
  {
    assert (log + [n])[..|log|] == log;
  }

  lemma OwnedNext(log: seq<Note>, own: i32, n: Note)
    ensures ReleasesAreOwned(log + [n], own) <==>
      ReleasesAreOwned(log, own) && forall id :: IsRelease(n, own, id) ==> Held(log, own, id)
  {
    hide Held, IsRelease;
    var l := log + [n];
    assert l[..|log|] == log && l[|log|] == n;
    forall k | 0 <= k < |log|
      ensures l[..k] == log[..k] && l[k] == log[k]
    {
    }
    if ReleasesAreOwned(l, own) {
      forall k, id | 0 <= k < |log| && IsRelease(log[k], own, id)
        ensures Held(log[..k], own, id)
      {
        assert IsRelease(l[k], own, id);
      }
      forall id | IsRelease(n, own, id)
        ensures Held(log, own, id)
      {
        assert IsRelease(l[|log|], own, id);
      }
    }
  }

  /** A note about no station but ourselves changes nothing. */
  predicate OnlyOurs(n: Note, own: i32) {
    match n
    case Sent(m) => m.MakeChannel? || m.session == own
    case Entered(id) => id == own
    case Left(id) => id == own
  }

  lemma Unconcerned(c: Client, n: Note)
    requires OnlyOurs(n, c.session)
    ensures var c' := c.(log := c.log + [n]);
      && (MarksHeld(c') <==> MarksHeld(c))
      && (ReleasesAreOwned(c'.log, c.session) <==> ReleasesAreOwned(c.log, c.session))
  {
    hide Held, ReleasesAreOwned;
    OwnedNext(c.log, c.session, n);
    forall id | id != c.session
      ensures Held(c.log + [n], c.session, id) == Held(c.log, c.session, id)
    {
      HeldNext(c.log, c.session, n, id);
    }
  }

  // ---------------------------------------------------------------- what one call does

  /** Entry k is one the call's loop, entered at i, assigns to: no station of that id before it is busy. */
  ghost predicate Reached(r: seq<Entry>, radioId: string, i: nat, k: nat)
    requires k < |r|
  {
    && i <= k && r[k].radioId == radioId
    && forall j | i <= j <= k :: r[j].radioId == radioId ==> r[j].conferenceId <= 1
  }

  ghost predicate LastNamed(r: seq<Entry>, radioId: string, k: nat)
    requires k < |r|
  {
    r[k].radioId == radioId && Absent(r, radioId, k + 1)
  }

  /** Can be read off before the call: every station it marks is ourselves, held, or the one it pulls. */
  ghost predicate CallSafe(c: Client, radioId: string) {
    forall k | 0 <= k < |c.roster| && Reached(c.roster, radioId, 0, k) ::
      var e := c.roster[k];
      e.id == c.session || Held(c.log, c.session, e.id) || (e.id != 0 && LastNamed(c.roster, radioId, k))
  }

  /** c' is c with the reached entries pulled. */
  ghost predicate PulledFrom(c: Client, c': Client, radioId: string, i: nat) {
    && c' == c.(roster := c'.roster) && |c'.roster| == |c.roster|
    && forall k | 0 <= k < |c.roster| ::
         c'.roster[k] == if Reached(c.roster, radioId, i, k) then Pulled(c.roster[k], c) else c.roster[k]
  }

  /** Through with the last station of that id, or stopped by a busy one. */
  ghost predicate OutcomeFrom(r: seq<Entry>, radioId: string, i: nat, session: i32, out: CallOutcome) {
    if out.Through? then
      && (Absent(r, radioId, i) ==> out.session == session)
      && (forall k | i <= k < |r| :: LastNamed(r, radioId, k) ==> out.session == r[k].id)
    else
      && !Absent(r, radioId, i)
      && forall k | i <= k < |r| :: LastNamed(r, radioId, k) ==> !Reached(r, radioId, i, k)
  }

  lemma {:induction false} CallFromReaches(c: Client, radioId: string, i: nat, session: i32)
    ensures var (c', out) := CallFrom(c, radioId, i, session);
      PulledFrom(c, c', radioId, i) && OutcomeFrom(c.roster, radioId, i, session, out)
    decreases |c.roster| - i
  {
    hide Pulled;
    if i < |c.roster| {
      var e := c.roster[i];
      if e.radioId != radioId {
        CallFromReaches(c, radioId, i + 1, session);
        NotNamed(c, radioId, i, session);
      } else if e.conferenceId > 1 {
        StoppedHere(c.roster, radioId, i);
        NamedIsPresent(c.roster, radioId, i);
      } else {
        var d := c.(roster := c.roster[i := Pulled(e, c)]);
        CallFromReaches(d, radioId, i + 1, e.id);
        PulledHere(c, radioId, i, session);
      }
    }
  }

  lemma NotNamed(c: Client, radioId: string, i: nat, session: i32)
    requires i < |c.roster| && c.roster[i].radioId != radioId
    requires var (c', out) := CallFrom(c, radioId, i + 1, session);
      PulledFrom(c, c', radioId, i + 1) && OutcomeFrom(c.roster, radioId, i + 1, session, out)
    ensures var (c', out) := CallFrom(c, radioId, i + 1, session);
      PulledFrom(c, c', radioId, i) && OutcomeFrom(c.roster, radioId, i, session, out)
  {
    hide Pulled, CallFrom;
    var r := c.roster;
    forall k | 0 <= k < |r|
      ensures Reached(r, radioId, i, k) == Reached(r, radioId, i + 1, k)
    {
    }
    assert Absent(r, radioId, i) == Absent(r, radioId, i + 1);
  }

  lemma StoppedHere(r: seq<Entry>, radioId: string, i: nat)
    requires i < |r| && r[i].radioId == radioId && r[i].conferenceId > 1
    ensures forall k | 0 <= k < |r| :: !Reached(r, radioId, i, k)
  {
  }

  /** Pulling the named station at i leaves what the loop reaches after it. */
  lemma ReachedAfter(r: seq<Entry>, x: Entry, radioId: string, i: nat, k: nat)
    requires i < |r| && r[i].radioId == radioId == x.radioId && r[i].conferenceId <= 1 && k < |r|
    ensures Reached(r, radioId, i, k) == (k == i || Reached(r[i := x], radioId, i + 1, k))
    ensures i <= k ==> LastNamed(r, radioId, k) == LastNamed(r[i := x], radioId, k)
    ensures Absent(r, radioId, i + 1) == Absent(r[i := x], radioId, i + 1)
  {
    var r' := r[i := x];
    assert forall j {:trigger r[j]} {:trigger r'[j]} | 0 <= j < |r| :: r'[j] == if j == i then x else r[j];
  }

  lemma PulledHere(c: Client, radioId: string, i: nat, session: i32)
    requires i < |c.roster| && c.roster[i].radioId == radioId && c.roster[i].conferenceId <= 1
    requires var d := c.(roster := c.roster[i := Pulled(c.roster[i], c)]);
      var (c', out) := CallFrom(d, radioId, i + 1, c.roster[i].id);
      PulledFrom(d, c', radioId, i + 1) && OutcomeFrom(d.roster, radioId, i + 1, c.roster[i].id, out)
    ensures var d := c.(roster := c.roster[i := Pulled(c.roster[i], c)]);
      var (c', out) := CallFrom(d, radioId, i + 1, c.roster[i].id);
      PulledFrom(c, c', radioId, i) && OutcomeFrom(c.roster, radioId, i, session, out)
  {
    hide CallFrom, Reached, LastNamed, Absent;
    var r, x := c.roster, Pulled(c.roster[i], c);
    var d := c.(roster := r[i := x]);
    forall k | 0 <= k < |r|
      ensures Reached(r, radioId, i, k) == (k == i || Reached(d.roster, radioId, i + 1, k))
      ensures i <= k ==> LastNamed(r, radioId, k) == LastNamed(d.roster, radioId, k)
    {
      ReachedAfter(r, x, radioId, i, k);
    }
    ReachedAfter(r, x, radioId, i, i);
    NamedIsPresent(r, radioId, i);
    AfterLast(d.roster, radioId, i);
  }

  lemma NamedIsPresent(r: seq<Entry>, radioId: string, i: nat)
    requires i < |r| && r[i].radioId == radioId
    ensures !Absent(r, radioId, i)
  {
  }

  lemma AfterLast(r: seq<Entry>, radioId: string, i: nat)
    requires i < |r| && r[i].radioId == radioId
    ensures LastNamed(r, radioId, i) == Absent(r, radioId, i + 1)
    ensures !Reached(r, radioId, i + 1, i)
  {
  }

  lemma {:induction false} SomeoneIsLast(r: seq<Entry>, radioId: string, k: nat) returns (l: nat)
    requires k < |r| && r[k].radioId == radioId
    ensures k <= l < |r| && LastNamed(r, radioId, l)
    decreases |r| - k
  {
    if Absent(r, radioId, k + 1) {
      l := k;
    } else {
      var j :| k + 1 <= j < |r| && r[j].radioId == radioId;
      l := SomeoneIsLast(r, radioId, j);
    }
  }

  /** The note a call leaves: none, or the pull of the last station of that id. */
  lemma CallLog(c: Client, radioId: string)
    ensures var (c', out) := CallFrom(c, radioId, 0, 0);
      CallStation(c, radioId).0 ==
        if out.Through? && out.session != 0 then Send(c', PullMessage(c', out.session)) else c'
  {
    hide CallFrom;
    CallFromReaches(c, radioId, 0, 0);
    var (c', out) := CallFrom(c, radioId, 0, 0);
    if out.Through? {
      assert CallStation(c, radioId).0 == if out.session == 0 then c' else Send(c', PullMessage(c, out.session));
    } else {
      assert CallStation(c, radioId).0 == c';
    }
  }

  /** Pulling a station holds it and changes nothing for the others. */
  lemma PullHolds(log: seq<Note>, c: Client, session: i32, id: i32)
    ensures Held(log + [Sent(PullMessage(c, session))], c.session, id) ==
      ((id == session && id != c.session) || Held(log, c.session, id))
    ensures ReleasesAreOwned(log + [Sent(PullMessage(c, session))], c.session) <==> ReleasesAreOwned(log, c.session)
  {
    hide Held, ReleasesAreOwned;
    var n := Sent(PullMessage(c, session));
    HeldNext(log, c.session, n, id);
    OwnedNext(log, c.session, n);
  }

  lemma ReachedIsNamed(r: seq<Entry>, radioId: string, k: nat)
    requires k < |r| && Reached(r, radioId, 0, k)
    ensures r[k].radioId == radioId
  {
  }

  /** After the call a station it marked is held exactly where the call was safe for it. */
  lemma ReachedIsHeld(c: Client, radioId: string, k: nat)
    requires Distinct(c.roster) && k < |c.roster| && Reached(c.roster, radioId, 0, k) && c.roster[k].id != c.session
    ensures var e := c.roster[k];
      Held(CallStation(c, radioId).0.log, c.session, e.id)
      <==> Held(c.log, c.session, e.id) || (e.id != 0 && LastNamed(c.roster, radioId, k))
  {
    hide CallFrom, CallStation, Held, Reached;
    var (c', out) := CallFrom(c, radioId, 0, 0);
    CallFromReaches(c, radioId, 0, 0);
    CallLog(c, radioId);
    ReachedIsNamed(c.roster, radioId, k);
    var e := c.roster[k];
    if out.Through? && out.session != 0 {
      PullHolds(c.log, c', out.session, e.id);
      var l := SomeoneIsLast(c.roster, radioId, k);
      assert c.roster[l].id == out.session;
      assert k == l <==> e.id == out.session;
    } else if out.Through? && LastNamed(c.roster, radioId, k) {
      assert e.id == 0;
    }
  }

  lemma OthersStayHeld(c: Client, radioId: string, id: i32)
    ensures Held(c.log, c.session, id) ==> Held(CallStation(c, radioId).0.log, c.session, id)
    ensures ReleasesAreOwned(CallStation(c, radioId).0.log, c.session) <==> ReleasesAreOwned(c.log, c.session)
  {
    hide CallFrom, CallStation, Held, Reached, ReleasesAreOwned;
    var (c', out) := CallFrom(c, radioId, 0, 0);
    CallFromReaches(c, radioId, 0, 0);
    CallLog(c, radioId);
    if out.Through? && out.session != 0 {
      PullHolds(c.log, c', out.session, id);
    }
  }

  lemma CallRoster(c: Client, radioId: string)
    ensures var d := CallStation(c, radioId).0;
      && d.session == c.session && d.channel == c.channel && |d.roster| == |c.roster|
      && (forall k | 0 <= k < |c.roster| ::
            d.roster[k] == if Reached(c.roster, radioId, 0, k) then Pulled(c.roster[k], c) else c.roster[k])
      && (Distinct(c.roster) ==> Distinct(d.roster))
  {
    hide CallFrom, CallStation, Reached;
    CallFromReaches(c, radioId, 0, 0);
    CallLog(c, radioId);
  }

  /** A call keeps all marks held if and only if it is safe. */
  lemma CallKeepsMarks(c: Client, radioId: string)
    requires Distinct(c.roster) && MarksHeld(c)
    ensures MarksHeld(CallStation(c, radioId).0) <==> CallSafe(c, radioId)
  {
    hide CallStation, Held, Reached, LastNamed, Distinct;
    var d := CallStation(c, radioId).0;
    CallRoster(c, radioId);
    if MarksHeld(d) {
      forall k | 0 <= k < |c.roster| && Reached(c.roster, radioId, 0, k)
        ensures var e := c.roster[k];
          e.id == c.session || Held(c.log, c.session, e.id) || (e.id != 0 && LastNamed(c.roster, radioId, k))
      {
        assert d.roster[k] in d.roster;
        if c.roster[k].id != c.session {
          ReachedIsHeld(c, radioId, k);
        }
      }
    }
    if CallSafe(c, radioId) {
      forall e | e in d.roster && e.calledBy == d.session && e.id != d.session
        ensures Held(d.log, d.session, e.id)
      {
        var k :| 0 <= k < |d.roster| && d.roster[k] == e;
        if Reached(c.roster, radioId, 0, k) {
          ReachedIsHeld(c, radioId, k);
        } else {
          assert c.roster[k] in c.roster;
          OthersStayHeld(c, radioId, e.id);
        }
      }
    }
  }

  // ---------------------------------------------------------------- releasing everybody

  /** Releasing everybody in the roster r is owned exactly if all others in our call are held. */
  lemma {:induction false} ReleasesOwned(c: Client, log: seq<Note>, r: seq<Entry>)
    requires Distinct(r)
    ensures ReleasesAreOwned(log + ReleaseNotes(c, r), c.session) <==>
      && ReleasesAreOwned(log, c.session)
      && forall e <- r :: InOurCall(c, e) && e.id != c.session ==> Held(log, c.session, e.id)
    decreases |r|
  {
    hide Held, ReleasesAreOwned, InOurCall, ReleaseNotes, Distinct;
    ReleasedStep(c, r);
    if r == [] {
      assert log + [] == log;
    } else {
      var e, rest := r[0], r[1..];
      DistinctRest(r);
      assert r == [e] + rest;
      if InOurCall(c, e) {
        var n := Sent(ReleaseMessage(c, e.id));
        assert log + ([n] + ReleaseNotes(c, rest)) == log + [n] + ReleaseNotes(c, rest);
        ReleasesOwned(c, log + [n], rest);
        OwnedNext(log, c.session, n);
        forall x | x in rest
          ensures Held(log + [n], c.session, x.id) == Held(log, c.session, x.id)
        {
          HeldNext(log, c.session, n, x.id);
          OtherSession(rest, e.id, x);
        }
        assert forall id :: IsRelease(n, c.session, id) <==> id == e.id && id != c.session;
      } else {
        assert [] + ReleaseNotes(c, rest) == ReleaseNotes(c, rest);
        ReleasesOwned(c, log, rest);
      }
    }
  }

  lemma OtherSession(r: seq<Entry>, id: i32, e: Entry)
    requires !Knows(r, id) && e in r
    ensures e.id != id
  {
    var k :| 0 <= k < |r| && r[k] == e;
    assert r[k].id != id;
  }

  /**
   The exact condition, in what is sent: after a call, releasing everybody sends home only stations
   pulled by us and not released since if and only if the call was safe.
   */
  lemma CallThenReleaseAll(c: Client, radioId: string)
    requires Distinct(c.roster) && MarksHeld(c) && ReleasesAreOwned(c.log, c.session)
    ensures ReleasesAreOwned(DisconnectAll(CallStation(c, radioId).0).log, c.session) <==> CallSafe(c, radioId)
  {
    hide CallStation, Held, Reached, LastNamed, Distinct, DisconnectAll, ReleaseNotes, ReleasesAreOwned;
    var d := CallStation(c, radioId).0;
    CallRoster(c, radioId);
    DisconnectAllIsExact(d);
    ReleasesOwned(d, d.log, d.roster);
    OthersStayHeld(c, radioId, 0);
    CallKeepsMarks(c, radioId);
    if !CallSafe(c, radioId) {
      var k :| 0 <= k < |c.roster| && Reached(c.roster, radioId, 0, k) &&
        c.roster[k].id != c.session && !Held(c.log, c.session, c.roster[k].id) &&
        !(c.roster[k].id != 0 && LastNamed(c.roster, radioId, k));
      ReachedIsHeld(c, radioId, k);
      assert d.roster[k] in d.roster && InOurCall(d, d.roster[k]);
    }
  }

  lemma DisconnectAllKeeps(c: Client)
    requires Owned(c)
    ensures Owned(DisconnectAll(c)) && DisconnectAll(c).session == c.session
  {
    hide Held, Distinct, DisconnectAll, ReleaseNotes, ReleasesAreOwned, AllReleased;
    DisconnectAllIsExact(c);
    ReleasesOwned(c, c.log, c.roster);
    var d := DisconnectAll(c);
    ReleasedShape(c, c.roster);
    forall e | e in d.roster && e.calledBy == d.session && e.id != d.session
      ensures Held(d.log, d.session, e.id)
    {
      var k :| 0 <= k < |d.roster| && d.roster[k] == e;
      assert c.roster[k] == e && e in c.roster;
      NotReleased(c, c.log, c.roster, k);
    }
  }

  lemma ReleasedShape(c: Client, r: seq<Entry>)
    ensures |AllReleased(c, r)| == |r|
    ensures forall k | 0 <= k < |r| :: AllReleased(c, r)[k] == if InOurCall(c, r[k]) then Released(r[k]) else r[k]
    ensures Distinct(r) ==> Distinct(AllReleased(c, r))
  {
  }

  /** A station that is not in our call is not touched by releasing everybody. */
  lemma {:induction false} NotReleased(c: Client, log: seq<Note>, r: seq<Entry>, k: nat)
    requires Distinct(r) && k < |r| && !InOurCall(c, r[k])
    ensures Held(log + ReleaseNotes(c, r), c.session, r[k].id) == Held(log, c.session, r[k].id)
    decreases |r|
  {
    hide Held, InOurCall, ReleaseNotes, Distinct;
    ReleasedStep(c, r);
    DistinctRest(r);
    var id, notes := r[k].id, if InOurCall(c, r[0]) then [Sent(ReleaseMessage(c, r[0].id))] else [];
    assert log + (notes + ReleaseNotes(c, r[1..])) == log + notes + ReleaseNotes(c, r[1..]);
    if k > 0 {
      assert r[1..][k - 1] == r[k];
      OtherSession(r[1..], r[0].id, r[k]);
      NotReleased(c, log + notes, r[1..], k - 1);
    } else {
      NobodyNamed(c, log + notes, r[1..], id);
    }
    if notes != [] {
      HeldNext(log, c.session, notes[0], id);
    } else {
      assert log + notes == log;
    }
  }

  lemma {:induction false} NobodyNamed(c: Client, log: seq<Note>, r: seq<Entry>, id: i32)
    requires !Knows(r, id)
    ensures Held(log + ReleaseNotes(c, r), c.session, id) == Held(log, c.session, id)
    decreases |r|
  {
    hide Held, InOurCall, ReleaseNotes, Knows;
    ReleasedStep(c, r);
    KnowsFirst(r, id);
    if r == [] {
      assert log + [] == log;
    } else {
      var notes := if InOurCall(c, r[0]) then [Sent(ReleaseMessage(c, r[0].id))] else [];
      assert log + (notes + ReleaseNotes(c, r[1..])) == log + notes + ReleaseNotes(c, r[1..]);
      NobodyNamed(c, log + notes, r[1..], id);
      if notes != [] {
        HeldNext(log, c.session, notes[0], id);
      } else {
        assert log + notes == log;
      }
    }
  }

  // ---------------------------------------------------------------- releasing one station

  /** The session is that of a station called by us and released at i or later. */
  ghost predicate NamesReleased(c: Client, c': Client, i: nat, session: i32)
    requires |c'.roster| == |c.roster|
  {
    exists k | i <= k < |c.roster| ::
      c.roster[k].id == session && c.roster[k].calledBy == c.session && c'.roster[k] == Released(c.roster[k])
  }

  /** The loop of disconnectStation releases stations called by us; the last of them is the one it names. */
  lemma {:induction false} DisconnectFromReleases(c: Client, radioId: string, i: nat, session: i32)
    ensures var (c', out) := DisconnectFrom(c, radioId, i, session);
      && c' == c.(roster := c'.roster) && |c'.roster| == |c.roster|
      && (forall k | 0 <= k < |c.roster| :: c'.roster[k] == c.roster[k] || c'.roster[k] == Released(c.roster[k]))
      && (out.Found? ==> out.session == session || NamesReleased(c, c', i, out.session))
    decreases |c.roster| - i
  {
    if i < |c.roster| {
      var e := c.roster[i];
      if e.radioId != radioId {
        DisconnectFromReleases(c, radioId, i + 1, session);
      } else if e.conferenceId == c.channel && e.calledBy == c.session {
        var d := c.(roster := c.roster[i := Released(e)]);
        DisconnectFromReleases(d, radioId, i + 1, e.id);
        var (c', out) := DisconnectFrom(d, radioId, i + 1, e.id);
        assert Released(Released(e)) == Released(e) && c'.roster[i] == Released(e);
        if out.Found? && out.session != e.id {
          var k :| i + 1 <= k < |d.roster| && d.roster[k].id == out.session && d.roster[k].calledBy == d.session
            && c'.roster[k] == Released(d.roster[k]);
          assert c.roster[k] == d.roster[k];
        } else {
          assert c.roster[i].calledBy == c.session;
        }
      }
    }
  }

  lemma DisconnectKeeps(c: Client, radioId: string)
    requires Owned(c)
    ensures var d := DisconnectStation(c, radioId).0; Owned(d) && d.session == c.session
  {
    hide DisconnectFrom, Held, ReleasesAreOwned;
    var (c', out) := DisconnectFrom(c, radioId, 0, 0);
    DisconnectFromReleases(c, radioId, 0, 0);
    ReleasingKeeps(c, c');
    if out.Found? && out.session != 0 {
      var k :| 0 <= k < |c.roster| && c.roster[k].id == out.session && c.roster[k].calledBy == c.session
        && c'.roster[k] == Released(c.roster[k]);
      assert c.roster[k] in c.roster;
      ReleaseKeeps(c', k);
    }
  }

  /** Taking marks away keeps the rest held. */
  lemma ReleasingKeeps(c: Client, c': Client)
    requires Owned(c) && c' == c.(roster := c'.roster) && |c'.roster| == |c.roster|
    requires forall k | 0 <= k < |c.roster| :: c'.roster[k] == c.roster[k] || c'.roster[k] == Released(c.roster[k])
    ensures Owned(c')
  {
    hide Held, ReleasesAreOwned;
    forall e | e in c'.roster && e.calledBy == c.session && e.id != c.session
      ensures Held(c.log, c.session, e.id)
    {
      var k :| 0 <= k < |c'.roster| && c'.roster[k] == e;
      assert c.roster[k] in c.roster;
    }
  }

  /** Sending home a station that was held and whose mark is gone. */
  lemma ReleaseKeeps(c: Client, k: nat)
    requires Owned(c) && k < |c.roster| && c.roster[k].calledBy != c.session
    requires c.roster[k].id == c.session || Held(c.log, c.session, c.roster[k].id)
    ensures Owned(Send(c, ReleaseMessage(c, c.roster[k].id)))
  {
    hide Held, ReleasesAreOwned;
    var n := Sent(ReleaseMessage(c, c.roster[k].id));
    OwnedNext(c.log, c.session, n);
    forall e | e in c.roster && e.calledBy == c.session && e.id != c.session
      ensures Held(c.log + [n], c.session, e.id)
    {
      var j :| 0 <= j < |c.roster| && c.roster[j] == e;
      assert e.id != c.roster[k].id;
      HeldNext(c.log, c.session, n, e.id);
    }
  }

  // ---------------------------------------------------------------- what the server sends

  lemma RemovalKeeps(c: Client, id: i32)
    requires Owned(c)
    ensures Owned(c.(roster := RemoveFrom(c.roster, id, 0), log := c.log + [Left(id)]))
  {
    hide RemoveFrom, Held, ReleasesAreOwned, Distinct;
    RemovalIsExact(c.roster, id);
    WithoutDistinct(c.roster, id);
    WithoutHasNone(c.roster, id);
    OwnedNext(c.log, c.session, Left(id));
    forall e | e in Without(c.roster, id) {
      HeldNext(c.log, c.session, Left(id), e.id);
    }
  }

  lemma UpdateKeeps(c: Client, us: UserState)
    requires Owned(c)
    ensures Owned(c.(roster := UpdateAll(c.roster, us)))
  {
    hide Held, ReleasesAreOwned;
    var u := UpdateAll(c.roster, us);
    forall e | e in u && e.calledBy == c.session && e.id != c.session
      ensures Held(c.log, c.session, e.id)
    {
      var k :| 0 <= k < |u| && u[k] == e;
      assert c.roster[k] in c.roster;
    }
  }

  lemma EntryKeeps(c: Client, us: UserState)
    requires Owned(c) && !Knows(c.roster, us.session)
    ensures Owned(c.(roster := c.roster + [NewEntry(us)], log := c.log + [Entered(us.session)]))
  {
    hide Held, ReleasesAreOwned, NewEntry;
    var n, x := Entered(us.session), NewEntry(us);
    OwnedNext(c.log, c.session, n);
    NewIsUnmarked(us);
    forall e | e in c.roster + [x] && e.calledBy == c.session && e.id != c.session
      ensures Held(c.log + [n], c.session, e.id)
    {
      assert e in c.roster;
      OtherSession(c.roster, us.session, e);
      HeldNext(c.log, c.session, n, e.id);
    }
  }

  lemma NewIsUnmarked(us: UserState)
    ensures NewEntry(us).id == us.session && NewEntry(us).calledBy == 0 && NewEntry(us).radioId == us.name
  {
  }

  lemma UserKeeps(c: Client, us: UserState)
    requires Owned(c)
    ensures Owned(NoteUser(c, us)) && NoteUser(c, us).session == c.session
  {
    hide Owned, RemoveFrom, UpdateAll, NewEntry;
    if us.session == c.session {
      RemovalKeeps(c, us.session);
    } else if Knows(c.roster, us.session) {
      UpdateKeeps(c, us);
    } else {
      EntryKeeps(c, us);
    }
  }

  // ---------------------------------------------------------------- steps

  lemma LeaveKeeps(c: Client)
    ensures var d := LeaveCall(c);
      && d.session == c.session && d.roster == c.roster && d.channel == c.channel
      && (MarksHeld(d) <==> MarksHeld(c)) && (Owned(d) <==> Owned(c))
  {
    hide MarksHeld, ReleasesAreOwned;
    if c.channel >= 2 {
      Unconcerned(c, Sent(SetState(c.session, None, Some(1), true, true)));
    }
  }

  lemma JoinKeeps(c: Client, id: i32)
    ensures var d := JoinChannel(c, id);
      d.session == c.session && (MarksHeld(d) <==> MarksHeld(c)) && (Owned(d) <==> Owned(c))
  {
    hide MarksHeld, ReleasesAreOwned;
    var m := SetState(c.session, None, Some(id), false, false);
    Unconcerned(c, Sent(m));
    RechannelKeeps(Send(c, m), id);
  }

  lemma RechannelKeeps(c: Client, channel: i32)
    ensures var d := c.(channel := channel); (MarksHeld(d) <==> MarksHeld(c)) && (Owned(d) <==> Owned(c))
  {
  }

  lemma CreateKeeps(c: Client, name: string)
    ensures var d := CreateChannel(c, name);
      d.session == c.session && (MarksHeld(d) <==> MarksHeld(c)) && (Owned(d) <==> Owned(c))
  {
    hide MarksHeld, ReleasesAreOwned;
    Unconcerned(c, Sent(MakeChannel(name)));
    Unconcerned(Send(c, MakeChannel(name)), Sent(SetState(c.session, Some(c.session), None, false, false)));
  }

  /** The call that channelReady makes, if it makes one, is safe. */
  ghost predicate ReadySafe(n: Node) {
    n.driver.dialing != "" ==> CallSafe(n.client, n.driver.dialing)
  }

  lemma ReadyExact(n: Node)
    requires Owned(n.client)
    ensures var c := ChannelReady(n).client;
      c.session == n.client.session && (MarksHeld(c) <==> ReadySafe(n)) && (ReadySafe(n) ==> Owned(c))
  {
    hide CallStation, LeaveCall, JoinChannel, CallSafe, MarksHeld, ReleasesAreOwned;
    if n.driver.dialing != "" {
      var (c, res) := CallStation(n.client, n.driver.dialing);
      CallRoster(n.client, n.driver.dialing);
      CallKeepsMarks(n.client, n.driver.dialing);
      OthersStayHeld(n.client, n.driver.dialing, 0);
      LeaveKeeps(c);
      JoinKeeps(c, res);
    }
  }

  /** The event makes no call, or a safe one. */
  ghost predicate StepSafe(n: Node, ev: Event) {
    match ev
    case GotUserState(us) => AnnouncesChannel(n.client, us) ==> ReadySafe(n.(client := NoteChannel(n.client, us)))
    case GotUserRemove(_) => true
    case Dialled(keys, _) =>
      n.driver.conference >= 2 ==> ReadySafe(n.(driver := n.driver.(dialing := Strip(keys, {'*', 'C', 'D'}))))
    case Commanded(_) => true
  }

  /** Every step keeps all marks held and all releases owned if and only if its call is safe. */
  lemma StepExact(n: Node, ev: Event)
    requires Owned(n.client)
    ensures MarksHeld(Step(n, ev).client) <==> StepSafe(n, ev)
    ensures StepSafe(n, ev) ==> Owned(Step(n, ev).client)
    ensures Step(n, ev).client.session == n.client.session
  {
    hide Owned, MarksHeld, HaveUserState, HaveCall, HaveCommand, RemoveFrom;
    OwnedMarks(n.client);
    match ev {
      case GotUserState(us) => UserStateExact(n, us);
      case GotUserRemove(session) =>
        RemovalKeeps(n.client, session);
        OwnedMarks(Step(n, ev).client);
      case Dialled(keys, name) => CallExact(n, keys, name);
      case Commanded(keys) =>
        CommandKeeps(n, keys);
        OwnedMarks(Step(n, ev).client);
    }
  }

  lemma OwnedMarks(c: Client)
    requires Owned(c)
    ensures MarksHeld(c) && Distinct(c.roster) && c.session != 0
  {
  }

  lemma CallExact(n: Node, keys: seq<char>, name: string)
    requires Owned(n.client)
    ensures var c := HaveCall(n, keys, name).client;
      && c.session == n.client.session
      && (MarksHeld(c) <==> StepSafe(n, Dialled(keys, name))) && (StepSafe(n, Dialled(keys, name)) ==> Owned(c))
  {
    hide Owned, MarksHeld, ChannelReady, CreateChannel, Strip, ReadySafe;
    OwnedMarks(n.client);
    CreateKeeps(n.client, name);
    ReadyExact(n.(driver := n.driver.(dialing := Strip(keys, {'*', 'C', 'D'}))));
  }

  lemma CommandKeeps(n: Node, keys: seq<char>)
    requires Owned(n.client)
    ensures var c := HaveCommand(n, keys).client; Owned(c) && c.session == n.client.session
  {
    hide Owned, MarksHeld, LeaveCall, DisconnectAll, DisconnectStation, Strip;
    LeaveKeeps(n.client);
    DisconnectAllKeeps(n.client);
    LeaveKeeps(DisconnectAll(n.client));
    DisconnectKeeps(n.client, Strip(keys, {'*', 'D'}));
  }

  lemma UserStateExact(n: Node, us: UserState)
    requires Owned(n.client)
    ensures var c := HaveUserState(n, us).client;
      && c.session == n.client.session
      && (MarksHeld(c) <==> StepSafe(n, GotUserState(us))) && (StepSafe(n, GotUserState(us)) ==> Owned(c))
  {
    hide Owned, MarksHeld, ChannelReady, NoteUser, ReadySafe, HaveUserState;
    var n' := n.(client := NoteChannel(n.client, us));
    RechannelKeeps(n.client, Or(us.channelId, 0));
    BeforeRosterKeepsStations(n, us);
    OwnedMarks(n'.client);
    ReadyExact(n');
    var c := BeforeRoster(n, us).client;
    if StepSafe(n, GotUserState(us)) {
      UserKeeps(c, us);
      OwnedMarks(NoteUser(c, us));
    } else {
      OwnedMarks(n.client);
      SameStationsDistinct(n.client.roster, c.roster);
      OwnRemovalMarks(c, us);
    }
  }

  /** Removing our own entry holds no mark that was not held. */
  lemma OwnRemovalMarks(c: Client, us: UserState)
    requires us.session == c.session && Distinct(c.roster)
    ensures MarksHeld(NoteUser(c, us)) ==> MarksHeld(c)
    ensures NoteUser(c, us).session == c.session
  {
    hide RemoveFrom, Held, Distinct;
    RemovalIsExact(c.roster, us.session);
    Unconcerned(c, Left(us.session));
    if MarksHeld(NoteUser(c, us)) {
      var c' := c.(log := c.log + [Left(us.session)]);
      forall e | e in c'.roster && e.calledBy == c.session && e.id != c.session
        ensures Held(c'.log, c.session, e.id)
      {
        WithoutKeepsOthers(c.roster, us.session, e);
      }
    }
  }

  lemma {:induction false} WithoutKeepsOthers(r: seq<Entry>, id: i32, e: Entry)
    requires e in r && e.id != id
    ensures e in Without(r, id)
  {
    if r[0] != e {
      assert e in r[1..];
      WithoutKeepsOthers(r[1..], id, e);
    }
  }

  // ---------------------------------------------------------------- runs

  /** Every call of the run is safe when it is made. */
  ghost predicate AllSafe(n: Node, evs: seq<Event>) {
    evs == [] || (AllSafe(n, evs[..|evs| - 1]) && StepSafe(Run(n, evs[..|evs| - 1]), evs[|evs| - 1]))
  }

  /** The marks are held at the end of the run and at every point before. */
  ghost predicate AlwaysHeld(n: Node, evs: seq<Event>) {
    MarksHeld(Run(n, evs).client) && (evs == [] || AlwaysHeld(n, evs[..|evs| - 1]))
  }

  /**
   Over every run the marks are always held if and only if every call made in it is safe when it
   is made; and then every station sent home was pulled by us and not released since.
   */
  lemma {:induction false} RunExact(n: Node, evs: seq<Event>)
    requires Owned(n.client)
    ensures AlwaysHeld(n, evs) <==> AllSafe(n, evs)
    ensures AllSafe(n, evs) ==> Owned(Run(n, evs).client)
    ensures AllSafe(n, evs) ==> Run(n, evs).client.session == n.client.session
    decreases |evs|
  {
    hide Owned, Step, StepSafe, MarksHeld;
    if evs == [] {
      OwnedMarks(n.client);
    } else {
      var init := evs[..|evs| - 1];
      RunExact(n, init);
      if AllSafe(n, init) {
        StepExact(Run(n, init), evs[|evs| - 1]);
      }
    }
  }

  // ---------------------------------------------------------------- counting

  function Pulls(log: seq<Note>, own: i32, id: i32): nat {
    if log == [] then 0 else Pulls(log[..|log| - 1], own, id) + if IsPull(log[|log| - 1], own, id) then 1 else 0
  }

  function Releases(log: seq<Note>, own: i32, id: i32): nat {
    if log == [] then 0 else Releases(log[..|log| - 1], own, id) + if IsRelease(log[|log| - 1], own, id) then 1 else 0
  }

  /** Where releases are owned they never outnumber pulls. */
  lemma {:induction false} ReleasesBounded(log: seq<Note>, own: i32, id: i32)
    requires ReleasesAreOwned(log, own)
    ensures Releases(log, own, id) + (if Held(log, own, id) then 1 else 0) <= Pulls(log, own, id)
  {
    hide ReleasesAreOwned;
    if log != [] {
      var init, last := log[..|log| - 1], log[|log| - 1];
      assert log == init + [last];
      OwnedNext(init, own, last);
      ReleasesBounded(init, own, id);
    }
  }
}
