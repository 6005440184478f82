/**
 From the keypad to the call: the number dialled is exactly the keys pressed after the last star,
 and a dialled number, once our own channel is announced, pulls the station, joins it, or gives up.
 */
module Dialling {
  import D = DtmfDecoder
  import opened Bytes
  import opened CallOwnership
  import opened Options
  import opened Roster
  import opened RosterLaws
  import opened ServerGuarantee

  lemma {:induction false} RecognisedIsSymbol(h: seq<char>)
    ensures D.Recognised(h) in D.SYMBOLS
  {
    hide D.Majority;
    if h != [] {
      RecognisedIsSymbol(h[..|h| - 1]);
      if exists c :: D.Majority(h, c) {
        MajorityIsSymbol(h, D.Recognised(h));
      }
    } else {
      assert D.SYMBOLS[0] == ' ';
    }
  }

  lemma MajorityIsSymbol(h: seq<char>, c: char)
    requires D.Majority(h, c)
    ensures c in D.SYMBOLS
  {
  }

  lemma {:induction false} LettersAreSymbols(h: seq<char>)
    ensures forall c <- D.Letters(h) :: c in D.SYMBOLS
  {
    hide D.Recognised;
    if h != [] {
      LettersAreSymbols(h[..|h| - 1]);
      RecognisedIsSymbol(h);
    }
  }

  lemma {:induction false} CollapseKeeps(s: seq<char>)
    ensures forall c <- D.Collapse(s) :: c in s
  {
    if |s| >= 2 {
      CollapseKeeps(s[..|s| - 1]);
    }
  }

  lemma {:induction false} DropKeeps(s: seq<char>)
    ensures forall c <- D.DropBlanks(s) :: c in s
  {
    if s != [] {
      DropKeeps(s[..|s| - 1]);
    }
  }

  lemma KeysAreSymbols(h: seq<char>)
    ensures forall c <- D.Keys(h) :: c in D.SYMBOLS
  {
    LettersAreSymbols(h);
    CollapseKeeps(D.Letters(h));
    DropKeeps(D.Collapse(D.Letters(h)));
  }

  lemma {:induction false} EventsFromKeys(keys: seq<char>)
    ensures forall e <- D.Events(keys) :: forall c <- e.keys :: c in keys
    decreases |keys|
  {
    var n := D.Body(keys);
    if n < |keys| {
      D.AfterStarKeepsTail(keys[..n]);
      EventsFromKeys(keys[n + 1..]);
      assert forall c <- keys[n + 1..] :: c in keys;
      assert forall c <- D.AfterStar(keys[..n]) + [keys[n]] :: c in keys;
    }
  }

  lemma {:induction false} StripNothing(s: seq<char>, drop: set<char>, last: char)
    requires last in drop && forall c <- s :: c !in drop
    ensures Strip(s + [last], drop) == s
  {
    if s == [] {
      assert ([last])[1..] == [];
    } else {
      StripNothing(s[1..], drop, last);
      assert (s + [last])[1..] == s[1..] + [last];
    }
  }

  /**
   Whatever was heard, the number of an emitted call, and the text of an emitted command, is the
   keys pressed since the last star or terminator, with nothing lost to the stripping of control keys.
   */
  lemma NumberIsTheKeysPressed(h: seq<char>, e: D.Event)
    requires e in D.Events(D.Keys(h))
    ensures e.keys != []
    ensures var body := e.keys[..|e.keys| - 1];
      && (e.HaveCall? ==> Strip(e.keys, {'*', 'C', 'D'}) == body && e.keys == body + ['C'])
      && (e.HaveCommand? ==> Strip(e.keys, {'*', 'D'}) == body && e.keys == body + ['D'])
      && forall c <- body :: c in "1234567890AB#"
  {
    hide D.Keys, D.Events, Strip;
    D.EventsWellFormed(D.Keys(h));
    assert D.WellFormed(e);
    var n := |e.keys| - 1;
    var body, last := e.keys[..n], e.keys[n];
    PressedKey(h, e, n);
    forall c | c in body
      ensures c in "1234567890AB#" && c !in {'*', 'C', 'D'} && c !in {'*', 'D'}
    {
      var k :| 0 <= k < n && e.keys[k] == c;
      PressedKey(h, e, k);
    }
    assert e.keys == body + [last];
    if e.HaveCommand? {
      StripNothing(body, {'*', 'D'}, last);
    } else {
      StripNothing(body, {'*', 'C', 'D'}, last);
    }
  }

  /** Every key of an event is a symbol other than blank and star; the inner ones end nothing. */
  lemma PressedKey(h: seq<char>, e: D.Event, k: nat)
    requires e in D.Events(D.Keys(h)) && D.WellFormed(e) && k < |e.keys|
    ensures e.keys[k] != 'Q'
    ensures k < |e.keys| - 1 ==> e.keys[k] in "1234567890AB#" && e.keys[k] !in {'*', 'C', 'D'}
  {
    hide D.Keys, D.Events;
    EventsFromKeys(D.Keys(h));
    KeysAreSymbols(h);
    NoBlankKeys(h);
    assert e.keys[k] in e.keys;
    SymbolsSplit(e.keys[k]);
  }

  lemma SymbolsSplit(c: char)
    requires c in D.SYMBOLS
    ensures c in "1234567890AB#" || c == ' ' || c == '*' || c == 'C' || c == 'D'
    ensures c != 'Q'
  {
  }

  lemma NoBlankKeys(h: seq<char>)
    ensures ' ' !in D.Keys(h)
  {
    NoBlanksLeft(D.Collapse(D.Letters(h)));
  }

  lemma {:induction false} NoBlanksLeft(s: seq<char>)
    ensures ' ' !in D.DropBlanks(s)
  {
    if s != [] {
      NoBlanksLeft(s[..|s| - 1]);
    }
  }

  /** What is sent when a number is called from a channel. */
  function Moves(c: Client, number: string): seq<Note> {
    var i := Find(c.roster, number);
    if number == "" then []
    else if i < 0 then if c.channel < 2 then [] else [Sent(SetState(c.session, None, Some(1), true, true))]
    else if c.roster[i].conferenceId > 1 then
      [Sent(SetState(c.session, None, Some(c.roster[i].conferenceId), false, false))]
    else [Sent(SetState(c.roster[i].id, Some(c.session), Some(c.channel), false, false))]
  }

  /**
   A station that is free is sent to our channel and marked; one that is in a conference we join
   there; if nobody has the number we go back to channel 1. In each case the number is used up.
   */
  function Answered(n: Node): Node {
    var c := n.client.(log := n.client.log + Moves(n.client, n.driver.dialing));
    var i := Find(c.roster, n.driver.dialing);
    if n.driver.dialing == "" then n
    else if i < 0 then Node(c, Driver("", -1))
    else if c.roster[i].conferenceId > 1 then
      Node(c.(channel := c.roster[i].conferenceId), Driver("", n.client.channel))
    else Node(c.(roster := c.roster[i := Pulled(c.roster[i], c)]), Driver("", n.client.channel))
  }

  /** With distinct radio ids and no session 0, the announcement of a channel calls whoever was dialled. */
  lemma ReadyAnswers(n: Node)
    requires Named(n.client.roster)
    ensures ChannelReady(n) == Answered(n)
  {
    hide CallStation, Find, DistinctNames;
    var c := n.client;
    OnlyTheNamedStation(c, n.driver.dialing);
    var i := Find(c.roster, n.driver.dialing);
    assert c.log + [] == c.log;
    if i >= 0 {
      assert c.roster[i] in c.roster;
    }
  }

  /** A number dialled inside a conference is called at once, from the channel we are in. */
  lemma DialledInConference(n: Node, keys: seq<char>, name: string)
    requires n.driver.conference >= 2 && Named(n.client.roster)
    ensures HaveCall(n, keys, name) == Answered(n.(driver := n.driver.(dialing := Strip(keys, {'*', 'C', 'D'}))))
  {
    hide ChannelReady, Strip, Answered, Named;
    ReadyAnswers(n.(driver := n.driver.(dialing := Strip(keys, {'*', 'C', 'D'}))));
  }

  lemma AnsweringKeepsSession(n: Node)
    ensures Answered(n).client.session == n.client.session
  {
  }

  /** Neither another number nor the announcement of a conference channel of ours. */
  predicate Between(own: i32, ev: Event) {
    match ev
    case GotUserState(us) => !(us.session == own && us.channelId.Some? && us.channelId.value > 1)
    case GotUserRemove(_) => true
    case Dialled(_, _) => false
    case Commanded(_) => true
  }

  lemma BetweenStep(n: Node, ev: Event)
    requires Between(n.client.session, ev)
    ensures Step(n, ev).driver.dialing == n.driver.dialing && Step(n, ev).client.session == n.client.session
    ensures n.client.log <= Step(n, ev).client.log
  {
    hide ChannelReady, RemoveFrom, DisconnectAll, DisconnectFrom, Strip, ReleaseNotes, LeaveCall;
    if ev.Commanded? {
      var number := Strip(ev.command, {'*', 'D'});
      DisconnectFromReleases(n.client, number, 0, 0);
      DisconnectAllIsExact(n.client);
      LeavingLogs(n.client);
      LeavingLogs(DisconnectAll(n.client));
    }
  }

  lemma LeavingLogs(c: Client)
    ensures c.log <= LeaveCall(c).log && LeaveCall(c).session == c.session
  {
  }

  lemma {:induction false} BetweenRun(n: Node, evs: seq<Event>)
    requires forall ev <- evs :: Between(n.client.session, ev)
    ensures Run(n, evs).driver.dialing == n.driver.dialing && Run(n, evs).client.session == n.client.session
    ensures n.client.log <= Run(n, evs).client.log
    decreases |evs|
  {
    hide Step, Between;
    if evs != [] {
      var init := evs[..|evs| - 1];
      BetweenRun(n, init);
      BetweenStep(Run(n, init), evs[|evs| - 1]);
    }
  }

  /**
   A number dialled outside a conference: a channel is asked for, and whatever happens before that
   channel is announced (short of another number), the announcement calls the number from it.
   */
  lemma DialledNumberIsCalled(n: Node, keys: seq<char>, name: string, between: seq<Event>, us: UserState)
    requires n.driver.conference < 2 && forall ev <- between :: Between(n.client.session, ev)
    requires us.session == n.client.session && us.channelId.Some? && us.channelId.value > 1
    requires Named(Run(HaveCall(n, keys, name), between).client.roster)
    ensures var own := n.client.session;
      var waiting := Run(HaveCall(n, keys, name), between);
      var before := waiting.(client := waiting.client.(channel := us.channelId.value));
      && n.client.log + [Sent(MakeChannel(name)), Sent(SetState(own, Some(own), None, false, false))]
           <= waiting.client.log
      && waiting.client.session == own && waiting.driver.dialing == Strip(keys, {'*', 'C', 'D'})
      && HaveUserState(waiting, us).driver == Answered(before).driver
      && HaveUserState(waiting, us).client ==
           var c := Answered(before).client;
           c.(roster := RemoveFrom(c.roster, own, 0), log := c.log + [Left(own)])
  {
    hide Strip, RemoveFrom, ChannelReady, Answered, Named, Run, Between;
    var called := HaveCall(n, keys, name);
    BetweenRun(called, between);
    var waiting := Run(called, between);
    var before := waiting.(client := waiting.client.(channel := us.channelId.value));
    ReadyAnswers(before);
    AnsweringKeepsSession(before);
    var own := n.client.session;
    assert called.client.log ==
      n.client.log + [Sent(MakeChannel(name)), Sent(SetState(own, Some(own), None, false, false))];
  }
}
