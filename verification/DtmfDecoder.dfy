/**
 The key recogniser: a vote over the last 26 decoded blocks, an edge detector and the assembly
 of keys into calls and commands. The machine keeps a few fields; it is proved to emit what a
 batch computation over the whole history of blocks emits.
 */
module DtmfDecoder {

  /** The 17 letters of a block, in the order in which the vote tests them. */
  const SYMBOLS: seq<char> := " 1234567890ABCD*#"
  const ANALYSIS_BUFFER: nat := 25

  datatype Event = HaveCall(keys: seq<char>) | HaveCommand(keys: seq<char>)

  // ---------------------------------------------------------------- the batch computation

  function Count(s: seq<char>, c: char): nat {
    if s == [] then 0 else Count(s[..|s| - 1], c) + if s[|s| - 1] == c then 1 else 0
  }

  function LastWindow(h: seq<char>): seq<char> {
    if |h| <= ANALYSIS_BUFFER + 1 then h else h[|h| - ANALYSIS_BUFFER - 1..]
  }

  /** c holds a strict majority of the last window, once 25 blocks are there. */
  predicate Majority(h: seq<char>, c: char) {
    var w := LastWindow(h);
    c in SYMBOLS && |w| >= ANALYSIS_BUFFER && 2 * Count(w, c) > |w|
  }

  /** The letter recognised after a history: the majority's, or the one recognised before. */
  ghost function Recognised(h: seq<char>): char {
    if h == [] then ' '
    else if exists c :: Majority(h, c) then var c :| Majority(h, c); c
    else Recognised(h[..|h| - 1])
  }

  ghost function Letters(h: seq<char>): seq<char> {
    if h == [] then [] else Letters(h[..|h| - 1]) + [Recognised(h)]
  }

  function Collapse(s: seq<char>): seq<char> {
    if |s| < 2 then s
    else if s[|s| - 1] == s[|s| - 2] then Collapse(s[..|s| - 1])
    else Collapse(s[..|s| - 1]) + [s[|s| - 1]]
  }

  function DropBlanks(s: seq<char>): seq<char> {
    if s == [] then []
    else if s[|s| - 1] == ' ' then DropBlanks(s[..|s| - 1])
    else DropBlanks(s[..|s| - 1]) + [s[|s| - 1]]
  }

  /** The keys pressed. */
  ghost function Keys(h: seq<char>): seq<char> {
    DropBlanks(Collapse(Letters(h)))
  }

  predicate Ends(c: char) {
    c == 'C' || c == 'Q' || c == 'D'
  }

  /** The length of the part before the first terminator. */
  function Body(keys: seq<char>): (n: nat)
    ensures n <= |keys|
  {
    if keys == [] || Ends(keys[0]) then 0 else 1 + Body(keys[1..])
  }

  /** What follows the last star. */
  function AfterStar(s: seq<char>): seq<char> {
    if s == [] then [] else if s[|s| - 1] == '*' then [] else AfterStar(s[..|s| - 1]) + [s[|s| - 1]]
  }

  function EventOf(keys: seq<char>): Event
    requires keys != []
  {
    if keys[|keys| - 1] == 'D' then HaveCommand(keys) else HaveCall(keys)
  }

  /** Cut the keys after each terminator; of each piece keep what follows its last star. */
  function Events(keys: seq<char>): seq<Event> {
    var n := Body(keys);
    if n == |keys| then []
    else [EventOf(AfterStar(keys[..n]) + [keys[n]])] + Events(keys[n + 1..])
  }

  /** The keys of the piece not terminated yet. */
  function Pending(keys: seq<char>): seq<char> {
    var n := Body(keys);
    if n == |keys| then AfterStar(keys) else Pending(keys[n + 1..])
  }

  // ---------------------------------------------------------------- the machine

  class DtmfDecoder {
    var dtmfSequence: seq<char>
    var dtmfCommand: seq<char>
    var currentLetter: char
    var previousLetter: char
    /** The signals emitted so far. */
    var emitted: seq<Event>
    /** The letters of all blocks decoded so far. */
    ghost var history: seq<char>

    /** The machine stands where the batch computation over its history would put it. */
    ghost predicate Valid()
      reads this
    {
      && dtmfSequence == LastWindow(history)
      && currentLetter == Recognised(history)
      && previousLetter == currentLetter
      && dtmfCommand == Pending(Keys(history))
      && emitted == Events(Keys(history))
    }

    constructor ()
      ensures Valid() && history == []
    {
      dtmfSequence := [];
      dtmfCommand := [];
      currentLetter := ' ';
      previousLetter := ' ';
      emitted := [];
      history := [];
    }

    /** The counting loop of analyse; the counters x1, x2, ..., xx of the source are the map counts. */
    method Tally() returns (counts: map<char, nat>)
      ensures forall c :: c in counts <==> c in SYMBOLS
      ensures forall c | c in counts :: counts[c] == Count(dtmfSequence, c)
      ensures forall c | c in counts :: counts[c] == multiset(dtmfSequence)[c]
    {
      counts := map c | c in SYMBOLS :: 0;
      var o := 0;
      while o < |dtmfSequence|
        invariant o <= |dtmfSequence|
        invariant forall c :: c in counts <==> c in SYMBOLS
        invariant forall c | c in counts :: counts[c] == Count(dtmfSequence[..o], c)
      {
        var letter := dtmfSequence[o];
        assert dtmfSequence[..o + 1][..o] == dtmfSequence[..o];
        if letter in counts {
          counts := counts[letter := counts[letter] + 1];
        }
        o := o + 1;
      }
      assert dtmfSequence[..o] == dtmfSequence;
      forall c | c in counts {
        CountIsMultiplicity(dtmfSequence, c);
      }
    }

    /** The statistical vote. */
    method Analyse()
      modifies this`currentLetter
      ensures |dtmfSequence| < ANALYSIS_BUFFER ==> currentLetter == old(currentLetter)
      ensures |dtmfSequence| >= ANALYSIS_BUFFER ==>
        if exists c :: c in SYMBOLS && 2 * Count(dtmfSequence, c) > |dtmfSequence|
        then currentLetter in SYMBOLS && 2 * Count(dtmfSequence, currentLetter) > |dtmfSequence|
        else currentLetter == old(currentLetter)
    {
      hide Count;
      if |dtmfSequence| < ANALYSIS_BUFFER {
        return;
      }
      var counts := Tally();
      var order := SYMBOLS;
      var t := 0;
      while t < |order|
        invariant t <= |order|
        invariant forall k | 0 <= k < t :: 2 * Count(dtmfSequence, order[k]) <= |dtmfSequence|
      {
        if counts[order[t]] > |dtmfSequence| / 2 {
          currentLetter := order[t];
          return;
        }
        t := t + 1;
      }
    }

    /** One turn of the loop in run, given the letter decoded from the block. */
    method Step(letter: char)
      requires Valid()
      modifies this
      ensures Valid() && history == old(history) + [letter]
    {
      hide Majority, Keys, Count, LastWindow, Recognised, Events, Pending;
      ghost var h := history;
      history := history + [letter];
      WindowSlides(h, letter);
      if |dtmfSequence| > ANALYSIS_BUFFER {
        dtmfSequence := dtmfSequence[1..];
      }
      dtmfSequence := dtmfSequence + [letter];
      Analyse();
      RecognisedNext(h, letter, currentLetter);
      KeysNext(h, letter);
      Accept(Keys(h));
    }

    /** The part of the loop after the vote: the edge detector. */
    method Accept(ghost keys: seq<char>)
      requires dtmfCommand == Pending(keys) && emitted == Events(keys)
      modifies this`dtmfCommand, this`emitted, this`previousLetter
      ensures var now :=
          if currentLetter == ' ' || currentLetter == old(previousLetter) then keys else keys + [currentLetter];
        dtmfCommand == Pending(now) && emitted == Events(now)
      ensures previousLetter == currentLetter
    {
      hide Events, Pending;
      if currentLetter == ' ' {
        previousLetter := currentLetter;
        return;
      }
      if previousLetter == currentLetter {
        return;
      }
      Assemble(keys);
      previousLetter := currentLetter;
    }

    /** The part of the loop that a newly accepted key reaches. */
    method Assemble(ghost keys: seq<char>)
      requires dtmfCommand == Pending(keys) && emitted == Events(keys)
      modifies this`dtmfCommand, this`emitted
      ensures dtmfCommand == Pending(keys + [currentLetter])
      ensures emitted == Events(keys + [currentLetter])
    {
      hide Events, Pending;
      AssembleNext(keys, currentLetter);
      if currentLetter == '*' {
        dtmfCommand := [];
      } else if currentLetter == 'C' || currentLetter == 'Q' {
        dtmfCommand := dtmfCommand + [currentLetter];
        emitted := emitted + [HaveCall(dtmfCommand)];
        dtmfCommand := [];
      } else if currentLetter == 'D' {
        dtmfCommand := dtmfCommand + [currentLetter];
        emitted := emitted + [HaveCommand(dtmfCommand)];
        dtmfCommand := [];
      } else {
        dtmfCommand := dtmfCommand + [currentLetter];
      }
    }
  }

  lemma {:induction false} CountIsMultiplicity(s: seq<char>, c: char)
    ensures Count(s, c) == multiset(s)[c]
  {
    if s != [] {
      CountIsMultiplicity(s[..|s| - 1], c);
      assert s == s[..|s| - 1] + [s[|s| - 1]];
    }
  }

  /** The last 26 blocks, or all of them while there are fewer. */
  lemma LastWindowIs(h: seq<char>)
    ensures LastWindow(h) == if |h| <= 26 then h else h[|h| - 26..]
  {
  }

  /**
   The letter recognised, in terms of the blocks: c where it fills more than half of the last 26 (of
   all 25 when there are no more), and what it was before where no letter does or blocks are too few.
   */
  lemma RecognisedIs(h: seq<char>, c: char)
    ensures h == [] ==> Recognised(h) == ' '
    ensures var w := if |h| <= 26 then h else h[|h| - 26..];
      && (|h| >= 25 && c in " 1234567890ABCD*#" && 2 * multiset(w)[c] > |w| ==> Recognised(h) == c)
      && (h != [] && (|h| < 25 || forall d | d in " 1234567890ABCD*#" :: 2 * multiset(w)[d] <= |w|) ==>
            Recognised(h) == Recognised(h[..|h| - 1]))
  {
    hide Count, LastWindow;
    var w := LastWindow(h);
    LastWindowIs(h);
    CountIsMultiplicity(w, c);
    if Majority(h, c) {
      OneMajority(h, c, Recognised(h));
    }
    if |h| < 25 || forall d | d in " 1234567890ABCD*#" :: 2 * multiset(w)[d] <= |w| {
      forall d
        ensures !Majority(h, d)
      {
        CountIsMultiplicity(w, d);
      }
    }
  }

  lemma WindowSlides(h: seq<char>, c: char)
    ensures LastWindow(h + [c]) == (if |LastWindow(h)| > ANALYSIS_BUFFER then LastWindow(h)[1..] else LastWindow(h)) + [c]
    ensures |LastWindow(h)| <= ANALYSIS_BUFFER + 1
  {
  }

  lemma {:induction false} CountsDisjoint(s: seq<char>, c: char, d: char)
    requires c != d
    ensures Count(s, c) + Count(s, d) <= |s|
  {
    if s != [] {
      CountsDisjoint(s[..|s| - 1], c, d);
    }
  }

  /** At most one letter passes the vote, so the order of the tests does not matter. */
  lemma OneMajority(h: seq<char>, c: char, d: char)
    requires Majority(h, c) && Majority(h, d)
    ensures c == d
  {
    if c != d {
      CountsDisjoint(LastWindow(h), c, d);
    }
  }

  lemma RecognisedNext(h: seq<char>, letter: char, now: char)
    requires var w := LastWindow(h + [letter]);
      && (|w| < ANALYSIS_BUFFER ==> now == Recognised(h))
      && (|w| >= ANALYSIS_BUFFER ==>
            if exists c :: c in SYMBOLS && 2 * Count(w, c) > |w|
            then now in SYMBOLS && 2 * Count(w, now) > |w|
            else now == Recognised(h))
    ensures now == Recognised(h + [letter])
  {
    var h' := h + [letter];
    assert h'[..|h'| - 1] == h;
    if exists c :: Majority(h', c) {
      var c := Recognised(h');
      assert Majority(h', c);
      OneMajority(h', c, now);
    } else {
      assert forall c :: c in SYMBOLS && 2 * Count(LastWindow(h'), c) > |LastWindow(h')| ==>
        |LastWindow(h')| < ANALYSIS_BUFFER || Majority(h', c);
    }
  }

  lemma LettersLast(h: seq<char>)
    requires h != []
    ensures |Letters(h)| == |h| && Letters(h)[|h| - 1] == Recognised(h)
    ensures Letters(h)[..|h| - 1] == Letters(h[..|h| - 1])
  {
    LettersLength(h[..|h| - 1]);
  }

  lemma {:induction false} LettersLength(h: seq<char>)
    ensures |Letters(h)| == |h|
  {
    if h != [] {
      LettersLength(h[..|h| - 1]);
    }
  }

  lemma KeysNext(h: seq<char>, letter: char)
    ensures var now := Recognised(h + [letter]);
      Keys(h + [letter]) == if now == ' ' || now == Recognised(h) then Keys(h) else Keys(h) + [now]
  {
    hide Recognised;
    var h' := h + [letter];
    assert h'[..|h'| - 1] == h;
    LettersLast(h');
    var l := Letters(h');
    if h != [] {
      LettersLast(h);
      assert l[|l| - 2] == Letters(h)[|h| - 1] == Recognised(h);
    } else {
      NothingRecognised(letter);
      assert l == [' '];
    }
  }

  lemma NothingRecognised(letter: char)
    ensures Recognised([]) == ' ' && Recognised([letter]) == ' '
  {
    assert [letter][..0] == [];
    assert forall c :: !Majority([letter], c);
  }

  lemma {:induction false} BodyAppend(keys: seq<char>, k: char)
    ensures Body(keys + [k]) == if Body(keys) < |keys| || Ends(k) then Body(keys) else |keys| + 1
    ensures Body(keys) < |keys| ==> Ends(keys[Body(keys)])
  {
    if keys == [] {
      assert [k][1..] == [];
    } else if !Ends(keys[0]) {
      assert (keys + [k])[1..] == keys[1..] + [k];
      BodyAppend(keys[1..], k);
    }
  }

  /** One key more. */
  lemma {:induction false} AssembleNext(keys: seq<char>, k: char)
    ensures Events(keys + [k]) == Events(keys) + if Ends(k) then [EventOf(Pending(keys) + [k])] else []
    ensures Pending(keys + [k]) == if Ends(k) || k == '*' then [] else Pending(keys) + [k]
    decreases |keys|
  {
    hide AfterStar, Body, EventOf;
    var n := Body(keys);
    BodyAppend(keys, k);
    AfterStarAppend(keys, k);
    if n < |keys| {
      AssembleNext(keys[n + 1..], k);
      Cut(keys, k, n);
    } else if Ends(k) {
      assert (keys + [k])[..n] == keys && (keys + [k])[n + 1..] == [];
      NothingAssembled();
    }
  }

  /** What one key more does: a star clears, C and Q complete a call, D a command, anything else is kept. */
  lemma KeyPressed(keys: seq<char>, k: char)
    ensures k == '*' ==> Events(keys + [k]) == Events(keys) && Pending(keys + [k]) == []
    ensures k == 'C' || k == 'Q' ==>
      Events(keys + [k]) == Events(keys) + [HaveCall(Pending(keys) + [k])] && Pending(keys + [k]) == []
    ensures k == 'D' ==>
      Events(keys + [k]) == Events(keys) + [HaveCommand(Pending(keys) + [k])] && Pending(keys + [k]) == []
    ensures k !in {'*', 'C', 'Q', 'D'} ==>
      Events(keys + [k]) == Events(keys) && Pending(keys + [k]) == Pending(keys) + [k]
    ensures Events([]) == [] && Pending([]) == []
  {
    hide Events, Pending;
    AssembleNext(keys, k);
    NothingAssembled();
    assert Events(keys) + [] == Events(keys);
  }

  /** No key without a block; a block adds the letter recognised if it is new and no blank. */
  lemma KeysOfNothing()
    ensures Keys([]) == []
  {
  }

  lemma Cut(keys: seq<char>, k: char, n: nat)
    requires n < |keys|
    ensures (keys + [k])[..n] == keys[..n] && (keys + [k])[n] == keys[n]
    ensures (keys + [k])[n + 1..] == keys[n + 1..] + [k]
  {
  }

  lemma AfterStarAppend(s: seq<char>, k: char)
    ensures AfterStar(s + [k]) == if k == '*' then [] else AfterStar(s) + [k]
  {
  }

  lemma NothingAssembled()
    ensures Events([]) == [] && Pending([]) == []
  {
  }

  // ---------------------------------------------------------------- what the batch result means

  /** The letter recognised after n blocks of h. */
  ghost function At(h: seq<char>, n: nat): char
    requires n <= |h|
  {
    Recognised(h[..n])
  }

  /** A key is accepted with block n when the letter changes to something other than blank. */
  ghost predicate Accepted(h: seq<char>, n: nat) {
    1 <= n <= |h| && At(h, n) != ' ' && At(h, n) != At(h, n - 1)
  }

  lemma {:induction false} WindowGrows(h: seq<char>, n: nat, c: char)
    requires n + 1 <= |h|
    ensures var w, w' := LastWindow(h[..n]), LastWindow(h[..n + 1]);
      && |w'| == (if |w| > ANALYSIS_BUFFER then |w| else |w| + 1)
      && Count(w', c) <= Count(w, c) + 1
      && |w'| <= ANALYSIS_BUFFER + 1
  {
    hide LastWindow;
    WindowSlides(h[..n], h[n]);
    assert h[..n + 1] == h[..n] + [h[n]];
    var w := LastWindow(h[..n]);
    var kept := if |w| > ANALYSIS_BUFFER then w[1..] else w;
    assert (kept + [h[n]])[..|kept|] == kept;
    if |w| > ANALYSIS_BUFFER {
      CountTail(w, c);
    }
  }

  lemma {:induction false} CountTail(s: seq<char>, c: char)
    requires s != []
    ensures Count(s[1..], c) <= Count(s, c)
  {
    if |s| > 1 {
      CountTail(s[..|s| - 1], c);
      assert s[1..][..|s| - 2] == s[..|s| - 1][1..];
    }
  }

  /** A change is backed by a majority of the window at that block: 13 blocks of 25, or 14 of 26. */
  lemma ChangeNeedsMajority(h: seq<char>, n: nat)
    requires 1 <= n <= |h| && At(h, n) != At(h, n - 1)
    ensures Majority(h[..n], At(h, n))
    ensures Count(LastWindow(h[..n]), At(h, n)) >= if n <= ANALYSIS_BUFFER then 13 else 14
  {
    assert h[..n][..n - 1] == h[..n - 1];
    if exists c :: Majority(h[..n], c) {
      assert Majority(h[..n], At(h, n));
    }
  }

  /** The recognised letter changes at most every second block. */
  lemma NoTwoChangesInARow(h: seq<char>, n: nat)
    requires 1 <= n < |h| && At(h, n) != At(h, n - 1)
    ensures At(h, n + 1) == At(h, n)
  {
    var a, b := At(h, n), At(h, n + 1);
    ChangeNeedsMajority(h, n);
    if b != a {
      ChangeNeedsMajority(h, n + 1);
      WindowGrows(h, n, b);
      CountsDisjoint(LastWindow(h[..n]), a, b);
    }
  }

  /** Between two acceptances of the same key lie at least four blocks. */
  lemma SameKeyTakesFourBlocks(h: seq<char>, m: nat, n: nat)
    requires m < n && Accepted(h, m) && Accepted(h, n) && At(h, m) == At(h, n)
    ensures n >= m + 4
  {
    hide Recognised;
    NoTwoChangesInARow(h, m);
    if n == m + 3 {
      NoTwoChangesInARow(h, m + 2);
    }
  }

  /** The keys are the letters at the accepting blocks, in order. */
  ghost function AcceptedKeys(h: seq<char>, n: nat): seq<char>
    requires n <= |h|
  {
    if n == 0 then [] else AcceptedKeys(h, n - 1) + if Accepted(h, n) then [At(h, n)] else []
  }

  lemma {:induction false} KeysAreAccepted(h: seq<char>, n: nat)
    requires n <= |h|
    ensures Keys(h[..n]) == AcceptedKeys(h, n)
  {
    hide Recognised;
    if n > 0 {
      KeysAreAccepted(h, n - 1);
      assert h[..n] == h[..n - 1] + [h[n - 1]];
      KeysNext(h[..n - 1], h[n - 1]);
    }
  }

  /** A call or command holds its terminator last and nowhere else, and never a star. */
  ghost predicate WellFormed(e: Event) {
    && e.keys != []
    && '*' !in e.keys
    && (if e.HaveCommand? then e.keys[|e.keys| - 1] == 'D' else e.keys[|e.keys| - 1] in "CQ")
    && forall i | 0 <= i < |e.keys| - 1 :: !Ends(e.keys[i])
  }

  lemma {:induction false} AfterStarKeepsTail(s: seq<char>)
    ensures '*' !in AfterStar(s) && forall c <- AfterStar(s) :: c in s
  {
    if s != [] {
      AfterStarKeepsTail(s[..|s| - 1]);
    }
  }

  lemma {:induction false} BodyHasNoEnd(keys: seq<char>)
    ensures forall i | 0 <= i < Body(keys) :: !Ends(keys[i])
    ensures Body(keys) < |keys| ==> Ends(keys[Body(keys)])
  {
    if keys != [] && !Ends(keys[0]) {
      BodyHasNoEnd(keys[1..]);
    }
  }

  lemma {:induction false} EventsWellFormed(keys: seq<char>)
    ensures forall e <- Events(keys) :: WellFormed(e)
    decreases |keys|
  {
    var n := Body(keys);
    BodyHasNoEnd(keys);
    if n < |keys| {
      var piece := keys[..n];
      AfterStarKeepsTail(piece);
      assert forall c <- piece :: !Ends(c);
      assert forall c <- AfterStar(piece) :: !Ends(c);
      assert WellFormed(EventOf(AfterStar(piece) + [keys[n]]));
      EventsWellFormed(keys[n + 1..]);
    }
  }
}
