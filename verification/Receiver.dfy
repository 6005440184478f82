/**
 The receiver's loop: blocks of samples in, calls and commands out. Joins the naming of the key of a
 block to the vote and the assembly of keys.
 */
module Receiver {
  import D = DtmfDecoder
  import opened Goertzel
  import T = ToneDecoder

  /** The letter of a block: the key of its strongest row tone and its strongest column tone. */
  ghost function LetterOf(tones: seq<Complex>, threshold: real, x: seq<real>): char
    requires |tones| == 9
  {
    var p := T.Powers(tones, x);
    T.KeyAt(T.Strongest(p, 0, 5, threshold), T.Strongest(p, 5, 9, threshold))
  }

  ghost function LettersOf(tones: seq<Complex>, threshold: real, blocks: seq<seq<real>>): (h: seq<char>)
    requires |tones| == 9
    ensures |h| == |blocks|
  {
    seq(|blocks|, k requires 0 <= k < |blocks| => LetterOf(tones, threshold, blocks[k]))
  }

  class Receiver {
    const tone: T.ToneDecoder
    const dtmf: D.DtmfDecoder
    const threshold: real

    ghost predicate Valid()
      reads dtmf
    {
      dtmf.Valid() && |tone.tones| == 9 && forall z <- tone.tones :: Unit(z)
    }

    constructor (tones: seq<Complex>, t: real)
      requires |tones| == 9 && forall z <- tones :: Unit(z)
      ensures Valid() && fresh(dtmf) && dtmf.history == [] && tone.tones == tones && threshold == t
    {
      tone := new T.ToneDecoder(tones);
      dtmf := new D.DtmfDecoder();
      threshold := t;
    }

    /** One turn of run, given the block read from the sound card. */
    method Turn(buf: array<real>)
      requires Valid()
      modifies buf, dtmf
      ensures Valid()
      ensures forall k | 0 <= k < buf.Length :: buf[k] == if -1.0 <= old(buf[k]) <= 1.0 then old(buf[k]) else 0.0
      ensures dtmf.history == old(dtmf.history) + [LetterOf(tone.tones, threshold, old(buf[..]))]
    {
      hide D.DtmfDecoder.Valid;
      var letter := tone.NewDecode(buf, threshold);
      dtmf.Step(letter);
    }

    /** The loop of run over a recording, from the start. */
    method Run(recording: seq<seq<real>>)
      requires Valid() && dtmf.history == []
      modifies dtmf
      ensures Valid() && dtmf.history == LettersOf(tone.tones, threshold, recording)
      ensures dtmf.emitted == D.Events(D.Keys(LettersOf(tone.tones, threshold, recording)))
    {
      hide LetterOf, D.Events, D.Keys, D.LastWindow, D.Recognised, D.Pending;
      var k := 0;
      while k < |recording|
        invariant k <= |recording| && Valid()
        invariant dtmf.history == LettersOf(tone.tones, threshold, recording[..k])
      {
        var block := recording[k];
        var buf := new real[|block|](i requires 0 <= i < |block| => block[i]);
        assert buf[..] == block;
        Turn(buf);
        LettersNext(tone.tones, threshold, recording[..k], block);
        assert recording[..k + 1] == recording[..k] + [block];
        k := k + 1;
      }
      assert recording[..k] == recording;
    }
  }

  lemma LettersNext(tones: seq<Complex>, threshold: real, blocks: seq<seq<real>>, x: seq<real>)
    requires |tones| == 9
    ensures LettersOf(tones, threshold, blocks + [x])
         == LettersOf(tones, threshold, blocks) + [LetterOf(tones, threshold, x)]
  {
    hide LetterOf;
  }

  // ---------------------------------------------------------------- what it takes to press a key

  /** The two tones of the key c are the last loudest of their groups, and reach the threshold. */
  ghost predicate TonesOf(tones: seq<Complex>, threshold: real, x: seq<real>, c: char)
    requires |tones| == 9
  {
    var p := T.Powers(tones, x);
    exists row, column | 0 <= row < 4 && 5 <= column < 9 ::
      && T.KeyAt(row, column) == c
      && T.IsLastLoudest(p, 0, 5, threshold, row)
      && T.IsLastLoudest(p, 5, 9, threshold, column)
  }

  /** A block is named after a key if and only if that key's two tones stand out in it. */
  lemma LetterNamesTones(tones: seq<Complex>, threshold: real, x: seq<real>, c: char)
    requires |tones| == 9 && c != ' '
    ensures LetterOf(tones, threshold, x) == c <==> TonesOf(tones, threshold, x, c)
  {
    hide T.Powers, T.IsLastLoudest, T.Strongest, T.KeyAt;
    var p := T.Powers(tones, x);
    var row, column := T.Strongest(p, 0, 5, threshold), T.Strongest(p, 5, 9, threshold);
    T.StrongestIsLastLoudest(p, 0, 5, threshold, row);
    T.StrongestIsLastLoudest(p, 5, 9, threshold, column);
    KeyHasPlace(row, column);
    forall r, k | 0 <= r < 4 && 5 <= k < 9
                  && T.IsLastLoudest(p, 0, 5, threshold, r) && T.IsLastLoudest(p, 5, 9, threshold, k)
      ensures r == row && k == column
    {
      T.StrongestIsLastLoudest(p, 0, 5, threshold, r);
      T.StrongestIsLastLoudest(p, 5, 9, threshold, k);
    }
  }

  /** Every key of the pad is one of the letters the vote can recognise. */
  lemma KeysAreLetters(row: int, column: int)
    ensures T.KeyAt(row, column) in " 1234567890ABCD*#"
  {
    hide T.KeyAt;
    T.KeyTable(row, column);
    if 0 <= row < 4 && 5 <= column < 9 {
      PadIsLetters(row * 4 + column - 5);
    } else {
      assert " 1234567890ABCD*#"[0] == ' ';
    }
  }

  lemma PadIsLetters(k: nat)
    requires k < 16
    ensures "123A456B789C*0#D"[k] in " 1234567890ABCD*#"
  {
    var s := " 1234567890ABCD*#";
    assert s[1] == '1' && s[2] == '2' && s[3] == '3' && s[11] == 'A' && s[4] == '4' && s[5] == '5';
    assert s[6] == '6' && s[12] == 'B' && s[7] == '7' && s[8] == '8' && s[9] == '9' && s[13] == 'C';
    assert s[15] == '*' && s[10] == '0' && s[16] == '#' && s[14] == 'D';
  }

  lemma KeyHasPlace(row: int, column: int)
    ensures T.KeyAt(row, column) != ' ' ==> 0 <= row < 4 && 5 <= column < 9
  {
  }

  /** In how many of the blocks the tones of c stand out. */
  ghost function Heard(tones: seq<Complex>, threshold: real, blocks: seq<seq<real>>, c: char): nat
    requires |tones| == 9
  {
    if blocks == [] then 0
    else
      var last := |blocks| - 1;
      Heard(tones, threshold, blocks[..last], c) + if TonesOf(tones, threshold, blocks[last], c) then 1 else 0
  }

  lemma {:induction false} HeardIsCount(tones: seq<Complex>, threshold: real, blocks: seq<seq<real>>, c: char)
    requires |tones| == 9 && c != ' '
    ensures D.Count(LettersOf(tones, threshold, blocks), c) == Heard(tones, threshold, blocks, c)
  {
    hide LetterOf, TonesOf;
    if blocks != [] {
      var m := |blocks| - 1;
      HeardIsCount(tones, threshold, blocks[..m], c);
      LetterNamesTones(tones, threshold, blocks[m], c);
      assert blocks == blocks[..m] + [blocks[m]];
      LettersNext(tones, threshold, blocks[..m], blocks[m]);
      assert LettersOf(tones, threshold, blocks)[..m] == LettersOf(tones, threshold, blocks[..m]);
    }
  }

  /** The last 26 blocks, or all of them. */
  function LastBlocks(blocks: seq<seq<real>>): seq<seq<real>> {
    if |blocks| <= D.ANALYSIS_BUFFER + 1 then blocks else blocks[|blocks| - D.ANALYSIS_BUFFER - 1..]
  }

  /** A key is accepted only if its two tones stand out in more than half of the last 25 or 26 blocks. */
  lemma KeyNeedsTones(tones: seq<Complex>, threshold: real, blocks: seq<seq<real>>, n: nat)
    requires |tones| == 9 && D.Accepted(LettersOf(tones, threshold, blocks), n)
    ensures n <= |blocks|
    ensures var c := D.At(LettersOf(tones, threshold, blocks), n);
      var w := LastBlocks(blocks[..n]);
      && 25 <= |w| <= 26 && 2 * Heard(tones, threshold, w, c) > |w|
  {
    hide LetterOf, TonesOf, Heard, D.Count, D.Recognised;
    var h := LettersOf(tones, threshold, blocks);
    var c, w := D.At(h, n), LastBlocks(blocks[..n]);
    D.ChangeNeedsMajority(h, n);
    assert D.LastWindow(h[..n]) == LettersOf(tones, threshold, w);
    HeardIsCount(tones, threshold, w, c);
  }

  /** And it takes no more: a key whose tones stand out in more than half of them is the letter recognised. */
  lemma TonesGiveKey(tones: seq<Complex>, threshold: real, blocks: seq<seq<real>>, c: char)
    requires |tones| == 9 && |blocks| >= 25 && c in "1234567890ABCD*#"
    requires 2 * Heard(tones, threshold, LastBlocks(blocks), c) > |LastBlocks(blocks)|
    ensures D.Recognised(LettersOf(tones, threshold, blocks)) == c
  {
    hide LetterOf, TonesOf, Heard, D.Recognised;
    var h, w := LettersOf(tones, threshold, blocks), LastBlocks(blocks);
    assert D.LastWindow(h) == LettersOf(tones, threshold, w);
    HeardIsCount(tones, threshold, w, c);
    D.CountIsMultiplicity(D.LastWindow(h), c);
    AmongLetters(c);
    D.RecognisedIs(h, c);
  }

  lemma AmongLetters(c: char)
    requires c in "1234567890ABCD*#"
    ensures c in " 1234567890ABCD*#" && c != ' '
  {
    var k :| 0 <= k < 16 && "1234567890ABCD*#"[k] == c;
    assert " 1234567890ABCD*#"[k + 1] == c;
  }
}
