/** newDecode: clamp a block of samples, measure nine tones and name the key they stand for. */
module ToneDecoder {
  import opened Goertzel

  function Clamp(v: real): real {
    if v > 1.0 then 0.0 else if v < -1.0 then 0.0 else v
  }

  function Clamped(x: seq<real>): seq<real> {
    seq(|x|, k requires 0 <= k < |x| => Clamp(x[k]))
  }

  /** The power of each tone in the clamped block: the squared modulus of its transform bin. */
  ghost function Powers(tones: seq<Complex>, x: seq<real>): (p: seq<real>)
    ensures |p| == |tones|
  {
    seq(|tones|, i requires 0 <= i < |tones| => Norm(Bin(tones[i], Clamped(x))))
  }

  /** The tone chosen among lo..hi, or -1. */
  function Strongest(p: seq<real>, lo: nat, hi: nat, threshold: real): (t: int)
    requires lo <= hi <= |p|
    ensures t == -1 || lo <= t < hi
  {
    if lo == hi then -1
    else
      var t := Strongest(p, lo, hi - 1, threshold);
      if p[hi - 1] >= threshold && (t == -1 || p[hi - 1] >= p[t]) then hi - 1 else t
  }

  /** The last among the loudest that reach the threshold; none only when none does. */
  ghost predicate IsLastLoudest(p: seq<real>, lo: nat, hi: nat, threshold: real, t: int)
    requires lo <= hi <= |p|
  {
    if t == -1 then forall i | lo <= i < hi :: p[i] < threshold
    else
      && lo <= t < hi && p[t] >= threshold
      && (forall i | lo <= i < hi :: p[i] <= p[t])
      && (forall i | t < i < hi :: p[i] < p[t])
  }

  lemma {:induction false} StrongestIsLastLoudest(p: seq<real>, lo: nat, hi: nat, threshold: real, t: int)
    requires lo <= hi <= |p|
    ensures t == Strongest(p, lo, hi, threshold) <==> IsLastLoudest(p, lo, hi, threshold, t)
  {
    LastLoudest(p, lo, hi, threshold);
  }

  /** The same, spelled out: the last of the loudest among lo..hi, if any reaches the threshold. */
  lemma ChosenTone(p: seq<real>, lo: nat, hi: nat, threshold: real)
    requires lo <= hi <= |p|
    ensures var t := Strongest(p, lo, hi, threshold);
      if t == -1 then forall i | lo <= i < hi :: p[i] < threshold
      else
        && lo <= t < hi && p[t] >= threshold
        && (forall i | lo <= i < hi :: p[i] <= p[t]) && (forall i | t < i < hi :: p[i] < p[t])
  {
    hide Strongest;
    LastLoudest(p, lo, hi, threshold);
  }

  lemma {:induction false} LastLoudest(p: seq<real>, lo: nat, hi: nat, threshold: real)
    requires lo <= hi <= |p|
    ensures IsLastLoudest(p, lo, hi, threshold, Strongest(p, lo, hi, threshold))
  {
    if lo < hi {
      LastLoudest(p, lo, hi - 1, threshold);
    }
  }

  /** The keypad: four rows and four columns; the fifth row tone (1100 Hz) stands for no key. */
  function KeyAt(row: int, column: int): char {
    if 0 <= row < 4 && 5 <= column < 9 then ["123A", "456B", "789C", "*0#D"][row][column - 5] else ' '
  }

  /** The sixteen keys of the pad, by row and column; no other pair of tones is a key. */
  lemma KeyTable(row: int, column: int)
    ensures 0 <= row < 4 && 5 <= column < 9 ==>
      KeyAt(row, column) == "123A456B789C*0#D"[row * 4 + column - 5]
    ensures !(0 <= row < 4 && 5 <= column < 9) ==> KeyAt(row, column) == ' '
  {
  }

  /** A block within range is measured as it is: each power is that of the transform's bin of the block itself. */
  lemma InRangeIsMeasured(tones: seq<Complex>, x: seq<real>, i: nat)
    requires i < |tones| && forall v <- x :: -1.0 <= v <= 1.0
    ensures Clamped(x) == x && Powers(tones, x)[i] == Norm(Bin(tones[i], x))
  {
    hide Norm, Bin;
    forall k | 0 <= k < |x|
      ensures Clamped(x)[k] == x[k]
    {
      assert x[k] in x;
    }
  }

  class ToneDecoder {
    const tones: seq<Complex>

    constructor (z: seq<Complex>)
      ensures tones == z
    {
      tones := z;
    }

    /** The inner loop: clamp the block in place and run it through one filter. */
    method Filter(buf: array<real>, z: Complex) returns (power: real)
      requires Unit(z)
      modifies buf
      ensures buf[..] == Clamped(old(buf[..]))
      ensures forall k | 0 <= k < buf.Length :: buf[k] == if -1.0 <= old(buf[k]) <= 1.0 then old(buf[k]) else 0.0
      ensures power == Norm(Bin(z, Clamped(old(buf[..]))))
    {
      hide Norm, Bin, PowerOf;
      var gk := new Goertzel(z.re, z.im);
      var j := 0;
      ghost var x := buf[..];
      while j < buf.Length
        invariant j <= buf.Length && gk.Valid() && gk.Rotation() == z
        invariant buf[..j] == Clamped(x)[..j] && buf[j..] == x[j..]
        invariant gk.Delays() == Run(z.re, Clamped(x)[..j])
      {
        assert buf[j] == buf[j..][0] == x[j];
        assert buf[j + 1..] == buf[j..][1..] == x[j + 1..];
        buf[j] := if buf[j] > 1.0 then 0.0 else buf[j];
        buf[j] := if buf[j] < -1.0 then 0.0 else buf[j];
        gk.Calc(buf[j]);
        assert Clamped(x)[..j + 1][..j] == Clamped(x)[..j];
        j := j + 1;
      }
      assert Clamped(x)[..j] == Clamped(x) && buf[..j] == buf[..];
      power := gk.MagnitudeSquared();
      MagnitudeIsBinPower(z, Clamped(x));
    }

    /** One of the two loops over tones: those of the rows, or those of the columns. */
    method Pick(buf: array<real>, lo: nat, hi: nat, threshold: real) returns (tone: int)
      requires lo < hi <= |tones| && forall z <- tones :: Unit(z)
      modifies buf
      ensures buf[..] == Clamped(old(buf[..]))
      ensures forall k | 0 <= k < buf.Length :: buf[k] == if -1.0 <= old(buf[k]) <= 1.0 then old(buf[k]) else 0.0
      ensures tone == Strongest(Powers(tones, old(buf[..])), lo, hi, threshold)
    {
      hide Norm, Bin;
      ghost var x := buf[..];
      ghost var p := Powers(tones, x);
      tone := -1;
      var largest := 0.0;
      var i := lo;
      while i < hi
        invariant lo <= i <= hi && tone == Strongest(p, lo, i, threshold)
        invariant largest == if tone == -1 then 0.0 else p[tone]
        invariant Clamped(buf[..]) == Clamped(x) && (i > lo ==> buf[..] == Clamped(x))
      {
        var power := Filter(buf, tones[i]);
        ClampedTwice(x);
        PowerNonnegative(tones[i], Clamped(x));
        assert power == p[i];
        if power < largest {
        } else if power < threshold {
        } else {
          tone := i;
          largest := power;
        }
        i := i + 1;
      }
    }

    method NewDecode(buf: array<real>, threshold: real) returns (letter: char)
      requires |tones| == 9 && forall z <- tones :: Unit(z)
      modifies buf
      ensures buf[..] == Clamped(old(buf[..]))
      ensures forall k | 0 <= k < buf.Length :: buf[k] == if -1.0 <= old(buf[k]) <= 1.0 then old(buf[k]) else 0.0
      ensures var p := Powers(tones, old(buf[..]));
        letter == KeyAt(Strongest(p, 0, 5, threshold), Strongest(p, 5, 9, threshold))
    {
      ghost var x := buf[..];
      var row := Pick(buf, 0, 5, threshold);
      ClampedTwice(x);
      var column := Pick(buf, 5, 9, threshold);
      letter := KeyAt(row, column);
    }
  }

  lemma ClampedTwice(x: seq<real>)
    ensures Clamped(Clamped(x)) == Clamped(x)
  {
  }

  lemma PowerNonnegative(z: Complex, x: seq<real>)
    ensures Norm(Bin(z, x)) >= 0.0
  {
    hide Bin;
    var b := Bin(z, x);
    assert b.re * b.re >= 0.0 && b.im * b.im >= 0.0;
  }

  /** However loud the input, a clamped block of n samples never measures more than n squared. */
  lemma PowersBounded(tones: seq<Complex>, x: seq<real>, i: nat)
    requires i < |tones| && Unit(tones[i])
    ensures 0.0 <= Powers(tones, x)[i] <= Square(|x| as real)
  {
    hide Norm, Bin, PowerOf, Square;
    var c := Clamped(x);
    forall v | v in c
      ensures -1.0 <= v <= 1.0
    {
      var k :| 0 <= k < |c| && c[k] == v;
      assert v == Clamp(x[k]);
    }
    PowerBounded(tones[i], c);
    MagnitudeIsBinPower(tones[i], c);
  }
}
