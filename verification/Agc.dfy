/**
 The fixed-point automatic gain control. long is 64 bits wide; ipeak / sample_max is computed in
 unsigned 32-bit arithmetic and its product with 62259 wraps. Proved equal to a fold over the
 peaks of complete 800-sample windows, whatever the lengths of the buffers it is fed.
 */
module Agc {
  import opened Bytes

  type Sample = i16

  /** C's division of a signed number by a positive one: toward zero. */
  function TruncatedDiv(a: int, b: int): int
    requires b > 0
  {
    if a >= 0 then a / b else -((-a) / b)
  }

  function Abs(x: int): nat {
    if x < 0 then -x else x
  }

  datatype State = State(sampleMax: int, counter: int, igain: int, silence: int)

  const INITIAL := State(1, 0, 0x1_0000, 0)

  /** The gain that would lift a window's peak to the target, in unsigned 32-bit arithmetic. */
  function Target(ipeak: int, peak: int): int
    requires ipeak >= 0 && peak > 0
  {
    (ipeak / peak * 62259) % 0x1_0000_0000 / 0x1_0000
  }

  /** One step of the gain toward a target: a quarter of the way after a long pause, else a twentieth. */
  function Approach(igain: int, target: int, silence: int): int {
    if silence > 40 then igain + (target - igain) / 4 else igain + TruncatedDiv(target - igain, 20)
  }

  function Amplify(x: int, igain: int): int {
    x * igain / 0x1_0000
  }

  /** Would this sample, amplified, exceed the target peak? */
  predicate Overflows(sample: nat, igain: int, ipeak: int) {
    sample * igain / 0x1_0000 > ipeak
  }

  /** The range of ipeak that initAGC can set. */
  predicate Level(ipeak: int) {
    0x7FFF * 0x8000 <= ipeak <= 0x7FFF * 0x1_0000
  }

  /** ipeak for a requested level, clamped to [0.5, 1]. */
  function PeakFor(level: real): (ipeak: int)
    ensures Level(ipeak)
  {
    var l := if level > 1.0 then 1.0 else if level < 0.5 then 0.5 else level;
    (32767.0 * l * 65536.0).Floor
  }

  ghost predicate Inv(st: State) {
    && 0 <= st.igain <= 0x1_0000
    && 1 <= st.sampleMax <= 0x8000
    && 0 <= st.counter < 800
    && 0 <= st.silence
  }

  class AgcState {
    var sampleMax: int
    var counter: int
    var igain: int
    var silenceCounter: int
    const ipeak: int

    ghost function St(): State
      reads this
    {
      State(sampleMax, counter, igain, silenceCounter)
    }

    ghost predicate Valid()
      reads this
    {
      Inv(St()) && Level(ipeak)
    }

    /** initAGC */
    constructor (level: real)
      ensures Valid() && St() == INITIAL && ipeak == PeakFor(level)
      ensures sampleMax == 1 && counter == 0 && igain == 65536 && silenceCounter == 0
    {
      sampleMax := 1;
      counter := 0;
      igain := 65536;
      var l := level;
      if l > 1.0 {
        l := 1.0;
      } else if l < 0.5 {
        l := 0.5;
      }
      ipeak := (32767.0 * l * 65536.0).Floor;
      silenceCounter := 0;
    }

    /** AGC: the loop over one buffer, in place. */
    method Process(buffer: array<Sample>)
      requires Valid()
      modifies this, buffer
      ensures Valid()
      ensures (St(), buffer[..]) == Run(ipeak, old(St()), old(buffer[..]))
    {
      hide Run, Next, Inv;
      ghost var x := buffer[..];
      ghost var st := St();
      RunStart(ipeak, st);
      var i := 0;
      while i < buffer.Length
        invariant i <= buffer.Length && Valid()
        invariant buffer[i..] == x[i..]
        invariant (St(), buffer[..i]) == Run(ipeak, st, x[..i])
      {
        assert buffer[i] == buffer[i..][0] == x[i];
        assert buffer[i + 1..] == buffer[i..][1..] == x[i + 1..];
        var y := One(buffer[i]);
        buffer[i] := y;
        RunNext(ipeak, st, x[..i], x[i]);
        assert x[..i + 1] == x[..i] + [x[i]];
        assert buffer[..i + 1] == buffer[..i] + [y];
        i := i + 1;
      }
      assert x[..i] == x && buffer[..i] == buffer[..];
    }

    /** The body of the loop for one sample. */
    method One(x: Sample) returns (y: Sample)
      requires Valid()
      modifies this
      ensures Valid()
      ensures (St(), y) == Next(ipeak, old(St()), x)
    {
      hide Target, Amplify, TruncatedDiv;
      var sample := Abs(x);
      if sample > sampleMax {
        sampleMax := sample;
      }
      counter := counter + 1;
      GainNeverOverflows(x, igain, ipeak);
      if Overflows(sample, igain, ipeak) {
        assert false;
      }
      if counter >= 8000 / 10 {
        if sampleMax > 800 {
          var gainNew := Target(ipeak, sampleMax);
          ApproachLands(ipeak, igain, sampleMax, silenceCounter);
          if silenceCounter > 40 {
            igain := igain + (gainNew - igain) / 4;
          } else {
            igain := igain + TruncatedDiv(gainNew - igain, 20);
          }
          silenceCounter := 0;
        } else {
          silenceCounter := silenceCounter + 1;
          if igain > 65536 && silenceCounter >= 20 {
            assert false;
          }
        }
        counter := 0;
        sampleMax := 1;
      }
      AmplifyShrinks(x, igain);
      y := Amplify(x, igain);
    }
  }

  // ---------------------------------------------------------------- one sample

  /** The state and the output after one sample; the two unreachable branches are gone. */
  function Next(ipeak: int, st: State, x: Sample): (r: (State, Sample))
    requires Inv(st) && Level(ipeak)
    ensures Inv(r.0) && Abs(r.1) <= Abs(x)
  {
    var peak := if Abs(x) > st.sampleMax then Abs(x) else st.sampleMax;
    ApproachLands(ipeak, st.igain, peak, st.silence);
    var st' :=
      if st.counter + 1 < 800 then st.(sampleMax := peak, counter := st.counter + 1)
      else if peak > 800 then State(1, 0, Approach(st.igain, Target(ipeak, peak), st.silence), 0)
      else State(1, 0, st.igain, st.silence + 1);
    AmplifyShrinks(x, st'.igain);
    (st', Amplify(x, st'.igain))
  }

  lemma TargetRange(ipeak: int, peak: int)
    requires Level(ipeak) && 1 <= peak <= 0x8000
    ensures 0 <= Target(ipeak, peak) < 0x1_0000
  {
  }

  lemma ProductBound(a: int, b: int, m: int)
    requires 0 <= a && 0 <= b <= m
    ensures 0 <= a * b <= a * m
  {
  }

  /** The gain never exceeds unity, so no output is louder than its input. */
  lemma AmplifyShrinks(x: Sample, igain: int)
    requires 0 <= igain <= 0x1_0000
    ensures Abs(Amplify(x, igain)) <= Abs(x)
    ensures -0x8000 <= Amplify(x, igain) < 0x8000
    ensures x >= 0 ==> 0 <= Amplify(x, igain) <= x
    ensures x < 0 ==> x <= Amplify(x, igain) <= 0
  {
    if x >= 0 {
      ProductBound(x, igain, 0x1_0000);
    } else {
      var m: int := -(x as int);
      ProductBound(m, igain, 0x1_0000);
      assert m * igain == -(x * igain);
    }
  }

  /** Scaling by g / 65536, rounded down. */
  lemma AmplifyIsScaling(x: int, g: int)
    ensures Amplify(x, g) * 0x1_0000 <= x * g < (Amplify(x, g) + 1) * 0x1_0000
    ensures g == 0x1_0000 ==> Amplify(x, g) == x
  {
  }

  /** The target is the upper half of the product, which wraps at 32 bits. */
  lemma TargetIs(ipeak: int, peak: int)
    requires ipeak >= 0 && peak > 0
    ensures var w := (ipeak / peak * 62259) % 0x1_0000_0000; var t := Target(ipeak, peak);
      t * 0x1_0000 <= w < (t + 1) * 0x1_0000
  {
  }

  /** After more than 40 silent windows a quarter of the distance, rounded down; else a twentieth, toward zero. */
  lemma ApproachIs(igain: int, target: int, silence: int)
    ensures var step, d := Approach(igain, target, silence) - igain, target - igain;
      if silence > 40 then 4 * step <= d < 4 * step + 4
      else if d >= 0 then 20 * step <= d < 20 * step + 20
      else 20 * step - 20 < d <= 20 * step
  {
  }

  /** The level, clamped to one half to one, on the scale of a sample times the gain. */
  lemma PeakForIs(level: real)
    ensures level >= 1.0 ==> PeakFor(level) == 2147418112
    ensures level <= 0.5 ==> PeakFor(level) == 1073709056
    ensures 0.5 <= level <= 1.0 ==>
      PeakFor(level) as real <= 2147418112.0 * level < PeakFor(level) as real + 1.0
  {
  }

  lemma GainNeverOverflows(x: Sample, igain: int, ipeak: int)
    requires 0 <= igain <= 0x1_0000 && Level(ipeak)
    ensures !Overflows(Abs(x), igain, ipeak)
  {
    ProductBound(Abs(x), igain, 0x1_0000);
  }

  // ---------------------------------------------------------------- runs

  function Run(ipeak: int, st: State, x: seq<Sample>): (r: (State, seq<Sample>))
    requires Inv(st) && Level(ipeak)
    ensures Inv(r.0) && |r.1| == |x|
  {
    if x == [] then (st, [])
    else
      var before := Run(ipeak, st, x[..|x| - 1]);
      var last := Next(ipeak, before.0, x[|x| - 1]);
      (last.0, before.1 + [last.1])
  }

  lemma RunStart(ipeak: int, st: State)
    requires Inv(st) && Level(ipeak)
    ensures Run(ipeak, st, []) == (st, [])
  {
  }

  lemma RunNext(ipeak: int, st: State, x: seq<Sample>, v: Sample)
    requires Inv(st) && Level(ipeak)
    ensures var r := Run(ipeak, st, x); var n := Next(ipeak, r.0, v);
      Run(ipeak, st, x + [v]) == (n.0, r.1 + [n.1])
  {
    assert (x + [v])[..|x|] == x;
  }

  /** Feeding two buffers one after the other is feeding their concatenation. */
  lemma {:induction false} ChunkingDoesNotMatter(ipeak: int, st: State, x: seq<Sample>, y: seq<Sample>)
    requires Inv(st) && Level(ipeak)
    ensures var a := Run(ipeak, st, x); var b := Run(ipeak, a.0, y);
      Run(ipeak, st, x + y) == (b.0, a.1 + b.1)
  {
    hide Run, Next, Inv;
    if y == [] {
      assert x + y == x;
      var a := Run(ipeak, st, x);
      RunStart(ipeak, a.0);
      assert a.1 + [] == a.1;
    } else {
      var n := |y| - 1;
      ChunkingDoesNotMatter(ipeak, st, x, y[..n]);
      assert x + y == (x + y[..n]) + [y[n]];
      RunNext(ipeak, st, x + y[..n], y[n]);
      var a := Run(ipeak, st, x);
      RunNext(ipeak, a.0, y[..n], y[n]);
      assert y[..n] + [y[n]] == y;
      var b := Run(ipeak, a.0, y[..n]);
      var l := Next(ipeak, b.0, y[n]);
      assert a.1 + b.1 + [l.1] == a.1 + (b.1 + [l.1]);
    }
  }

  /** No output is ever louder than its input. */
  lemma {:induction false} OutputsNoLouder(ipeak: int, st: State, x: seq<Sample>, i: nat)
    requires Inv(st) && Level(ipeak) && i < |x|
    ensures Abs(Run(ipeak, st, x).1[i]) <= Abs(x[i])
  {
    hide Next, Inv, Abs;
    if i < |x| - 1 {
      OutputsNoLouder(ipeak, st, x[..|x| - 1], i);
    }
  }

  // ---------------------------------------------------------------- the fold over windows

  /** The largest magnitude of a stretch of samples, at least 1. */
  function Peak(x: seq<Sample>): (p: int)
    ensures 1 <= p <= 0x8000
  {
    if x == [] then 1
    else
      var p := Peak(x[..|x| - 1]);
      var a := Abs(x[|x| - 1]);
      if a > p then a else p
  }

  lemma {:induction false} PeakIsLargest(x: seq<Sample>)
    ensures forall v <- x :: Abs(v) <= Peak(x)
    ensures Peak(x) == 1 || exists v <- x :: Abs(v) == Peak(x)
  {
    if x != [] {
      var y := x[..|x| - 1];
      PeakIsLargest(y);
      assert x == y + [x[|x| - 1]];
      if Peak(x) != 1 && Peak(x) == Peak(y) {
        var v :| v in y && Abs(v) == Peak(y);
        assert v in x;
      }
    }
  }

  /** Gain and count of silent windows after k complete windows. */
  datatype Gain = Gain(igain: int, silence: int)

  function AfterWindows(ipeak: int, x: seq<Sample>, k: nat): (g: Gain)
    requires k * 800 <= |x| && Level(ipeak)
    ensures 0 <= g.igain <= 0x1_0000 && 0 <= g.silence
  {
    if k == 0 then Gain(0x1_0000, 0)
    else
      var g := AfterWindows(ipeak, x, k - 1);
      var p := Peak(x[(k - 1) * 800..k * 800]);
      if p > 800 then
        ApproachLands(ipeak, g.igain, p, g.silence);
        Gain(Approach(g.igain, Target(ipeak, p), g.silence), 0)
      else Gain(g.igain, g.silence + 1)
  }

  /** What a complete window does: a silent one is counted; a loud one moves the gain toward its target. */
  lemma GainNext(ipeak: int, x: seq<Sample>, k: nat)
    requires Level(ipeak) && (k + 1) * 800 <= |x|
    ensures AfterWindows(ipeak, x, 0) == Gain(65536, 0)
    ensures var g, g' := AfterWindows(ipeak, x, k), AfterWindows(ipeak, x, k + 1);
      var p := Peak(x[k * 800..(k + 1) * 800]);
      if p <= 800 then g' == Gain(g.igain, g.silence + 1)
      else
        var step := g'.igain - g.igain;
        var d := ipeak / p * 62259 % 0x1_0000_0000 / 0x1_0000 - g.igain;
        && g'.silence == 0
        && (g.silence > 40 ==> 4 * step <= d < 4 * step + 4)
        && (g.silence <= 40 && d >= 0 ==> 20 * step <= d < 20 * step + 20)
        && (g.silence <= 40 && d < 0 ==> 20 * step - 20 < d <= 20 * step)
  {
    hide Approach, Peak;
    var g := AfterWindows(ipeak, x, k);
    var p := Peak(x[k * 800..(k + 1) * 800]);
    OneWindowMore(ipeak, x, k);
    ApproachIs(g.igain, Target(ipeak, p), g.silence);
  }

  /** A step lands between the old gain and the target, never past it. */
  lemma ApproachLands(ipeak: int, igain: int, peak: int, silence: int)
    requires Level(ipeak) && 0 <= igain <= 0x1_0000 && 1 <= peak <= 0x8000
    ensures var t := Target(ipeak, peak); var a := Approach(igain, t, silence);
      && (igain <= t ==> igain <= a <= t)
      && (t <= igain ==> t <= a <= igain)
      && 0 <= a <= 0x1_0000
  {
    TargetRange(ipeak, peak);
  }

  /**
   After n samples from initAGC: the counter is n mod 800, the peak meter covers the unfinished
   window, and the gain is the fold over the peaks of the n / 800 complete windows.
   */
  lemma {:induction false} StateIsFold(ipeak: int, x: seq<Sample>)
    requires Level(ipeak)
    ensures Run(ipeak, INITIAL, x).0 == Fold(ipeak, x)
  {
    if x == [] {
      RunStart(ipeak, INITIAL);
      NothingFolded(ipeak);
    } else {
      hide Run, Next, Inv, Fold;
      var y, v := x[..|x| - 1], x[|x| - 1];
      StateIsFold(ipeak, y);
      RunNext(ipeak, INITIAL, y, v);
      FoldNext(ipeak, y, v);
      assert y + [v] == x;
    }
  }

  lemma NothingFolded(ipeak: int)
    requires Level(ipeak)
    ensures Fold(ipeak, []) == INITIAL
  {
  }

  /** The state that n complete windows and the samples after them amount to. */
  function FoldState(ipeak: int, x: seq<Sample>, n: nat): State
    requires Level(ipeak) && n * 800 <= |x|
  {
    var g := AfterWindows(ipeak, x, n);
    State(Peak(x[n * 800..]), |x| - n * 800, g.igain, g.silence)
  }

  function Fold(ipeak: int, x: seq<Sample>): State
    requires Level(ipeak)
  {
    FoldState(ipeak, x, |x| / 800)
  }

  lemma FoldNext(ipeak: int, x: seq<Sample>, v: Sample)
    requires Level(ipeak)
    ensures Inv(Fold(ipeak, x)) && Next(ipeak, Fold(ipeak, x), v).0 == Fold(ipeak, x + [v])
  {
    hide Next, FoldState, Inv;
    var n := |x| / 800;
    FoldInv(ipeak, x, n);
    if |x| == n * 800 + 799 {
      FoldCompletes(ipeak, x, v, n);
      assert |x + [v]| / 800 == n + 1;
    } else {
      FoldWithin(ipeak, x, v, n);
      assert |x + [v]| / 800 == n;
    }
  }

  lemma FoldInv(ipeak: int, x: seq<Sample>, n: nat)
    requires Level(ipeak) && n * 800 <= |x| < n * 800 + 800
    ensures Inv(FoldState(ipeak, x, n))
  {
    hide AfterWindows, Peak;
  }

  lemma FoldWithin(ipeak: int, x: seq<Sample>, v: Sample, n: nat)
    requires Level(ipeak) && n * 800 <= |x| < n * 800 + 799 && Inv(FoldState(ipeak, x, n))
    ensures Next(ipeak, FoldState(ipeak, x, n), v).0 == FoldState(ipeak, x + [v], n)
  {
    hide AfterWindows, Amplify, Approach, Target, Peak;
    WindowsOfPrefix(ipeak, x, v, n);
    PeakNext(x[n * 800..], v);
    assert (x + [v])[n * 800..] == x[n * 800..] + [v];
  }

  lemma FoldCompletes(ipeak: int, x: seq<Sample>, v: Sample, n: nat)
    requires Level(ipeak) && |x| == n * 800 + 799 && Inv(FoldState(ipeak, x, n))
    ensures Next(ipeak, FoldState(ipeak, x, n), v).0 == FoldState(ipeak, x + [v], n + 1)
  {
    hide AfterWindows, Amplify, Approach, Target;
    WindowsOfPrefix(ipeak, x, v, n);
    PeakNext(x[n * 800..], v);
    var x' := x + [v];
    assert x'[n * 800..(n + 1) * 800] == x[n * 800..] + [v];
    assert x'[(n + 1) * 800..] == [];
    OneWindowMore(ipeak, x', n);
  }

  lemma PeakNext(x: seq<Sample>, v: Sample)
    ensures Peak(x + [v]) == if Abs(v) > Peak(x) then Abs(v) else Peak(x)
  {
    assert (x + [v])[..|x|] == x;
  }

  lemma OneWindowMore(ipeak: int, x: seq<Sample>, n: nat)
    requires Level(ipeak) && (n + 1) * 800 <= |x|
    ensures var g, p := AfterWindows(ipeak, x, n), Peak(x[n * 800..(n + 1) * 800]);
      AfterWindows(ipeak, x, n + 1)
      == if p > 800 then Gain(Approach(g.igain, Target(ipeak, p), g.silence), 0) else Gain(g.igain, g.silence + 1)
  {
    hide Approach, Target, Peak;
  }

  lemma {:induction false} WindowsOfPrefix(ipeak: int, x: seq<Sample>, v: Sample, k: nat)
    requires Level(ipeak) && k * 800 <= |x|
    ensures AfterWindows(ipeak, x + [v], k) == AfterWindows(ipeak, x, k)
  {
    if k > 0 {
      hide AfterWindows, Approach, Target, Peak;
      WindowsOfPrefix(ipeak, x, v, k - 1);
      OneWindowMore(ipeak, x, k - 1);
      OneWindowMore(ipeak, x + [v], k - 1);
      assert (x + [v])[(k - 1) * 800..k * 800] == x[(k - 1) * 800..k * 800];
    }
  }

  /** Each output is its input scaled by the gain after the windows complete at that sample. */
  lemma {:induction false} OutputIsScaled(ipeak: int, x: seq<Sample>, i: nat)
    requires Level(ipeak) && i < |x|
    ensures var y: int, g := Run(ipeak, INITIAL, x).1[i], AfterWindows(ipeak, x, (i + 1) / 800).igain;
      && y == Amplify(x[i], g)
      && y * 0x1_0000 <= x[i] * g < (y + 1) * 0x1_0000
      && (g == 0x1_0000 ==> y == x[i])
  {
    hide Run, Next, AfterWindows, Amplify;
    AmplifyIsScaling(x[i], AfterWindows(ipeak, x, (i + 1) / 800).igain);
    var m := |x| - 1;
    RunNext(ipeak, INITIAL, x[..m], x[m]);
    assert x == x[..m] + [x[m]];
    if i < m {
      OutputIsScaled(ipeak, x[..m], i);
      WindowsOfPrefix(ipeak, x[..m], x[m], (i + 1) / 800);
    } else {
      StateIsFold(ipeak, x);
      NextAmplifies(ipeak, Run(ipeak, INITIAL, x[..m]).0, x[m]);
    }
  }

  lemma NextAmplifies(ipeak: int, st: State, x: Sample)
    requires Inv(st) && Level(ipeak)
    ensures Next(ipeak, st, x).1 == Amplify(x, Next(ipeak, st, x).0.igain)
  {
  }
}
