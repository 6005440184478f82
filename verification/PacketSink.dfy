/**
 What writing to and reading from a packet stream computes, as functions: the effect of each
 write on the writer's state, the ideal serialisation it stands for, and what the composite
 reads deliver; with the theorems that hold of every run of writes.
 */
module PacketSink {
  import opened Bytes
  import opened MumbleVarint

  /** The state a writer sees: capacity, bytes written so far, bytes that found no room, flag. */
  datatype Sink = Sink(cap: nat, bytes: seq<byte>, overshoot: u32, ok: bool)

  function PutByte(k: Sink, b: byte): Sink {
    if |k.bytes| < k.cap then k.(bytes := k.bytes + [b])
    else k.(overshoot := (k.overshoot + 1) % 0x1_0000_0000, ok := false)
  }

  /** Bytes one after another. */
  function PutBytes(k: Sink, s: seq<byte>): Sink {
    if s == [] then k else PutByte(PutBytes(k, s[..|s| - 1]), s[|s| - 1])
  }

  /** A block that does not fit is replaced by zeros up to the end of the buffer. */
  function PutBlock(k: Sink, d: seq<byte>): Sink
    requires |k.bytes| <= k.cap
  {
    var left := k.cap - |k.bytes|;
    if |d| <= left then k.(bytes := k.bytes + d)
    else k.(bytes := k.bytes + Zeros(left), overshoot := (k.overshoot + |d| - left) % 0x1_0000_0000, ok := false)
  }

  lemma {:induction false} PutBytesAppend(k: Sink, s: seq<byte>, t: seq<byte>)
    ensures PutBytes(k, s + t) == PutBytes(PutBytes(k, s), t)
  {
    if t == [] {
      assert s + t == s;
    } else {
      PutBytesAppend(k, s, t[..|t| - 1]);
      assert (s + t)[..|s + t| - 1] == s + t[..|t| - 1];
    }
  }

  /** The integer types the stream converts through quint64. */
  datatype IntType = Int | UInt | Short | UShort | Char | UChar | Quint64 {
    predicate Holds(n: int) {
      match this
      case Int => -0x8000_0000 <= n < 0x8000_0000
      case UInt => 0 <= n < 0x1_0000_0000
      case Short => -0x8000 <= n < 0x8000
      case UShort => 0 <= n < 0x1_0000
      case Char => -0x80 <= n < 0x80
      case UChar => 0 <= n < 0x100
      case Quint64 => 0 <= n < 0x1_0000_0000_0000_0000
    }
  }

  /** static_cast<quint64>(n): negative numbers are sign-extended. */
  function Widen(t: IntType, n: int): u64
    requires t.Holds(n)
  {
    if n < 0 then n + 0x1_0000_0000_0000_0000 else n
  }

  function Signed(low: nat, bits: nat): int {
    if low < bits / 2 then low else low - bits
  }

  /** static_cast<type>(q): keep the low bits, and read them as signed where the type is. */
  function Narrow(t: IntType, q: u64): (n: int)
    ensures t.Holds(n)
  {
    match t
    case Int => Signed(q % 0x1_0000_0000, 0x1_0000_0000)
    case UInt => q % 0x1_0000_0000
    case Short => Signed(q % 0x1_0000, 0x1_0000)
    case UShort => q % 0x1_0000
    case Char => Signed(q % 0x100, 0x100)
    case UChar => q % 0x100
    case Quint64 => q
  }

  /** n is q modulo the width, and in the range of signed numbers of that width. */
  ghost predicate SameSigned(q: u64, n: int, width: int)
    requires width > 0
  {
    -width <= 2 * n < width && exists k: int :: q - n == k * width
  }

  ghost predicate SameUnsigned(q: u64, n: int, width: int)
    requires width > 0
  {
    0 <= n < width && exists k: int :: q - n == k * width
  }

  lemma SignedIs(q: u64, width: int)
    requires width == 0x100 || width == 0x1_0000 || width == 0x1_0000_0000
    ensures SameSigned(q, Signed(q % width, width), width)
    ensures SameUnsigned(q, q % width, width)
  {
    var k := q / width;
    assert q - q % width == k * width;
    assert q - (q % width - width) == (k + 1) * width;
  }

  /** The casts by width: the same number modulo the width, in the type's range. */
  lemma CastTable(q: u64)
    ensures SameSigned(q, Narrow(Int, q), 0x1_0000_0000) && SameUnsigned(q, Narrow(UInt, q), 0x1_0000_0000)
    ensures SameSigned(q, Narrow(Short, q), 0x1_0000) && SameUnsigned(q, Narrow(UShort, q), 0x1_0000)
    ensures SameSigned(q, Narrow(Char, q), 0x100) && SameUnsigned(q, Narrow(UChar, q), 0x100)
    ensures Narrow(Quint64, q) == q
  {
    hide Signed, SameSigned, SameUnsigned;
    SignedIs(q, 0x1_0000_0000);
    SignedIs(q, 0x1_0000);
    SignedIs(q, 0x100);
  }

  lemma WidenIs(t: IntType, n: int)
    requires t.Holds(n)
    ensures Widen(t, n) == n || Widen(t, n) == n + 0x1_0000_0000_0000_0000
  {
  }

  lemma NarrowUInt(q: u64)
    ensures Narrow(UInt, q) == q % 0x1_0000_0000
  {
  }

  /** Every integer type survives the trip through quint64. */
  lemma NarrowWiden(t: IntType, n: int)
    requires t.Holds(n)
    ensures Narrow(t, Widen(t, n)) == n
  {
    match t {
      case Int => SignedBack(n, 0x1_0000_0000);
      case Short => SignedBack(n, 0x1_0000);
      case Char => SignedBack(n, 0x100);
      case _ =>
    }
  }

  lemma SignedBack(n: int, bits: int)
    requires bits == 0x100 || bits == 0x1_0000 || bits == 0x1_0000_0000
    requires -bits <= 2 * n < bits
    ensures Signed((if n < 0 then n + 0x1_0000_0000_0000_0000 else n) % bits, bits) == n
  {
  }

  // ---------------------------------------------------------------- composite values

  function EncodeInts(t: IntType, l: seq<int>): seq<byte>
    requires forall n <- l :: t.Holds(n)
  {
    if l == [] then [] else EncodeInts(t, l[..|l| - 1]) + Encode(Widen(t, l[|l| - 1]))
  }

  /** A QList: its length, then its elements. */
  function EncodeList(t: IntType, l: seq<int>): seq<byte>
    requires |l| < 0x8000_0000 && forall n <- l :: t.Holds(n)
  {
    Encode(|l|) + EncodeInts(t, l)
  }

  datatype DecodedList = DecodedList(values: seq<int>, used: nat, ok: bool)

  /** Up to len elements, stopping early at the end of the buffer. */
  function DecodeInts(t: IntType, s: seq<byte>, len: nat): (d: DecodedList)
    ensures d.used <= |s| && |d.values| <= len
    decreases len
  {
    if len == 0 then DecodedList([], 0, true)
    else if s == [] then DecodedList([], 0, false)
    else
      var r := Decode(s);
      var d := DecodeInts(t, s[r.used..], len - 1);
      DecodedList([Narrow(t, r.value)] + d.values, r.used + d.used, r.ok && d.ok)
  }

  function DecodeList(t: IntType, s: seq<byte>): (d: DecodedList)
    ensures d.used <= |s|
  {
    var r := Decode(s);
    var len := r.value % 0x1_0000_0000;
    var left := |s| - r.used;
    var d := DecodeInts(t, s[r.used..], if len > left then left else len);
    DecodedList(d.values, r.used + d.used, r.ok && len <= left && d.ok)
  }

  datatype DecodedBlock = DecodedBlock(block: seq<byte>, used: nat, ok: bool)

  /** A QByteArray: its length, then its bytes, clipped to what is left. */
  function DecodeBlock(s: seq<byte>): (d: DecodedBlock)
    ensures d.used <= |s|
  {
    var r := Decode(s);
    var len := r.value % 0x1_0000_0000;
    var left := |s| - r.used;
    if len > left then DecodedBlock(s[r.used..], |s|, false)
    else DecodedBlock(s[r.used..r.used + len], r.used + len, r.ok)
  }

  // ---------------------------------------------------------------- reading back composites

  lemma BlockRoundTrip(a: seq<byte>, rest: seq<byte>)
    requires |a| < 0x8000_0000
    ensures var e := Encode(|a|) + a;
      DecodeBlock(e + rest) == DecodedBlock(a, |e|, true)
  {
    hide Encode, Decode;
    var e := Encode(|a|);
    RoundTrip(|a|, a + rest);
    assert e + a + rest == e + (a + rest);
  }

  /** One element more. */
  lemma EncodeIntsNext(t: IntType, l: seq<int>)
    requires l != [] && forall n <- l :: t.Holds(n)
    ensures EncodeInts(t, l) == EncodeInts(t, l[..|l| - 1]) + Encode(Widen(t, l[|l| - 1]))
    ensures EncodeInts(t, []) == []
  {
    hide Encode;
  }

  lemma {:induction false} EncodeIntsFirst(t: IntType, l: seq<int>)
    requires l != [] && forall n <- l :: t.Holds(n)
    ensures EncodeInts(t, l) == Encode(Widen(t, l[0])) + EncodeInts(t, l[1..])
  {
    hide Encode, EncodeInts, Widen;
    EncodeIntsNext(t, l);
    if |l| > 1 {
      var a, z := l[..|l| - 1], Encode(Widen(t, l[|l| - 1]));
      EncodeIntsFirst(t, a);
      EncodeIntsNext(t, l[1..]);
      assert a[1..] == l[1..][..|l| - 2];
      var first := Encode(Widen(t, l[0]));
      assert (first + EncodeInts(t, a[1..])) + z == first + (EncodeInts(t, a[1..]) + z);
    } else {
      assert l[..0] == [] && l[1..] == [];
      assert Encode(Widen(t, l[0])) + [] == [] + Encode(Widen(t, l[0]));
    }
  }

  lemma {:induction false} IntsRoundTrip(t: IntType, l: seq<int>, rest: seq<byte>)
    requires forall n <- l :: t.Holds(n)
    ensures DecodeInts(t, EncodeInts(t, l) + rest, |l|) == DecodedList(l, |EncodeInts(t, l)|, true)
    decreases |l|
  {
    hide Encode, Decode;
    if l != [] {
      EncodeIntsFirst(t, l);
      var e, tail := Encode(Widen(t, l[0])), EncodeInts(t, l[1..]);
      assert e + tail + rest == e + (tail + rest);
      RoundTrip(Widen(t, l[0]), tail + rest);
      NarrowWiden(t, l[0]);
      IntsRoundTrip(t, l[1..], rest);
      assert (e + (tail + rest))[|e|..] == tail + rest;
    }
  }

  lemma {:induction false} IntsTakeSpace(t: IntType, l: seq<int>)
    requires forall n <- l :: t.Holds(n)
    ensures |l| <= |EncodeInts(t, l)|
  {
    hide Encode;
    if l != [] {
      IntsTakeSpace(t, l[..|l| - 1]);
      RoundTrip(Widen(t, l[|l| - 1]), []);
      assert |Encode(Widen(t, l[|l| - 1]))| >= 1;
    }
  }

  /** A list that fits reads back equal: the length check never clips, since every element takes a byte. */
  lemma ListRoundTrip(t: IntType, l: seq<int>, rest: seq<byte>)
    requires |l| < 0x8000_0000 && forall n <- l :: t.Holds(n)
    ensures DecodeList(t, EncodeList(t, l) + rest) == DecodedList(l, |EncodeList(t, l)|, true)
  {
    hide Encode, Decode, EncodeInts, DecodeInts;
    var e, tail := Encode(|l|), EncodeInts(t, l);
    assert EncodeList(t, l) + rest == e + (tail + rest);
    RoundTrip(|l|, tail + rest);
    IntsRoundTrip(t, l, rest);
    IntsTakeSpace(t, l);
    assert (e + (tail + rest))[|e|..] == tail + rest;
  }

  // ---------------------------------------------------------------- runs of writes

  /** The writes a caller can make. */
  datatype Write =
    | OfInt(t: IntType, n: int)
    | OfBlock(d: seq<byte>)
    | OfBytes(a: seq<byte>)
    | OfList(e: IntType, l: seq<int>)
  {
    predicate Typed() {
      match this
      case OfInt(t, n) => t.Holds(n)
      case OfBlock(d) => |d| < 0x1_0000_0000
      case OfBytes(a) => |a| < 0x8000_0000
      case OfList(e, l) => |l| < 0x8000_0000 && forall n <- l :: e.Holds(n)
    }

    /** What it serialises to where there is room. */
    function Ideal(): seq<byte>
      requires Typed()
    {
      match this
      case OfInt(t, n) => Encode(Widen(t, n))
      case OfBlock(d) => d
      case OfBytes(a) => Encode(|a|) + a
      case OfList(e, l) => EncodeList(e, l)
    }

    /** What it does to the stream. */
    function Effect(k: Sink): (k': Sink)
      requires Typed() && |k.bytes| <= k.cap
      ensures k'.cap == k.cap && |k'.bytes| <= k.cap
    {
      match this
      case OfInt(t, n) => PutBytesFits(k, Encode(Widen(t, n))); PutBytes(k, Encode(Widen(t, n)))
      case OfBlock(d) => PutBlock(k, d)
      case OfBytes(a) =>
        PutBytesFits(k, Encode(|a|));
        PutBlock(PutBytes(k, Encode(|a|)), a)
      case OfList(e, l) => PutBytesFits(k, EncodeList(e, l)); PutBytes(k, EncodeList(e, l))
    }
  }

  /** What each write stands for, in bytes. */
  lemma IdealTable(t: IntType, n: int, d: seq<byte>, l: seq<int>)
    requires t.Holds(n) && |d| < 0x8000_0000 && |l| < 0x7FFF_FFFF && forall x <- l :: t.Holds(x)
    ensures OfInt(t, n).Ideal() == Encode(Widen(t, n))
    ensures OfBlock(d).Ideal() == d && OfBytes(d).Ideal() == Encode(|d|) + d
    ensures OfList(t, l).Ideal() == Encode(|l|) + EncodeInts(t, l)
    ensures EncodeInts(t, []) == [] && EncodeInts(t, l + [n]) == EncodeInts(t, l) + Encode(Widen(t, n))
  {
    hide Encode, Widen;
    assert (l + [n])[..|l|] == l;
  }

  /** A list longer than what is left is read as far as that goes, and not trusted. */
  lemma ListAfterLength(t: IntType, s: seq<byte>)
    ensures var r := Decode(s);
      var rest, len := s[r.used..], r.value % 0x1_0000_0000;
      var d := DecodeInts(t, rest, if len > |rest| then |rest| else len);
      DecodeList(t, s) == DecodedList(d.values, r.used + d.used, r.ok && len <= |rest| && d.ok)
  {
    hide Decode, DecodeInts;
  }

  function Fresh(cap: nat): Sink {
    Sink(cap, [], 0, true)
  }

  predicate AllTyped(ws: seq<Write>) {
    forall w <- ws :: w.Typed()
  }

  function Run(k: Sink, ws: seq<Write>): (k': Sink)
    requires |k.bytes| <= k.cap && AllTyped(ws)
    ensures k'.cap == k.cap && |k'.bytes| <= k.cap
  {
    if ws == [] then k else ws[|ws| - 1].Effect(Run(k, ws[..|ws| - 1]))
  }

  function IdealOf(ws: seq<Write>): seq<byte>
    requires AllTyped(ws)
  {
    if ws == [] then [] else IdealOf(ws[..|ws| - 1]) + ws[|ws| - 1].Ideal()
  }

  /** k is where a stream stands whose callers have so far asked for the bytes of all. */
  ghost predicate StandsFor(k: Sink, all: seq<byte>) {
    && |k.bytes| <= k.cap
    && (k.ok <==> |all| <= k.cap)
    && (k.ok ==> k.bytes == all)
    && (!k.ok ==> |k.bytes| == k.cap)
    && k.overshoot == (|all| - |k.bytes|) % 0x1_0000_0000
  }

  lemma PutByteStands(k: Sink, all: seq<byte>, b: byte)
    requires StandsFor(k, all)
    ensures StandsFor(PutByte(k, b), all + [b])
  {
  }

  lemma {:induction false} PutBytesStands(k: Sink, all: seq<byte>, s: seq<byte>)
    requires StandsFor(k, all)
    ensures StandsFor(PutBytes(k, s), all + s)
  {
    if s == [] {
      assert all + s == all;
    } else {
      PutBytesStands(k, all, s[..|s| - 1]);
      PutByteStands(PutBytes(k, s[..|s| - 1]), all + s[..|s| - 1], s[|s| - 1]);
      assert all + s == all + s[..|s| - 1] + [s[|s| - 1]];
    }
  }

  lemma PutBlockStands(k: Sink, all: seq<byte>, d: seq<byte>)
    requires StandsFor(k, all)
    ensures StandsFor(PutBlock(k, d), all + d)
  {
  }

  lemma {:induction false} PutBytesFits(k: Sink, s: seq<byte>)
    requires |k.bytes| <= k.cap
    ensures PutBytes(k, s).cap == k.cap && |PutBytes(k, s).bytes| <= k.cap
  {
    if s != [] {
      PutBytesFits(k, s[..|s| - 1]);
    }
  }

  lemma EffectStands(k: Sink, all: seq<byte>, w: Write)
    requires w.Typed() && StandsFor(k, all)
    ensures StandsFor(w.Effect(k), all + w.Ideal())
  {
    hide Encode, EncodeList, StandsFor;
    match w {
      case OfInt(t, n) => PutBytesStands(k, all, Encode(Widen(t, n)));
      case OfBlock(d) => PutBlockStands(k, all, d);
      case OfBytes(a) =>
        var e := Encode(|a|);
        PutBytesStands(k, all, e);
        PutBlockStands(PutBytes(k, e), all + e, a);
        assert all + (e + a) == all + e + a;
      case OfList(e, l) => PutBytesStands(k, all, EncodeList(e, l));
    }
  }

  /**
   After any run of writes to a fresh stream: valid exactly when the ideal serialisation fits, the
   buffer then holds exactly that, and size and undersize account for every byte asked for (the
   32-bit counter modulo 2^32).
   */
  lemma {:induction false} RunStandsForIdeal(cap: nat, ws: seq<Write>)
    requires AllTyped(ws)
    ensures StandsFor(Run(Fresh(cap), ws), IdealOf(ws))
    decreases |ws|
  {
    hide Write.Effect, Write.Ideal, Write.Typed;
    if ws != [] {
      var init := ws[..|ws| - 1];
      RunStandsForIdeal(cap, init);
      EffectStands(Run(Fresh(cap), init), IdealOf(init), ws[|ws| - 1]);
    }
  }

  lemma Shortfall(k: Sink, all: seq<byte>)
    requires StandsFor(k, all)
    ensures (k.ok <==> k.overshoot == 0) <==> (|all| <= k.cap || (|all| - k.cap) % 0x1_0000_0000 != 0)
    ensures |all| - k.cap < 0x1_0000_0000 <==> |k.bytes| + k.overshoot == |all|
    ensures |all| - k.cap < 0x1_0000_0000 <==> |all| <= k.cap + k.overshoot
  {
  }

  /** isValid() and undersize() agree exactly when the shortfall is no positive multiple of 2^32. */
  lemma ValidIffNothingMissing(cap: nat, ws: seq<Write>)
    requires AllTyped(ws)
    ensures var k := Run(Fresh(cap), ws); var n := |IdealOf(ws)|;
      (k.ok <==> k.overshoot == 0) <==> (n <= cap || (n - cap) % 0x1_0000_0000 != 0)
  {
    hide Run, IdealOf;
    RunStandsForIdeal(cap, ws);
    Shortfall(Run(Fresh(cap), ws), IdealOf(ws));
  }

  /**
   The retry idiom: enlarging the buffer by undersize() makes the same writes succeed exactly when
   size() + undersize() is the length needed, that is, up to 2^32 - 1 missing bytes.
   */
  lemma RetrySucceeds(cap: nat, ws: seq<Write>)
    requires AllTyped(ws)
    ensures var k := Run(Fresh(cap), ws);
      var again := Run(Fresh(cap + k.overshoot), ws);
      && (again.ok <==> |IdealOf(ws)| - cap < 0x1_0000_0000)
      && (again.ok <==> |k.bytes| + k.overshoot == |IdealOf(ws)|)
      && (again.ok <==> again.bytes == IdealOf(ws))
  {
    hide Run, IdealOf;
    var k := Run(Fresh(cap), ws);
    RunStandsForIdeal(cap, ws);
    Shortfall(k, IdealOf(ws));
    RunStandsForIdeal(cap + k.overshoot, ws);
  }

  /** The counter wraps: 2^32 missing bytes read as none. */
  lemma ShortfallCanVanish()
    ensures exists ws | AllTyped(ws) :: Run(Fresh(0), ws).overshoot == 0 && !Run(Fresh(0), ws).ok
  {
    hide Run, IdealOf, PutBlock;
    var z := OfBlock(Zeros(0x7FFF_FFFF));
    var ws := [z, z, OfBlock([0, 0])];
    assert AllTyped(ws) && z.Typed();
    NothingIdeal();
    IdealStep([], z);
    IdealStep([z], z);
    IdealStep([z, z], OfBlock([0, 0]));
    assert [] + [z] == [z] && [z] + [z] == [z, z] && [z, z] + [OfBlock([0, 0])] == ws;
    RunStandsForIdeal(0, ws);
  }

  lemma NothingIdeal()
    ensures IdealOf([]) == []
  {
  }

  lemma IdealStep(ws: seq<Write>, w: Write)
    requires AllTyped(ws) && w.Typed()
    ensures AllTyped(ws + [w]) && IdealOf(ws + [w]) == IdealOf(ws) + w.Ideal()
  {
    assert (ws + [w])[..|ws|] == ws;
  }
}
