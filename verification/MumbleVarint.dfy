/**
 The variable-length 64-bit integer code of Mumble's voice packets, as pure functions over
 byte strings: what operator<< writes and what operator>> reads. Shifts and masks of
 unsigned values are written as division and remainder by powers of two; for example
 (v & 0xC0) == 0x80 on a byte is v / 64 == 2.
 */
module MumbleVarint {
  import opened BigEndianBytes
  import opened Bytes

  /** ~v on 64 bits. */
  function Complement(v: u64): u64 {
    0xFFFF_FFFF_FFFF_FFFF - v
  }

  /** Values written as a marker and their complement. */
  predicate ShortNegative(v: u64) {
    v >= 0x8000_0000_0000_0000 && Complement(v) < 0x1_0000_0000
  }

  /** How many bytes follow the first one. */
  function Extra(i: u64): nat {
    if i < 0x80 then 0
    else if i < 0x4000 then 1
    else if i < 0x20_0000 then 2
    else if i < 0x1000_0000 then 3
    else if i < 0x1_0000_0000 then 4
    else 8
  }

  /** The forms with n bytes after the first, and the bits of the value the first byte carries. */
  predicate FormOf(first: int, n: nat, head: nat) {
    || (n == 0 && first == head < 0x80)
    || (n == 1 && first == 0x80 + head && head < 0x40)
    || (n == 2 && first == 0xC0 + head && head < 0x20)
    || (n == 3 && first == 0xE0 + head && head < 0x10)
    || (n == 4 && 0xF0 <= first < 0xF4 && head == 0)
    || (n == 8 && 0xF4 <= first < 0xF8 && head == 0)
  }

  function Marker(n: nat): nat {
    if n == 0 then 0 else if n == 1 then 0x80 else if n == 2 then 0xC0
    else if n == 3 then 0xE0 else if n == 4 then 0xF0 else 0xF4
  }

  /** A value below 2^28 leaves its top bits in the first byte. */
  function EncodePlain(i: u64): (s: seq<byte>)
    ensures |s| == 1 + Extra(i)
  {
    var n := Extra(i);
    AboveFits(i);
    [Marker(n) + Above(i, n)] + BigEndian(i, n)
  }

  lemma AboveFits(i: u64)
    ensures FormOf(Marker(Extra(i)) + Above(i, Extra(i)), Extra(i), Above(i, Extra(i)))
  {
    AboveShifts(i);
  }

  function Encode(v: u64): seq<byte> {
    if ShortNegative(v) then
      if Complement(v) <= 3 then [0xFC + Complement(v)] else [0xF8] + EncodePlain(Complement(v))
    else
      EncodePlain(v)
  }

  /** What one read yields: the value, the bytes the cursor moves by, and whether no read ran out. */
  datatype Decoded = Decoded(value: u64, used: nat, ok: bool)

  /** next() at distance k from the cursor: bytes past the end read as 0. */
  function Peek(s: seq<byte>, k: nat): byte {
    if k < |s| then s[k] else 0
  }

  /** The n bytes that follow the first, as next() delivers them. */
  function Following(s: seq<byte>, n: nat): seq<byte> {
    seq(n, k requires 0 <= k => Peek(s, k + 1))
  }

  /** The first byte gives the top bits, and n more bytes follow. */
  function Multi(head: nat, s: seq<byte>, n: nat): Decoded
    requires (n == 0 && head < 0x80) || (n <= 3 && head < 0x40) || (n <= 8 && head == 0)
  {
    JoinedFits(head, Following(s, n));
    Decoded(Joined(head, Following(s, n)), if |s| < 1 + n then |s| else 1 + n, 1 + n <= |s|)
  }

  function Decode(s: seq<byte>): (r: Decoded)
    ensures r.used <= |s|
    ensures s != [] ==> 1 <= r.used
    ensures r.ok ==> 1 <= r.used
  {
    if s == [] then Decoded(0, 0, false)
    else
      var v := s[0];
      if v / 128 == 0 then Decoded(v, 1, true)
      else if v / 64 == 2 then Multi(v % 64, s, 1)
      else if v / 16 == 15 then
        if v / 4 == 0x3C then Multi(0, s, 4)
        else if v / 4 == 0x3D then Multi(0, s, 8)
        else if v / 4 == 0x3E then
          var r := Decode(s[1..]);
          Decoded(Complement(r.value), 1 + r.used, r.ok)
        else Decoded(Complement(v % 4), 1, true)
      else if v / 16 == 14 then Multi(v % 16, s, 3)
      else Multi(v % 32, s, 2)
  }

  lemma JoinedFits(head: nat, b: seq<byte>)
    requires (|b| == 0 && head < 0x80) || (|b| <= 3 && head < 0x40) || (|b| <= 8 && head == 0)
    ensures Joined(head, b) < 0x1_0000_0000_0000_0000
    ensures |b| <= 4 && head == 0 ==> Joined(head, b) < 0x1_0000_0000
  {
    JoinedBelow(head, b);
    assert Pow256(1) == 0x100 && Pow256(2) == 0x1_0000 && Pow256(3) == 0x100_0000;
    assert Pow256(4) == 0x1_0000_0000;
    assert Pow256(5) == 0x100_0000_0000;
    assert Pow256(6) == 0x1_0000_0000_0000;
    assert Pow256(7) == 0x100_0000_0000_0000;
    assert Pow256(8) == 0x1_0000_0000_0000_0000;
  }

  // The shifts and masks of operator<<, form by form.

  lemma OneByte(i: u64)
    requires i < 0x80
    ensures EncodePlain(i) == [i]
  {
  }

  lemma TwoBytes(i: u64)
    requires 0x80 <= i < 0x4000
    ensures EncodePlain(i) == [i / 0x100 + 0x80, i % 0x100]
  {
    AboveShifts(i);
    BigEndianDigits(i);
  }

  lemma ThreeBytes(i: u64)
    requires 0x4000 <= i < 0x20_0000
    ensures EncodePlain(i) == [i / 0x1_0000 + 0xC0, i / 0x100 % 0x100, i % 0x100]
  {
    AboveShifts(i);
    BigEndianDigits(i);
  }

  lemma FourBytes(i: u64)
    requires 0x20_0000 <= i < 0x1000_0000
    ensures EncodePlain(i) == [i / 0x100_0000 + 0xE0, i / 0x1_0000 % 0x100, i / 0x100 % 0x100, i % 0x100]
  {
    AboveShifts(i);
    BigEndianDigits(i);
  }

  lemma FiveBytes(i: u64)
    requires 0x1000_0000 <= i < 0x1_0000_0000
    ensures EncodePlain(i) == [0xF0, i / 0x100_0000 % 0x100, i / 0x1_0000 % 0x100, i / 0x100 % 0x100, i % 0x100]
  {
    AboveShifts(i);
    BigEndianDigits(i);
  }

  lemma NineBytes(i: u64)
    requires 0x1_0000_0000 <= i
    ensures EncodePlain(i) == [0xF4, i / 0x100_0000_0000_0000 % 0x100, i / 0x1_0000_0000_0000 % 0x100,
                               i / 0x100_0000_0000 % 0x100, i / 0x1_0000_0000 % 0x100,
                               i / 0x100_0000 % 0x100, i / 0x1_0000 % 0x100, i / 0x100 % 0x100, i % 0x100]
  {
    HighDigitShifts(i);
    DigitShifts(i);
    BigEndianDigits(i);
    BigEndianDigits(Above(i, 4));
    NineDigits(i);
  }

  lemma NineDigits(i: u64)
    requires 0x1_0000_0000 <= i
    ensures EncodePlain(i) == [0xF4] + BigEndian(Above(i, 4), 4) + BigEndian(i, 4)
  {
    AboveFits(i);
    BigEndianSplits(i, 4, 4);
  }

  /** The code, byte by byte: six positive forms, two for complements of small numbers. */
  lemma EncodingTable(v: u64)
    ensures v < 0x80 ==> Encode(v) == [v]
    ensures 0x80 <= v < 0x4000 ==> Encode(v) == [0x80 + v / 0x100, v % 0x100]
    ensures 0x4000 <= v < 0x20_0000 ==> Encode(v) == [0xC0 + v / 0x1_0000, v / 0x100 % 0x100, v % 0x100]
    ensures 0x20_0000 <= v < 0x1000_0000 ==>
              Encode(v) == [0xE0 + v / 0x100_0000, v / 0x1_0000 % 0x100, v / 0x100 % 0x100, v % 0x100]
    ensures 0x1000_0000 <= v < 0x1_0000_0000 ==>
              Encode(v) == [0xF0, v / 0x100_0000, v / 0x1_0000 % 0x100, v / 0x100 % 0x100, v % 0x100]
    ensures 0x1_0000_0000 <= v < 0xFFFF_FFFF_0000_0000 ==>
              Encode(v) == [0xF4, v / 0x100_0000_0000_0000 % 0x100, v / 0x1_0000_0000_0000 % 0x100,
                            v / 0x100_0000_0000 % 0x100, v / 0x1_0000_0000 % 0x100,
                            v / 0x100_0000 % 0x100, v / 0x1_0000 % 0x100, v / 0x100 % 0x100, v % 0x100]
    ensures 0xFFFF_FFFF_0000_0000 <= v < 0xFFFF_FFFF_FFFF_FFFC ==>
              Encode(v) == [0xF8] + Encode(0xFFFF_FFFF_FFFF_FFFF - v)
    ensures v >= 0xFFFF_FFFF_FFFF_FFFC ==> Encode(v) == [0xFC + (0xFFFF_FFFF_FFFF_FFFF - v)]
  {
    hide EncodePlain;
    if v < 0x80 {
      OneByte(v);
    } else if v < 0x4000 {
      TwoBytes(v);
    } else if v < 0x20_0000 {
      ThreeBytes(v);
    } else if v < 0x1000_0000 {
      FourBytes(v);
    } else if v < 0x1_0000_0000 {
      FiveBytes(v);
    } else {
      NineBytes(v);
    }
  }

  /** What next() delivers past the end. */
  lemma Peeks(s: seq<byte>, k: nat)
    ensures Peek(s, k) == if k < |s| then s[k] else 0
  {
  }

  /** The reader, for the forms of FormOf: top bits from the first byte, then n bytes, missing ones as 0. */
  lemma ReadingForm(s: seq<byte>, n: nat, head: nat)
    requires s != [] && FormOf(s[0], n, head)
    ensures Decode(s).used == (if |s| < 1 + n then |s| else 1 + n) && Decode(s).ok == (1 + n <= |s|)
    ensures var p := (k: nat) => Peek(s, k) as int;
      Decode(s).value ==
        if n == 0 then head
        else if n == 1 then head * 0x100 + p(1)
        else if n == 2 then head * 0x1_0000 + p(1) * 0x100 + p(2)
        else if n == 3 then head * 0x100_0000 + p(1) * 0x1_0000 + p(2) * 0x100 + p(3)
        else if n == 4 then p(1) * 0x100_0000 + p(2) * 0x1_0000 + p(3) * 0x100 + p(4)
        else p(1) * 0x100_0000_0000_0000 + p(2) * 0x1_0000_0000_0000 + p(3) * 0x100_0000_0000 + p(4) * 0x1_0000_0000
             + p(5) * 0x100_0000 + p(6) * 0x1_0000 + p(7) * 0x100 + p(8)
  {
    hide Joined, Decode, Peek;
    DecodeForm(s, n, head);
    var b := Following(s, n);
    Shifted(head, b);
    if n == 0 {
      assert b == [];
      JoinedNothing(head);
    }
  }

  lemma JoinedNothing(head: nat)
    ensures Joined(head, []) == head
  {
  }

  /** The two markers of complements: of what follows, and of two bits. */
  lemma ReadingComplement(s: seq<byte>)
    requires s != [] && s[0] >= 0xF8
    ensures s[0] < 0xFC ==>
      var r := Decode(s[1..]);
      Decode(s) == Decoded(0xFFFF_FFFF_FFFF_FFFF - r.value, 1 + r.used, r.ok)
    ensures s[0] >= 0xFC ==> Decode(s) == Decoded(0xFFFF_FFFF_FFFF_FFFF - (s[0] as int - 0xFC), 1, true)
  {
  }

  lemma ReadingNothing()
    ensures Decode([]) == Decoded(0, 0, false)
  {
  }

  // ---------------------------------------------------------------- round trip

  lemma DecodeForm(s: seq<byte>, n: nat, head: nat)
    requires s != [] && FormOf(s[0], n, head)
    ensures Decode(s) == Multi(head, s, n)
  {
  }

  lemma PlainRoundTrip(i: u64, rest: seq<byte>)
    ensures Decode(EncodePlain(i) + rest) == Decoded(i, |EncodePlain(i)|, true)
  {
    var e := EncodePlain(i);
    var n := Extra(i);
    AboveFits(i);
    DecodeForm(e + rest, n, Above(i, n));
    assert Following(e + rest, n) == BigEndian(i, n);
    JoinSplit(i, n);
  }

  /** Reading back what was written gives the value and leaves exactly the bytes that follow. */
  lemma RoundTrip(v: u64, rest: seq<byte>)
    ensures Decode(Encode(v) + rest) == Decoded(v, |Encode(v)|, true)
  {
    var s := Encode(v) + rest;
    if !ShortNegative(v) {
      PlainRoundTrip(v, rest);
    } else if Complement(v) > 3 {
      assert s[1..] == EncodePlain(Complement(v)) + rest;
      PlainRoundTrip(Complement(v), rest);
    }
  }

  // ---------------------------------------------------------------- self-delimiting

  lemma MultiLocal(head: nat, s: seq<byte>, t: seq<byte>, n: nat)
    requires (n == 0 && head < 0x80) || (n <= 3 && head < 0x40) || (n <= 8 && head == 0)
    requires 1 + n <= |s| && s[..1 + n] <= t
    ensures Multi(head, s, n) == Multi(head, t, n)
  {
    forall k | 0 <= k < n
      ensures Following(s, n)[k] == Following(t, n)[k]
    {
      assert s[k + 1] == s[..1 + n][k + 1] == t[k + 1];
    }
    assert Following(s, n) == Following(t, n);
  }

  /** A successful read looks at nothing past the bytes it consumes. */
  lemma {:induction false} ReadsOnlyWhatItConsumes(s: seq<byte>, t: seq<byte>)
    requires Decode(s).ok && s[..Decode(s).used] <= t
    ensures Decode(t) == Decode(s)
    decreases |s|
  {
    var v := s[0];
    var r := Decode(s);
    assert t[0] == s[..r.used][0] == v;
    if v / 128 == 0 {
    } else if v / 64 == 2 {
      MultiLocal(v % 64, s, t, 1);
    } else if v / 16 == 15 {
      if v / 4 == 0x3C {
        MultiLocal(0, s, t, 4);
      } else if v / 4 == 0x3D {
        MultiLocal(0, s, t, 8);
      } else if v / 4 == 0x3E {
        assert s[1..][..r.used - 1] == s[..r.used][1..] <= t[1..];
        ReadsOnlyWhatItConsumes(s[1..], t[1..]);
      }
    } else if v / 16 == 14 {
      MultiLocal(v % 16, s, t, 3);
    } else {
      MultiLocal(v % 32, s, t, 2);
    }
  }

  /** No string that a read accepts whole is a proper prefix of another: cut anywhere, it fails. */
  lemma PrefixFree(s: seq<byte>, k: nat)
    requires Decode(s).ok && k < Decode(s).used
    ensures !Decode(s[..k]).ok
  {
    if Decode(s[..k]).ok {
      var u := Decode(s[..k]).used;
      assert s[..k][..u] == s[..u] <= s;
      ReadsOnlyWhatItConsumes(s[..k], s);
    }
  }

  lemma CutEncodingFails(v: u64, k: nat)
    requires k < |Encode(v)|
    ensures !Decode(Encode(v)[..k]).ok
  {
    RoundTrip(v, []);
    assert Encode(v) + [] == Encode(v);
    PrefixFree(Encode(v), k);
  }

  // ---------------------------------------------------------------- shortest encoding

  /** Complementing costs at most the one marker byte, and is the canonical form when it costs exactly that. */
  lemma ComplementLength(v: u64)
    ensures |Encode(v)| <= 1 + |Encode(Complement(v))|
    ensures |Encode(v)| == 1 + |Encode(Complement(v))| ==> Encode(v) == [0xF8] + Encode(Complement(v))
  {
  }

  /** The two low bits of the markers 0xF0, 0xF4 and 0xF8 are ignored by the reader; clear them. */
  function ClearIgnoredBits(s: seq<byte>): seq<byte> {
    if s == [] || s[0] < 0xF0 || s[0] >= 0xFC then s
    else if s[0] < 0xF8 then [s[0] / 4 * 4] + s[1..]
    else [0xF8] + ClearIgnoredBits(s[1..])
  }

  lemma PlainForm(v: u64)
    ensures Marker(Extra(v)) + Above(v, Extra(v)) < 0x100
    ensures EncodePlain(v) == [Marker(Extra(v)) + Above(v, Extra(v))] + BigEndian(v, Extra(v))
  {
    hide BigEndian, Above;
    AboveFits(v);
  }

  lemma MarkerCleared(first: byte, n: nat, head: nat, b: seq<byte>)
    requires FormOf(first, n, head)
    ensures Marker(n) + head < 0x100
    ensures ClearIgnoredBits([first] + b) == [Marker(n) + head] + b
  {
    assert ([first] + b)[1..] == b;
    if n >= 4 {
      assert first / 4 * 4 == Marker(n);
    }
  }

  /** A value no form longer than n is needed for, with the bits its first byte would carry. */
  lemma ExtraIsLeast(v: u64, n: nat, first: byte)
    requires FormOf(first, n, Above(v, n))
    ensures Extra(v) <= n
    ensures Extra(v) == n ==> ClearIgnoredBits([first] + BigEndian(v, n)) == EncodePlain(v)
  {
    hide BigEndian, Above, EncodePlain, ClearIgnoredBits;
    AboveShifts(v);
    AboveStep(v, 0);
    if Extra(v) == n {
      AboveFits(v);
      MarkerCleared(first, n, Above(v, n), BigEndian(v, n));
      PlainForm(v);
    }
  }

  lemma MultiIsShortest(head: nat, s: seq<byte>, n: nat)
    requires |s| == 1 + n && FormOf(s[0], n, head)
    ensures |Encode(Multi(head, s, n).value)| <= |s|
    ensures |Encode(Multi(head, s, n).value)| == |s| ==> ClearIgnoredBits(s) == Encode(Multi(head, s, n).value)
  {
    var b := Following(s, n);
    var v := Multi(head, s, n).value;
    assert b == s[1..];
    assert s == [s[0]] + b;
    SplitJoin(head, b);
    ExtraIsLeast(v, n, s[0]);
    NegativeIsShort(v);
  }

  lemma NegativeIsShort(v: u64)
    ensures ShortNegative(v) ==> |Encode(v)| <= 6 && Extra(v) == 8
  {
  }

  /**
   operator<< is optimal: no byte string that operator>> reads whole as v is shorter than what
   was written for v, and one of the same length differs only in bits the reader ignores.
   */
  lemma {:induction false} EncodingIsShortest(s: seq<byte>)
    requires Decode(s).ok && Decode(s).used == |s|
    ensures |Encode(Decode(s).value)| <= |s|
    ensures |Encode(Decode(s).value)| == |s| ==> ClearIgnoredBits(s) == Encode(Decode(s).value)
    decreases |s|
  {
    var v := s[0];
    if v / 128 == 0 {
      assert s == [v];
    } else if v / 64 == 2 {
      MultiIsShortest(v % 64, s, 1);
    } else if v / 16 == 15 {
      if v / 4 == 0x3C {
        MultiIsShortest(0, s, 4);
      } else if v / 4 == 0x3D {
        MultiIsShortest(0, s, 8);
      } else if v / 4 == 0x3E {
        EncodingIsShortest(s[1..]);
        ComplementLength(Decode(s).value);
        assert Complement(Decode(s).value) == Decode(s[1..]).value;
      } else {
        assert s == [v];
      }
    } else if v / 16 == 14 {
      MultiIsShortest(v % 16, s, 3);
    } else {
      MultiIsShortest(v % 32, s, 2);
    }
  }
}
