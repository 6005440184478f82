/**
 The cursor over a fixed buffer through which voice packets are written and read. Writes past
 the end are counted instead of made; reads past the end deliver zeros and clear the flag.
 */
module PacketStream {
  import opened BigEndianBytes
  import opened Bytes
  import opened MumbleVarint
  import opened PacketSink

  class PacketDataStream {
    const data: array<byte>
    var maxsize: u32
    var offset: u32
    var overshoot: u32
    var ok: bool

    ghost predicate Valid()
      reads this
    {
      offset <= maxsize <= data.Length < 0x8000_0000
    }

    ghost function Sunk(): Sink
      requires Valid()
      reads this, data
    {
      Sink(maxsize, data[..offset], overshoot, ok)
    }

    /** The bytes a reader has not consumed yet. */
    ghost function Rest(): seq<byte>
      requires Valid()
      reads this, data
    {
      data[offset..maxsize]
    }

    /** What lies past the cursor is what it was when the buffer held before. */
    ghost predicate Untouched(before: seq<byte>)
      requires Valid()
      reads this, data
    {
      |before| == data.Length && forall k | offset <= k < data.Length :: data[k] == before[k]
    }

    constructor (d: array<byte>)
      requires d.Length < 0x8000_0000
      ensures Valid() && data == d
      ensures Sunk() == Sink(d.Length, [], 0, true) && Rest() == d[..]
    {
      data := d;
      offset := 0;
      overshoot := 0;
      maxsize := d.Length;
      ok := true;
    }

    method Append(v: byte)
      requires Valid()
      modifies this, data
      ensures Valid() && Sunk() == PutByte(old(Sunk()), v)
      ensures maxsize == old(maxsize) && data[..old(offset)] == old(data[..offset])
      ensures old(offset < maxsize) ==>
        offset == old(offset) + 1 && data[old(offset)] == v && overshoot == old(overshoot) && ok == old(ok)
      ensures old(offset >= maxsize) ==>
        offset == old(offset) && overshoot == (old(overshoot) + 1) % 0x1_0000_0000 && !ok
      ensures Untouched(old(data[..]))
    {
      if offset < maxsize {
        data[offset] := v;
        offset := offset + 1;
      } else {
        ok := false;
        overshoot := (overshoot + 1) % 0x1_0000_0000;
      }
    }

    method AppendBlock(d: seq<byte>)
      requires Valid() && |d| < 0x1_0000_0000
      modifies this, data
      ensures Valid() && Sunk() == PutBlock(old(Sunk()), d)
      ensures maxsize == old(maxsize) && data[..old(offset)] == old(data[..offset])
      ensures |d| <= old(maxsize - offset) ==>
        && offset == old(offset) + |d| && data[old(offset)..offset] == d
        && overshoot == old(overshoot) && ok == old(ok)
      ensures |d| > old(maxsize - offset) ==>
        && offset == maxsize && (forall k | old(offset) <= k < offset :: data[k] == 0)
        && overshoot == (old(overshoot) + |d| - old(maxsize - offset)) % 0x1_0000_0000 && !ok
      ensures Untouched(old(data[..]))
    {
      var left := maxsize - offset;
      if left >= |d| {
        forall k | 0 <= k < |d| {
          data[offset + k] := d[k];
        }
        offset := offset + |d|;
      } else {
        forall k | 0 <= k < left {
          data[offset + k] := 0;
        }
        offset := offset + left;
        overshoot := (overshoot + |d| - left) % 0x1_0000_0000;
        ok := false;
      }
    }

    method Skip(len: u32)
      requires Valid()
      modifies this`offset, this`ok
      ensures Valid() && ok == (old(ok) && len <= old(maxsize - offset))
      ensures Rest() == if len <= old(maxsize - offset) then old(Rest())[len..] else old(Rest())
    {
      if maxsize - offset >= len {
        offset := offset + len;
      } else {
        ok := false;
      }
    }

    method Next() returns (b: u64)
      requires Valid()
      modifies this`offset, this`ok
      ensures Valid() && b == Peek(old(Rest()), 0)
      ensures b == if old(offset < maxsize) then data[old(offset)] else 0
      ensures ok == (old(ok) && old(offset < maxsize))
      ensures offset == old(if offset < maxsize then offset + 1 else offset)
    {
      if offset < maxsize {
        b := data[offset];
        offset := offset + 1;
      } else {
        ok := false;
        b := 0;
      }
    }

    method Rewind()
      requires Valid()
      modifies this`offset
      ensures Valid() && Rest() == data[..maxsize]
    {
      offset := 0;
    }

    method Truncate()
      requires Valid()
      modifies this`maxsize
      ensures Valid() && Rest() == [] && Sunk() == old(Sunk()).(cap := |old(Sunk()).bytes|)
    {
      maxsize := offset;
    }

    method DataBlock(len: u32) returns (block: seq<byte>)
      requires Valid()
      modifies this`offset, this`ok
      ensures Valid()
      ensures len <= |old(Rest())| ==> block == old(Rest())[..len] && Rest() == old(Rest())[len..] && ok == old(ok)
      ensures len > |old(Rest())| ==> block == [] && Rest() == old(Rest()) && !ok
    {
      if len <= maxsize - offset {
        block := data[offset..offset + len];
        offset := offset + len;
      } else {
        ok := false;
        block := [];
      }
    }

    /** append(b[0]); append(b[1]); ... */
    method AppendEach(b: seq<byte>)
      requires Valid()
      modifies this, data
      ensures Valid() && Sunk() == PutBytes(old(Sunk()), b)
      ensures Untouched(old(data[..]))
    {
      var n := 0;
      while n < |b|
        invariant n <= |b| && Valid()
        invariant Sunk() == PutBytes(old(Sunk()), b[..n]) && Untouched(old(data[..]))
      {
        Append(b[n]);
        n := n + 1;
        assert b[..n][..n - 1] == b[..n - 1];
      }
      assert b[..n] == b;
    }

    /** operator<<(quint64) */
    method WriteVarint(value: u64)
      requires Valid()
      modifies this, data
      ensures Valid() && Sunk() == PutBytes(old(Sunk()), Encode(value))
    {
      var i := value;
      if i >= 0x8000_0000_0000_0000 && Complement(i) < 0x1_0000_0000 {
        i := Complement(i);
        if i <= 0x3 {
          AppendEach([0xFC + i]);
          return;
        } else {
          PutBytesAppend(Sunk(), [0xF8], EncodePlain(i));
          AppendEach([0xF8]);
        }
      }
      WritePlain(i);
    }

    /** The positive forms, shortest first. */
    method WritePlain(i: u64)
      requires Valid()
      modifies this, data
      ensures Valid() && Sunk() == PutBytes(old(Sunk()), EncodePlain(i))
    {
      hide EncodePlain, PutBytes;
      if i < 0x80 {
        OneByte(i);
        AppendEach([i]);
      } else if i < 0x4000 {
        TwoBytes(i);
        AppendEach([i / 0x100 + 0x80, i % 0x100]);
      } else if i < 0x20_0000 {
        ThreeBytes(i);
        AppendEach([i / 0x1_0000 + 0xC0, i / 0x100 % 0x100, i % 0x100]);
      } else if i < 0x1000_0000 {
        FourBytes(i);
        AppendEach([i / 0x100_0000 + 0xE0, i / 0x1_0000 % 0x100, i / 0x100 % 0x100, i % 0x100]);
      } else if i < 0x1_0000_0000 {
        FiveBytes(i);
        AppendEach([0xF0, i / 0x100_0000 % 0x100, i / 0x1_0000 % 0x100, i / 0x100 % 0x100, i % 0x100]);
      } else {
        NineBytes(i);
        AppendEach([0xF4, i / 0x100_0000_0000_0000 % 0x100, i / 0x1_0000_0000_0000 % 0x100,
                    i / 0x100_0000_0000 % 0x100, i / 0x1_0000_0000 % 0x100,
                    i / 0x100_0000 % 0x100, i / 0x1_0000 % 0x100, i / 0x100 % 0x100, i % 0x100]);
      }
    }

    /** n reads of next(), in order from left to right. */
    method NextEach(n: nat) returns (b: seq<byte>)
      requires Valid()
      modifies this`offset, this`ok
      ensures Valid() && |b| == n && forall k | 0 <= k < n :: b[k] == Peek(old(Rest()), k)
      ensures offset == old(offset) + if n <= old(maxsize - offset) then n else old(maxsize - offset)
      ensures ok == (old(ok) && n <= old(maxsize - offset))
    {
      b := [];
      ghost var rest := Rest();
      while |b| < n
        invariant Valid() && |b| <= n && forall k | 0 <= k < |b| :: b[k] == Peek(rest, k)
        invariant offset == old(offset) + if |b| <= |rest| then |b| else |rest|
        invariant ok == (old(ok) && |b| <= |rest|)
      {
        var c := Next();
        b := b + [c];
      }
    }

    /** operator>>(quint64). The order of evaluation of the reads in one expression is taken left to right. */
    method ReadVarint() returns (i: u64)
      requires Valid()
      modifies this`offset, this`ok
      ensures Valid()
      ensures var r := Decode(old(Rest()));
        i == r.value && offset == old(offset) + r.used && ok == (old(ok) && r.ok)
      decreases maxsize - offset
    {
      ghost var s := Rest();
      var v := Next();
      if v / 128 == 0 {
        i := v % 128;
      } else {
        assert s != [];
        if v / 64 == 2 {
          i := ReadMore(s, v % 64, 1);
        } else if v / 16 == 15 {
          if v / 4 == 0x3C {
            i := ReadMore(s, 0, 4);
          } else if v / 4 == 0x3D {
            i := ReadMore(s, 0, 8);
          } else if v / 4 == 0x3E {
            assert Rest() == s[1..];
            i := ReadVarint();
            i := Complement(i);
          } else {
            i := Complement(v % 4);
          }
        } else if v / 16 == 14 {
          i := ReadMore(s, v % 16, 3);
        } else {
          i := ReadMore(s, v % 32, 2);
        }
      }
    }

    /** head << 8n | next() << 8(n-1) | ... | next() */
    method ReadMore(ghost s: seq<byte>, head: nat, n: nat) returns (i: u64)
      requires Valid() && s != [] && Rest() == s[1..]
      requires head < 0x40 && (n == 1 || n == 2 || n == 3 || ((n == 4 || n == 8) && head == 0))
      modifies this`offset, this`ok
      ensures Valid()
      ensures var r := Multi(head, s, n);
        i == r.value && offset == old(offset) + r.used - 1 && ok == (old(ok) && r.ok)
    {
      var b := NextEach(n);
      assert b == Following(s, n);
      JoinedFits(head, b);
      Shifted(head, b);
      if n == 1 {
        i := head * 0x100 + b[0];
      } else if n == 2 {
        i := head * 0x1_0000 + (b[0] as int) * 0x100 + b[1];
      } else if n == 3 {
        i := head * 0x100_0000 + (b[0] as int) * 0x1_0000 + (b[1] as int) * 0x100 + b[2];
      } else if n == 4 {
        i := (b[0] as int) * 0x100_0000 + (b[1] as int) * 0x1_0000 + (b[2] as int) * 0x100 + b[3];
      } else {
        i := (b[0] as int) * 0x100_0000_0000_0000 + (b[1] as int) * 0x1_0000_0000_0000 + (b[2] as int) * 0x100_0000_0000
           + (b[3] as int) * 0x1_0000_0000 + (b[4] as int) * 0x100_0000 + (b[5] as int) * 0x1_0000
           + (b[6] as int) * 0x100 + b[7];
      }
    }

    /** INTMAPOPERATOR: every narrower type goes through quint64. */
    method WriteInt(t: IntType, n: int)
      requires Valid() && t.Holds(n)
      modifies this, data
      ensures Valid() && Sunk() == PutBytes(old(Sunk()), Encode(Widen(t, n)))
    {
      hide Encode;
      WriteVarint(Widen(t, n));
    }

    method ReadInt(t: IntType) returns (n: int)
      requires Valid()
      modifies this`offset, this`ok
      ensures Valid()
      ensures var r := Decode(old(Rest()));
        n == Narrow(t, r.value) && offset == old(offset) + r.used && ok == (old(ok) && r.ok)
      ensures Rest() == old(Rest())[Decode(old(Rest())).used..]
    {
      hide Decode;
      var vv := ReadVarint();
      n := Narrow(t, vv);
    }

    /** operator<<(QByteArray) */
    method WriteByteArray(a: seq<byte>)
      requires Valid() && |a| < 0x8000_0000
      modifies this, data
      ensures Valid() && Sunk() == OfBytes(a).Effect(old(Sunk()))
    {
      hide Encode;
      WriteInt(Int, |a|);
      AppendBlock(a);
    }

    /** operator>>(QByteArray) */
    method ReadByteArray() returns (a: seq<byte>)
      requires Valid()
      modifies this`offset, this`ok
      ensures Valid()
      ensures var d := DecodeBlock(old(Rest()));
        a == d.block && offset == old(offset) + d.used && ok == (old(ok) && d.ok)
    {
      hide Decode, Narrow, DecodeBlock;
      ghost var s := Rest();
      NarrowUInt(Decode(s).value);
      BlockAfterLength(s);
      var len := ReadInt(UInt);
      if len > maxsize - offset {
        len := maxsize - offset;
        ok := false;
      }
      a := TakeBytes(len);
    }

    /** a = QByteArray(& data[offset], len); offset += len; */
    method TakeBytes(len: u32) returns (a: seq<byte>)
      requires Valid() && len <= maxsize - offset
      modifies this`offset
      ensures Valid() && offset == old(offset) + len && a == old(Rest())[..len]
    {
      a := data[offset..offset + len];
      offset := offset + len;
    }

    /** operator<<(QList<T>) */
    method WriteList(t: IntType, l: seq<int>)
      requires Valid() && OfList(t, l).Typed()
      modifies this, data
      ensures Valid() && Sunk() == OfList(t, l).Effect(old(Sunk()))
    {
      hide Encode;
      WriteInt(Int, |l|);
      var i := 0;
      ghost var k := Sunk();
      while i < |l|
        invariant i <= |l| && Valid() && Sunk() == PutBytes(k, EncodeInts(t, l[..i]))
      {
        WriteInt(t, l[i]);
        PutBytesAppend(k, EncodeInts(t, l[..i]), Encode(Widen(t, l[i])));
        assert l[..i + 1][..i] == l[..i];
        i := i + 1;
      }
      assert l[..i] == l;
      PutBytesAppend(old(Sunk()), Encode(|l|), EncodeInts(t, l));
    }

    /** operator>>(QList<T>) */
    method ReadList(t: IntType) returns (l: seq<int>)
      requires Valid()
      modifies this`offset, this`ok
      ensures Valid()
      ensures var d := DecodeList(t, old(Rest()));
        l == d.values && offset == old(offset) + d.used && ok == (old(ok) && d.ok)
    {
      hide Decode, DecodeInts, Narrow;
      ghost var s := Rest();
      NarrowUInt(Decode(s).value);
      var len := ReadInt(UInt);
      if len > maxsize - offset {
        len := maxsize - offset;
        ok := false;
      }
      l := ReadElements(t, len);
    }

    /** The loop of operator>>(QList<T>). */
    method ReadElements(t: IntType, len: nat) returns (l: seq<int>)
      requires Valid()
      modifies this`offset, this`ok
      ensures Valid()
      ensures var d := DecodeInts(t, old(Rest()), len);
        l == d.values && offset == old(offset) + d.used && ok == (old(ok) && d.ok)
    {
      hide Decode, Narrow, DecodeInts;
      l := [];
      ghost var whole := DecodeInts(t, Rest(), len);
      var i := 0;
      while i < len
        invariant i <= len && Valid() && old(offset) <= offset
        invariant var d := DecodeInts(t, Rest(), len - i);
          whole == DecodedList(l + d.values, offset - old(offset) + d.used, whole.ok)
          && (old(ok) && whole.ok) == (ok && d.ok)
      {
        DecodeStep(t, Rest(), len - i);
        if maxsize - offset == 0 {
          ok := false;
          return;
        }
        ghost var s := Rest();
        var n := ReadInt(t);
        l := l + [n];
        i := i + 1;
      }
      DecodeStep(t, Rest(), 0);
    }
  }

  /** A byte array, seen from behind its length. */
  lemma BlockAfterLength(s: seq<byte>)
    ensures var r := Decode(s);
      var rest, len := s[r.used..], r.value % 0x1_0000_0000;
      && |rest| == |s| - r.used
      && (len > |rest| ==> DecodeBlock(s) == DecodedBlock(rest, |s|, false))
      && (len <= |rest| ==> DecodeBlock(s) == DecodedBlock(rest[..len], r.used + len, r.ok))
  {
    hide Decode;
    var r := Decode(s);
    var len := r.value % 0x1_0000_0000;
    if len <= |s| - r.used {
      assert s[r.used..][..len] == s[r.used..r.used + len];
    }
  }

  lemma DecodeStep(t: IntType, s: seq<byte>, n: nat)
    ensures n == 0 ==> DecodeInts(t, s, n) == DecodedList([], 0, true)
    ensures n > 0 && s == [] ==> DecodeInts(t, s, n) == DecodedList([], 0, false)
    ensures n > 0 && s != [] ==>
      var r := Decode(s);
      var d := DecodeInts(t, s[r.used..], n - 1);
      && DecodeInts(t, s, n).used == r.used + d.used && DecodeInts(t, s, n).ok == (r.ok && d.ok)
      && forall l: seq<int> :: l + DecodeInts(t, s, n).values == l + [Narrow(t, r.value)] + d.values
  {
  }
}
