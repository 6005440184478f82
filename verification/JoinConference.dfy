/** The generated class QRadioLink::JoinConference. */
module JoinConferenceMessage {
  import opened Bytes
  import opened Options
  import opened ProtoWire
  import opened ProtoMessage
  import opened PresenceBits

  function Fields(): Schema {
    [U32, U32, U32, Text, U32]
  }

  class JoinConference {
    var serverId: u32
    var channelId: u32
    var callerId: u32
    var serverIp: seq<byte>
    var serverPort: u32
    var hasBits: bv32
    var unknownFields: seq<Field>

    ghost function Values(): seq<Value>
      reads this
    {
      [Number(serverId), Number(channelId), Number(callerId), Bytes(serverIp), Number(serverPort)]
    }

    /** A field whose bit is clear holds its default. */
    ghost predicate Valid()
      reads this
    {
      && (!Has(hasBits, 0) ==> serverId == 0)
      && (!Has(hasBits, 1) ==> channelId == 0)
      && (!Has(hasBits, 2) ==> callerId == 0)
      && (!Has(hasBits, 3) ==> serverIp == [])
      && (!Has(hasBits, 4) ==> serverPort == 0)
    }

    ghost function Msg(): Message
      reads this
    {
      Message(Present(hasBits, Values()), unknownFields)
    }

    constructor ()
      ensures Valid() && Msg() == EMPTY
    {
      serverId := 0;
      channelId := 0;
      callerId := 0;
      serverIp := [];
      serverPort := 0;
      hasBits := 0;
      unknownFields := [];
      new;
      NonePresent(Values());
    }

    method Clear()
      modifies this
      ensures Valid() && Msg() == EMPTY
    {
      serverId := 0;
      channelId := 0;
      callerId := 0;
      serverIp := [];
      serverPort := 0;
      hasBits := 0;
      unknownFields := [];
      NonePresent(Values());
    }

    method SetServerId(value: u32)
      requires Valid()
      modifies this`hasBits, this`serverId
      ensures Valid() && Msg() == Store(old(Msg()), 0, Some(Number(value)))
    {
      hide Has, Present;
      SetField(hasBits, Values(), 0, Number(value));
      hasBits := hasBits | 0x01;
      serverId := value;
      assert Values() == old(Values())[0 := Number(value)];
    }

    method SetChannelId(value: u32)
      requires Valid()
      modifies this`hasBits, this`channelId
      ensures Valid() && Msg() == Store(old(Msg()), 1, Some(Number(value)))
    {
      hide Has, Present;
      SetField(hasBits, Values(), 1, Number(value));
      hasBits := hasBits | 0x02;
      channelId := value;
      assert Values() == old(Values())[1 := Number(value)];
    }

    method SetCallerId(value: u32)
      requires Valid()
      modifies this`hasBits, this`callerId
      ensures Valid() && Msg() == Store(old(Msg()), 2, Some(Number(value)))
    {
      hide Has, Present;
      SetField(hasBits, Values(), 2, Number(value));
      hasBits := hasBits | 0x04;
      callerId := value;
      assert Values() == old(Values())[2 := Number(value)];
    }

    method SetServerIp(value: seq<byte>)
      requires Valid()
      modifies this`hasBits, this`serverIp
      ensures Valid() && Msg() == Store(old(Msg()), 3, Some(Bytes(value)))
    {
      hide Has, Present;
      SetField(hasBits, Values(), 3, Bytes(value));
      hasBits := hasBits | 0x08;
      serverIp := value;
      assert Values() == old(Values())[3 := Bytes(value)];
    }

    method SetServerPort(value: u32)
      requires Valid()
      modifies this`hasBits, this`serverPort
      ensures Valid() && Msg() == Store(old(Msg()), 4, Some(Number(value)))
    {
      hide Has, Present;
      SetField(hasBits, Values(), 4, Number(value));
      hasBits := hasBits | 0x10;
      serverPort := value;
      assert Values() == old(Values())[4 := Number(value)];
    }

    /** parse_server_ip: the string is present, with what arrived of it, even where it is cut short. */
    method ParseServerIp(s: seq<byte>) returns (read: bool, rest: seq<byte>)
      requires Valid()
      modifies this`hasBits, this`serverIp
      ensures Valid()
      ensures var r := ReadValue(Text, s, Known(old(Msg()), 3));
        && read == r.Got? && (read ==> rest == r.rest)
        && Msg() == Store(old(Msg()), 3, if r.Got? then Some(r.value) else r.after)
    {
      hide ReadVarint, Msg, Store, Valid;
      Presence();
      var held := if hasBits & 0x08 != 0 then Some(Bytes(serverIp)) else None;
      assert held == Known(Msg(), 3);
      match ReadValue(Text, s, held) {
        case Failed(after) =>
          TextStays(s, held);
          SetServerIp(after.value.t);
          read, rest := false, s;
        case Got(v, r) =>
          SetServerIp(v.t);
          read, rest := true, r;
      }
    }

    /**
     MergePartialFromCodedStream, gotos included: parse is the label the next turn jumps to, 0
     for the top of the loop. ExpectTag and ExpectAtEnd may say no to a match (hint is any
     Boolean); the result does not depend on what they say.
     */
    method MergePartialFromCodedStream(input: seq<byte>) returns (ok: bool, entire: bool)
      requires Valid()
      modifies this
      ensures Valid() && Parsed(ok, Msg(), entire) == ParseLoop(Fields(), input, old(Msg()))
    {
      hide ParseLoop, StoreNext, ReadTag, SkipField, ReadValue, FieldOf, Store, Has, Present;
      var s, parse := input, 0;
      while true
        invariant Valid() && 0 <= parse <= 5
        invariant ParseLoop(Fields(), input, old(Msg())) ==
          if parse == 0 then ParseLoop(Fields(), s, Msg()) else StoreNext(Fields(), parse - 1, s, Msg())
        decreases |s|
      {
        var field := parse;
        parse := 0;
        if field == 0 {
          Turn(Fields(), s, Msg());
          var (tag, rest) := ReadTag(s);
          TagsOfFields(tag);
          if 1 <= tag <= 127 {
            if tag / 8 == 1 && tag == 8 {
              field := 1;
            } else if tag / 8 == 2 && tag == 16 {
              field := 2;
            } else if tag / 8 == 3 && tag == 24 {
              field := 3;
            } else if tag / 8 == 4 && tag == 34 {
              field := 4;
            } else if tag / 8 == 5 && tag == 40 {
              field := 5;
            }
          }
          if field == 0 {
            if tag == 0 || tag % 8 == 4 {
              return true, tag == 0 && s == [];
            }
            match SkipField(tag, rest, RECURSION_LIMIT) {
              case Broken(kept) =>
                unknownFields := unknownFields + kept;
                return false, false;
              case Skipped(f, rest') =>
                unknownFields := unknownFields + [f];
                s := rest';
            }
            continue;
          }
          s := rest;
        }
        // A label parse_...: read the value into the field, then the hint for the next one.
        StoreTurn(Fields(), field - 1, s, Msg());
        if field == 4 {
          var read, rest := ParseServerIp(s);
          if !read {
            return false, false;
          }
          s := rest;
        } else {
          match ReadValue(U32, s, None) {
            case Failed(_) => return false, false;
            case Got(v, rest) =>
              s := rest;
              if field == 1 {
                SetServerId(v.n);
              } else if field == 2 {
                SetChannelId(v.n);
              } else if field == 3 {
                SetCallerId(v.n);
              } else {
                SetServerPort(v.n);
              }
          }
        }
        var hint: bool := *;
        if field < 5 {
          if hint && s != [] && s[0] == WireTag(Fields(), field) {
            ExpectedTag(Fields(), s, field, Msg());
            s := s[1..];
            parse := field + 1;
          }
        } else if hint && s == [] {
          Turn(Fields(), s, Msg());
          return true, true;
        }
      }
    }

    /** SerializeWithCachedSizesToArray: write from position at on; end is the advanced target. */
    method SerializeWithCachedSizesToArray(target: array<byte>, at: nat) returns (end: nat)
      requires Valid() && at + |Serialize(Fields(), Msg())| <= target.Length
      modifies target
      ensures end == at + |Serialize(Fields(), Msg())|
      ensures Wrote(target[..], old(target[..]), at, Serialize(Fields(), Msg()))
    {
      hide KnownBytes, FieldsBytes, Wrote;
      ghost var m, before, done := Msg(), target[..], [];
      WroteNothing(before, at);
      end := at;
      end, done := WriteField(Fields(), 0, hasBits & 0x01 != 0, Number(serverId), target, end, m, before, at, done);
      end, done := WriteField(Fields(), 1, hasBits & 0x02 != 0, Number(channelId), target, end, m, before, at, done);
      end, done := WriteField(Fields(), 2, hasBits & 0x04 != 0, Number(callerId), target, end, m, before, at, done);
      end, done := WriteField(Fields(), 3, hasBits & 0x08 != 0, Bytes(serverIp), target, end, m, before, at, done);
      end, done := WriteField(Fields(), 4, hasBits & 0x10 != 0, Number(serverPort), target, end, m, before, at, done);
      BytesStep(Fields(), m, 0);
      assert done + [] == done && [] + KnownBytes(Fields(), m, 0) == KnownBytes(Fields(), m, 0);
      var tail := FieldsBytes(unknownFields);
      end := WriteRaw(tail, target, end, before, at, done);
      assert done + tail == Serialize(Fields(), m);
    }

    /** What the presence bits say of the message. */
    lemma Presence()
      ensures var m := Msg().known;
        && (0 in m) == (hasBits & 0x01 != 0) && (0 in m ==> m[0] == Number(serverId))
        && (1 in m) == (hasBits & 0x02 != 0) && (1 in m ==> m[1] == Number(channelId))
        && (2 in m) == (hasBits & 0x04 != 0) && (2 in m ==> m[2] == Number(callerId))
        && (3 in m) == (hasBits & 0x08 != 0) && (3 in m ==> m[3] == Bytes(serverIp))
        && (4 in m) == (hasBits & 0x10 != 0) && (4 in m ==> m[4] == Number(serverPort))
    {
      hide Has, Present;
      Masks(hasBits);
      PresentAt(hasBits, Values(), 0);
      PresentAt(hasBits, Values(), 1);
      PresentAt(hasBits, Values(), 2);
      PresentAt(hasBits, Values(), 3);
      PresentAt(hasBits, Values(), 4);
    }

    lemma KnownBelow()
      ensures forall i <- Msg().known :: i < 5
    {
      PresentBelow(hasBits, Values());
    }

    method ByteSize() returns (size: nat)
      requires Valid()
      ensures size == SizeOf(Fields(), Msg())
    {
      hide KnownSize, VarintSize, FieldsSize, Msg, SizeOf, Valid;
      ghost var m := Msg();
      Presence();
      size := 0;
      SizeField(Fields(), m, 0, hasBits & 0x01 != 0, Number(serverId));
      if hasBits & 0x01 != 0 {
        size := size + 1 + VarintSize(serverId);
      }
      SizeField(Fields(), m, 1, hasBits & 0x02 != 0, Number(channelId));
      if hasBits & 0x02 != 0 {
        size := size + 1 + VarintSize(channelId);
      }
      SizeField(Fields(), m, 2, hasBits & 0x04 != 0, Number(callerId));
      if hasBits & 0x04 != 0 {
        size := size + 1 + VarintSize(callerId);
      }
      SizeField(Fields(), m, 3, hasBits & 0x08 != 0, Bytes(serverIp));
      if hasBits & 0x08 != 0 {
        size := size + 1 + VarintSize(|serverIp|) + |serverIp|;
      }
      SizeField(Fields(), m, 4, hasBits & 0x10 != 0, Number(serverPort));
      if hasBits & 0x10 != 0 {
        size := size + 1 + VarintSize(serverPort);
      }
      AddUnknown(size);
      if unknownFields != [] {
        size := size + FieldsSize(unknownFields);
      }
    }

    lemma AddUnknown(known: nat)
      requires known == KnownSize(Fields(), Msg(), 0)
      ensures SizeOf(Fields(), Msg()) == known + if unknownFields != [] then FieldsSize(unknownFields) else 0
    {
      NoFieldsNoSize();
    }

    method MergeFrom(from: JoinConference)
      requires Valid() && from.Valid() && from != this
      modifies this
      ensures Valid() && Msg() == Merge(old(Msg()), from.Msg())
    {
      hide Merge, Below, Store, Msg, Valid;
      ghost var a, b := Msg(), from.Msg();
      from.Presence();
      from.KnownBelow();
      MergeStep(a, b, 0);
      if from.hasBits & 0x01 != 0 {
        SetServerId(from.serverId);
      }
      MergeStep(a, b, 1);
      if from.hasBits & 0x02 != 0 {
        SetChannelId(from.channelId);
      }
      MergeStep(a, b, 2);
      if from.hasBits & 0x04 != 0 {
        SetCallerId(from.callerId);
      }
      MergeStep(a, b, 3);
      if from.hasBits & 0x08 != 0 {
        SetServerIp(from.serverIp);
      }
      MergeStep(a, b, 4);
      if from.hasBits & 0x10 != 0 {
        SetServerPort(from.serverPort);
      }
      MergeEnd(a, b, 5);
      MergeUnknownFields(from);
    }

    /** The unknown fields are appended last. */
    method MergeUnknownFields(from: JoinConference)
      requires Valid() && from != this
      modifies this`unknownFields
      ensures Valid() && Msg() == old(Msg()).(unknown := old(Msg()).unknown + from.Msg().unknown)
    {
      unknownFields := unknownFields + from.unknownFields;
    }

    method IsInitialized() returns (r: bool)
      requires Valid()
      ensures r == ({0, 1, 2} <= Msg().known.Keys)
    {
      RequiredMasks(hasBits);
      r := hasBits & 0x00000007 == 0x00000007;
    }
  }

  /** The message on the wire: fields 1 to 5 where present, each behind its tag, then the unknown ones. */
  lemma WireForm(m: Message)
    requires Proper(Fields(), m)
    ensures Serialize(Fields(), m) ==
      (if 0 in m.known then [8] + VarintBytes(m.known[0].n) else [])
      + ((if 1 in m.known then [16] + VarintBytes(m.known[1].n) else [])
         + ((if 2 in m.known then [24] + VarintBytes(m.known[2].n) else [])
            + ((if 3 in m.known then [34] + (VarintBytes(|m.known[3].t|) + m.known[3].t) else [])
               + ((if 4 in m.known then [40] + VarintBytes(m.known[4].n) else []) + []))))
      + FieldsBytes(m.unknown)
  {
    hide VarintBytes, KnownBytes, FieldsBytes, Proper;
    FieldOnWire(Fields(), m, 0, 8);
    FieldOnWire(Fields(), m, 1, 16);
    FieldOnWire(Fields(), m, 2, 24);
    FieldOnWire(Fields(), m, 3, 34);
    FieldOnWire(Fields(), m, 4, 40);
  }

  lemma TagsOfFields(tag: nat)
    ensures FieldOf(Fields(), tag) ==
      if tag == 8 then Some(0) else if tag == 16 then Some(1) else if tag == 24 then Some(2)
      else if tag == 34 then Some(3) else if tag == 40 then Some(4) else None
  {
    hide FieldOf;
    var r := FieldOf(Fields(), tag);
    assert WireTag(Fields(), 0) == 8 && WireTag(Fields(), 1) == 16 && WireTag(Fields(), 2) == 24;
    assert WireTag(Fields(), 3) == 34 && WireTag(Fields(), 4) == 40;
  }

  /** ReadString into a string that stays present when it fails. */
  lemma TextStays(s: seq<byte>, held: Option<Value>)
    requires ReadValue(Text, s, held).Failed? && (held.Some? ==> held.value.Bytes?)
    ensures ReadValue(Text, s, held).after.Some? && ReadValue(Text, s, held).after.value.Bytes?
  {
  }
}
