/** The generated class QRadioLink::Parameters. */
module ParametersMessage {
  import opened Bytes
  import opened Options
  import opened ProtoWire
  import opened ProtoMessage
  import opened PresenceBits

  function Fields(): Schema {
    [U32, U32, U32, U32]
  }

  class Parameters {
    var stationId: u32
    var inCall: u32
    var channelId: u32
    var callerId: u32
    var hasBits: bv32
    var unknownFields: seq<Field>

    ghost function Values(): seq<Value>
      reads this
    {
      [Number(stationId), Number(inCall), Number(channelId), Number(callerId)]
    }

    /** A field whose bit is clear holds its default. */
    ghost predicate Valid()
      reads this
    {
      && (!Has(hasBits, 0) ==> stationId == 0)
      && (!Has(hasBits, 1) ==> inCall == 0)
      && (!Has(hasBits, 2) ==> channelId == 0)
      && (!Has(hasBits, 3) ==> callerId == 0)
    }

    ghost function Msg(): Message
      reads this
    {
      Message(Present(hasBits, Values()), unknownFields)
    }

    constructor ()
      ensures Valid() && Msg() == EMPTY
    {
      stationId := 0;
      inCall := 0;
      channelId := 0;
      callerId := 0;
      hasBits := 0;
      unknownFields := [];
      new;
      NonePresent(Values());
    }

    method Clear()
      modifies this
      ensures Valid() && Msg() == EMPTY
    {
      stationId := 0;
      inCall := 0;
      channelId := 0;
      callerId := 0;
      hasBits := 0;
      unknownFields := [];
      NonePresent(Values());
    }

    method SetStationId(value: u32)
      requires Valid()
      modifies this`hasBits, this`stationId
      ensures Valid() && Msg() == Store(old(Msg()), 0, Some(Number(value)))
    {
      hide Has, Present;
      SetField(hasBits, Values(), 0, Number(value));
      hasBits := hasBits | 0x01;
      stationId := value;
      assert Values() == old(Values())[0 := Number(value)];
    }

    method SetInCall(value: u32)
      requires Valid()
      modifies this`hasBits, this`inCall
      ensures Valid() && Msg() == Store(old(Msg()), 1, Some(Number(value)))
    {
      hide Has, Present;
      SetField(hasBits, Values(), 1, Number(value));
      hasBits := hasBits | 0x02;
      inCall := value;
      assert Values() == old(Values())[1 := Number(value)];
    }

    method SetChannelId(value: u32)
      requires Valid()
      modifies this`hasBits, this`channelId
      ensures Valid() && Msg() == Store(old(Msg()), 2, Some(Number(value)))
    {
      hide Has, Present;
      SetField(hasBits, Values(), 2, Number(value));
      hasBits := hasBits | 0x04;
      channelId := value;
      assert Values() == old(Values())[2 := Number(value)];
    }

    method SetCallerId(value: u32)
      requires Valid()
      modifies this`hasBits, this`callerId
      ensures Valid() && Msg() == Store(old(Msg()), 3, Some(Number(value)))
    {
      hide Has, Present;
      SetField(hasBits, Values(), 3, Number(value));
      hasBits := hasBits | 0x08;
      callerId := value;
      assert Values() == old(Values())[3 := Number(value)];
    }

    /**
     MergePartialFromCodedStream, gotos included: parse is the label the next turn jumps to, 0
     for the top of the loop. ExpectTag and ExpectAtEnd may say no to a match (hint is any
     Boolean); the result does not depend on what they say.
     */
    method MergePartialFromCodedStream(input: seq<byte>) returns (ok: bool, entire: bool)
      requires Valid()
      modifies this
      ensures Valid() && Parsed(ok, Msg(), entire) == ParseLoop(Fields(), input, old(Msg()))
    {
      hide ParseLoop, StoreNext, ReadTag, SkipField, ReadValue, FieldOf, Store, Has, Present;
      var s, parse := input, 0;
      while true
        invariant Valid() && 0 <= parse <= 4
        invariant ParseLoop(Fields(), input, old(Msg())) ==
          if parse == 0 then ParseLoop(Fields(), s, Msg()) else StoreNext(Fields(), parse - 1, s, Msg())
        decreases |s|
      {
        var field := parse;
        parse := 0;
        if field == 0 {
          Turn(Fields(), s, Msg());
          var (tag, rest) := ReadTag(s);
          TagsOfFields(tag);
          if 1 <= tag <= 127 {
            if tag / 8 == 1 && tag == 8 {
              field := 1;
            } else if tag / 8 == 2 && tag == 16 {
              field := 2;
            } else if tag / 8 == 3 && tag == 24 {
              field := 3;
            } else if tag / 8 == 4 && tag == 32 {
              field := 4;
            }
          }
          if field == 0 {
            if tag == 0 || tag % 8 == 4 {
              return true, tag == 0 && s == [];
            }
            match SkipField(tag, rest, RECURSION_LIMIT) {
              case Broken(kept) =>
                unknownFields := unknownFields + kept;
                return false, false;
              case Skipped(f, rest') =>
                unknownFields := unknownFields + [f];
                s := rest';
            }
            continue;
          }
          s := rest;
        }
        // A label parse_...: read the value into the field, then the hint for the next one.
        StoreTurn(Fields(), field - 1, s, Msg());
        match ReadValue(U32, s, None) {
          case Failed(_) => return false, false;
          case Got(v, rest) =>
            s := rest;
            if field == 1 {
              SetStationId(v.n);
            } else if field == 2 {
              SetInCall(v.n);
            } else if field == 3 {
              SetChannelId(v.n);
            } else {
              SetCallerId(v.n);
            }
        }
        var hint: bool := *;
        if field < 4 {
          if hint && s != [] && s[0] == (field + 1) * 8 {
            ExpectedTag(Fields(), s, field, Msg());
            s := s[1..];
            parse := field + 1;
          }
        } else if hint && s == [] {
          Turn(Fields(), s, Msg());
          return true, true;
        }
      }
    }

    /** SerializeWithCachedSizesToArray: write from position at on; end is the advanced target. */
    method SerializeWithCachedSizesToArray(target: array<byte>, at: nat) returns (end: nat)
      requires Valid() && at + |Serialize(Fields(), Msg())| <= target.Length
      modifies target
      ensures end == at + |Serialize(Fields(), Msg())|
      ensures Wrote(target[..], old(target[..]), at, Serialize(Fields(), Msg()))
    {
      hide KnownBytes, FieldsBytes, Wrote;
      ghost var m, before, done := Msg(), target[..], [];
      WroteNothing(before, at);
      end := at;
      end, done := WriteField(Fields(), 0, hasBits & 0x01 != 0, Number(stationId), target, end, m, before, at, done);
      end, done := WriteField(Fields(), 1, hasBits & 0x02 != 0, Number(inCall), target, end, m, before, at, done);
      end, done := WriteField(Fields(), 2, hasBits & 0x04 != 0, Number(channelId), target, end, m, before, at, done);
      end, done := WriteField(Fields(), 3, hasBits & 0x08 != 0, Number(callerId), target, end, m, before, at, done);
      BytesStep(Fields(), m, 0);
      assert done + [] == done && [] + KnownBytes(Fields(), m, 0) == KnownBytes(Fields(), m, 0);
      var tail := FieldsBytes(unknownFields);
      end := WriteRaw(tail, target, end, before, at, done);
      assert done + tail == Serialize(Fields(), m);
    }

    method ByteSize() returns (size: nat)
      requires Valid()
      ensures size == SizeOf(Fields(), Msg())
    {
      hide KnownBytes, KnownSize, VarintSize, FieldsSize, Present, Has;
      Masks(hasBits);
      size := 0;
      SizeStep(Fields(), Msg(), 0);
      PresentAt(hasBits, Values(), 0);
      if hasBits & 0x01 != 0 {
        size := size + 1 + VarintSize(stationId);
      }
      SizeStep(Fields(), Msg(), 1);
      PresentAt(hasBits, Values(), 1);
      if hasBits & 0x02 != 0 {
        size := size + 1 + VarintSize(inCall);
      }
      SizeStep(Fields(), Msg(), 2);
      PresentAt(hasBits, Values(), 2);
      if hasBits & 0x04 != 0 {
        size := size + 1 + VarintSize(channelId);
      }
      SizeStep(Fields(), Msg(), 3);
      PresentAt(hasBits, Values(), 3);
      if hasBits & 0x08 != 0 {
        size := size + 1 + VarintSize(callerId);
      }
      if unknownFields != [] {
        size := size + FieldsSize(unknownFields);
      } else {
        NoFieldsNoSize();
      }
    }

    method MergeFrom(from: Parameters)
      requires Valid() && from.Valid() && from != this
      modifies this
      ensures Valid() && Msg() == Merge(old(Msg()), from.Msg())
    {
      hide Merge, Below, Store;
      ghost var a, b := Msg(), from.Msg();
      MergeStep(a, b, 0);
      if from.hasBits & 0x01 != 0 {
        SetStationId(from.stationId);
      }
      MergeStep(a, b, 1);
      if from.hasBits & 0x02 != 0 {
        SetInCall(from.inCall);
      }
      MergeStep(a, b, 2);
      if from.hasBits & 0x04 != 0 {
        SetChannelId(from.channelId);
      }
      MergeStep(a, b, 3);
      if from.hasBits & 0x08 != 0 {
        SetCallerId(from.callerId);
      }
      MergeEnd(a, b, 4);
      unknownFields := unknownFields + from.unknownFields;
    }

    method IsInitialized() returns (r: bool)
      requires Valid()
      ensures r == (0 in Msg().known)
    {
      RequiredMasks(hasBits);
      r := hasBits & 0x00000001 == 0x00000001;
    }
  }

  /** The message on the wire: fields 1 to 4 where present, each behind its tag, then the unknown ones. */
  lemma WireForm(m: Message)
    requires Proper(Fields(), m)
    ensures Serialize(Fields(), m) ==
      (if 0 in m.known then [8] + VarintBytes(m.known[0].n) else [])
      + ((if 1 in m.known then [16] + VarintBytes(m.known[1].n) else [])
         + ((if 2 in m.known then [24] + VarintBytes(m.known[2].n) else [])
            + ((if 3 in m.known then [32] + VarintBytes(m.known[3].n) else []) + [])))
      + FieldsBytes(m.unknown)
  {
    hide VarintBytes, KnownBytes, FieldsBytes, Proper;
    FieldOnWire(Fields(), m, 0, 8);
    FieldOnWire(Fields(), m, 1, 16);
    FieldOnWire(Fields(), m, 2, 24);
    FieldOnWire(Fields(), m, 3, 32);
  }

  lemma TagsOfFields(tag: nat)
    ensures FieldOf(Fields(), tag) ==
      if tag == 8 then Some(0) else if tag == 16 then Some(1) else if tag == 24 then Some(2)
      else if tag == 32 then Some(3) else None
  {
  }
}
