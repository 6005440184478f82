/** The generated class QRadioLink::LeaveConference. */
module LeaveConferenceMessage {
  import opened Bytes
  import opened Options
  import opened ProtoWire
  import opened ProtoMessage
  import opened PresenceBits

  function Fields(): Schema {
    [Flag]
  }

  class LeaveConference {
    var leave: bool
    var hasBits: bv32
    var unknownFields: seq<Field>

    ghost function Values(): seq<Value>
      reads this
    {
      [Truth(leave)]
    }

    /** A field whose bit is clear holds its default. */
    ghost predicate Valid()
      reads this
    {
      && (!Has(hasBits, 0) ==> leave == false)
    }

    ghost function Msg(): Message
      reads this
    {
      Message(Present(hasBits, Values()), unknownFields)
    }

    constructor ()
      ensures Valid() && Msg() == EMPTY
    {
      leave := false;
      hasBits := 0;
      unknownFields := [];
      new;
      NonePresent(Values());
    }

    method Clear()
      modifies this
      ensures Valid() && Msg() == EMPTY
    {
      leave := false;
      hasBits := 0;
      unknownFields := [];
      NonePresent(Values());
    }

    method SetLeave(value: bool)
      requires Valid()
      modifies this`hasBits, this`leave
      ensures Valid() && Msg() == Store(old(Msg()), 0, Some(Truth(value)))
    {
      hide Has, Present;
      SetField(hasBits, Values(), 0, Truth(value));
      hasBits := hasBits | 0x01;
      leave := value;
      assert Values() == old(Values())[0 := Truth(value)];
    }

    /**
     MergePartialFromCodedStream, gotos included. ExpectAtEnd may say no at the end of the input
     (hint is any Boolean); the result does not depend on what they say.
     */
    method MergePartialFromCodedStream(input: seq<byte>) returns (ok: bool, entire: bool)
      requires Valid()
      modifies this
      ensures Valid() && Parsed(ok, Msg(), entire) == ParseLoop(Fields(), input, old(Msg()))
    {
      hide ParseLoop, StoreNext, ReadTag, SkipField, ReadValue, FieldOf, Store, Has, Present;
      var s := input;
      while true
        invariant Valid() && ParseLoop(Fields(), input, old(Msg())) == ParseLoop(Fields(), s, Msg())
        decreases |s|
      {
        Turn(Fields(), s, Msg());
        var (tag, rest) := ReadTag(s);
        TagsOfFields(tag);
        if !(1 <= tag <= 127 && tag / 8 == 1 && tag == 8) {
          if tag == 0 || tag % 8 == 4 {
            return true, tag == 0 && s == [];
          }
          match SkipField(tag, rest, RECURSION_LIMIT) {
            case Broken(kept) =>
              unknownFields := unknownFields + kept;
              return false, false;
            case Skipped(f, rest') =>
              unknownFields := unknownFields + [f];
              s := rest';
          }
          continue;
        }
        s := rest;
        StoreTurn(Fields(), 0, s, Msg());
        match ReadValue(Flag, s, None) {
          case Failed(_) => return false, false;
          case Got(v, rest) =>
            s := rest;
            SetLeave(v.b);
        }
        var hint: bool := *;
        if hint && s == [] {
          Turn(Fields(), s, Msg());
          return true, true;
        }
      }
    }

    /** SerializeWithCachedSizesToArray: write from position at on; end is the advanced target. */
    method SerializeWithCachedSizesToArray(target: array<byte>, at: nat) returns (end: nat)
      requires Valid() && at + |Serialize(Fields(), Msg())| <= target.Length
      modifies target
      ensures end == at + |Serialize(Fields(), Msg())|
      ensures Wrote(target[..], old(target[..]), at, Serialize(Fields(), Msg()))
    {
      hide KnownBytes, FieldsBytes, Wrote;
      ghost var m, before, done := Msg(), target[..], [];
      WroteNothing(before, at);
      end := at;
      end, done := WriteField(Fields(), 0, hasBits & 0x01 != 0, Truth(leave), target, end, m, before, at, done);
      BytesStep(Fields(), m, 0);
      assert done + [] == done && [] + KnownBytes(Fields(), m, 0) == KnownBytes(Fields(), m, 0);
      var tail := FieldsBytes(unknownFields);
      end := WriteRaw(tail, target, end, before, at, done);
      assert done + tail == Serialize(Fields(), m);
    }

    method ByteSize() returns (size: nat)
      requires Valid()
      ensures size == SizeOf(Fields(), Msg())
    {
      hide KnownBytes, KnownSize, VarintSize, FieldsSize, Present, Has;
      Masks(hasBits);
      size := 0;
      SizeStep(Fields(), Msg(), 0);
      PresentAt(hasBits, Values(), 0);
      if hasBits & 0x01 != 0 {
        size := size + 1 + 1;
      }
      if unknownFields != [] {
        size := size + FieldsSize(unknownFields);
      } else {
        NoFieldsNoSize();
      }
    }

    method MergeFrom(from: LeaveConference)
      requires Valid() && from.Valid() && from != this
      modifies this
      ensures Valid() && Msg() == Merge(old(Msg()), from.Msg())
    {
      hide Merge, Below, Store;
      ghost var a, b := Msg(), from.Msg();
      MergeStep(a, b, 0);
      if from.hasBits & 0x01 != 0 {
        SetLeave(from.leave);
      }
      MergeEnd(a, b, 1);
      unknownFields := unknownFields + from.unknownFields;
    }

    method IsInitialized() returns (r: bool)
      requires Valid()
      ensures r == (0 in Msg().known)
    {
      RequiredMasks(hasBits);
      r := hasBits & 0x00000001 == 0x00000001;
    }
  }

  /** The message on the wire: the flag as the byte 1 or 0 behind its tag, then the unknown fields. */
  lemma WireForm(m: Message)
    requires Proper(Fields(), m)
    ensures Serialize(Fields(), m) ==
      (if 0 in m.known then [8] + [if m.known[0].b then 1 else 0] else []) + [] + FieldsBytes(m.unknown)
  {
    hide VarintBytes, KnownBytes, FieldsBytes, Proper;
    FieldOnWire(Fields(), m, 0, 8);
  }

  lemma TagsOfFields(tag: nat)
    ensures FieldOf(Fields(), tag) ==
      if tag == 8 then Some(0) else None
  {
  }
}
