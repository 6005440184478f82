/**
 Messages of the control protocol as values, and what parsing, serialising and merging mean for
 any list of singular fields numbered from 1. Parsing is the plain loop: read a tag, store the
 field it names or keep it as unknown, until the input ends.
 */
module ProtoMessage {
  import opened Bytes
  import opened Options
  import opened ProtoWire

  /** Groups inside groups that the library accepts. */
  const RECURSION_LIMIT: nat := 100

  datatype Kind = U32 | Flag | Text
  type Schema = seq<Kind>

  datatype Value = Number(n: u32) | Truth(b: bool) | Bytes(t: seq<byte>)

  /** Present fields by index (number - 1), and the unknown fields in order of arrival. */
  datatype Message = Message(known: map<nat, Value>, unknown: seq<Field>)

  const EMPTY := Message(map[], [])

  function WireTag(schema: Schema, i: nat): nat
    requires i < |schema|
  {
    (i + 1) * 8 + if schema[i] == Text then 2 else 0
  }

  /** The field a tag names. */
  function FieldOf(schema: Schema, tag: nat): (r: Option<nat>)
    ensures r.Some? ==> r.value < |schema| && WireTag(schema, r.value) == tag
    ensures r.None? ==> forall i | 0 <= i < |schema| :: WireTag(schema, i) != tag
  {
    if 8 <= tag && tag / 8 - 1 < |schema| && WireTag(schema, tag / 8 - 1) == tag then Some(tag / 8 - 1) else None
  }

  datatype ValueRead = Failed(after: Option<Value>) | Got(value: Value, rest: seq<byte>)

  /** One value; before is the field's value so far. A text cut short leaves what arrived of it. */
  function ReadValue(kind: Kind, s: seq<byte>, before: Option<Value>): (r: ValueRead)
    ensures r.Got? ==> |r.rest| < |s|
  {
    match ReadVarint(s, 10)
    case NoVarint => Failed(if kind == Text && before.None? then Some(Bytes([])) else before)
    case GotVarint(v, rest) =>
      match kind
      case U32 => Got(Number(v % 0x1_0000_0000), rest)
      case Flag => Got(Truth(v % 0x1_0000_0000_0000_0000 != 0), rest)
      case Text =>
        var n := v % 0x1_0000_0000;
        if n >= 0x8000_0000 then Failed(if before.None? then Some(Bytes([])) else before)
        else if n > |rest| then Failed(Some(Bytes(rest)))
        else Got(Bytes(rest[..n]), rest[n..])
  }

  function Known(m: Message, i: nat): Option<Value> {
    if i in m.known then Some(m.known[i]) else None
  }

  function Store(m: Message, i: nat, v: Option<Value>): Message {
    if v.Some? then m.(known := m.known[i := v.value]) else m
  }

  /** Success flag, message, and whether the input ended where a message may end. */
  datatype Parsed = Parsed(ok: bool, msg: Message, entire: bool)

  function ParseLoop(schema: Schema, s: seq<byte>, m: Message): Parsed
    decreases |s|
  {
    var (tag, rest) := ReadTag(s);
    if tag == 0 then Parsed(true, m, s == [])
    else if FieldOf(schema, tag).Some? then StoreNext(schema, FieldOf(schema, tag).value, rest, m)
    else if tag % 8 == 4 then Parsed(true, m, false)
    else match SkipField(tag, rest, RECURSION_LIMIT)
      case Broken(kept) => Parsed(false, m.(unknown := m.unknown + kept), false)
      case Skipped(f, rest') => ParseLoop(schema, rest', m.(unknown := m.unknown + [f]))
  }

  /** The loop, entered where the tag of field i has just been read. */
  function StoreNext(schema: Schema, i: nat, s: seq<byte>, m: Message): Parsed
    requires i < |schema|
    decreases |s|
  {
    match ReadValue(schema[i], s, Known(m, i))
    case Failed(after) => Parsed(false, Store(m, i, after), false)
    case Got(v, rest) => ParseLoop(schema, rest, Store(m, i, Some(v)))
  }

  /** ParseFromArray, up to the check for missing required fields. */
  function Parse(schema: Schema, s: seq<byte>): Parsed {
    ParseLoop(schema, s, EMPTY)
  }

  function Merge(a: Message, b: Message): Message {
    Message(a.known + b.known, a.unknown + b.unknown)
  }

  // ---------------------------------------------------------------- writing

  function ValueBytes(v: Value): seq<byte> {
    match v
    case Number(n) => VarintBytes(n)
    case Truth(b) => [if b then 1 else 0]
    case Bytes(t) => VarintBytes(|t|) + t
  }

  /** The present fields with index at least i, in order. */
  function KnownBytes(schema: Schema, m: Message, i: nat): seq<byte>
    requires i <= |schema|
    decreases |schema| - i
  {
    if i == |schema| then []
    else
      var first := if i in m.known then VarintBytes(WireTag(schema, i)) + ValueBytes(m.known[i]) else [];
      first + KnownBytes(schema, m, i + 1)
  }

  function Serialize(schema: Schema, m: Message): seq<byte> {
    KnownBytes(schema, m, 0) + FieldsBytes(m.unknown)
  }

  function ValueSize(v: Value): nat {
    match v
    case Number(n) => VarintSize(n)
    case Truth(b) => 1
    case Bytes(t) => VarintSize(|t|) + |t|
  }

  function KnownSize(schema: Schema, m: Message, i: nat): nat
    requires i <= |schema|
    decreases |schema| - i
  {
    if i == |schema| then 0
    else
      var first := if i in m.known then 1 + ValueSize(m.known[i]) else 0;
      first + KnownSize(schema, m, i + 1)
  }

  function SizeOf(schema: Schema, m: Message): nat {
    KnownSize(schema, m, 0) + FieldsSize(m.unknown)
  }

  // ---------------------------------------------------------------- messages that can occur

  predicate Fits(kind: Kind, v: Value) {
    match v
    case Number(_) => kind == U32
    case Truth(_) => kind == Flag
    case Bytes(t) => kind == Text && |t| < 0x8000_0000
  }

  /** A tag takes one byte. */
  predicate Small(schema: Schema) {
    |schema| < 15
  }

  ghost predicate NotKnown(schema: Schema, fs: seq<Field>) {
    forall f <- fs :: FieldOf(schema, f.Tag()).None?
  }

  /** Field values of the declared types, and unknown fields that are indeed unknown. */
  ghost predicate Proper(schema: Schema, m: Message) {
    && (forall i <- m.known :: i < |schema| && Fits(schema[i], m.known[i]))
    && AllStorable(m.unknown, RECURSION_LIMIT)
    && NotKnown(schema, m.unknown)
  }

  // ---------------------------------------------------------------- merging

  lemma MergeAssociative(a: Message, b: Message, c: Message)
    ensures Merge(Merge(a, b), c) == Merge(a, Merge(b, c))
    ensures Merge(EMPTY, a) == a && Merge(a, EMPTY) == a
  {
    assert a.known + b.known + c.known == a.known + (b.known + c.known);
    assert a.unknown + b.unknown + c.unknown == a.unknown + (b.unknown + c.unknown);
    assert map[] + a.known == a.known && a.known + map[] == a.known;
  }

  lemma MergeStore(a: Message, b: Message, i: nat, v: Value)
    ensures Merge(a, Store(b, i, Some(v))) == Store(Merge(a, b), i, Some(v))
  {
    assert a.known + b.known[i := v] == (a.known + b.known)[i := v];
  }

  lemma MergeUnknown(a: Message, b: Message, f: Field)
    ensures Merge(a, b.(unknown := b.unknown + [f]))
         == Merge(a, b).(unknown := Merge(a, b).unknown + [f])
  {
    assert a.unknown + (b.unknown + [f]) == a.unknown + b.unknown + [f];
  }

  lemma ReadValueSame(kind: Kind, s: seq<byte>, b: Option<Value>, b': Option<Value>)
    ensures ReadValue(kind, s, b).Got? == ReadValue(kind, s, b').Got?
    ensures ReadValue(kind, s, b).Got? ==> ReadValue(kind, s, b) == ReadValue(kind, s, b')
  {
  }

  /** What was parsed before changes neither the verdict nor what this input contributes. */
  lemma {:induction false} ParseOnto(schema: Schema, s: seq<byte>, a: Message, m: Message)
    ensures var r, r' := ParseLoop(schema, s, m), ParseLoop(schema, s, Merge(a, m));
      r'.ok == r.ok && r'.entire == r.entire && (r.ok ==> r'.msg == Merge(a, r.msg))
    decreases |s|
  {
    hide Merge, ReadTag, SkipField, ReadValue, FieldOf, Known, Store;
    var (tag, rest) := ReadTag(s);
    if tag != 0 {
      var field := FieldOf(schema, tag);
      if field.Some? {
        var i := field.value;
        ReadValueSame(schema[i], rest, Known(m, i), Known(Merge(a, m), i));
        var r := ReadValue(schema[i], rest, Known(m, i));
        if r.Got? {
          MergeStore(a, m, i, r.value);
          ParseOnto(schema, r.rest, a, Store(m, i, Some(r.value)));
        }
      } else if tag % 8 != 4 {
        var r := SkipField(tag, rest, RECURSION_LIMIT);
        if r.Skipped? {
          MergeUnknown(a, m, r.field);
          ParseOnto(schema, r.rest, a, m.(unknown := m.unknown + [r.field]));
        }
      }
    }
  }

  lemma ReadValueLocal(kind: Kind, s: seq<byte>, b: Option<Value>, t: seq<byte>)
    requires ReadValue(kind, s, b).Got?
    ensures var r := ReadValue(kind, s, b); ReadValue(kind, s + t, b) == Got(r.value, r.rest + t)
  {
    hide ReadVarint;
    VarintLocal(s, t, 10);
    if kind == Text {
      var r := ReadVarint(s, 10);
      var n := r.value % 0x1_0000_0000;
      assert (r.rest + t)[..n] == r.rest[..n] && (r.rest + t)[n..] == r.rest[n..] + t;
    }
  }

  /** After an input that was consumed whole, parsing goes on with what follows it. */
  lemma {:induction false} ParseThrough(schema: Schema, s: seq<byte>, t: seq<byte>, m: Message)
    requires ParseLoop(schema, s, m).ok && ParseLoop(schema, s, m).entire
    ensures ParseLoop(schema, s + t, m) == ParseLoop(schema, t, ParseLoop(schema, s, m).msg)
    decreases |s|
  {
    hide ReadTag, SkipField, ReadValue, FieldOf, Known, Store;
    var (tag, rest) := ReadTag(s);
    if tag == 0 {
      assert s + t == t;
    } else {
      TagLocal(s, t);
      var field := FieldOf(schema, tag);
      if field.Some? {
        var i := field.value;
        var r := ReadValue(schema[i], rest, Known(m, i));
        ReadValueLocal(schema[i], rest, Known(m, i), t);
        ParseThrough(schema, r.rest, t, Store(m, i, Some(r.value)));
      } else {
        var r := SkipField(tag, rest, RECURSION_LIMIT);
        SkipFieldLocal(tag, rest, RECURSION_LIMIT, t);
        ParseThrough(schema, r.rest, t, m.(unknown := m.unknown + [r.field]));
      }
    }
  }

  /** Parsing a concatenation is merging the separately parsed messages: last value wins. */
  lemma ConcatenationIsMerge(schema: Schema, s: seq<byte>, t: seq<byte>)
    requires Parse(schema, s).ok && Parse(schema, s).entire
    ensures var a, b, c := Parse(schema, s), Parse(schema, t), Parse(schema, s + t);
      c.ok == b.ok && c.entire == b.entire && (b.ok ==> c.msg == Merge(a.msg, b.msg))
  {
    hide ParseLoop;
    var a := Parse(schema, s).msg;
    ParseThrough(schema, s, t, EMPTY);
    ParseOnto(schema, t, a, EMPTY);
    MergeAssociative(a, EMPTY, EMPTY);
  }

  // ---------------------------------------------------------------- sizes and round trip

  lemma ValueSizeIsLength(kind: Kind, v: Value)
    requires Fits(kind, v)
    ensures ValueSize(v) == |ValueBytes(v)|
  {
    hide VarintBytes, VarintSize;
    match v {
      case Number(n) => VarintSizeIsLength(n);
      case Truth(_) =>
      case Bytes(t) => VarintSizeIsLength(|t|);
    }
  }

  lemma {:induction false} KnownSizeIsLength(schema: Schema, m: Message, i: nat)
    requires Proper(schema, m) && Small(schema) && i <= |schema|
    ensures KnownSize(schema, m, i) == |KnownBytes(schema, m, i)|
    decreases |schema| - i
  {
    if i < |schema| {
      hide ValueSize, ValueBytes;
      KnownSizeIsLength(schema, m, i + 1);
      if i in m.known {
        ValueSizeIsLength(schema[i], m.known[i]);
      }
    }
  }

  /** ByteSize is the number of bytes written. */
  lemma SizeIsLength(schema: Schema, m: Message)
    requires Proper(schema, m) && Small(schema)
    ensures SizeOf(schema, m) == |Serialize(schema, m)|
  {
    KnownSizeIsLength(schema, m, 0);
    FieldsSizeIsLength(m.unknown, RECURSION_LIMIT);
  }

  lemma ValueRoundTrip(kind: Kind, v: Value, rest: seq<byte>, b: Option<Value>)
    requires Fits(kind, v)
    ensures ReadValue(kind, ValueBytes(v) + rest, b) == Got(v, rest)
  {
    hide VarintBytes, ReadVarint;
    match v {
      case Number(n) => ShortVarintRoundTrip(n, rest);
      case Truth(x) =>
        OneByteVarint(if x then 1 else 0);
        ShortVarintRoundTrip(if x then 1 else 0, rest);
      case Bytes(t) => DelimitedRoundTrip(t, rest);
    }
  }

  lemma OneByteVarint(v: nat)
    requires v < 128
    ensures VarintBytes(v) == [v]
  {
  }

  /** The fields of m with index below i. */
  function Below(m: Message, i: nat): Message {
    Message(map k | k in m.known && k < i :: m.known[k], [])
  }

  lemma TagNames(schema: Schema, i: nat)
    requires Small(schema) && i < |schema|
    ensures FieldOf(schema, WireTag(schema, i)) == Some(i) && 0 < WireTag(schema, i) < 128
  {
  }

  /** Storing the next present field, or passing over an absent one. */
  lemma BelowNext(m: Message, i: nat)
    ensures i in m.known ==> Store(Below(m, i), i, Some(m.known[i])) == Below(m, i + 1)
    ensures i !in m.known ==> Below(m, i + 1) == Below(m, i)
  {
    if i in m.known {
      assert Below(m, i).known[i := m.known[i]] == Below(m, i + 1).known;
    } else {
      assert Below(m, i + 1).known == Below(m, i).known;
    }
  }

  lemma {:induction false} KnownRoundTrip(schema: Schema, m: Message, i: nat, rest: seq<byte>)
    requires Proper(schema, m) && Small(schema) && i <= |schema|
    ensures ParseLoop(schema, KnownBytes(schema, m, i) + rest, Below(m, i))
         == ParseLoop(schema, rest, Below(m, |schema|))
    decreases |schema| - i
  {
    hide ReadTag, ReadValue, FieldOf, WireTag, ValueBytes, VarintBytes, SkipField;
    hide ParseLoop, StoreNext, KnownBytes, Below, Store;
    if i == |schema| {
      NothingLeft(schema, m);
      assert [] + rest == rest;
    } else {
      KnownRoundTrip(schema, m, i + 1, rest);
      BytesStep(schema, m, i);
      BelowNext(m, i);
      var more := KnownBytes(schema, m, i + 1) + rest;
      if i in m.known {
        var v := m.known[i];
        var tag, body := VarintBytes(WireTag(schema, i)), ValueBytes(v) + more;
        assert KnownBytes(schema, m, i) + rest == tag + body;
        TagNames(schema, i);
        TagRoundTrip(WireTag(schema, i), body);
        Turn(schema, tag + body, Below(m, i));
        StoreTurn(schema, i, body, Below(m, i));
        ValueRoundTrip(schema[i], v, more, Known(Below(m, i), i));
      } else {
        assert [] + KnownBytes(schema, m, i + 1) + rest == more;
      }
    }
  }

  lemma NothingLeft(schema: Schema, m: Message)
    ensures KnownBytes(schema, m, |schema|) == []
  {
  }

  lemma FirstIsStorable(fs: seq<Field>, depth: nat)
    requires fs != [] && AllStorable(fs, depth)
    ensures Storable(fs[0], depth) && AllStorable(fs[1..], depth)
    ensures 0 < fs[0].Tag() < 0x1_0000_0000
  {
  }

  lemma {:induction false} UnknownRoundTrip(schema: Schema, fs: seq<Field>, m: Message)
    requires AllStorable(fs, RECURSION_LIMIT) && NotKnown(schema, fs)
    ensures ParseLoop(schema, FieldsBytes(fs), m) == Parsed(true, m.(unknown := m.unknown + fs), true)
    decreases |fs|
  {
    hide ParseLoop, ReadTag, FieldOf, VarintBytes, SkipField, FieldBody, Field.Tag, Storable, AllStorable;
    var s := FieldsBytes(fs);
    Turn(schema, s, m);
    if fs == [] {
      assert m.unknown + [] == m.unknown;
    } else {
      var f, more := fs[0], FieldsBytes(fs[1..]);
      FirstIsStorable(fs, RECURSION_LIMIT);
      assert f in fs && NotKnown(schema, fs[1..]);
      var body := FieldBody(f) + more;
      assert s == FieldBytes(f) + more;
      assert FieldBytes(f) == VarintBytes(f.Tag()) + FieldBody(f);
      assert s == VarintBytes(f.Tag()) + body;
      TagParts(f);
      TagRoundTrip(f.Tag(), body);
      FieldRoundTrip(f, more, RECURSION_LIMIT);
      UnknownRoundTrip(schema, fs[1..], m.(unknown := m.unknown + [f]));
      assert m.unknown + [f] + fs[1..] == m.unknown + fs;
    }
  }

  /** Parsing what was serialised restores the message: every value, every presence, every unknown field. */
  lemma ParseSerialized(schema: Schema, m: Message)
    requires Proper(schema, m) && Small(schema)
    ensures Parse(schema, Serialize(schema, m)) == Parsed(true, m, true)
  {
    hide ParseLoop, KnownBytes, FieldsBytes;
    KnownRoundTrip(schema, m, 0, FieldsBytes(m.unknown));
    assert Below(m, 0) == EMPTY;
    assert Below(m, |schema|).known == m.known;
    UnknownRoundTrip(schema, m.unknown, Below(m, |schema|));
    assert [] + m.unknown == m.unknown;
  }

  lemma {:induction false} StorableAppend(fs: seq<Field>, f: Field, depth: nat)
    requires AllStorable(fs, depth) && Storable(f, depth)
    ensures AllStorable(fs + [f], depth)
    decreases |fs|
  {
    if fs == [] {
      assert [f][1..] == [];
    } else {
      StorableAppend(fs[1..], f, depth);
      assert (fs + [f])[1..] == fs[1..] + [f];
    }
  }

  /** Every message a parse yields is proper, that of a failed one too. */
  lemma {:induction false} ParsedIsProper(schema: Schema, s: seq<byte>, m: Message)
    requires Proper(schema, m)
    ensures Proper(schema, ParseLoop(schema, s, m).msg)
    decreases |s|
  {
    hide ReadTag, ReadValue, SkipField, FieldOf, Fits, Field.Tag;
    hide Store, Known, ParseLoop, Storable, AllStorable, Proper;
    var (tag, rest) := ReadTag(s);
    Turn(schema, s, m);
    if tag != 0 {
      var field := FieldOf(schema, tag);
      if field.Some? {
        var i := field.value;
        StoreTurn(schema, i, rest, m);
        var r := ReadValue(schema[i], rest, Known(m, i));
        if r.Got? {
          StoreProper(schema, m, i, r.value);
          ParsedIsProper(schema, r.rest, Store(m, i, Some(r.value)));
        } else {
          FailureIsProper(schema, m, i, rest);
        }
      } else if tag % 8 != 4 {
        var r := SkipField(tag, rest, RECURSION_LIMIT);
        SkippedIsStorable(tag, rest, RECURSION_LIMIT);
        if r.Skipped? {
          UnknownProper(schema, m, r.field);
          ParsedIsProper(schema, r.rest, m.(unknown := m.unknown + [r.field]));
        } else if r.kept == [] {
          assert m.unknown + r.kept == m.unknown;
        } else {
          UnknownProper(schema, m, r.kept[0]);
          assert r.kept == [r.kept[0]];
        }
      }
    }
  }

  lemma UnknownProper(schema: Schema, m: Message, f: Field)
    requires Proper(schema, m) && Storable(f, RECURSION_LIMIT) && FieldOf(schema, f.Tag()).None?
    ensures Proper(schema, m.(unknown := m.unknown + [f]))
  {
    hide Storable, AllStorable, FieldOf, Fits, Field.Tag;
    StorableAppend(m.unknown, f, RECURSION_LIMIT);
  }

  /** A value cut short leaves a proper message behind. */
  lemma FailureIsProper(schema: Schema, m: Message, i: nat, s: seq<byte>)
    requires Proper(schema, m) && i < |schema| && ReadValue(schema[i], s, Known(m, i)).Failed?
    ensures Proper(schema, Store(m, i, ReadValue(schema[i], s, Known(m, i)).after))
  {
    hide ReadVarint, Storable, AllStorable, FieldOf;
  }

  lemma StoreProper(schema: Schema, m: Message, i: nat, v: Value)
    requires Proper(schema, m) && i < |schema| && Fits(schema[i], v)
    ensures Proper(schema, Store(m, i, Some(v)))
  {
  }

  /** Whatever bytes were accepted, writing the message and parsing it again changes nothing. */
  lemma Normalises(schema: Schema, s: seq<byte>)
    requires Small(schema) && Parse(schema, s).ok
    ensures Parse(schema, Serialize(schema, Parse(schema, s).msg)) == Parsed(true, Parse(schema, s).msg, true)
  {
    hide ParseLoop;
    ParsedIsProper(schema, s, EMPTY);
    ParseSerialized(schema, Parse(schema, s).msg);
  }

  // ---------------------------------------------------------------- what the bytes mean

  /** Reading a value: the low 32 bits, whether any of the 64 bits is set, or a counted string. */
  lemma ValueTable(s: seq<byte>, before: Option<Value>)
    ensures var r := ReadVarint(s, 10);
      if r.NoVarint? then
        && ReadValue(U32, s, before) == Failed(before) && ReadValue(Flag, s, before) == Failed(before)
        && ReadValue(Text, s, before) == Failed(if before.None? then Some(Bytes([])) else before)
      else
        var n := r.value % 0x1_0000_0000;
        && ReadValue(U32, s, before) == Got(Number(n), r.rest)
        && ReadValue(Flag, s, before) == Got(Truth(r.value % 0x1_0000_0000_0000_0000 != 0), r.rest)
        && ReadValue(Text, s, before) ==
             (if n >= 0x8000_0000 then Failed(if before.None? then Some(Bytes([])) else before)
              else if n > |r.rest| then Failed(Some(Bytes(r.rest)))
              else Got(Bytes(r.rest[..n]), r.rest[n..]))
  {
    hide ReadVarint;
  }

  /** Writing a value: a varint, one byte 1 or 0, or a counted string. */
  lemma ValueForm(n: u32, t: seq<byte>)
    ensures ValueBytes(Number(n)) == VarintBytes(n) && ValueBytes(Bytes(t)) == VarintBytes(|t|) + t
    ensures ValueBytes(Truth(true)) == [1] && ValueBytes(Truth(false)) == [0]
  {
    hide VarintBytes;
  }

  // ---------------------------------------------------------------- steps of the loop, by name

  /** One turn of the parse loop. */
  lemma Turn(schema: Schema, s: seq<byte>, m: Message)
    ensures var (tag, rest) := ReadTag(s);
      && (tag == 0 ==> ParseLoop(schema, s, m) == Parsed(true, m, s == []))
      && (tag != 0 && FieldOf(schema, tag).Some? ==>
            |rest| < |s| && ParseLoop(schema, s, m) == StoreNext(schema, FieldOf(schema, tag).value, rest, m))
      && (tag != 0 && FieldOf(schema, tag).None? ==>
            (tag % 8 == 4 ==> ParseLoop(schema, s, m) == Parsed(true, m, false))
            && (tag % 8 != 4 && SkipField(tag, rest, 100).Broken? ==>
                  ParseLoop(schema, s, m)
                  == Parsed(false, m.(unknown := m.unknown + SkipField(tag, rest, 100).kept), false))
            && (tag % 8 != 4 && SkipField(tag, rest, 100).Skipped? ==>
                  var r := SkipField(tag, rest, 100);
                  |r.rest| < |s| && ParseLoop(schema, s, m) == ParseLoop(schema, r.rest, m.(unknown := m.unknown + [r.field]))))
    ensures s == [] ==> ReadTag(s).0 == 0
  {
  }

  /** Reading the value of field i. */
  lemma StoreTurn(schema: Schema, i: nat, s: seq<byte>, m: Message)
    requires i < |schema|
    ensures var r := ReadValue(schema[i], s, Known(m, i));
      && (r.Failed? ==> StoreNext(schema, i, s, m) == Parsed(false, Store(m, i, r.after), false))
      && (r.Got? ==> |r.rest| < |s| && Fits(schema[i], r.value))
      && (r.Got? ==> StoreNext(schema, i, s, m) == ParseLoop(schema, r.rest, Store(m, i, Some(r.value))))
    ensures schema[i] != Text ==>
      var r, r' := ReadValue(schema[i], s, None), ReadValue(schema[i], s, Known(m, i));
      && r'.Got? == r.Got? && (r.Got? ==> r' == r)
      && (r.Failed? ==> r' == Failed(Known(m, i)) && Store(m, i, Known(m, i)) == m)
  {
    if i in m.known {
      assert m.known[i := m.known[i]] == m.known;
    }
  }

  /** Where the next byte is the tag of field i, jumping to its label is what the loop would do. */
  lemma ExpectedTag(schema: Schema, s: seq<byte>, i: nat, m: Message)
    requires Small(schema) && i < |schema| && s != [] && s[0] == WireTag(schema, i)
    ensures ParseLoop(schema, s, m) == StoreNext(schema, i, s[1..], m)
  {
    TagNames(schema, i);
    assert ReadTag(s) == (s[0], s[1..]);
  }

  /** Serialising, one field further. */
  lemma BytesStep(schema: Schema, m: Message, i: nat)
    requires i < |schema|
    ensures KnownBytes(schema, m, i) ==
      (if i in m.known then VarintBytes(WireTag(schema, i)) + ValueBytes(m.known[i]) else []) + KnownBytes(schema, m, i + 1)
    ensures KnownBytes(schema, m, |schema|) == []
  {
  }

  /** The same with the tag and the value spelled out, for a tag of one byte. */
  lemma FieldOnWire(schema: Schema, m: Message, i: nat, tag: nat)
    requires i < |schema| && WireTag(schema, i) == tag < 128 && Proper(schema, m)
    ensures KnownBytes(schema, m, |schema|) == []
    ensures i !in m.known ==> KnownBytes(schema, m, i) == [] + KnownBytes(schema, m, i + 1)
    ensures i in m.known && schema[i] == U32 ==> (m.known[i].Number? &&
      KnownBytes(schema, m, i) == [tag] + VarintBytes(m.known[i].n) + KnownBytes(schema, m, i + 1))
    ensures i in m.known && schema[i] == Flag ==> (m.known[i].Truth? &&
      KnownBytes(schema, m, i) == [tag] + [if m.known[i].b then 1 else 0] + KnownBytes(schema, m, i + 1))
    ensures i in m.known && schema[i] == Text ==> (m.known[i].Bytes? &&
      KnownBytes(schema, m, i)
      == [tag] + (VarintBytes(|m.known[i].t|) + m.known[i].t) + KnownBytes(schema, m, i + 1))
  {
    hide VarintBytes, KnownBytes, WireTag, AllStorable, NotKnown;
    OneByteVarint(tag);
    BytesStep(schema, m, i);
  }

  lemma SizeStep(schema: Schema, m: Message, i: nat)
    requires i < |schema|
    ensures KnownSize(schema, m, i) ==
      (if i in m.known then 1 + ValueSize(m.known[i]) else 0) + KnownSize(schema, m, i + 1)
    ensures KnownSize(schema, m, |schema|) == 0
  {
  }

  /** What field i adds to the size, by its presence bit. */
  lemma SizeField(schema: Schema, m: Message, i: nat, present: bool, v: Value)
    requires i < |schema| && present == (i in m.known) && (present ==> m.known[i] == v)
    ensures KnownSize(schema, m, i) == (if present then 1 + ValueSize(v) else 0) + KnownSize(schema, m, i + 1)
    ensures KnownSize(schema, m, |schema|) == 0
  {
    SizeStep(schema, m, i);
  }

  /** Merging, one field further. */
  lemma MergeStep(a: Message, b: Message, i: nat)
    ensures Merge(a, Below(b, i + 1)) ==
      if i in b.known then Store(Merge(a, Below(b, i)), i, Some(b.known[i])) else Merge(a, Below(b, i))
    ensures Merge(a, Below(b, 0)) == a
  {
    assert Below(b, 0) == EMPTY;
    if i in b.known {
      assert Below(b, i + 1).known == Below(b, i).known[i := b.known[i]];
    } else {
      assert Below(b, i + 1).known == Below(b, i).known;
    }
    MergeAssociative(a, a, a);
    MergeStore(a, Below(b, i), i, if i in b.known then b.known[i] else Number(0));
  }

  /** All fields merged; the unknown ones follow. */
  lemma MergeEnd(a: Message, b: Message, n: nat)
    requires forall i <- b.known :: i < n
    ensures Merge(a, Below(b, n)).unknown == a.unknown
    ensures Merge(a, b) == Merge(a, Below(b, n)).(unknown := a.unknown + b.unknown)
  {
    assert Below(b, n).known == b.known;
  }

  // ---------------------------------------------------------------- writing into a buffer

  /** t is the buffer before with done written over it from position from on. */
  ghost predicate Wrote(t: seq<byte>, before: seq<byte>, from: nat, done: seq<byte>) {
    && from + |done| <= |before|
    && t == before[..from] + done + before[from + |done|..]
  }

  lemma WroteNothing(before: seq<byte>, at: nat)
    requires at <= |before|
    ensures Wrote(before, before, at, [])
  {
  }

  /** Copy b to target at position at; end is where the next write goes. */
  method WriteRaw(b: seq<byte>, target: array<byte>, at: nat, ghost before: seq<byte>, ghost from: nat, ghost done: seq<byte>)
    returns (end: nat)
    requires at == from + |done| && Wrote(target[..], before, from, done) && at + |b| <= target.Length
    modifies target
    ensures end == at + |b| && Wrote(target[..], before, from, done + b)
  {
    forall k | 0 <= k < |b| {
      target[at + k] := b[k];
    }
    end := at + |b|;
    assert target[..] == old(target[..at]) + b + old(target[at + |b|..]);
    assert old(target[..at]) == before[..from] + done;
    assert old(target[at + |b|..]) == before[at + |b|..];
  }

  /** if (has_...()) target = WriteUInt32ToArray(...): tag and value of field i, where it is present. */
  method WriteField(schema: Schema, i: nat, present: bool, v: Value, target: array<byte>, at: nat,
                    ghost m: Message, ghost before: seq<byte>, ghost from: nat, ghost done: seq<byte>)
    returns (end: nat, ghost now: seq<byte>)
    requires i < |schema| && present == (i in m.known) && (present ==> m.known[i] == v)
    requires at == from + |done| && Wrote(target[..], before, from, done)
    requires at + |KnownBytes(schema, m, i)| <= target.Length
    modifies target
    ensures end == from + |now| && Wrote(target[..], before, from, now)
    ensures now + KnownBytes(schema, m, i + 1) == done + KnownBytes(schema, m, i)
  {
    hide KnownBytes, VarintBytes, ValueBytes, WireTag, KnownSize, Wrote;
    BytesStep(schema, m, i);
    if present {
      var b := VarintBytes(WireTag(schema, i)) + ValueBytes(v);
      end := WriteRaw(b, target, at, before, from, done);
      now := done + b;
      assert now + KnownBytes(schema, m, i + 1) == done + (b + KnownBytes(schema, m, i + 1));
    } else {
      end := at;
      now := done;
      assert [] + KnownBytes(schema, m, i + 1) == KnownBytes(schema, m, i + 1);
    }
  }
}
