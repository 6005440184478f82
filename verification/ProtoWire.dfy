/**
 The primitives of the Protocol Buffers wire format that generated code calls, after the encoding
 guide (sections "Base 128 Varints" and "Message Structure"): varints, tags, and the skipping of
 fields the message type does not know, groups included.
 */
module ProtoWire {
  import opened Bytes

  datatype VarintRead = NoVarint | GotVarint(value: nat, rest: seq<byte>)

  /** Seven bits a byte, least significant first; more than limit bytes are refused. */
  function ReadVarint(s: seq<byte>, limit: nat): (r: VarintRead)
    ensures r.GotVarint? ==> |r.rest| < |s|
  {
    if s == [] || limit == 0 then NoVarint
    else if s[0] < 128 then GotVarint(s[0], s[1..])
    else match ReadVarint(s[1..], limit - 1)
      case NoVarint => NoVarint
      case GotVarint(v, rest) => GotVarint(s[0] - 128 + 128 * v, rest)
  }

  function VarintBytes(v: nat): (s: seq<byte>)
    ensures s != []
  {
    if v < 128 then [v] else [128 + v % 128] + VarintBytes(v / 128)
  }

  /** A tag, or 0 at the end of the input and where no varint can be read. */
  function ReadTag(s: seq<byte>): (r: (u32, seq<byte>))
    ensures r.0 != 0 ==> |r.1| < |s|
  {
    match ReadVarint(s, 10)
    case NoVarint => (0, s)
    case GotVarint(v, rest) => (v % 0x1_0000_0000, rest)
  }

  /** What is kept of a field the message type does not know. */
  datatype Field =
    | Varint(number: nat, value: u64)
    | Fixed64(number: nat, bits: seq<byte>)
    | Delimited(number: nat, data: seq<byte>)
    | Group(number: nat, fields: seq<Field>)
    | Fixed32(number: nat, bits: seq<byte>)
  {
    function WireType(): nat {
      match this
      case Varint(_, _) => 0
      case Fixed64(_, _) => 1
      case Delimited(_, _) => 2
      case Group(_, _) => 3
      case Fixed32(_, _) => 5
    }

    function Tag(): nat {
      number * 8 + WireType()
    }
  }

  /** A field skipped, or what had been kept of it when the input broke off. */
  datatype Skipped = Broken(kept: seq<Field>) | Skipped(field: Field, rest: seq<byte>)

  datatype Ended = BrokenInside(kept: seq<Field>) | Ended(fields: seq<Field>, lastTag: u32, rest: seq<byte>)

  /** SkipField: one field after its tag; depth is how many more groups may be opened. */
  function SkipField(tag: u32, s: seq<byte>, depth: nat): (r: Skipped)
    ensures r.Skipped? ==> |r.rest| <= |s|
    decreases depth, |s|
  {
    var number := tag / 8;
    var wire := tag % 8;
    if wire == 0 then
      match ReadVarint(s, 10)
      case NoVarint => Broken([])
      case GotVarint(v, rest) => Skipped(Varint(number, v % 0x1_0000_0000_0000_0000), rest)
    else if wire == 1 then
      if |s| < 8 then Broken([]) else Skipped(Fixed64(number, s[..8]), s[8..])
    else if wire == 2 then
      match ReadVarint(s, 10)
      case NoVarint => Broken([])
      case GotVarint(v, rest) =>
        var n := v % 0x1_0000_0000;
        if n >= 0x8000_0000 then Broken([Delimited(number, [])])
        else if n > |rest| then Broken([Delimited(number, rest)])
        else Skipped(Delimited(number, rest[..n]), rest[n..])
    else if wire == 3 then
      if depth == 0 then Broken([])
      else match SkipMessage(s, depth - 1)
        case BrokenInside(fields) => Broken([Group(number, fields)])
        case Ended(fields, last, rest) =>
          if last == number * 8 + 4 then Skipped(Group(number, fields), rest)
          else Broken([Group(number, fields)])
    else if wire == 5 then
      if |s| < 4 then Broken([]) else Skipped(Fixed32(number, s[..4]), s[4..])
    else
      Broken([])
  }

  /** SkipMessage: fields up to an end-group tag or a tag of 0. */
  function SkipMessage(s: seq<byte>, depth: nat): (r: Ended)
    ensures r.Ended? ==> |r.rest| <= |s|
    decreases depth, |s|
  {
    var (tag, rest) := ReadTag(s);
    if tag == 0 then Ended([], 0, s)
    else if tag % 8 == 4 then Ended([], tag, rest)
    else match SkipField(tag, rest, depth)
      case Broken(kept) => BrokenInside(kept)
      case Skipped(f, rest') =>
        match SkipMessage(rest', depth)
        case BrokenInside(fs) => BrokenInside([f] + fs)
        case Ended(fs, last, end) => Ended([f] + fs, last, end)
  }

  // ---------------------------------------------------------------- writing

  function FieldBytes(f: Field): seq<byte>
    decreases f, 1
  {
    VarintBytes(f.Tag()) + FieldBody(f)
  }

  function FieldBody(f: Field): seq<byte>
    decreases f, 0
  {
    match f
    case Varint(_, v) => VarintBytes(v)
    case Fixed64(_, b) => b
    case Delimited(_, d) => VarintBytes(|d|) + d
    case Group(n, fs) => FieldsBytes(fs) + VarintBytes(n * 8 + 4)
    case Fixed32(_, b) => b
  }

  function FieldsBytes(fs: seq<Field>): seq<byte>
    decreases fs
  {
    if fs == [] then [] else FieldBytes(fs[0]) + FieldsBytes(fs[1..])
  }

  /** VarintSize32 and VarintSize64. */
  function VarintSize(v: nat): nat {
    if v < 0x80 then 1
    else if v < 0x4000 then 2
    else if v < 0x20_0000 then 3
    else if v < 0x1000_0000 then 4
    else if v < 0x8_0000_0000 then 5
    else if v < 0x400_0000_0000 then 6
    else if v < 0x2_0000_0000_0000 then 7
    else if v < 0x100_0000_0000_0000 then 8
    else if v < 0x8000_0000_0000_0000 then 9
    else 10
  }

  /** ComputeUnknownFieldsSize, field by field. */
  function FieldSize(f: Field): nat
    decreases f
  {
    match f
    case Varint(_, v) => VarintSize(f.Tag()) + VarintSize(v)
    case Fixed64(_, b) => VarintSize(f.Tag()) + 8
    case Delimited(_, d) => VarintSize(f.Tag()) + VarintSize(|d|) + |d|
    case Group(n, fs) => VarintSize(f.Tag()) + FieldsSize(fs) + VarintSize(n * 8 + 4)
    case Fixed32(_, b) => VarintSize(f.Tag()) + 4
  }

  function FieldsSize(fs: seq<Field>): nat
    decreases fs
  {
    if fs == [] then 0 else FieldSize(fs[0]) + FieldsSize(fs[1..])
  }

  lemma NoFieldsNoSize()
    ensures FieldsSize([]) == 0 && FieldsBytes([]) == []
  {
  }

  // ---------------------------------------------------------------- which fields can occur

  /** A field a reader can have kept, with at most depth groups inside one another. */
  ghost predicate Storable(f: Field, depth: nat)
    decreases f
  {
    && 0 < f.Tag() < 0x1_0000_0000
    && match f
       case Varint(_, _) => true
       case Fixed64(_, b) => |b| == 8
       case Delimited(_, d) => |d| < 0x8000_0000
       case Group(_, fs) => depth > 0 && AllStorable(fs, depth - 1)
       case Fixed32(_, b) => |b| == 4
  }

  ghost predicate AllStorable(fs: seq<Field>, depth: nat)
    decreases fs
  {
    fs == [] || (Storable(fs[0], depth) && AllStorable(fs[1..], depth))
  }

  // ---------------------------------------------------------------- varints

  lemma {:induction false} VarintRoundTrip(v: nat, rest: seq<byte>, limit: nat)
    requires |VarintBytes(v)| <= limit
    ensures ReadVarint(VarintBytes(v) + rest, limit) == GotVarint(v, rest)
  {
    if v < 128 {
      assert ([v] + rest)[1..] == rest;
    } else {
      VarintRoundTrip(v / 128, rest, limit - 1);
      assert (VarintBytes(v) + rest)[1..] == VarintBytes(v / 128) + rest;
    }
  }

  lemma VarintSizeIsLength(v: nat)
    requires v < 0x1_0000_0000_0000_0000
    ensures |VarintBytes(v)| == VarintSize(v) <= 10
    ensures v < 0x1_0000_0000 ==> VarintSize(v) <= 5
  {
    if v >= 128 {
      VarintSizeIsLength(v / 128);
    }
  }

  lemma {:induction false} VarintLocal(s: seq<byte>, t: seq<byte>, limit: nat)
    ensures ReadVarint(s, limit).GotVarint? ==>
      ReadVarint(s + t, limit) == GotVarint(ReadVarint(s, limit).value, ReadVarint(s, limit).rest + t)
  {
    if s != [] && limit > 0 {
      assert (s + t)[1..] == s[1..] + t;
      VarintLocal(s[1..], t, limit - 1);
    }
  }

  lemma TagRoundTrip(tag: nat, rest: seq<byte>)
    requires 0 < tag < 0x1_0000_0000
    ensures ReadTag(VarintBytes(tag) + rest) == (tag, rest)
  {
    VarintSizeIsLength(tag);
    VarintRoundTrip(tag, rest, 10);
  }

  lemma TagLocal(s: seq<byte>, t: seq<byte>)
    requires ReadTag(s).0 != 0
    ensures ReadTag(s + t) == (ReadTag(s).0, ReadTag(s).1 + t)
  {
    VarintLocal(s, t, 10);
  }

  // ---------------------------------------------------------------- what the bytes are

  function Pow128(n: nat): (p: nat)
    ensures p > 0
  {
    if n == 0 then 1 else 128 * Pow128(n - 1)
  }

  /** Byte k of a varint holds group k of seven bits, and 128 on top exactly where another byte follows. */
  lemma {:induction false} VarintByte(v: nat, k: nat)
    requires k < |VarintBytes(v)|
    ensures VarintBytes(v)[k] == v / Pow128(k) % 128 + if k + 1 < |VarintBytes(v)| then 128 else 0
  {
    if v >= 128 && k > 0 {
      VarintByte(v / 128, k - 1);
      DivideTwice(v, Pow128(k - 1));
    }
  }

  lemma DivideTwice(v: nat, p: nat)
    requires p > 0
    ensures v / 128 / p == v / (128 * p)
  {
    var a, b := v / 128 / p, v / (128 * p);
    var x, y := v / 128 % p, v % (128 * p);
    assert v / 128 == a * p + x;
    assert v == b * (128 * p) + y;
    Multiples(a, b, p);
    AtLeastOne(a - b, p);
    AtLeastOne(b - a, p);
  }

  lemma Multiples(a: int, b: int, p: int)
    ensures b * (128 * p) == 128 * (b * p) && (a - b) * p == a * p - b * p && (b - a) * p == b * p - a * p
  {
  }

  lemma AtLeastOne(n: int, p: nat)
    ensures n >= 1 ==> n * p >= p
  {
    if n >= 1 {
      assert n * p == p + (n - 1) * p;
    }
  }

  /** No group of seven bits is left over, and none is written in vain. */
  lemma {:induction false} VarintLength(v: nat)
    ensures var n := |VarintBytes(v)|; v < Pow128(n) && (n > 1 ==> Pow128(n - 1) <= v)
  {
    if v >= 128 {
      VarintLength(v / 128);
    }
  }

  lemma ThreeHundred()
    ensures VarintBytes(300) == [0xAC, 0x02] && ReadVarint([0xAC, 0x02], 10) == GotVarint(300, [])
  {
    assert VarintBytes(2) == [0x02];
    assert [0xAC, 0x02][1..] == [0x02];
    assert ReadVarint([0x02], 9) == GotVarint(2, []);
  }

  /** The number whose groups of seven bits are the low bits of the first n bytes. */
  function Groups(s: seq<byte>, n: nat): nat
    requires n <= |s|
  {
    if n == 0 then 0 else Groups(s, n - 1) + s[n - 1] % 128 * Pow128(n - 1)
  }

  lemma {:induction false} GroupsFirst(s: seq<byte>, n: nat)
    requires n < |s|
    ensures Groups(s, n + 1) == s[0] % 128 + 128 * Groups(s[1..], n)
  {
    hide Pow128;
    GroupsNext(s, n);
    if n == 0 {
      PowNext(0);
    } else {
      GroupsFirst(s, n - 1);
      GroupsNext(s[1..], n - 1);
      PowNext(n - 1);
      Distribute(Groups(s[1..], n - 1), s[n] % 128, Pow128(n - 1));
    }
  }

  lemma GroupsNext(s: seq<byte>, n: nat)
    requires n < |s|
    ensures Groups(s, n + 1) == Groups(s, n) + s[n] % 128 * Pow128(n) && Groups(s, 0) == 0
  {
    hide Pow128;
  }

  lemma PowNext(n: nat)
    ensures Pow128(0) == 1 && Pow128(n + 1) == 128 * Pow128(n)
  {
  }

  lemma Distribute(a: int, g: int, p: int)
    ensures 128 * (a + g * p) == 128 * a + g * (128 * p)
  {
  }

  /** A read takes the bytes up to the first below 128, within the limit, and their low bits as groups. */
  lemma {:induction false} VarintValue(s: seq<byte>, limit: nat, n: nat)
    requires n < |s| && n < limit && s[n] < 128 && forall k | 0 <= k < n :: s[k] >= 128
    ensures ReadVarint(s, limit) == GotVarint(Groups(s, n + 1), s[n + 1..])
    decreases n
  {
    GroupsFirst(s, n);
    if n > 0 {
      VarintValue(s[1..], limit - 1, n - 1);
      assert s[1..][n..] == s[n + 1..];
    } else {
      assert Groups(s[1..], 0) == 0;
    }
  }

  /** It fails exactly where none of the first limit bytes is below 128. */
  lemma {:induction false} VarintRefused(s: seq<byte>, limit: nat)
    ensures ReadVarint(s, limit).NoVarint? <==> forall k | 0 <= k < |s| && k < limit :: s[k] >= 128
    decreases |s|
  {
    if s != [] && limit > 0 && s[0] >= 128 {
      VarintRefused(s[1..], limit - 1);
      if forall k | 0 <= k < |s| && k < limit :: s[k] >= 128 {
        assert forall k | 0 <= k < |s[1..]| && k < limit - 1 :: s[1..][k] == s[k + 1];
      } else {
        var k :| 0 <= k < |s| && k < limit && s[k] < 128;
        assert s[1..][k - 1] < 128;
      }
    }
  }

  /** A tag is the low 32 bits of a varint; 0 stands for none. */
  lemma TagIs(s: seq<byte>)
    ensures var r := ReadVarint(s, 10);
      ReadTag(s) == if r.NoVarint? then (0, s) else (r.value % 0x1_0000_0000, r.rest)
  {
    hide ReadVarint;
  }

  /** The wire types: what is read after a tag, and what of it is kept. */
  lemma SkipTable(tag: u32, s: seq<byte>, depth: nat)
    ensures tag % 8 == 0 ==> (SkipField(tag, s, depth) ==
      var r := ReadVarint(s, 10);
      if r.NoVarint? then Broken([]) else Skipped(Varint(tag / 8, r.value % 0x1_0000_0000_0000_0000), r.rest))
    ensures tag % 8 == 1 ==> (SkipField(tag, s, depth) ==
      if |s| < 8 then Broken([]) else Skipped(Fixed64(tag / 8, s[..8]), s[8..]))
    ensures tag % 8 == 2 ==> (SkipField(tag, s, depth) ==
      var r := ReadVarint(s, 10);
      if r.NoVarint? then Broken([])
      else if r.value % 0x1_0000_0000 >= 0x8000_0000 then Broken([Delimited(tag / 8, [])])
      else if r.value % 0x1_0000_0000 > |r.rest| then Broken([Delimited(tag / 8, r.rest)])
      else Skipped(Delimited(tag / 8, r.rest[..r.value % 0x1_0000_0000]), r.rest[r.value % 0x1_0000_0000..]))
    ensures tag % 8 == 3 && depth == 0 ==> SkipField(tag, s, depth) == Broken([])
    ensures tag % 8 == 3 && depth > 0 ==> (SkipField(tag, s, depth) ==
      var r := SkipMessage(s, depth - 1);
      if r.BrokenInside? then Broken([Group(tag / 8, r.kept)])
      else if r.lastTag == tag / 8 * 8 + 4 then Skipped(Group(tag / 8, r.fields), r.rest)
      else Broken([Group(tag / 8, r.fields)]))
    ensures tag % 8 == 5 ==> (SkipField(tag, s, depth) ==
      if |s| < 4 then Broken([]) else Skipped(Fixed32(tag / 8, s[..4]), s[4..]))
    ensures tag % 8 == 4 || tag % 8 > 5 ==> SkipField(tag, s, depth) == Broken([])
  {
    hide ReadVarint, SkipMessage;
  }

  /** How a kept field is written: its number, its wire type, its contents. */
  lemma FieldTable(f: Field)
    ensures f.Varint? ==> FieldBytes(f) == VarintBytes(f.number * 8) + VarintBytes(f.value)
    ensures f.Fixed64? ==> FieldBytes(f) == VarintBytes(f.number * 8 + 1) + f.bits
    ensures f.Delimited? ==> FieldBytes(f) == VarintBytes(f.number * 8 + 2) + (VarintBytes(|f.data|) + f.data)
    ensures f.Group? ==>
      FieldBytes(f) == VarintBytes(f.number * 8 + 3) + (FieldsBytes(f.fields) + VarintBytes(f.number * 8 + 4))
    ensures f.Fixed32? ==> FieldBytes(f) == VarintBytes(f.number * 8 + 5) + f.bits
  {
    hide VarintBytes, FieldsBytes;
  }

  // ---------------------------------------------------------------- reading is local

  lemma {:induction false} SkipFieldLocal(tag: u32, s: seq<byte>, depth: nat, t: seq<byte>)
    requires SkipField(tag, s, depth).Skipped?
    ensures var r := SkipField(tag, s, depth);
      SkipField(tag, s + t, depth) == Skipped(r.field, r.rest + t)
    decreases depth, |s|
  {
    var wire := tag % 8;
    if wire == 0 || wire == 2 {
      VarintLocal(s, t, 10);
      if wire == 2 {
        var r := ReadVarint(s, 10);
        var n := r.value % 0x1_0000_0000;
        assert (r.rest + t)[..n] == r.rest[..n] && (r.rest + t)[n..] == r.rest[n..] + t;
      }
    } else if wire == 1 {
      assert (s + t)[..8] == s[..8] && (s + t)[8..] == s[8..] + t;
    } else if wire == 3 {
      SkipMessageLocal(s, depth - 1, t);
    } else {
      assert (s + t)[..4] == s[..4] && (s + t)[4..] == s[4..] + t;
    }
  }

  lemma {:induction false} SkipMessageLocal(s: seq<byte>, depth: nat, t: seq<byte>)
    requires SkipMessage(s, depth).Ended? && SkipMessage(s, depth).lastTag != 0
    ensures var r := SkipMessage(s, depth);
      SkipMessage(s + t, depth) == Ended(r.fields, r.lastTag, r.rest + t)
    decreases depth, |s|
  {
    TagLocal(s, t);
    var (tag, rest) := ReadTag(s);
    if tag % 8 != 4 {
      SkipFieldLocal(tag, rest, depth, t);
      SkipMessageLocal(SkipField(tag, rest, depth).rest, depth, t);
    }
  }

  // ---------------------------------------------------------------- writing and reading back

  lemma TagParts(f: Field)
    ensures f.Tag() / 8 == f.number && f.Tag() % 8 == f.WireType()
  {
  }

  lemma ShortVarintRoundTrip(v: u64, rest: seq<byte>)
    ensures ReadVarint(VarintBytes(v) + rest, 10) == GotVarint(v, rest)
  {
    VarintSizeIsLength(v);
    VarintRoundTrip(v, rest, 10);
  }

  lemma DelimitedRoundTrip(d: seq<byte>, rest: seq<byte>)
    requires |d| < 0x8000_0000
    ensures ReadVarint(VarintBytes(|d|) + d + rest, 10) == GotVarint(|d|, d + rest)
    ensures (d + rest)[..|d|] == d && (d + rest)[|d|..] == rest
  {
    assert VarintBytes(|d|) + d + rest == VarintBytes(|d|) + (d + rest);
    ShortVarintRoundTrip(|d|, d + rest);
  }

  lemma {:induction false} FieldRoundTrip(f: Field, rest: seq<byte>, depth: nat)
    requires Storable(f, depth)
    ensures SkipField(f.Tag(), FieldBody(f) + rest, depth) == Skipped(f, rest)
    decreases f
  {
    hide SkipField, SkipMessage, FieldBody, FieldsBytes, Field.Tag, VarintBytes;
    if f.Group? {
      EndTag(f);
      FieldsRoundTrip(f.fields, f.number * 8 + 4, rest, depth - 1);
      GroupRoundTrip(f, rest, depth);
    } else {
      SimpleRoundTrip(f, rest, depth);
    }
  }

  lemma SimpleRoundTrip(f: Field, rest: seq<byte>, depth: nat)
    requires Storable(f, depth) && !f.Group?
    ensures SkipField(f.Tag(), FieldBody(f) + rest, depth) == Skipped(f, rest)
  {
    hide VarintBytes, ReadVarint, SkipMessage, Field.Tag;
    TagParts(f);
    var s := FieldBody(f) + rest;
    match f {
      case Varint(_, v) => ShortVarintRoundTrip(v, rest);
      case Fixed64(_, b) => assert s[..8] == b && s[8..] == rest;
      case Delimited(_, d) => DelimitedRoundTrip(d, rest);
      case Fixed32(_, b) => assert s[..4] == b && s[4..] == rest;
    }
  }

  lemma GroupRoundTrip(f: Field, rest: seq<byte>, depth: nat)
    requires Storable(f, depth) && f.Group?
    requires SkipMessage(FieldsBytes(f.fields) + (VarintBytes(f.number * 8 + 4) + rest), depth - 1)
          == Ended(f.fields, f.number * 8 + 4, rest)
    ensures SkipField(f.Tag(), FieldBody(f) + rest, depth) == Skipped(f, rest)
  {
    hide VarintBytes, ReadVarint, SkipMessage, FieldsBytes, Field.Tag;
    TagParts(f);
    assert FieldBody(f) + rest == FieldsBytes(f.fields) + (VarintBytes(f.number * 8 + 4) + rest);
  }

  lemma EndTag(f: Field)
    requires f.Group? && f.Tag() < 0x1_0000_0000
    ensures (f.number * 8 + 4) % 8 == 4 && f.number * 8 + 4 < 0x1_0000_0000
  {
  }

  lemma {:induction false} FieldsRoundTrip(fs: seq<Field>, end: u32, rest: seq<byte>, depth: nat)
    requires AllStorable(fs, depth) && end % 8 == 4
    ensures SkipMessage(FieldsBytes(fs) + (VarintBytes(end) + rest), depth) == Ended(fs, end, rest)
    decreases fs
  {
    hide VarintBytes, ReadVarint, SkipField, FieldBody, ReadTag, Field.Tag;
    var tail := VarintBytes(end) + rest;
    if fs == [] {
      assert FieldsBytes(fs) + tail == tail;
      TagRoundTrip(end, rest);
    } else {
      var more := FieldsBytes(fs[1..]) + tail;
      var body := FieldBody(fs[0]) + more;
      assert FieldsBytes(fs) + tail == VarintBytes(fs[0].Tag()) + body;
      TagParts(fs[0]);
      TagRoundTrip(fs[0].Tag(), body);
      FieldRoundTrip(fs[0], more, depth);
      FieldsRoundTrip(fs[1..], end, rest, depth);
      assert fs == [fs[0]] + fs[1..];
    }
  }

  lemma {:induction false} FieldSizeIsLength(f: Field, depth: nat)
    requires Storable(f, depth)
    ensures FieldSize(f) == |FieldBytes(f)|
    decreases f
  {
    VarintSizeIsLength(f.Tag());
    match f {
      case Varint(_, v) => VarintSizeIsLength(v);
      case Fixed64(_, b) =>
      case Delimited(_, d) => VarintSizeIsLength(|d|);
      case Group(n, fs) =>
        VarintSizeIsLength(n * 8 + 4);
        FieldsSizeIsLength(fs, depth - 1);
      case Fixed32(_, b) =>
    }
  }

  lemma {:induction false} FieldsSizeIsLength(fs: seq<Field>, depth: nat)
    requires AllStorable(fs, depth)
    ensures FieldsSize(fs) == |FieldsBytes(fs)|
    decreases fs
  {
    if fs != [] {
      FieldSizeIsLength(fs[0], depth);
      FieldsSizeIsLength(fs[1..], depth);
    }
  }

  // ---------------------------------------------------------------- what a reader keeps can be written

  lemma {:induction false} SkippedIsStorable(tag: u32, s: seq<byte>, depth: nat)
    requires tag != 0
    ensures var r := SkipField(tag, s, depth);
      if r.Skipped? then r.field.Tag() == tag && Storable(r.field, depth)
      else r.kept == [] || (|r.kept| == 1 && r.kept[0].Tag() == tag && Storable(r.kept[0], depth))
    decreases depth, |s|
  {
    if tag % 8 == 3 && depth > 0 {
      EndedIsStorable(s, depth - 1);
    }
  }

  lemma {:induction false} EndedIsStorable(s: seq<byte>, depth: nat)
    ensures var r := SkipMessage(s, depth);
      AllStorable(if r.Ended? then r.fields else r.kept, depth)
    decreases depth, |s|
  {
    var (tag, rest) := ReadTag(s);
    if tag != 0 && tag % 8 != 4 {
      SkippedIsStorable(tag, rest, depth);
      var r := SkipField(tag, rest, depth);
      if r.Skipped? {
        EndedIsStorable(r.rest, depth);
        var m := SkipMessage(r.rest, depth);
        var tail := if m.Ended? then m.fields else m.kept;
        assert ([r.field] + tail)[1..] == tail;
      }
    }
  }
}
