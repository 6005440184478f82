/** The word _has_bits_ of a generated message, and the fields it marks as present. */
module PresenceBits {
  import opened ProtoMessage

  predicate Has(bits: bv32, i: nat) {
    match i
    case 0 => bits & 0x01 != 0
    case 1 => bits & 0x02 != 0
    case 2 => bits & 0x04 != 0
    case 3 => bits & 0x08 != 0
    case 4 => bits & 0x10 != 0
    case _ => false
  }

  /** set_has_...: the generated masks. */
  function WithBit(bits: bv32, i: nat): bv32
    requires i < 5
  {
    match i
    case 0 => bits | 0x01
    case 1 => bits | 0x02
    case 2 => bits | 0x04
    case 3 => bits | 0x08
    case 4 => bits | 0x10
  }

  /** Each mask sets its own bit and keeps the others. */
  lemma SetsOneBit(bits: bv32, i: nat, k: nat)
    requires i < 5
    ensures Has(WithBit(bits, i), k) == (k == i || Has(bits, k))
  {
    match k {
      case 0 =>
      case 1 =>
      case 2 =>
      case 3 =>
      case 4 =>
      case _ =>
    }
  }

  lemma NoBits(k: nat)
    ensures !Has(0, k)
  {
    match k {
      case 0 =>
      case 1 =>
      case 2 =>
      case 3 =>
      case 4 =>
      case _ =>
    }
  }

  lemma RequiredMasks(bits: bv32)
    ensures bits & 0x01 == 0x01 <==> Has(bits, 0)
    ensures bits & 0x07 == 0x07 <==> Has(bits, 0) && Has(bits, 1) && Has(bits, 2)
  {
  }

  function Present(bits: bv32, v: seq<Value>): map<nat, Value> {
    map i: nat | i < |v| && Has(bits, i) :: v[i]
  }

  lemma PresentAt(bits: bv32, v: seq<Value>, i: nat)
    requires i < |v|
    ensures (i in Present(bits, v)) == Has(bits, i)
    ensures i in Present(bits, v) ==> Present(bits, v)[i] == v[i]
  {
  }

  lemma PresentBelow(bits: bv32, v: seq<Value>)
    ensures forall i <- Present(bits, v) :: i < |v|
  {
  }

  /** has_...(): the generated tests. */
  lemma Masks(bits: bv32)
    ensures Has(bits, 0) == (bits & 0x01 != 0) && Has(bits, 1) == (bits & 0x02 != 0)
    ensures Has(bits, 2) == (bits & 0x04 != 0) && Has(bits, 3) == (bits & 0x08 != 0)
    ensures Has(bits, 4) == (bits & 0x10 != 0)
  {
  }

  lemma NonePresent(v: seq<Value>)
    ensures Present(0, v) == map[]
  {
    hide Has;
    forall k: nat {
      NoBits(k);
    }
  }

  /** Setting a field and its bit is storing the field in the message. */
  lemma SetField(bits: bv32, v: seq<Value>, i: nat, x: Value)
    requires i < |v| && i < 5
    ensures Present(WithBit(bits, i), v[i := x]) == Present(bits, v)[i := x]
    ensures forall k: nat :: Has(WithBit(bits, i), k) == (k == i || Has(bits, k))
  {
    hide Has, WithBit;
    forall k: nat
      ensures Has(WithBit(bits, i), k) == (k == i || Has(bits, k))
    {
      SetsOneBit(bits, i, k);
    }
  }
}
