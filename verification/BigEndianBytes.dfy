/** Numbers as big-endian byte strings, and the shifts and masks that take them apart and join them. */
module BigEndianBytes {
  import opened Bytes

  /** The low n bytes of i, most significant first. */
  function BigEndian(i: nat, n: nat): (s: seq<byte>)
    ensures |s| == n
  {
    if n == 0 then [] else BigEndian(i / 0x100, n - 1) + [i % 0x100]
  }

  /** i without its low n bytes. */
  function Above(i: nat, n: nat): nat {
    if n == 0 then i else Above(i / 0x100, n - 1)
  }

  /** The number whose top bits are head and whose low bytes are b, most significant first. */
  function Joined(head: nat, b: seq<byte>): nat {
    if b == [] then head else Joined(head, b[..|b| - 1]) * 0x100 + b[|b| - 1]
  }

  function Pow256(n: nat): (p: nat)
    ensures p > 0
  {
    if n == 0 then 1 else 256 * Pow256(n - 1)
  }

  lemma {:induction false} JoinedBelow(head: nat, b: seq<byte>)
    ensures Joined(head, b) < (head + 1) * Pow256(|b|)
  {
    if b != [] {
      var p := Pow256(|b| - 1);
      JoinedBelow(head, b[..|b| - 1]);
      assert 256 * ((head + 1) * p) == (head + 1) * (256 * p);
    }
  }

  /** Above, one byte at a time. */
  lemma AboveStep(i: nat, n: nat)
    ensures Above(i, 0) == i && Above(i, n + 1) == Above(i / 0x100, n)
  {
  }

  lemma AboveShifts4(i: nat)
    ensures Above(i, 1) == i / 0x100 && Above(i, 2) == i / 0x1_0000 && Above(i, 3) == i / 0x100_0000
    ensures Above(i, 4) == i / 0x1_0000_0000
  {
    hide Above;
    AboveStep(i, 0);
    AboveStep(i, 1);
    AboveStep(i, 2);
    AboveStep(i, 3);
    AboveStep(i / 0x100, 0);
    AboveStep(i / 0x100, 1);
    AboveStep(i / 0x100, 2);
    AboveStep(i / 0x1_0000, 0);
    AboveStep(i / 0x1_0000, 1);
    AboveStep(i / 0x100_0000, 0);
  }

  lemma {:induction false} AboveTwice(i: nat, m: nat, n: nat)
    ensures Above(i, m + n) == Above(Above(i, m), n)
  {
    if m > 0 {
      AboveTwice(i / 0x100, m - 1, n);
    }
  }

  lemma AboveShifts(i: nat)
    ensures Above(i, 1) == i / 0x100 && Above(i, 2) == i / 0x1_0000 && Above(i, 3) == i / 0x100_0000
    ensures Above(i, 4) == i / 0x1_0000_0000
    ensures i < 0x1_0000_0000_0000_0000 ==> Above(i, 8) == 0
  {
    hide Above;
    AboveShifts4(i);
    AboveTwice(i, 4, 4);
    AboveShifts4(Above(i, 4));
  }

  lemma {:induction false} JoinSplit(i: nat, n: nat)
    ensures Joined(Above(i, n), BigEndian(i, n)) == i
  {
    if n > 0 {
      JoinSplit(i / 0x100, n - 1);
      var b := BigEndian(i, n);
      assert b[..n - 1] == BigEndian(i / 0x100, n - 1);
    }
  }

  lemma {:induction false} SplitJoin(head: nat, b: seq<byte>)
    ensures BigEndian(Joined(head, b), |b|) == b
    ensures Above(Joined(head, b), |b|) == head
  {
    if b != [] {
      SplitJoin(head, b[..|b| - 1]);
      assert Joined(head, b) / 0x100 == Joined(head, b[..|b| - 1]);
    }
  }

  /** Byte k of i, counted from the least significant. */
  function Digit(i: nat, k: nat): byte {
    Above(i, k) % 0x100
  }

  lemma DigitShifts(i: u64)
    ensures Digit(i, 0) == i % 0x100 && Digit(i, 1) == i / 0x100 % 0x100
    ensures Digit(i, 2) == i / 0x1_0000 % 0x100 && Digit(i, 3) == i / 0x100_0000 % 0x100
  {
    AboveShifts(i);
  }

  lemma HighDigitShifts(i: u64)
    ensures i / 0x1_0000_0000 == Above(i, 4)
    ensures Digit(Above(i, 4), 0) == i / 0x1_0000_0000 % 0x100
    ensures Digit(Above(i, 4), 1) == i / 0x100_0000_0000 % 0x100
    ensures Digit(Above(i, 4), 2) == i / 0x1_0000_0000_0000 % 0x100
    ensures Digit(Above(i, 4), 3) == i / 0x100_0000_0000_0000 % 0x100
  {
    AboveShifts(i);
    DigitShifts(i / 0x1_0000_0000);
    assert i / 0x1_0000_0000 / 0x100 == i / 0x100_0000_0000;
    assert i / 0x1_0000_0000 / 0x1_0000 == i / 0x1_0000_0000_0000;
    assert i / 0x1_0000_0000 / 0x100_0000 == i / 0x100_0000_0000_0000;
  }

  lemma BigEndianDigits(i: nat)
    ensures BigEndian(i, 1) == [Digit(i, 0)]
    ensures BigEndian(i, 2) == [Digit(i, 1), Digit(i, 0)]
    ensures BigEndian(i, 3) == [Digit(i, 2), Digit(i, 1), Digit(i, 0)]
    ensures BigEndian(i, 4) == [Digit(i, 3), Digit(i, 2), Digit(i, 1), Digit(i, 0)]
  {
    var a := i / 0x100;
    var b := a / 0x100;
    var c := b / 0x100;
    assert Above(i, 1) == a && Above(i, 2) == Above(a, 1) == b && Above(i, 3) == Above(a, 2) == Above(b, 1) == c;
    assert BigEndian(c, 1) == [c % 0x100];
    assert BigEndian(b, 1) == [b % 0x100] && BigEndian(b, 2) == BigEndian(c, 1) + [b % 0x100];
    assert BigEndian(a, 1) == [a % 0x100] && BigEndian(a, 2) == BigEndian(b, 1) + [a % 0x100]
        && BigEndian(a, 3) == BigEndian(b, 2) + [a % 0x100];
  }

  lemma {:induction false} BigEndianSplits(i: nat, m: nat, n: nat)
    ensures BigEndian(i, m + n) == BigEndian(Above(i, n), m) + BigEndian(i, n)
  {
    if n > 0 {
      BigEndianSplits(i / 0x100, m, n - 1);
    }
  }

  // The shifts and ors of operator>>.

  lemma Shifted(h: nat, b: seq<byte>)
    ensures |b| == 1 ==> Joined(h, b) == h * 0x100 + b[0]
    ensures |b| == 2 ==> Joined(h, b) == h * 0x1_0000 + (b[0] as int) * 0x100 + b[1]
    ensures |b| == 3 ==> Joined(h, b) == h * 0x100_0000 + (b[0] as int) * 0x1_0000 + (b[1] as int) * 0x100 + b[2]
    ensures |b| == 4 ==>
              Joined(h, b) == h * 0x1_0000_0000 + (b[0] as int) * 0x100_0000 + (b[1] as int) * 0x1_0000
                              + (b[2] as int) * 0x100 + b[3]
    ensures |b| == 8 && h == 0 ==>
              Joined(h, b) == (b[0] as int) * 0x100_0000_0000_0000 + (b[1] as int) * 0x1_0000_0000_0000
                              + (b[2] as int) * 0x100_0000_0000 + (b[3] as int) * 0x1_0000_0000
                              + (b[4] as int) * 0x100_0000 + (b[5] as int) * 0x1_0000 + (b[6] as int) * 0x100 + b[7]
  {
    if 1 <= |b| <= 4 {
      ShiftedUpTo4(h, b);
    } else if |b| == 8 {
      var c := b[..4];
      JoinedAppend(h, c, b[4..]);
      ShiftedUpTo4(h, c);
      ShiftedUpTo4(Joined(h, c), b[4..]);
      assert c + b[4..] == b;
    }
  }

  lemma ShiftedUpTo4(h: nat, b: seq<byte>)
    requires 1 <= |b| <= 4
    ensures |b| == 1 ==> Joined(h, b) == h * 0x100 + b[0]
    ensures |b| == 2 ==> Joined(h, b) == h * 0x1_0000 + (b[0] as int) * 0x100 + b[1]
    ensures |b| == 3 ==> Joined(h, b) == h * 0x100_0000 + (b[0] as int) * 0x1_0000 + (b[1] as int) * 0x100 + b[2]
    ensures |b| == 4 ==>
              Joined(h, b) == h * 0x1_0000_0000 + (b[0] as int) * 0x100_0000 + (b[1] as int) * 0x1_0000
                              + (b[2] as int) * 0x100 + b[3]
  {
    if |b| > 1 {
      ShiftedUpTo4(h, b[..|b| - 1]);
    }
  }

  lemma {:induction false} JoinedAppend(h: nat, b: seq<byte>, c: seq<byte>)
    ensures Joined(h, b + c) == Joined(Joined(h, b), c)
  {
    if c == [] {
      assert b + c == b;
    } else {
      JoinedAppend(h, b, c[..|c| - 1]);
      assert (b + c)[..|b + c| - 1] == b + c[..|c| - 1];
    }
  }
}
