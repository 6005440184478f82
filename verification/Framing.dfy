/** Messages on the control connection: two bytes of type, four of length, then the body. */
module Framing {
  import opened BigEndianBytes
  import opened Bytes

  function Preamble(kind: u16, len: u32): (p: seq<byte>)
    ensures |p| == 6
  {
    BigEndian(kind, 2) + BigEndian(len, 4)
  }

  /** The six bytes: type, then length, each with its most significant byte first. */
  lemma PreambleTable(kind: u16, len: u32)
    ensures Preamble(kind, len) ==
      [kind / 0x100, kind % 0x100, len / 0x100_0000, len / 0x1_0000 % 0x100, len / 0x100 % 0x100, len % 0x100]
  {
    hide BigEndian, Digit;
    BigEndianDigits(kind);
    BigEndianDigits(len);
    DigitShifts(kind);
    DigitShifts(len);
  }

  method AddPreamble(buffer: array<byte>, kind: u16, len: u32)
    requires buffer.Length >= 6
    modifies buffer
    ensures buffer[..6] == Preamble(kind, len) && buffer[6..] == old(buffer[6..])
    ensures buffer[0] == kind / 0x100 && buffer[1] == kind % 0x100
    ensures buffer[2] == len / 0x100_0000 && buffer[3] == len / 0x1_0000 % 0x100
    ensures buffer[4] == len / 0x100 % 0x100 && buffer[5] == len % 0x100
  {
    hide Preamble;
    PreambleTable(kind, len);
    buffer[1] := kind % 0x100;
    buffer[0] := kind / 0x100 % 0x100;
    buffer[5] := len % 0x100;
    buffer[4] := len / 0x100 % 0x100;
    buffer[3] := len / 0x1_0000 % 0x100;
    buffer[2] := len / 0x100_0000 % 0x100;
  }

  method GetPreamble(buffer: array<byte>) returns (kind: i32, len: i32)
    requires buffer.Length >= 6
    ensures 0 <= kind < 0x1_0000 && buffer[..6] == Preamble(kind, ToUInt32(len))
    ensures kind == (buffer[0] as int) * 0x100 + buffer[1]
    ensures ToUInt32(len) == (buffer[2] as int) * 0x100_0000 + (buffer[3] as int) * 0x1_0000
                             + (buffer[4] as int) * 0x100 + buffer[5]
  {
    var msgType := buffer[1] + (buffer[0] as int) * 0x100;
    var msgLen := buffer[5] + (buffer[4] as int) * 0x100 + (buffer[3] as int) * 0x1_0000 + (buffer[2] as int) * 0x100_0000;
    kind := msgType;
    len := ToInt32(msgLen);
    Shifted(0, buffer[..2]);
    Shifted(0, buffer[2..6]);
    SplitJoin(0, buffer[..2]);
    SplitJoin(0, buffer[2..6]);
    assert buffer[..6] == buffer[..2] + buffer[2..6];
  }

  lemma PreambleInjective(k: u16, n: u32, k': u16, n': u32)
    requires Preamble(k, n) == Preamble(k', n')
    ensures k == k' && n == n'
  {
    hide BigEndian, Above, Joined;
    assert BigEndian(k, 2) == Preamble(k, n)[..2] == BigEndian(k', 2);
    assert BigEndian(n, 4) == Preamble(k, n)[2..] == BigEndian(n', 4);
    TwoBytesJoin(k);
    TwoBytesJoin(k');
    FourBytesJoin(n);
    FourBytesJoin(n');
  }

  lemma TwoBytesJoin(k: u16)
    ensures Joined(0, BigEndian(k, 2)) == k
  {
    hide BigEndian, Above, Joined;
    AboveShifts4(k);
    JoinSplit(k, 2);
  }

  lemma FourBytesJoin(n: u32)
    ensures Joined(0, BigEndian(n, 4)) == n
  {
    hide BigEndian, Above, Joined;
    AboveShifts4(n);
    JoinSplit(n, 4);
  }

  datatype Message = Message(kind: i32, body: seq<byte>)

  /** sendMessage: the bytes handed to the socket. */
  method SendMessage(message: seq<byte>, kind: u16) returns (sent: seq<byte>)
    requires |message| < 0x7FFF_FFFA
    ensures sent == Preamble(kind, |message|) + message
  {
    var data := new byte[|message| + 6](i requires 0 <= i < |message| + 6 => if i < 6 then 0 else message[i - 6]);
    assert data[6..] == message;
    AddPreamble(data, kind, |message|);
    sent := data[..];
    assert sent == data[..6] + data[6..];
  }

  /** processProtoMessage: the type and the body; the length field is read and not used. */
  method ReceiveMessage(data: seq<byte>) returns (m: Message)
    requires 6 <= |data| < 0x8000_0000
    ensures m.body == data[6..] && 0 <= m.kind < 0x1_0000
    ensures exists n: u32 :: data[..6] == Preamble(m.kind, n)
  {
    var binData := new byte[|data|](i requires 0 <= i < |data| => data[i]);
    assert binData[..6] == data[..6];
    var kind, len := GetPreamble(binData);
    assert data[..6] == Preamble(kind, ToUInt32(len));
    m := Message(kind, data[6..]);
  }

  /** A message arrives with the type and body it was sent with. */
  method SendThenReceive(message: seq<byte>, kind: u16) returns (m: Message)
    requires |message| < 0x7FFF_FFFA
    ensures m == Message(kind, message)
  {
    var sent := SendMessage(message, kind);
    assert sent[..6] == Preamble(kind, |message|) && sent[6..] == message;
    m := ReceiveMessage(sent);
    ghost var n: u32 :| sent[..6] == Preamble(m.kind, n);
    PreambleInjective(kind, |message|, m.kind, n);
  }
}
