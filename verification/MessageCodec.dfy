/**
 One serialization of `RpcMessage` that its parser inverts, to show that the assumption made of
 protobuf can be met. It is not protobuf's own format.
 */
module MessageCodec {
  import opened Bytes
  import opened SessionSpec

  /** Each byte is announced by 1; 0 ends the text. */
  function PutText(t: Text): seq<byte> {
    if t == [] then [0] else [1, t[0]] + PutText(t[1..])
  }

  function GetText(s: seq<byte>): (Text, seq<byte>) {
    if |s| < 2 || s[0] != 1 then ([], if s == [] then [] else s[1..])
    else
      var (t, rest) := GetText(s[2..]);
      ([s[1]] + t, rest)
  }

  lemma {:induction false} GetPut(t: Text, rest: seq<byte>)
    ensures GetText(PutText(t) + rest) == (t, rest)
  {
    var s := PutText(t) + rest;
    if t == [] {
      assert s == [0] + rest && s[1..] == rest;
    } else {
      assert s == [1, t[0]] + (PutText(t[1..]) + rest);
      GetPut(t[1..], rest);
      assert s[2..] == PutText(t[1..]) + rest;
      assert [t[0]] + t[1..] == t;
    }
  }

  function KindByte(k: MessageType): byte {
    match k
    case REQUEST => 0
    case RESPONSE => 1
    case ERROR => 2
  }

  function ByteKind(b: byte): MessageType {
    if b == 0 then REQUEST else if b == 1 then RESPONSE else ERROR
  }

  function ErrorByte(e: ErrorCode): byte {
    match e
    case NO_ERROR => 0
    case INVALID_REQUEST => 1
    case NO_SERVICE => 2
    case NO_METHOD => 3
    case INVALID_CHECKSUM => 4
  }

  function ByteError(b: byte): ErrorCode {
    if b == 0 then NO_ERROR else if b == 1 then INVALID_REQUEST else if b == 2 then NO_SERVICE
    else if b == 3 then NO_METHOD else INVALID_CHECKSUM
  }

  function PutTexts(m: RpcMessage): seq<byte> {
    PutText(m.service) + (PutText(m.rpc) + (PutText(m.request) + (PutText(m.response) + [])))
  }

  function Serialize(m: RpcMessage): seq<byte> {
    [KindByte(m.kind), ErrorByte(m.error)] + (BigEndian(m.id, 8) + PutTexts(m))
  }

  function Parse(s: seq<byte>): RpcMessage {
    if |s| < 10 then DefaultMessage()
    else
      var (service, s1) := GetText(s[10..]);
      var (rpc, s2) := GetText(s1);
      var (request, s3) := GetText(s2);
      var (response, _) := GetText(s3);
      var id := FromBigEndian(s[2..10]) % 0x1_0000_0000_0000_0000;
      RpcMessage(ByteKind(s[0]), id, service, rpc, request, response, ByteError(s[1]))
  }

  lemma ParseSerialize(m: RpcMessage)
    ensures Parse(Serialize(m)) == m
  {
    hide GetText, PutText, BigEndian, FromBigEndian;
    var s := Serialize(m);
    assert s[2..10] == BigEndian(m.id, 8) && s[10..] == PutTexts(m);
    EightBytes(m.id);
    GetPut(m.service, PutText(m.rpc) + (PutText(m.request) + (PutText(m.response) + [])));
    GetPut(m.rpc, PutText(m.request) + (PutText(m.response) + []));
    GetPut(m.request, PutText(m.response) + []);
    GetPut(m.response, []);
  }

  lemma EightBytes(id: uint64)
    ensures FromBigEndian(BigEndian(id, 8)) == id
  {
    BigEndianValue(id, 8);
    Ranges();
    QuotientUnique(id, Range(8), 0, id);
  }
}
