/** How lib/adb/adb.c fills in messages and lays them out as bytes. */
module AdbMessage {
  import opened Prelude
  import opened Words
  import Checksum

  const HEADER_LEN: nat := 24

  const A_CNXN: u32 := 0x4e584e43
  const A_AUTH: u32 := 0x48545541
  const A_OPEN: u32 := 0x4e45504f
  const A_OKAY: u32 := 0x59414b4f
  const A_CLSE: u32 := 0x45534c43
  const A_WRTE: u32 := 0x45545257
  const A_STLS: u32 := 0x534C5453

  datatype Header = Header(command: u32, arg0: u32, arg1: u32, dataLength: u32, dataCheck: u32, magic: u32)

  datatype Message = Message(header: Header, payload: Option<seq<byte>>)

  /** The payload pointer, when there is one, points at dataLength bytes or more. */
  predicate WellFormed(m: Message) {
    m.header.dataLength <= match m.payload case None => 0 case Some(p) => |p|
  }

  /** ADB_MAGIC: exclusive or with all ones. */
  function Complement(n: u32): u32 {
    0xFFFF_FFFF - n
  }

  /** ADB_SET_MESSAGE, with its pointer test. */
  function SetMessage(command: u32, arg0: u32, arg1: u32, dataLength: u32, payload: Option<seq<byte>>)
    : (m: Message)
    requires payload.Some? ==> dataLength <= |payload.value|
    ensures WellFormed(m)
  {
    match payload
    case None =>
      Message(Header(command, arg0, arg1, 0, 0, Complement(command)), None)
    case Some(p) =>
      var check := Checksum.ChecksumValue(p[..dataLength]);
      Message(Header(command, arg0, arg1, dataLength, check, Complement(command)), payload)
  }

  /** A message structure that the macro fills in field by field. */
  class MessageStruct {
    var command: u32
    var arg0: u32
    var arg1: u32
    var dataLength: u32
    var dataCheck: u32
    var magic: u32
    var payload: Option<seq<byte>>

    ghost function Value(): Message
      reads this
    {
      Message(Header(command, arg0, arg1, dataLength, dataCheck, magic), payload)
    }

    constructor ()
      ensures Value() == Message(Header(0, 0, 0, 0, 0, 0), None)
    {
      command, arg0, arg1, dataLength, dataCheck, magic, payload := 0, 0, 0, 0, 0, 0, None;
    }

    method Set(command: u32, arg0: u32, arg1: u32, dataLength: u32, payload: Option<seq<byte>>)
      requires payload.Some? ==> dataLength <= |payload.value|
      modifies this
      ensures Value() == SetMessage(command, arg0, arg1, dataLength, payload)
    {
      this.command := command;
      this.arg0 := arg0;
      this.arg1 := arg1;
      this.dataLength := if payload.Some? then dataLength else 0;
      this.dataCheck := 0;
      if payload.Some? {
        this.dataCheck := Checksum.Checksum(payload.value[..dataLength]);
      }
      this.magic := Complement(command);
      this.payload := payload;
    }
  }

  // ---------- Bytes on the wire ----------

  function EncodeHeader(h: Header): (s: seq<byte>)
    ensures |s| == HEADER_LEN
  {
    Encode32(h.command) + Encode32(h.arg0) + Encode32(h.arg1)
    + Encode32(h.dataLength) + Encode32(h.dataCheck) + Encode32(h.magic)
  }

  /** The header, then as many payload bytes as it announces. */
  function Encode(m: Message): (s: seq<byte>)
    requires WellFormed(m)
    ensures |s| == HEADER_LEN + m.header.dataLength
  {
    EncodeHeader(m.header)
    + match m.payload case None => [] case Some(p) => p[..m.header.dataLength]
  }

  function DecodeHeader(s: seq<byte>): Header
    requires |s| >= HEADER_LEN
  {
    Header(Decode32(s, 0), Decode32(s, 4), Decode32(s, 8), Decode32(s, 12), Decode32(s, 16), Decode32(s, 20))
  }

  lemma {:induction false} DecodeEncodeHeader(h: Header, rest: seq<byte>)
    ensures DecodeHeader(EncodeHeader(h) + rest) == h
  {
    var ws := [h.command, h.arg0, h.arg1, h.dataLength, h.dataCheck, h.magic];
    HeaderIsWords(h);
    DecodeWordAt(ws, rest, 0);
    DecodeWordAt(ws, rest, 1);
    DecodeWordAt(ws, rest, 2);
    DecodeWordAt(ws, rest, 3);
    DecodeWordAt(ws, rest, 4);
    DecodeWordAt(ws, rest, 5);
  }

  lemma {:induction false} HeaderIsWords(h: Header)
    ensures EncodeHeader(h) == EncodeWords([h.command, h.arg0, h.arg1, h.dataLength, h.dataCheck, h.magic])
  {
    var a, b, c, d, e, f := h.command, h.arg0, h.arg1, h.dataLength, h.dataCheck, h.magic;
    WordsOfThree(a, b, c);
    WordsOfThree(d, e, f);
    EncodeWordsConcat([a, b, c], [d, e, f]);
    assert [a, b, c] + [d, e, f] == [a, b, c, d, e, f];
  }

  // ---------- The calls ----------

  /** The seven calls of the library, with what each passes on. */
  datatype Call =
    | Connect(version: u32, maxData: u32, systemId: seq<byte>)
    | Stls(stlsType: u32, stlsVersion: u32)
    | Auth(authType: u32, authData: Option<seq<byte>>, authLen: u32)
    | Open(localId: u32, destination: seq<byte>)
    | Ready(readyLocal: u32, readyRemote: u32)
    | Write(writeLocal: u32, writeRemote: u32, text: seq<byte>)
    | Close(closeLocal: u32, closeRemote: u32)

  /** The bytes of an authentication, unless its pointer is null, are as many as the call says. */
  predicate Backed(c: Call) {
    c.Auth? && c.authData.Some? ==> c.authLen <= |c.authData.value|
  }

  function PayloadOf(c: Call): seq<byte>
    requires Backed(c)
  {
    match c
    case Connect(_, _, id) => id
    case Auth(_, data, len) => if data.None? then [] else data.value[..len]
    case Open(_, destination) => destination
    case Write(_, _, text) => text
    case _ => []
  }

  predicate Sendable(c: Call) {
    Backed(c) && |PayloadOf(c)| + HEADER_LEN < 0x1_0000_0000
  }

  /** The arguments of ADB_SET_MESSAGE. */
  datatype Arguments = Arguments(command: u32, arg0: u32, arg1: u32, dataLength: u32, payload: Option<seq<byte>>)

  /** What each call passes to the macro; all but that of closing pass a payload pointer on. */
  function ArgumentsOf(c: Call): (a: Arguments)
    requires Sendable(c)
    ensures a.payload.Some? ==> a.dataLength <= |a.payload.value|
  {
    match c
    case Connect(version, maxData, id) => Arguments(A_CNXN, version, maxData, |id|, Some(id))
    case Stls(kind, version) => Arguments(A_STLS, kind, version, 0, Some([]))
    case Auth(kind, data, len) => Arguments(A_AUTH, kind, 0, len, data)
    case Open(local, destination) => Arguments(A_OPEN, local, 0, |destination|, Some(destination))
    case Ready(local, remote) => Arguments(A_OKAY, local, remote, 0, Some([]))
    case Write(local, remote, text) => Arguments(A_WRTE, local, remote, |text|, Some(text))
    case Close(local, remote) => Arguments(A_CLSE, local, remote, 0, None)
  }

  function Build(c: Call): (m: Message)
    requires Sendable(c)
    ensures WellFormed(m) && m.header.dataLength == |PayloadOf(c)|
  {
    var a := ArgumentsOf(c);
    SetMessage(a.command, a.arg0, a.arg1, a.dataLength, a.payload)
  }

  /** A receiver's reading of the bytes: checks the redundant fields, then names the call. */
  function Parse(s: seq<byte>): Option<Call> {
    if |s| < HEADER_LEN then None
    else
      var h, payload := DecodeHeader(s), s[HEADER_LEN..];
      var check := Checksum.ChecksumValue(payload);
      if h.dataLength != |payload| || h.dataCheck != check || h.magic != Complement(h.command) then None
      else if h.command == A_CNXN then Some(Connect(h.arg0, h.arg1, payload))
      else if h.command == A_STLS && payload == [] then Some(Stls(h.arg0, h.arg1))
      else if h.command == A_AUTH && h.arg1 == 0 then Some(Auth(h.arg0, Some(payload), |payload|))
      else if h.command == A_OPEN && h.arg1 == 0 then Some(Open(h.arg0, payload))
      else if h.command == A_OKAY && payload == [] then Some(Ready(h.arg0, h.arg1))
      else if h.command == A_WRTE then Some(Write(h.arg0, h.arg1, payload))
      else if h.command == A_CLSE && payload == [] then Some(Close(h.arg0, h.arg1))
      else None
  }

  /** What a call amounts to once sent: a null pointer, and bytes past the length, do not show. */
  function AsRead(c: Call): Call
    requires Sendable(c)
  {
    match c
    case Auth(kind, _, _) => Auth(kind, Some(PayloadOf(c)), |PayloadOf(c)|)
    case _ => c
  }

  /** Every call comes back from its bytes as what it amounts to. */
  lemma {:induction false} ParseEncode(c: Call)
    requires Sendable(c)
    ensures Parse(Encode(Build(c))) == Some(AsRead(c))
  {
    var m := Build(c);
    FramingFields(c);
    DecodeEncodeHeader(m.header, PayloadOf(c));
    assert Encode(m)[HEADER_LEN..] == PayloadOf(c);
  }

  /** So it comes back as itself unless it authenticates with a null pointer or with part of a buffer. */
  lemma {:induction false} ReadAsSentIff(c: Call)
    requires Sendable(c)
    ensures Parse(Encode(Build(c))) == Some(c)
       <==> (c.Auth? ==> c.authData.Some? && c.authLen == |c.authData.value|)
  {
    ParseEncode(c);
    if c.Auth? && c.authData.Some? {
      assert c.authData.value[..|c.authData.value|] == c.authData.value;
    }
  }

  lemma {:induction false} FramingFields(c: Call)
    requires Sendable(c)
    ensures Encode(Build(c)) == EncodeHeader(Build(c).header) + PayloadOf(c)
    ensures Build(c).header.dataCheck == Checksum.ChecksumValue(PayloadOf(c))
    ensures Build(c).header.magic as int + Build(c).header.command as int == 0xFFFF_FFFF
  {
    var a := ArgumentsOf(c);
    assert a.payload.Some? ==> a.payload.value[..a.dataLength] == PayloadOf(c);
  }

  // ---------- The calls as words and bytes ----------

  /** The little-endian words of each call's header: command, arguments, length, check, magic. */
  function WordsOf(c: Call): seq<u32>
    requires Sendable(c)
  {
    var n := |PayloadOf(c)|;
    var sum := Checksum.ByteSum(PayloadOf(c)) % 0x1_0000_0000;
    match c
    case Connect(version, maxData, _) => [0x4E58_4E43, version, maxData, n, sum, 0xB1A7_B1BC]
    case Stls(kind, version) => [0x534C_5453, kind, version, 0, 0, 0xACB3_ABAC]
    case Auth(kind, _, _) => [0x4854_5541, kind, 0, n, sum, 0xB7AB_AABE]
    case Open(local, _) => [0x4E45_504F, local, 0, n, sum, 0xB1BA_AFB0]
    case Ready(local, remote) => [0x5941_4B4F, local, remote, 0, 0, 0xA6BE_B4B0]
    case Write(local, remote, _) => [0x4554_5257, local, remote, n, sum, 0xBAAB_ADA8]
    case Close(local, remote) => [0x4553_4C43, local, remote, 0, 0, 0xBAAC_B3BC]
  }

  /** What each call sends: its words, then its payload. */
  lemma {:induction false} EncodeIsWords(c: Call)
    requires Sendable(c)
    ensures Encode(Build(c)) == EncodeWords(WordsOf(c)) + PayloadOf(c)
  {
    var h := Build(c).header;
    FramingFields(c);
    HeaderIsWords(h);
    WordsByFields(c);
  }

  lemma {:induction false} WordsByFields(c: Call)
    requires Sendable(c)
    ensures var h := Build(c).header;
            WordsOf(c) == [h.command, h.arg0, h.arg1, h.dataLength, h.dataCheck, h.magic]
  {
    FramingFields(c);
    assert PayloadOf(c) == [] ==> Checksum.ByteSum(PayloadOf(c)) == 0;
  }

  /** The name under which the protocol knows a call. */
  function NameOf(c: Call): (s: string)
    ensures |s| == 4
  {
    match c
    case Connect(_, _, _) => "CNXN"
    case Stls(_, _) => "STLS"
    case Auth(_, _, _) => "AUTH"
    case Open(_, _) => "OPEN"
    case Ready(_, _) => "OKAY"
    case Write(_, _, _) => "WRTE"
    case Close(_, _) => "CLSE"
  }

  lemma {:induction false} NameOfCommand(c: Call)
    requires Sendable(c)
    ensures var name := NameOf(c);
            Encode32(ArgumentsOf(c).command) == [name[0] as int, name[1] as int, name[2] as int, name[3] as int]
  {
    match c
    case Connect(_, _, _) => Encode32Of(0x43, 0x4E, 0x58, 0x4E);
    case Stls(_, _) => Encode32Of(0x53, 0x54, 0x4C, 0x53);
    case Auth(_, _, _) => Encode32Of(0x41, 0x55, 0x54, 0x48);
    case Open(_, _) => Encode32Of(0x4F, 0x50, 0x45, 0x4E);
    case Ready(_, _) => Encode32Of(0x4F, 0x4B, 0x41, 0x59);
    case Write(_, _, _) => Encode32Of(0x57, 0x52, 0x54, 0x45);
    case Close(_, _) => Encode32Of(0x43, 0x4C, 0x53, 0x45);
  }

  lemma {:induction false} ComplementBytes(n: u32, m: u32, i: nat)
    requires n as int + m as int == 0xFFFF_FFFF && i < 4
    ensures Encode32(n)[i] as int + Encode32(m)[i] as int == 0xFF
  {
    var b := Encode32(n);
    BytesOfWord(n);
    Encode32Of(0xFF - b[0], 0xFF - b[1], 0xFF - b[2], 0xFF - b[3]);
  }

  lemma {:induction false} FirstAndLast(h: Header, rest: seq<byte>, i: nat)
    requires i < 4
    ensures (EncodeHeader(h) + rest)[i] == Encode32(h.command)[i]
    ensures (EncodeHeader(h) + rest)[20 + i] == Encode32(h.magic)[i]
  {
  }

  /** Every header starts with the letters of the call's name, and ends with their complements. */
  lemma {:induction false} NameOnTheWire(c: Call, i: nat)
    requires Sendable(c) && i < 4
    ensures Encode(Build(c))[i] == NameOf(c)[i] as int
    ensures Encode(Build(c))[i] as int + Encode(Build(c))[20 + i] as int == 0xFF
  {
    var h := Build(c).header;
    FramingFields(c);
    FirstAndLast(h, PayloadOf(c), i);
    NameOfCommand(c);
    ComplementBytes(h.command, h.magic, i);
  }
}
