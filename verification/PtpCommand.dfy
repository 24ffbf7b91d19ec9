/** The command containers that the calls of lib/ptp/ptp.c build. */
module PtpCommand {
  import opened Prelude
  import opened Words
  import opened PtpContainer

  const MAX_PARAMS: nat := 5

  /** The calls that send one command container, with their arguments in order. */
  datatype Command =
    | GetDeviceInfo
    | OpenSession(session: u32)
    | CloseSession
    | GetStorageId
    | GetStorageInfo(storage: u32)
    | GetNumObjects(storage: u32, format: u32, handle: u32)
    | GetObjectHandles(storage: u32, format: u32, handle: u32)
    | GetObjectInfo(handle: u32)
    | GetObject(handle: u32)
    | GetThumb(handle: u32)
    | DeleteObject(handle: u32, format: u32)
    | FormatStore(storage: u32, fileSystem: u32)
    | ResetDevice
    | SelfTest(kind: u32)
    | SetObjectProtection(handle: u32, status: u32)
    | PowerDown
    | GetDevicePropDesc(property: u32)
    | GetDevicePropValue(property: u32)
    | SetDevicePropValue(property: u32)
    | ResetDevicePropValue(property: u32)
    | TerminateOpenCapture(capture: u32)
    | MoveObject(storage: u32, handle: u32, parent: u32)
    | CopyObject(storage: u32, handle: u32, parent: u32)
    | GetPartialObject(handle: u32, start: u32, maxBytes: u32)
    | InitiateOpenCapture(storage: u32, format: u32)

  /** The operation code that the header file assigns to each call. */
  function OwnCode(c: Command): u16 {
    match c
    case GetDeviceInfo => 0x1001
    case OpenSession(_) => 0x1002
    case CloseSession => 0x1003
    case GetStorageId => 0x1004
    case GetStorageInfo(_) => 0x1005
    case GetNumObjects(_, _, _) => 0x1006
    case GetObjectHandles(_, _, _) => 0x1007
    case GetObjectInfo(_) => 0x1008
    case GetObject(_) => 0x1009
    case GetThumb(_) => 0x100A
    case DeleteObject(_, _) => 0x100B
    case FormatStore(_, _) => 0x100F
    case ResetDevice => 0x1010
    case SelfTest(_) => 0x1011
    case SetObjectProtection(_, _) => 0x1012
    case PowerDown => 0x1013
    case GetDevicePropDesc(_) => 0x1014
    case GetDevicePropValue(_) => 0x1015
    case SetDevicePropValue(_) => 0x1016
    case ResetDevicePropValue(_) => 0x1017
    case TerminateOpenCapture(_) => 0x1018
    case MoveObject(_, _, _) => 0x1019
    case CopyObject(_, _, _) => 0x101A
    case GetPartialObject(_, _, _) => 0x101B
    case InitiateOpenCapture(_, _) => 0x101C
  }

  /** The code each call puts on the wire: formatting a store sends that of deletion. */
  function WireCode(c: Command): u16 {
    if c.FormatStore? then 0x100B else OwnCode(c)
  }

  /** Parameters in wire order; moving and copying put the object before the storage. */
  function Params(c: Command): (ps: seq<u32>)
    ensures |ps| <= MAX_PARAMS
  {
    match c
    case GetDeviceInfo | CloseSession | GetStorageId | ResetDevice | PowerDown => []
    case OpenSession(x) => [x]
    case GetStorageInfo(x) => [x]
    case GetObjectInfo(x) => [x]
    case GetObject(x) => [x]
    case GetThumb(x) => [x]
    case SelfTest(x) => [x]
    case GetDevicePropDesc(x) => [x]
    case GetDevicePropValue(x) => [x]
    case SetDevicePropValue(x) => [x]
    case ResetDevicePropValue(x) => [x]
    case TerminateOpenCapture(x) => [x]
    case GetNumObjects(storage, format, handle) => [storage, format, handle]
    case GetObjectHandles(storage, format, handle) => [storage, format, handle]
    case DeleteObject(handle, format) => [handle, format]
    case FormatStore(storage, fileSystem) => [storage, fileSystem]
    case SetObjectProtection(handle, status) => [handle, status]
    case MoveObject(storage, handle, parent) => [handle, storage, parent]
    case CopyObject(storage, handle, parent) => [handle, storage, parent]
    case GetPartialObject(handle, start, maxBytes) => [handle, start, maxBytes]
    case InitiateOpenCapture(storage, format) => [storage, format]
  }

  /** Opening a session has transaction number zero, whatever number is next. */
  function WireTransaction(c: Command, transaction: u32): u32 {
    if c.OpenSession? then 0 else transaction
  }

  /** PTP_REQUEST_LEN */
  function RequestLength(n: nat): (r: u32)
    requires n <= MAX_PARAMS
  {
    HEADER_LEN + n * PARAM_LEN
  }

  // ---------- Layout ----------

  function EncodeHeader(length: u32, kind: u16, code: u16, transaction: u32): (s: seq<byte>)
    ensures |s| == HEADER_LEN
  {
    Encode32(length) + Encode16(kind) + Encode16(code) + Encode32(transaction)
  }

  /** The bytes a call sends. */
  function Encode(c: Command, transaction: u32): (s: seq<byte>)
    ensures |s| == RequestLength(|Params(c)|)
  {
    EncodeHeader(RequestLength(|Params(c)|), COMMAND_BLOCK, WireCode(c), WireTransaction(c, transaction))
    + EncodeWords(Params(c))
  }

  /** A container structure, whose parameters are zero until they are filled in. */
  class ContainerStruct {
    var length: u32
    var kind: u16
    var code: u16
    var transaction: u32
    var params: seq<u32>

    ghost function Bytes(): seq<byte>
      reads this
    {
      EncodeHeader(length, kind, code, transaction) + EncodeWords(params)
    }

    constructor ()
      ensures params == seq(MAX_PARAMS, _ => 0)
    {
      length, kind, code, transaction := 0, 0, 0, 0;
      params := seq(MAX_PARAMS, _ => 0);
    }

    /** What every builder does before it hands the structure over; length bytes of it are sent. */
    method Fill(c: Command, next: u32)
      requires params == seq(MAX_PARAMS, _ => 0)
      modifies this
      ensures length <= |Bytes()| && Bytes()[..length] == Encode(c, next)
    {
      var ps := Params(c);
      length, kind, code := RequestLength(|ps|), COMMAND_BLOCK, WireCode(c);
      transaction := if c.OpenSession? then 0 else next;
      FilledPrefix(EncodeHeader(length, kind, code, transaction), ps, params[|ps|..]);
      params := ps + params[|ps|..];
    }
  }

  lemma {:induction false} FilledPrefix(header: seq<byte>, ps: seq<u32>, unused: seq<u32>)
    ensures |header| + 4 * |ps| <= |header + EncodeWords(ps + unused)|
    ensures (header + EncodeWords(ps + unused))[..|header| + 4 * |ps|] == header + EncodeWords(ps)
  {
    EncodeWordsConcat(ps, unused);
  }

  // ---------- Reading a container back ----------

  datatype Fields = Fields(kind: u16, code: u16, transaction: u32, params: seq<u32>)

  function DecodeWords(s: seq<byte>): seq<u32> {
    if |s| < 4 then [] else [Decode32(s, 0)] + DecodeWords(s[4..])
  }

  function Decode(s: seq<byte>): Option<Fields> {
    if |s| < HEADER_LEN || Decode32(s, 0) != |s| then None
    else Some(Fields(Decode16(s, 4), Decode16(s, 6), Decode32(s, 8), DecodeWords(s[HEADER_LEN..])))
  }

  lemma {:induction false} DecodeEncodeWords(ws: seq<u32>)
    ensures DecodeWords(EncodeWords(ws)) == ws
  {
    if ws != [] {
      DecodeEncode32(ws[0], [], EncodeWords(ws[1..]));
      assert [] + Encode32(ws[0]) + EncodeWords(ws[1..]) == EncodeWords(ws);
      assert EncodeWords(ws)[4..] == EncodeWords(ws[1..]);
      DecodeEncodeWords(ws[1..]);
    }
  }

  lemma {:induction false} HeaderFields(length: u32, kind: u16, code: u16, transaction: u32, rest: seq<byte>)
    ensures var s := EncodeHeader(length, kind, code, transaction) + rest;
            && Decode32(s, 0) == length && Decode16(s, 4) == kind
            && Decode16(s, 6) == code && Decode32(s, 8) == transaction
  {
    var s := EncodeHeader(length, kind, code, transaction) + rest;
    var a, b, c, d := Encode32(length), Encode16(kind), Encode16(code), Encode32(transaction);
    assert s == [] + a + (b + c + d + rest);
    DecodeEncode32(length, [], b + c + d + rest);
    assert s == a + b + (c + d + rest);
    DecodeEncode16(kind, a, c + d + rest);
    assert s == (a + b) + c + (d + rest);
    DecodeEncode16(code, a + b, d + rest);
    assert s == (a + b + c) + d + rest;
    DecodeEncode32(transaction, a + b + c, rest);
  }

  /**
    Every field of a sent container is read back: kind 1, the number it was given, which is
    zero only for opening a session, and the parameters. Its length field counts its bytes.
   */
  lemma {:induction false} DecodeEncode(c: Command, transaction: u32)
    ensures Decode(Encode(c, transaction))
         == Some(Fields(1, WireCode(c), if c.OpenSession? then 0 else transaction, Params(c)))
  {
    var ps := Params(c);
    HeaderFields(RequestLength(|ps|), COMMAND_BLOCK, WireCode(c), WireTransaction(c, transaction), EncodeWords(ps));
    assert Encode(c, transaction)[HEADER_LEN..] == EncodeWords(ps);
    DecodeEncodeWords(ps);
  }

  /** Every call but that of opening a session shows its transaction number on the wire. */
  lemma {:induction false} NumberShows(c: Command, t1: u32, t2: u32)
    ensures Encode(c, t1) == Encode(c, t2) <==> c.OpenSession? || t1 == t2
  {
    DecodeEncode(c, t1);
    DecodeEncode(c, t2);
  }

  /** A container cut short is not read as one. */
  lemma {:induction false} CutShort(c: Command, transaction: u32, n: nat)
    ensures n < |Encode(c, transaction)| ==> Decode(Encode(c, transaction)[..n]) == None
  {
    var s, ps := Encode(c, transaction), Params(c);
    HeaderFields(RequestLength(|ps|), COMMAND_BLOCK, WireCode(c), WireTransaction(c, transaction), EncodeWords(ps));
    if HEADER_LEN <= n < |s| {
      assert Decode32(s[..n], 0) == Decode32(s, 0) == |s|;
    }
  }

  // ---------- The calls as words ----------

  /** The little-endian words of each call: length, operation code and kind, number, parameters. */
  function WordsOf(c: Command, t: u32): seq<u32> {
    match c
    case GetDeviceInfo => [12, 0x1001_0001, t]
    case OpenSession(session) => [16, 0x1002_0001, 0, session]
    case CloseSession => [12, 0x1003_0001, t]
    case GetStorageId => [12, 0x1004_0001, t]
    case GetStorageInfo(storage) => [16, 0x1005_0001, t, storage]
    case GetNumObjects(storage, format, handle) => [24, 0x1006_0001, t, storage, format, handle]
    case GetObjectHandles(storage, format, handle) => [24, 0x1007_0001, t, storage, format, handle]
    case GetObjectInfo(handle) => [16, 0x1008_0001, t, handle]
    case GetObject(handle) => [16, 0x1009_0001, t, handle]
    case GetThumb(handle) => [16, 0x100A_0001, t, handle]
    case DeleteObject(handle, format) => [20, 0x100B_0001, t, handle, format]
    case FormatStore(storage, fileSystem) => [20, 0x100B_0001, t, storage, fileSystem]
    case ResetDevice => [12, 0x1010_0001, t]
    case SelfTest(kind) => [16, 0x1011_0001, t, kind]
    case SetObjectProtection(handle, status) => [20, 0x1012_0001, t, handle, status]
    case PowerDown => [12, 0x1013_0001, t]
    case GetDevicePropDesc(property) => [16, 0x1014_0001, t, property]
    case GetDevicePropValue(property) => [16, 0x1015_0001, t, property]
    case SetDevicePropValue(property) => [16, 0x1016_0001, t, property]
    case ResetDevicePropValue(property) => [16, 0x1017_0001, t, property]
    case TerminateOpenCapture(capture) => [16, 0x1018_0001, t, capture]
    case MoveObject(storage, handle, parent) => [24, 0x1019_0001, t, handle, storage, parent]
    case CopyObject(storage, handle, parent) => [24, 0x101A_0001, t, handle, storage, parent]
    case GetPartialObject(handle, start, maxBytes) => [24, 0x101B_0001, t, handle, start, maxBytes]
    case InitiateOpenCapture(storage, format) => [20, 0x101C_0001, t, storage, format]
  }

  /** What each call sends, word by word. */
  lemma {:induction false} EncodeIsWords(c: Command, t: u32)
    ensures Encode(c, t) == EncodeWords(WordsOf(c, t))
  {
    var ps, code, number := Params(c), WireCode(c), WireTransaction(c, t);
    HeaderIsWords(RequestLength(|ps|), COMMAND_BLOCK, code, number, ps);
    WordsByParts(c, t);
  }

  lemma {:induction false} HeaderIsWords(length: u32, kind: u16, code: u16, transaction: u32, ps: seq<u32>)
    ensures kind + 0x1_0000 * code < 0x1_0000_0000
    ensures EncodeHeader(length, kind, code, transaction) + EncodeWords(ps)
         == EncodeWords([length, kind + 0x1_0000 * code, transaction] + ps)
  {
    Encode32OfHalves(kind, code);
    var second: u32 := kind + 0x1_0000 * code;
    WordsOfThree(length, second, transaction);
    Associative(Encode32(length), Encode16(kind), Encode16(code));
    EncodeWordsConcat([length, second, transaction], ps);
  }

  lemma {:induction false} WordsByParts(c: Command, t: u32)
    ensures WordsOf(c, t)
         == [RequestLength(|Params(c)|), COMMAND_BLOCK as int + 0x1_0000 * WireCode(c) as int, WireTransaction(c, t)]
            + Params(c)
  {
  }

  // ---------- Which calls the wire tells apart ----------

  /** The call a device understands from a code and parameters. */
  function Understood(code: u16, ps: seq<u32>): Option<Command> {
    match |ps|
    case 0 => (
      match code
      case 0x1001 => Some(GetDeviceInfo)
      case 0x1003 => Some(CloseSession)
      case 0x1004 => Some(GetStorageId)
      case 0x1010 => Some(ResetDevice)
      case 0x1013 => Some(PowerDown)
      case _ => None)
    case 1 => (
      match code
      case 0x1002 => Some(OpenSession(ps[0]))
      case 0x1005 => Some(GetStorageInfo(ps[0]))
      case 0x1008 => Some(GetObjectInfo(ps[0]))
      case 0x1009 => Some(GetObject(ps[0]))
      case 0x100A => Some(GetThumb(ps[0]))
      case 0x1011 => Some(SelfTest(ps[0]))
      case 0x1014 => Some(GetDevicePropDesc(ps[0]))
      case 0x1015 => Some(GetDevicePropValue(ps[0]))
      case 0x1016 => Some(SetDevicePropValue(ps[0]))
      case 0x1017 => Some(ResetDevicePropValue(ps[0]))
      case 0x1018 => Some(TerminateOpenCapture(ps[0]))
      case _ => None)
    case 2 => (
      match code
      case 0x100B => Some(DeleteObject(ps[0], ps[1]))
      case 0x100F => Some(FormatStore(ps[0], ps[1]))
      case 0x1012 => Some(SetObjectProtection(ps[0], ps[1]))
      case 0x101C => Some(InitiateOpenCapture(ps[0], ps[1]))
      case _ => None)
    case 3 => (
      match code
      case 0x1006 => Some(GetNumObjects(ps[0], ps[1], ps[2]))
      case 0x1007 => Some(GetObjectHandles(ps[0], ps[1], ps[2]))
      case 0x1019 => Some(MoveObject(ps[1], ps[0], ps[2]))
      case 0x101A => Some(CopyObject(ps[1], ps[0], ps[2]))
      case 0x101B => Some(GetPartialObject(ps[0], ps[1], ps[2]))
      case _ => None)
    case _ => None
  }

  /** What a call amounts to once sent. */
  function AsSent(c: Command): Command {
    match c
    case FormatStore(storage, fileSystem) => DeleteObject(storage, fileSystem)
    case _ => c
  }

  lemma {:induction false} DeviceUnderstands(c: Command)
    ensures Understood(WireCode(c), Params(c)) == Some(AsSent(c))
  {
  }

  /** A device takes a call for what it is, except that formatting reads as deletion. */
  lemma {:induction false} UnderstoodIff(c: Command, transaction: u32)
    ensures Decode(Encode(c, transaction)).Some?
    ensures var f := Decode(Encode(c, transaction)).value;
            Understood(f.code, f.params) == Some(c) <==> !c.FormatStore?
  {
    DecodeEncode(c, transaction);
    DeviceUnderstands(c);
  }

  /**
    Two calls send the same bytes exactly when they amount to the same call and have the
    same number, which for opening a session does not matter.
   */
  lemma {:induction false} SameBytesIff(c1: Command, t1: u32, c2: Command, t2: u32)
    ensures Encode(c1, t1) == Encode(c2, t2)
       <==> AsSent(c1) == AsSent(c2) && (c1.OpenSession? || t1 == t2)
  {
    if Encode(c1, t1) == Encode(c2, t2) {
      DecodeEncode(c1, t1);
      DecodeEncode(c2, t2);
      DeviceUnderstands(c1);
      DeviceUnderstands(c2);
    } else if AsSent(c1) == AsSent(c2) {
      SameLayout(c1);
      SameLayout(c2);
    }
  }

  lemma {:induction false} SameLayout(c: Command)
    ensures WireCode(AsSent(c)) == WireCode(c) && Params(AsSent(c)) == Params(c)
    ensures AsSent(c).OpenSession? <==> c.OpenSession?
  {
  }
}
