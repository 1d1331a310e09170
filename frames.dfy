/** The two Modbus-RTU frames SDM::readVal deals with: the Read Input
    Registers request it sends (function code 0x04, section 6.4 of the MODBUS
    Application Protocol Specification V1.1b3) and the reply it validates,
    with the order in which a reply is classified. */
module Frames {
  import opened Crc

  /** FRAMESIZE: the length of a reply; a request is one byte shorter. */
  const FrameSize: nat := 9
  /** SDM_B_02: Read Input Registers. */
  const FuncReadInput: bv8 := 0x04
  /** SDM_B_05, SDM_B_06: the register count 0x0002, high byte first. */
  const CountHi: bv8 := 0x00
  const CountLo: bv8 := 0x02
  /** SDM_REPLY_BYTE_COUNT: two registers hold four payload bytes. */
  const ReplyByteCount: bv8 := 0x04

  type uint16 = x: int | 0 <= x < 0x1_0000

  function HighByte(w: bv16): bv8 {
    (w >> 8) as bv8
  }

  function LowByte(w: bv16): bv8 {
    (w & 0xFF) as bv8
  }

  /** The 16-bit value `(hi << 8) | lo`. */
  function Word(hi: bv8, lo: bv8): bv16 {
    ((hi as bv16) << 8) | (lo as bv16)
  }

  /** Splitting a word into its two bytes and joining them again are inverse. */
  lemma WordRoundTrip(w: bv16, hi: bv8, lo: bv8)
    ensures Word(HighByte(w), LowByte(w)) == w
    ensures HighByte(Word(hi, lo)) == hi && LowByte(Word(hi, lo)) == lo
  {
  }

  /** The 32-bit pattern whose most significant byte is `b0`. */
  function BigEndian32(b0: bv8, b1: bv8, b2: bv8, b3: bv8): bv32 {
    ((b0 as bv32) << 24) | ((b1 as bv32) << 16) | ((b2 as bv32) << 8) | (b3 as bv32)
  }

  /** The four bytes of `v`, most significant first. */
  function Split32(v: bv32): (r: seq<bv8>)
    ensures |r| == 4
  {
    [(v >> 24) as bv8, ((v >> 16) & 0xFF) as bv8, ((v >> 8) & 0xFF) as bv8, (v & 0xFF) as bv8]
  }

  lemma Split32RoundTrip(v: bv32)
    ensures BigEndian32(Split32(v)[0], Split32(v)[1], Split32(v)[2], Split32(v)[3]) == v
  {
  }

  lemma BigEndian32RoundTrip(b0: bv8, b1: bv8, b2: bv8, b3: bv8)
    ensures Split32(BigEndian32(b0, b1, b2, b3)) == [b0, b1, b2, b3]
  {
  }

  /** CRC trailer check: the two bytes after the first `n` hold the CRC of
      those `n` bytes, low byte first. */
  predicate CrcTrailerOk(f: seq<bv8>, n: nat)
    requires n + 2 <= |f|
  {
    Crc16(f[..n]) == Word(f[n + 1], f[n])
  }

  // ---------------------------------------------------------------- request

  /** The eight bytes readVal sends to ask slave `node` for the two input
      registers starting at `reg`. */
  function RequestFrame(node: bv8, reg: bv16): (f: seq<bv8>)
    ensures |f| == FrameSize - 1
  {
    var head := [node, FuncReadInput, HighByte(reg), LowByte(reg), CountHi, CountLo];
    var crc := Crc16(head);
    head + [LowByte(crc), HighByte(crc)]
  }

  /** The layout of a request: address, function code, register big-endian,
      the fixed register count, then the CRC of the first six bytes stored
      low byte first. */
  lemma RequestLayout(node: bv8, reg: bv16)
    ensures var f := RequestFrame(node, reg);
      && f[0] == node && f[1] == FuncReadInput
      && Word(f[2], f[3]) == reg
      && f[4] == CountHi && f[5] == CountLo
      && f[6] == LowByte(Crc16(f[..6])) && f[7] == HighByte(Crc16(f[..6]))
      && CrcTrailerOk(f, 6)
  {
    var f := RequestFrame(node, reg);
    assert f[..6] == [node, FuncReadInput, HighByte(reg), LowByte(reg), CountHi, CountLo];
    WordRoundTrip(reg, 0, 0);
    WordRoundTrip(Crc16(f[..6]), 0, 0);
  }

  datatype Request = Request(node: bv8, reg: bv16)

  datatype Option<T> = None | Some(value: T)

  /** How a slave reads a request for two input registers: the reference
      the request builder is checked against. */
  function ParseRequest(f: seq<bv8>): (r: Option<Request>)
    ensures r.Some? ==> |f| == FrameSize - 1 && CrcTrailerOk(f, 6)
  {
    if |f| == FrameSize - 1 && f[1] == FuncReadInput && f[4] == CountHi && f[5] == CountLo
       && CrcTrailerOk(f, 6)
    then Some(Request(f[0], Word(f[2], f[3])))
    else None
  }

  /** A built request is read back as the address and register it was built from. */
  lemma RequestRoundTrip(node: bv8, reg: bv16)
    ensures ParseRequest(RequestFrame(node, reg)) == Some(Request(node, reg))
  {
    RequestLayout(node, reg);
  }

  /** Conversely, every frame a slave reads as a request is exactly the
      request built for that address and register. */
  lemma ParseRequestOnlyBuilt(f: seq<bv8>, node: bv8, reg: bv16)
    requires ParseRequest(f) == Some(Request(node, reg))
    ensures f == RequestFrame(node, reg)
  {
    var g := RequestFrame(node, reg);
    RequestLayout(node, reg);
    WordRoundTrip(reg, f[2], f[3]);
    assert f[..6] == g[..6];
    WordRoundTrip(Crc16(f[..6]), f[7], f[6]);
  }

  /** Any single corrupted byte of a request makes it unreadable. */
  lemma RequestCorruptionDetected(node: bv8, reg: bv16, i: nat, b: bv8)
    requires i < FrameSize - 1 && b != RequestFrame(node, reg)[i]
    ensures ParseRequest(RequestFrame(node, reg)[i := b]) == None
  {
    var f := RequestFrame(node, reg);
    var g := f[i := b];
    RequestLayout(node, reg);
    if i < 6 {
      assert g[..6] == f[..6][i := b];
      CrcDetectsByteChange(f[..6], i, b);
      assert g[6] == f[6] && g[7] == f[7];
    } else {
      assert g[..6] == f[..6];
      WordRoundTrip(Crc16(f[..6]), g[7], g[6]);
    }
  }

  /** The request for register 0x0000 of slave 1. */
  lemma RequestExample()
    ensures RequestFrame(1, 0) == [0x01, 0x04, 0x00, 0x00, 0x00, 0x02, 0x71, 0xCB]
  {
    var t: seq<bv8> := [0x01, 0x04, 0x00, 0x00, 0x00, 0x02];
    calc {
      Crc16(t);
      CrcFold(0x807E, t[1..]);
      { assert t[1..][1..] == t[2..]; }
      CrcFold(0xE301, t[2..]);
      { assert t[2..][1..] == t[3..]; }
      CrcFold(0xC022, t[3..]);
      { assert t[3..][1..] == t[4..]; }
      CrcFold(0x1940, t[4..]);
      { assert t[4..][1..] == t[5..]; }
      CrcFold(0xF018, t[5..]);
      { assert t[5..][1..] == []; }
      0xCB71;
    }
  }

  // ------------------------------------------------------------------ reply

  /** SDM_ERR_*: the error codes readVal records. */
  datatype ErrorCode = NoError | CrcError | WrongBytes | NotEnoughBytes | Timeout

  /** The numeric code getErrCode reports (the "err debug (n)" numbering). */
  function Code(e: ErrorCode): (c: uint16)
    ensures c == 0 <==> e == NoError
  {
    match e
    case NoError => 0
    case CrcError => 1
    case WrongBytes => 2
    case NotEnoughBytes => 3
    case Timeout => 4
  }

  /** What one exchange yields: the 32-bit pattern of the float, or the
      reason it failed. */
  datatype Outcome = Ok(bits: bv32) | Err(code: ErrorCode)

  /** The three header bytes readVal insists on. */
  predicate HeaderOk(f: seq<bv8>, node: bv8)
    requires 3 <= |f|
  {
    f[0] == node && f[1] == FuncReadInput && f[2] == ReplyByteCount
  }

  /** The 32-bit pattern of a reply's payload, `f[3]` most significant. */
  function Payload(f: seq<bv8>): bv32
    requires 7 <= |f|
  {
    BigEndian32(f[3], f[4], f[5], f[6])
  }

  /** readVal's classification of what is waiting in the receive queue `rx`
      once the wait loop has ended (`timedOut` when it ended by the clock). */
  function Classify(timedOut: bool, rx: seq<bv8>, node: bv8): (r: Outcome)
    ensures r.Err? ==> r.code != NoError
  {
    if timedOut then Err(Timeout)
    else if |rx| < FrameSize then Err(NotEnoughBytes)
    else if !HeaderOk(rx, node) then Err(WrongBytes)
    else if !CrcTrailerOk(rx, FrameSize - 2) then Err(CrcError)
    else Ok(Payload(rx))
  }

  /** Only the first FrameSize bytes of the queue take part in the decision. */
  lemma ClassifyOneFrame(timedOut: bool, rx: seq<bv8>, node: bv8)
    requires FrameSize <= |rx|
    ensures Classify(timedOut, rx, node) == Classify(timedOut, rx[..FrameSize], node)
  {
    assert rx[..FrameSize - 2] == rx[..FrameSize][..FrameSize - 2];
  }

  /** A reply is accepted exactly when the wait did not time out, a whole
      frame is there, the header matches and the CRC matches; the value is
      then the payload read big-endian. */
  lemma ClassifyOkIff(timedOut: bool, rx: seq<bv8>, node: bv8)
    ensures Classify(timedOut, rx, node).Ok? <==>
      !timedOut && FrameSize <= |rx| && HeaderOk(rx, node) && CrcTrailerOk(rx, FrameSize - 2)
    ensures Classify(timedOut, rx, node).Ok? ==>
      Classify(timedOut, rx, node).bits == BigEndian32(rx[3], rx[4], rx[5], rx[6])
  {
  }

  /** A header mismatch is reported before, and whatever, the CRC says. */
  lemma HeaderMismatchIsWrongBytes(rx: seq<bv8>, node: bv8, crcLo: bv8, crcHi: bv8)
    requires FrameSize <= |rx|
    requires rx[0] != node || rx[1] != FuncReadInput || rx[2] != ReplyByteCount
    ensures Classify(false, rx[7 := crcLo][8 := crcHi], node) == Err(WrongBytes)
  {
  }

  /** With the header right, a CRC trailer that does not match is a CRC error. */
  lemma CrcMismatchIsCrcError(rx: seq<bv8>, node: bv8)
    requires FrameSize <= |rx| && HeaderOk(rx, node) && !CrcTrailerOk(rx, FrameSize - 2)
    ensures Classify(false, rx, node) == Err(CrcError)
  {
  }

  /** The reply a slave sends with the value `v` of the two registers. */
  function ReplyFrame(node: bv8, v: bv32): (f: seq<bv8>)
    ensures |f| == FrameSize
  {
    var head := [node, FuncReadInput, ReplyByteCount] + Split32(v);
    var crc := Crc16(head);
    head + [LowByte(crc), HighByte(crc)]
  }

  /** A well-formed reply from the addressed slave is accepted, and its value
      is the one the slave encoded, whatever follows it in the queue. */
  lemma ReplyRoundTrip(node: bv8, v: bv32, rest: seq<bv8>)
    ensures Classify(false, ReplyFrame(node, v) + rest, node) == Ok(v)
  {
    var f := ReplyFrame(node, v);
    ClassifyOneFrame(false, f + rest, node);
    assert (f + rest)[..FrameSize] == f;
    assert f[..7] == [node, FuncReadInput, ReplyByteCount] + Split32(v);
    WordRoundTrip(Crc16(f[..7]), 0, 0);
    Split32RoundTrip(v);
  }

  /** Conversely, an accepted reply is exactly the frame the slave builds
      for the value it was accepted with. */
  lemma AcceptedIsReplyFrame(rx: seq<bv8>, node: bv8, v: bv32)
    requires Classify(false, rx, node) == Ok(v)
    ensures rx[..FrameSize] == ReplyFrame(node, v)
  {
    var f := ReplyFrame(node, v);
    BigEndian32RoundTrip(rx[3], rx[4], rx[5], rx[6]);
    assert f[..7] == [node, FuncReadInput, ReplyByteCount] + Split32(v);
    assert rx[..7] == f[..7];
    WordRoundTrip(Crc16(rx[..7]), rx[8], rx[7]);
  }

  /** Any single corrupted byte of a well-formed reply is rejected: as a
      header mismatch in the first three bytes, as a CRC error elsewhere. */
  lemma ReplyCorruptionDetected(node: bv8, v: bv32, i: nat, b: bv8)
    requires i < FrameSize && b != ReplyFrame(node, v)[i]
    ensures Classify(false, ReplyFrame(node, v)[i := b], node)
      == if i < 3 then Err(WrongBytes) else Err(CrcError)
  {
    var f := ReplyFrame(node, v);
    var g := f[i := b];
    ReplyRoundTrip(node, v, []);
    assert f + [] == f;
    if 3 <= i < 7 {
      assert g[..7] == f[..7][i := b];
      CrcDetectsByteChange(f[..7], i, b);
      assert g[7] == f[7] && g[8] == f[8];
    } else if 7 <= i {
      assert g[..7] == f[..7];
      WordRoundTrip(Crc16(f[..7]), g[8], g[7]);
    }
  }

  /** The CRC of the example reply below. */
  lemma ReplyExampleCrc()
    ensures Crc16([0x01, 0x04, 0x04, 0x43, 0x7A, 0x00, 0x00]) == 0xD9CF
  {
    var t: seq<bv8> := [0x01, 0x04, 0x04, 0x43, 0x7A, 0x00, 0x00];
    calc {
      Crc16(t);
      CrcFold(0x807E, t[1..]);
      { assert t[1..][1..] == t[2..]; }
      CrcFold(0xE301, t[2..]);
      { assert t[2..][1..] == t[3..]; }
      CrcFold(0x0323, t[3..]);
      { assert t[3..][1..] == t[4..]; }
      CrcFold(0x2803, t[4..]);
      { assert t[4..][1..] == t[5..]; }
      CrcFold(0xE2E9, t[5..]);
      { assert t[5..][1..] == t[6..]; }
      CrcFold(0x8E23, t[6..]);
      { assert t[6..][1..] == []; }
      0xD9CF;
    }
  }

  /** An example reply: slave 1
      returning 0x437A0000 (250.0), and its acceptance. */
  lemma ReplyExample()
    ensures ReplyFrame(1, 0x437A0000) == [0x01, 0x04, 0x04, 0x43, 0x7A, 0x00, 0x00, 0xCF, 0xD9]
    ensures Classify(false, [0x01, 0x04, 0x04, 0x43, 0x7A, 0x00, 0x00, 0xCF, 0xD9], 1) == Ok(0x437A0000)
  {
    assert Split32(0x437A0000) == [0x43, 0x7A, 0x00, 0x00];
    ReplyExampleCrc();
    assert [0x01, 0x04, 0x04] + Split32(0x437A0000) == [0x01, 0x04, 0x04, 0x43, 0x7A, 0x00, 0x00];
    ReplyRoundTrip(1, 0x437A0000, []);
  }
}
