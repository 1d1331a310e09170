/** The SDM reader object: one request/response exchange with an energy
    meter (readVal), the receive-queue drain (flush), the RS-485 direction
    pin (dereSet) and the statistics accessors.

    The serial port is abstracted as the receive queue `rx` (its length is
    what `available()` reports, `read()` takes its first byte). The clock and
    the bytes the meter sends are inputs of readVal: `arrivals[k]` is what
    arrives while the wait loop yields for the k-th time, and `deadline` is
    the number of polls after which `resptime < millis()` holds. What the
    reader does on the bus is recorded in the ghost event trace `trace`. */
module Meter {
  import opened Crc
  import opened Frames
  import opened Stats

  /** The platform's "no pin configured" value. */
  const NotAPin: int := -1

  /** flush discards at most this many stale bytes. */
  const FlushLimit: nat := 10

  /** What the reader does on the bus, in order. */
  datatype BusEvent =
    | DirectionPin(high: bool)   // digitalWrite of the DE/RE pin
    | Send(bytes: seq<bv8>)      // sdmSer.write of a request
    | AwaitReply                 // the reply wait begins

  /** The float readVal returns: NAN on every error, otherwise the 32-bit
      pattern assembled from the payload. */
  datatype Reading = Nan | Bits(pattern: bv32)

  function Min(a: nat, b: nat): nat {
    if a <= b then a else b
  }

  /** The queue left by flush: its first min(available, 10) bytes are gone. */
  function Drained(rx: seq<bv8>): (r: seq<bv8>)
    ensures |rx| - |r| == Min(|rx|, FlushLimit)
    ensures r == rx[|rx| - |r|..]
  {
    if |rx| <= FlushLimit then [] else rx[FlushLimit..]
  }

  /** The bytes that arrive during the k-th yield. */
  function ArrivedAt(arrivals: seq<seq<bv8>>, k: nat): seq<bv8> {
    if k < |arrivals| then arrivals[k] else []
  }

  datatype WaitResult = WaitResult(rx: seq<bv8>, timedOut: bool)

  /** The reply wait of readVal, from poll number `polls` on: stop when a
      whole frame is available, time out once the deadline has passed,
      otherwise yield (and receive) and poll again. */
  function Wait(rx: seq<bv8>, arrivals: seq<seq<bv8>>, polls: nat, deadline: nat): (r: WaitResult)
    ensures rx <= r.rx
    ensures !r.timedOut ==> FrameSize <= |r.rx|
    decreases deadline - polls
  {
    if FrameSize <= |rx| then WaitResult(rx, false)
    else if deadline <= polls then WaitResult(rx, true)
    else Wait(rx + ArrivedAt(arrivals, polls), arrivals, polls + 1, deadline)
  }

  /** The wait ends either with a whole frame available or by timing out
      with less than a frame, and it never loses a byte already received. */
  lemma {:induction false} WaitEnds(rx: seq<bv8>, arrivals: seq<seq<bv8>>, polls: nat, deadline: nat)
    ensures var w := Wait(rx, arrivals, polls, deadline);
      && (w.timedOut <==> |w.rx| < FrameSize)
      && rx <= w.rx
    decreases deadline - polls
  {
    if |rx| < FrameSize && polls < deadline {
      WaitEnds(rx + ArrivedAt(arrivals, polls), arrivals, polls + 1, deadline);
    }
  }

  /** The bytes received during yields `first` to `last - 1`, in order. */
  function Received(arrivals: seq<seq<bv8>>, first: nat, last: nat): seq<bv8>
    requires first <= last
    decreases last - first
  {
    if first == last then [] else ArrivedAt(arrivals, first) + Received(arrivals, first + 1, last)
  }

  /** What arrives during fewer yields is a prefix of what arrives during more. */
  lemma {:induction false} ReceivedPrefix(arrivals: seq<seq<bv8>>, first: nat, k: nat, last: nat)
    requires first <= k <= last
    ensures Received(arrivals, first, k) <= Received(arrivals, first, last)
    decreases k - first
  {
    if first < k {
      ReceivedPrefix(arrivals, first + 1, k, last);
    }
  }

  /** The poll at which the wait starting at poll `polls` ends. */
  function WaitStop(rx: seq<bv8>, arrivals: seq<seq<bv8>>, polls: nat, deadline: nat): nat
    decreases deadline - polls
  {
    if FrameSize <= |rx| || deadline <= polls then polls
    else WaitStop(rx + ArrivedAt(arrivals, polls), arrivals, polls + 1, deadline)
  }

  /** The wait collects every byte that arrives: when it ends at poll `k`,
      the queue holds the old bytes followed by everything received during
      the yields before `k`, in order. It stops at the first poll that sees a
      whole frame, and it times out only once every yield up to the deadline
      has been taken. */
  lemma {:induction false} WaitCollects(rx: seq<bv8>, arrivals: seq<seq<bv8>>, polls: nat, deadline: nat)
    requires polls <= deadline
    ensures var w, k := Wait(rx, arrivals, polls, deadline), WaitStop(rx, arrivals, polls, deadline);
      && polls <= k <= deadline
      && w.rx == rx + Received(arrivals, polls, k)
      && (k > polls ==> |rx + Received(arrivals, polls, k - 1)| < FrameSize)
      && (w.timedOut ==> k == deadline)
    decreases deadline - polls
  {
    if FrameSize <= |rx| || deadline <= polls {
      assert rx + Received(arrivals, polls, polls) == rx;
    } else {
      var rx' := rx + ArrivedAt(arrivals, polls);
      var k := WaitStop(rx', arrivals, polls + 1, deadline);
      WaitCollects(rx', arrivals, polls + 1, deadline);
      assert Received(arrivals, polls, k) == ArrivedAt(arrivals, polls) + Received(arrivals, polls + 1, k);
      assert rx' + Received(arrivals, polls + 1, k) == rx + Received(arrivals, polls, k);
      if k > polls + 1 {
        assert Received(arrivals, polls, k - 1) == ArrivedAt(arrivals, polls) + Received(arrivals, polls + 1, k - 1);
        assert rx' + Received(arrivals, polls + 1, k - 1) == rx + Received(arrivals, polls, k - 1);
      } else {
        assert rx + Received(arrivals, polls, k - 1) == rx;
      }
    }
  }

  /** If nothing arrives, an empty queue times out. */
  lemma {:induction false} WaitSilence(arrivals: seq<seq<bv8>>, polls: nat, deadline: nat)
    requires forall k :: 0 <= k < |arrivals| ==> arrivals[k] == []
    ensures Wait([], arrivals, polls, deadline) == WaitResult([], true)
    decreases deadline - polls
  {
    if polls < deadline {
      assert ArrivedAt(arrivals, polls) == [];
      WaitSilence(arrivals, polls + 1, deadline);
    }
  }

  /** The bus activity of one readVal: the direction pin (if there is one)
      is driven HIGH around the write of the request and LOW again before
      the wait for the reply begins. */
  function ExchangeEvents(pinPresent: bool, request: seq<bv8>): seq<BusEvent> {
    SendEvents(pinPresent, request) + [AwaitReply]
  }

  /** The transmit phase: pin HIGH, write, pin LOW. */
  function SendEvents(pinPresent: bool, request: seq<bv8>): seq<BusEvent> {
    if pinPresent then [DirectionPin(true), Send(request), DirectionPin(false)]
    else [Send(request)]
  }

  /** The direction level after `events`, starting from `level`. */
  function LevelAfter(level: bool, events: seq<BusEvent>): bool
    decreases |events|
  {
    if events == [] then level
    else LevelAfter(if events[0].DirectionPin? then events[0].high else level, events[1..])
  }

  /** With a pin, the request goes out while the pin is HIGH (transmit) and the
      wait starts with the pin LOW (receive), whatever its earlier level;
      without a pin, readVal never touches it. */
  lemma ExchangeDirection(pinPresent: bool, request: seq<bv8>, level: bool)
    ensures var ev := ExchangeEvents(pinPresent, request);
      && |ev| == (if pinPresent then 4 else 2)
      && (pinPresent ==> ev[1] == Send(request) && LevelAfter(level, ev[..1]))
      && (pinPresent ==> ev[3] == AwaitReply && !LevelAfter(level, ev[..3]))
      && (!pinPresent ==> ev == [Send(request), AwaitReply])
  {
    var ev := ExchangeEvents(pinPresent, request);
    if pinPresent {
      assert ev[..1] == [DirectionPin(true)];
      assert LevelAfter(level, ev[..1]) == LevelAfter(true, []);
      assert ev[..3] == [DirectionPin(true), Send(request), DirectionPin(false)];
      assert LevelAfter(level, ev[..3]) == LevelAfter(true, [Send(request), DirectionPin(false)]);
      assert LevelAfter(true, [Send(request), DirectionPin(false)]) == LevelAfter(true, [DirectionPin(false)]);
      assert LevelAfter(true, [DirectionPin(false)]) == LevelAfter(false, []);
    }
  }

  datatype Exchange = Exchange(outcome: Outcome, rx: seq<bv8>)

  /** One readVal on the queue `rx0`, asking slave `node`: drain, wait,
      classify, consume the frame if one was read, drain again. */
  function ExchangeSpec(rx0: seq<bv8>, node: bv8, arrivals: seq<seq<bv8>>, deadline: nat): (r: Exchange)
    ensures r.outcome == Err(Timeout) <==> |Wait(Drained(rx0), arrivals, 0, deadline).rx| < FrameSize
  {
    WaitEnds(Drained(rx0), arrivals, 0, deadline);
    var w := Wait(Drained(rx0), arrivals, 0, deadline);
    var left := if !w.timedOut && FrameSize <= |w.rx| then w.rx[FrameSize..] else w.rx;
    Exchange(Classify(w.timedOut, w.rx, node), Drained(left))
  }

  /** The "not enough bytes" re-check after the wait can never fire: the
      wait only ends without timing out once a whole frame is available. */
  lemma ExchangeNeverShort(rx0: seq<bv8>, node: bv8, arrivals: seq<seq<bv8>>, deadline: nat)
    ensures ExchangeSpec(rx0, node, arrivals, deadline).outcome != Err(NotEnoughBytes)
  {
    WaitEnds(Drained(rx0), arrivals, 0, deadline);
  }

  /** End to end: with no stale bytes beyond what flush discards and a
      whole frame arriving during the first yield, that frame is what
      readVal classifies, and only what follows it is left for the final
      drain. */
  lemma ExchangeReadsFirstArrival(rx0: seq<bv8>, node: bv8, arrivals: seq<seq<bv8>>, deadline: nat)
    requires |rx0| <= FlushLimit && 0 < deadline
    requires 0 < |arrivals| && FrameSize <= |arrivals[0]|
    ensures ExchangeSpec(rx0, node, arrivals, deadline)
      == Exchange(Classify(false, arrivals[0][..FrameSize], node), Drained(arrivals[0][FrameSize..]))
  {
    assert Drained(rx0) == [];
    assert [] + arrivals[0] == arrivals[0];
    assert Wait([], arrivals, 0, deadline) == Wait(arrivals[0], arrivals, 1, deadline);
    ClassifyOneFrame(false, arrivals[0], node);
  }

  /** In particular a well-formed reply is returned. */
  lemma ExchangeDeliversReply(rx0: seq<bv8>, node: bv8, v: bv32, rest: seq<bv8>,
                              arrivals: seq<seq<bv8>>, deadline: nat)
    requires |rx0| <= FlushLimit && 0 < deadline
    requires 0 < |arrivals| && arrivals[0] == ReplyFrame(node, v) + rest
    ensures ExchangeSpec(rx0, node, arrivals, deadline).outcome == Ok(v)
  {
    ExchangeReadsFirstArrival(rx0, node, arrivals, deadline);
    assert arrivals[0][..FrameSize] == ReplyFrame(node, v);
    ReplyRoundTrip(node, v, []);
    assert ReplyFrame(node, v) + [] == ReplyFrame(node, v);
  }

  /** End to end, for a reply that trickles in over any number of yields:
      with no stale bytes beyond what flush discards, if the bytes received
      before the deadline start with a well-formed reply, that reply's value
      is returned. */
  lemma ExchangeDeliversSplitReply(rx0: seq<bv8>, node: bv8, v: bv32, rest: seq<bv8>,
                                   arrivals: seq<seq<bv8>>, deadline: nat)
    requires |rx0| <= FlushLimit
    requires Received(arrivals, 0, deadline) == ReplyFrame(node, v) + rest
    ensures ExchangeSpec(rx0, node, arrivals, deadline).outcome == Ok(v)
  {
    assert Drained(rx0) == [];
    var w := Wait([], arrivals, 0, deadline);
    WaitEnds([], arrivals, 0, deadline);
    WaitCollects([], arrivals, 0, deadline);
    var k := WaitStop([], arrivals, 0, deadline);
    assert w.rx == Received(arrivals, 0, k);
    ReceivedPrefix(arrivals, 0, k, deadline);
    assert w.rx <= ReplyFrame(node, v) + rest;
    assert !w.timedOut;
    assert w.rx[..FrameSize] == ReplyFrame(node, v);
    ClassifyOneFrame(false, w.rx, node);
    ReplyRoundTrip(node, v, []);
    assert ReplyFrame(node, v) + [] == ReplyFrame(node, v);
  }

  /** The bound on the drain matters: when more than ten stale bytes are
      queued, the first one flush leaves is read as the reply's address, so
      a well-formed reply behind it is rejected as wrong bytes whenever that
      byte is not the slave's address. */
  lemma ExchangeStaleBytesRejectReply(rx0: seq<bv8>, node: bv8, v: bv32, rest: seq<bv8>,
                                      arrivals: seq<seq<bv8>>, deadline: nat)
    requires FlushLimit < |rx0| && rx0[FlushLimit] != node
    requires Received(arrivals, 0, deadline) == ReplyFrame(node, v) + rest
    ensures ExchangeSpec(rx0, node, arrivals, deadline).outcome == Err(WrongBytes)
  {
    var d := Drained(rx0);
    assert d[0] == rx0[FlushLimit];
    var w := Wait(d, arrivals, 0, deadline);
    WaitEnds(d, arrivals, 0, deadline);
    WaitCollects(d, arrivals, 0, deadline);
    var k := WaitStop(d, arrivals, 0, deadline);
    assert !w.timedOut;
    assert w.rx[0] == rx0[FlushLimit];
  }

  /** End to end: when the meter stays silent, the read times out. */
  lemma ExchangeTimesOut(rx0: seq<bv8>, node: bv8, arrivals: seq<seq<bv8>>, deadline: nat)
    requires |rx0| <= FlushLimit
    requires forall k :: 0 <= k < |arrivals| ==> arrivals[k] == []
    ensures ExchangeSpec(rx0, node, arrivals, deadline) == Exchange(Err(Timeout), [])
  {
    assert Drained(rx0) == [];
    WaitSilence(arrivals, 0, deadline);
  }

  /** The first step of readVal (SDM.cpp lines 69-79): fill the working buffer with the request,
      the CRC of its first six bytes stored low byte first. */
  method BuildRequest(frame: array<bv8>, node: bv8, reg: bv16)
    requires frame.Length == FrameSize
    modifies frame
    ensures frame[..FrameSize - 1] == RequestFrame(node, reg)
  {
    frame[0], frame[1], frame[2], frame[3], frame[4] := node, FuncReadInput, 0, 0, CountHi;
    frame[5], frame[6], frame[7], frame[8] := CountLo, 0, 0, 0;
    frame[2] := HighByte(reg);
    frame[3] := LowByte(reg);
    ghost var head := frame[..FrameSize - 3];
    assert head == [node, FuncReadInput, HighByte(reg), LowByte(reg), CountHi, CountLo];
    var temp := CalculateCrc(frame, FrameSize - 3);
    frame[6] := LowByte(temp);
    frame[7] := HighByte(temp);
    assert frame[..FrameSize - 1] == head + [LowByte(temp), HighByte(temp)];
  }

  /** The reply check of readVal (SDM.cpp lines 115-128): check the header bytes, then the CRC, of a
      reply read into `frame`, and assemble the payload big-endian. The
      result is the classification of the frame. */
  method CheckReply(frame: array<bv8>, node: bv8) returns (readErr: ErrorCode, res: Reading)
    requires frame.Length == FrameSize
    ensures readErr == NoError ==> res.Bits? && Classify(false, frame[..], node) == Ok(res.pattern)
    ensures readErr != NoError ==> Classify(false, frame[..], node) == Err(readErr) && res == Nan
  {
    res := Nan;
    readErr := NoError;
    if frame[0] == node && frame[1] == FuncReadInput && frame[2] == ReplyByteCount {
      var crc := CalculateCrc(frame, FrameSize - 2);
      if crc == Word(frame[8], frame[7]) {
        res := Bits(BigEndian32(frame[3], frame[4], frame[5], frame[6]));
      } else {
        readErr := CrcError;
      }
    } else {
      readErr := WrongBytes;
    }
  }

  class Sdm {
    /** _dere_pin: the DE/RE pin of the RS-485 transceiver, or NotAPin. */
    const derePin: int
    /** The serial port's receive queue. */
    var rx: seq<bv8>
    var errCode: ErrorCode
    var errCount: uint16
    var succCount: uint16
    ghost var trace: seq<BusEvent>

    function Snapshot(): Statistics
      reads this
    {
      Statistics(errCode, errCount, succCount)
    }

    constructor (derePin: int)
      ensures this.derePin == derePin && Snapshot() == Cleared
      ensures rx == [] && trace == []
    {
      this.derePin := derePin;
      rx := [];
      errCode, errCount, succCount := NoError, 0, 0;
      trace := [];
    }

    /** dereSet: drive the direction pin, unless there is none. */
    method DereSet(high: bool)
      modifies this`trace
      ensures trace == old(trace) + if derePin != NotAPin then [DirectionPin(high)] else []
    {
      if derePin != NotAPin {
        trace := trace + [DirectionPin(high)];
      }
    }

    /** flush: read and discard while a byte is available, at most ten. */
    method Flush()
      modifies this`rx
      ensures rx == Drained(old(rx))
    {
      var i := 0;
      // `available() && i++ < 10`: the increment after the last test is never observed
      while |rx| > 0 && i < FlushLimit
        invariant 0 <= i <= FlushLimit && i <= |old(rx)|
        invariant rx == old(rx)[i..]
      {
        rx := rx[1..];
        i := i + 1;
      }
    }

    /** readVal: ask slave `node` for the float in the input registers at
        `reg` and wait for its reply. */
    method ReadVal(reg: bv16, node: bv8, arrivals: seq<seq<bv8>>, deadline: nat) returns (res: Reading)
      modifies this`rx, this`errCode, this`errCount, this`succCount, this`trace
      ensures var x := ExchangeSpec(old(rx), node, arrivals, deadline);
        && res == (if x.outcome.Ok? then Bits(x.outcome.bits) else Nan)
        && Snapshot() == Record(old(Snapshot()), x.outcome)
        && rx == x.rx
      ensures trace == old(trace) + ExchangeEvents(derePin != NotAPin, RequestFrame(node, reg))
    {
      ghost var x := ExchangeSpec(old(rx), node, arrivals, deadline);
      var frame := new bv8[FrameSize];
      BuildRequest(frame, node, reg);
      ghost var request := frame[..FrameSize - 1];
      SendRequest(frame);
      assert trace == old(trace) + SendEvents(derePin != NotAPin, request);
      var readErr;
      readErr, res := ReceiveReply(node, arrivals, deadline, frame);
      assert trace == old(trace) + ExchangeEvents(derePin != NotAPin, request);

      ghost var outcome := if res.Bits? then Ok(res.pattern) else Err(readErr);
      assert outcome == x.outcome;
      Tally(readErr, outcome);
      Flush();
    }

    /** The bookkeeping of readVal (SDM.cpp lines 136-141): an error is
        recorded and counted, a success only counted. `outcome` is the
        outcome that `readErr` reports. */
    method Tally(readErr: ErrorCode, ghost outcome: Outcome)
      requires readErr == NoError <==> outcome.Ok?
      requires outcome.Err? ==> outcome.code == readErr
      modifies this`errCode, this`errCount, this`succCount
      ensures Snapshot() == Record(old(Snapshot()), outcome)
    {
      if readErr != NoError {
        errCode := readErr;
        errCount := Inc16(errCount);
      } else {
        succCount := Inc16(succCount);
      }
    }

    /** The transmit half of readVal (SDM.cpp lines 85-95): drain stale input, then
        write the request held in `frame` with the direction pin HIGH and set
        it LOW again. */
    method SendRequest(frame: array<bv8>)
      requires frame.Length == FrameSize
      modifies this`rx, this`trace
      ensures rx == Drained(old(rx))
      ensures trace == old(trace) + SendEvents(derePin != NotAPin, frame[..FrameSize - 1])
    {
      Flush();
      DereSet(true);
      trace := trace + [Send(frame[..FrameSize - 1])];  // sdmSer.write(sdmarr, FRAMESIZE - 1)
      DereSet(false);
    }

    /** The receive half of readVal (SDM.cpp lines 97-134): wait for a frame, read
        it into `frame` and classify it; `readErr` is NoError exactly when
        `res` holds the payload. */
    method ReceiveReply(node: bv8, arrivals: seq<seq<bv8>>, deadline: nat, frame: array<bv8>)
      returns (readErr: ErrorCode, res: Reading)
      requires frame.Length == FrameSize
      modifies this`rx, this`trace, frame
      ensures var w := Wait(old(rx), arrivals, 0, deadline);
        && (readErr == NoError <==> res.Bits?)
        && Classify(w.timedOut, w.rx, node) == (if res.Bits? then Ok(res.pattern) else Err(readErr))
        && rx == (if !w.timedOut && FrameSize <= |w.rx| then w.rx[FrameSize..] else w.rx)
      ensures trace == old(trace) + [AwaitReply]
    {
      res := Nan;
      readErr := NoError;
      trace := trace + [AwaitReply];
      var timedOut := AwaitFrame(arrivals, deadline);
      if timedOut {
        readErr := Timeout;
      } else if |rx| >= FrameSize {
        ghost var w := rx;
        ReadFrame(frame);
        readErr, res := CheckReply(frame, node);
        ClassifyOneFrame(false, w, node);
      } else {
        readErr := NotEnoughBytes;
      }
    }

    /** The wait loop of readVal: poll `available()` until a whole frame is
        there or the deadline has passed, yielding between polls. */
    method AwaitFrame(arrivals: seq<seq<bv8>>, deadline: nat) returns (timedOut: bool)
      modifies this`rx
      ensures Wait(old(rx), arrivals, 0, deadline) == WaitResult(rx, timedOut)
    {
      timedOut := false;
      var polls := 0;
      while |rx| < FrameSize
        invariant polls <= deadline
        invariant Wait(rx, arrivals, polls, deadline) == Wait(old(rx), arrivals, 0, deadline)
        decreases deadline - polls
      {
        if deadline <= polls {  // resptime < millis()
          timedOut := true;
          break;
        }
        rx := rx + ArrivedAt(arrivals, polls);  // yield(): the UART receives meanwhile
        polls := polls + 1;
      }
    }

    /** The read loop of readVal: take FrameSize bytes off the queue into
        `frame`, overwriting the request. */
    method ReadFrame(frame: array<bv8>)
      requires frame.Length == FrameSize && FrameSize <= |rx|
      modifies this`rx, frame
      ensures frame[..] == old(rx)[..FrameSize] && rx == old(rx)[FrameSize..]
    {
      var n := 0;
      while n < FrameSize
        invariant 0 <= n <= FrameSize
        invariant rx == old(rx)[n..]
        invariant forall k :: 0 <= k < n ==> frame[k] == old(rx)[k]
      {
        frame[n] := rx[0];  // sdmSer.read()
        rx := rx[1..];
        n := n + 1;
      }
    }

    /** getErrCode: the number of the last error code, cleared afterwards if asked. */
    method GetErrCode(clear: bool) returns (code: uint16)
      modifies this`errCode
      ensures code == Code(old(errCode))
      ensures errCode == if clear then NoError else old(errCode)
    {
      code := Code(errCode);
      if clear {
        ClearErrCode();
      }
    }

    /** getErrCount: the error counter, reset afterwards if asked. */
    method GetErrCount(clear: bool) returns (count: uint16)
      modifies this`errCount
      ensures count == old(errCount)
      ensures errCount == if clear then 0 else old(errCount)
    {
      count := errCount;
      if clear {
        ClearErrCount();
      }
    }

    /** getSuccCount: the success counter, reset afterwards if asked. */
    method GetSuccCount(clear: bool) returns (count: uint16)
      modifies this`succCount
      ensures count == old(succCount)
      ensures succCount == if clear then 0 else old(succCount)
    {
      count := succCount;
      if clear {
        ClearSuccCount();
      }
    }

    method ClearErrCode()
      modifies this`errCode
      ensures errCode == NoError
    {
      errCode := NoError;
    }

    method ClearErrCount()
      modifies this`errCount
      ensures errCount == 0
    {
      errCount := 0;
    }

    method ClearSuccCount()
      modifies this`succCount
      ensures succCount == 0
    {
      succCount := 0;
    }
  }

  /** A silent meter: the read times out, and reading the error counter with
      `clear` returns the count before resetting it. */
  method TimeoutScenario(node: bv8, reg: bv16) {
    var meter := new Sdm(NotAPin);
    ExchangeTimesOut([], node, [], 1);
    var r := meter.ReadVal(reg, node, [], 1);
    assert r == Nan && meter.Snapshot() == Statistics(Timeout, 1, 0);
    var code := meter.GetErrCode(false);
    assert code == 4;
    var n := meter.GetErrCount(true);
    assert n == 1;
    n := meter.GetErrCount(false);
    assert n == 0;
    n := meter.GetSuccCount(false);
    assert n == 0;
  }

  /** A correct reply holding 0x437A0000 (250.0) is returned and counted as
      a success; a later silent read records a timeout but leaves the
      success count alone. */
  method ReplyScenario(node: bv8, reg: bv16) {
    var meter := new Sdm(5);
    var reply := ReplyFrame(node, 0x437A0000);
    ExchangeDeliversReply([], node, 0x437A0000, [], [reply + []], 1);
    var r := meter.ReadVal(reg, node, [reply + []], 1);
    assert r == Bits(0x437A0000);
    assert meter.Snapshot() == Statistics(NoError, 0, 1);
    ExchangeTimesOut(meter.rx, node, [], 1);
    r := meter.ReadVal(reg, node, [], 1);
    assert r == Nan;
    assert meter.Snapshot() == Statistics(Timeout, 1, 1);
  }

  /** The same reply with its CRC low byte damaged is rejected as a CRC
      error: NAN is returned and the error counter goes up. */
  method CorruptedReplyScenario(node: bv8, reg: bv16) {
    var meter := new Sdm(NotAPin);
    var good := ReplyFrame(node, 0x437A0000);
    var bad := good[7 := good[7] ^ 0xFF];
    ReplyCorruptionDetected(node, 0x437A0000, 7, good[7] ^ 0xFF);
    ExchangeReadsFirstArrival([], node, [bad], 2);
    assert bad[..FrameSize] == bad;
    var r := meter.ReadVal(reg, node, [bad], 2);
    assert r == Nan;
    assert meter.Snapshot() == Statistics(CrcError, 1, 0);
  }
}
