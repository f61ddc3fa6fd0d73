/**
  rpmb-native-backend.py: the exchange of frames with the RPMB partition.  Its
  partner is a device that has an answer only to what it was asked for.
 */
module RpmbNative {
  import opened BigEndian
  import opened UsdhcBus
  import opened ImxUsdhc

  const RPMB_DATA_FRAME_SIZE: nat := 512
  const RPMB_MSG_TYPE_OFFSET: nat := 510
  const REQ_AUTH_KEY_PROGRAM: nat := 1
  const REQ_AUTH_DATA_WRITE: nat := 3
  const REQ_RESULT_READ: byte := 5

  function MsgType(frame: bytes): nat
    requires |frame| >= RPMB_DATA_FRAME_SIZE
  {
    frame[RPMB_MSG_TYPE_OFFSET] as int * 0x100 + frame[RPMB_MSG_TYPE_OFFSET + 1]
  }

  predicate IsWriteRequest(frames: bytes)
    requires |frames| >= RPMB_DATA_FRAME_SIZE
  {
    MsgType(frames) == REQ_AUTH_KEY_PROGRAM || MsgType(frames) == REQ_AUTH_DATA_WRITE
  }

  /** A frame of zeroes but for its message type. */
  function ResultReadRequest(): bytes {
    seq(RPMB_DATA_FRAME_SIZE, i => if i == RPMB_MSG_TYPE_OFFSET + 1 then REQ_RESULT_READ else 0)
  }

  /** What is sent for one exchange: a write is followed by the request for its result. */
  function RequestsOf(request: bytes): seq<Frames>
    requires |request| >= RPMB_DATA_FRAME_SIZE
  {
    if IsWriteRequest(request) then [Sent(request), Sent(ResultReadRequest())] else [Sent(request)]
  }

  // ----- the device -----

  /** A frame whose octets 510 and 511 ask for a write: of the key, or of data. */
  predicate AsksForWrite(b: bytes) {
    |b| >= 512 && b[510] == 0 && (b[511] == 1 || b[511] == 3)
  }

  predicate AsksForResult(b: bytes) {
    |b| == 512 && b[511] == 5 && forall i :: 0 <= i < 511 ==> b[i] == 0
  }

  /** What the next read gets: nothing; the result of the last write; the answer to the last other request. */
  datatype Device = Silent | Written | HasResult | HasAnswer | ReadInVain {
    function After(f: Frames): Device {
      match f
      case Sent(b) =>
        if ReadInVain? then ReadInVain
        else if AsksForWrite(b) then Written
        else if Written? && AsksForResult(b) then HasResult
        else HasAnswer
      case Received(_) => if HasResult? || HasAnswer? then Silent else ReadInVain
    }

    function AfterAll(frames: seq<Frames>): Device {
      if frames == [] then this else AfterAll(frames[..|frames| - 1]).After(frames[|frames| - 1])
    }
  }

  lemma {:induction false} AfterBoth(d: Device, frames: seq<Frames>, more: seq<Frames>)
    ensures d.AfterAll(frames + more) == d.AfterAll(frames).AfterAll(more)
  {
    if more == [] {
      assert frames + more == frames;
    } else {
      var n := |more| - 1;
      AfterBoth(d, frames, more[..n]);
      assert (frames + more)[..|frames| + n] == frames + more[..n];
    }
  }

  /** Behind a write there is nothing to read until its result has been asked for. */
  lemma UnaskedResult(d: Device, request: bytes, next: Frames)
    requires |request| >= 512 && request[510..512] in {[0, 1], [0, 3]}
    ensures d.AfterAll([Sent(request), next]).HasResult? ==>
              next.Sent? && |next.b| == 512 && next.b[511] == 5 && forall i :: 0 <= i < 511 ==> next.b[i] == 0
    ensures next.Received? ==> d.AfterAll([Sent(request), next]) == ReadInVain
  {
    assert request[510..512] == [request[510], request[511]];
    AfterTwo(d, Sent(request), next);
  }

  lemma AfterOne(d: Device, f: Frames)
    ensures d.AfterAll([f]) == d.After(f)
  {
    assert [f][..0] == [];
  }

  lemma AfterTwo(d: Device, f: Frames, g: Frames)
    ensures d.AfterAll([f, g]) == d.After(f).After(g)
  {
    AfterOne(d, f);
    assert [f, g][..1] == [f];
  }

  /** Having been read in vain is never made good. */
  lemma {:induction false} InVainStays(d: Device, frames: seq<Frames>)
    requires d == ReadInVain
    ensures d.AfterAll(frames) == ReadInVain
  {
    if frames != [] {
      InVainStays(d, frames[..|frames| - 1]);
    }
  }

  lemma RequestsAsk(request: bytes)
    requires |request| >= 512
    ensures IsWriteRequest(request) <==> AsksForWrite(request)
    ensures AsksForResult(ResultReadRequest()) && !AsksForWrite(ResultReadRequest())
    ensures var x := RequestsOf(request);
            && x[..1] == [Sent(request)]
            && (if AsksForWrite(request) then |x| == 2 && x[1].Sent? && AsksForResult(x[1].b) else |x| == 1)
  {
  }

  /** However much of an exchange is carried out, the device was not read in vain, and has an answer in the end. */
  lemma ExchangeObeys(d: Device, request: bytes, k: nat)
    requires |request| >= RPMB_DATA_FRAME_SIZE && k <= |RequestsOf(request)| && d != ReadInVain
    ensures d.AfterAll(RequestsOf(request)[..k]) != ReadInVain
    ensures d.AfterAll(RequestsOf(request)) in if AsksForWrite(request) then {HasResult} else {HasResult, HasAnswer}
  {
    hide AsksForWrite, AsksForResult, IsWriteRequest, ResultReadRequest;
    RequestsAsk(request);
    var x := RequestsOf(request);
    AfterOne(d, x[0]);
    if |x| == 2 {
      AfterTwo(d, x[0], x[1]);
    }
    assert k == 0 || (k == 1 && x[..1] == [x[0]]) || x[..k] == x;
  }

  // ----- the exchange -----

  /**
    After an exchange that succeeded, the answer has been read; after one that
    failed, some of its requests are out.
   */
  ghost predicate Outcome(before: seq<Frames>, after: seq<Frames>, request: bytes, r: TeeResult, response: bytes)
    requires |request| >= RPMB_DATA_FRAME_SIZE
  {
    if r == Success then after == before + RequestsOf(request) + [Received(response)]
    else exists k :: 0 <= k <= |RequestsOf(request)| && after == before + RequestsOf(request)[..k]
  }

  lemma OutcomeObeys(before: seq<Frames>, after: seq<Frames>, request: bytes, r: TeeResult, response: bytes)
    requires |request| >= RPMB_DATA_FRAME_SIZE && Outcome(before, after, request, r, response)
    requires Silent.AfterAll(before) != ReadInVain
    ensures Silent.AfterAll(after) != ReadInVain && (r == Success ==> Silent.AfterAll(after) == Silent)
  {
    hide RequestsOf, Device.AfterAll, AsksForWrite;
    var d, x := Silent.AfterAll(before), RequestsOf(request);
    if r == Success {
      ExchangeObeys(d, request, 0);
      AfterBoth(Silent, before, x);
      AfterBoth(Silent, before + x, [Received(response)]);
      AfterOne(d.AfterAll(x), Received(response));
    } else {
      var k :| 0 <= k <= |x| && after == before + x[..k];
      ExchangeObeys(d, request, k);
      AfterBoth(Silent, before, x[..k]);
    }
  }

  /** A write either sends its frames or does not. */
  lemma Cut(before: seq<Frames>, after: seq<Frames>, request: bytes, k: nat, r: TeeResult, response: bytes)
    requires |request| >= RPMB_DATA_FRAME_SIZE && k < |RequestsOf(request)| && r != Success
    requires var x := RequestsOf(request); after == before + x[..k] || after == before + x[..k] + [x[k]]
    ensures Outcome(before, after, request, r, response)
  {
    var x := RequestsOf(request);
    assert x[..k + 1] == x[..k] + [x[k]];
    if after == before + x[..k] + [x[k]] {
      assert after == before + x[..k + 1];
    }
  }

  lemma CutAtEnd(before: seq<Frames>, after: seq<Frames>, request: bytes, r: TeeResult, response: bytes)
    requires |request| >= RPMB_DATA_FRAME_SIZE && r != Success && after == before + RequestsOf(request)
    ensures Outcome(before, after, request, r, response)
  {
    var x := RequestsOf(request);
    assert x[..|x|] == x;
  }

  /**
    rpmb_native_exchange.  A device that has not been read in vain, in whatever state
    the last exchange has left it, never is.
   */
  method RpmbNativeExchange(dev: Usdhc, req: array<byte>, resp: array<byte>) returns (r: TeeResult)
    requires dev.Valid() && req != resp && req != dev.dmaBounce && resp != dev.dmaBounce
    modifies dev, dev.dmaBounce, req, resp
    ensures dev.Valid() && Proper(dev.bus) && old(dev.bus) <= dev.bus && req[..] == old(req[..])
            && dev.CardBoot() == old(dev.CardBoot())
    ensures req.Length < 512 || resp.Length < 512 ==> r == BadParameters && dev.bus == old(dev.bus)
    ensures req.Length >= 512 && resp.Length >= 512 ==>
              var request := req[..req.Length / 512 * 512];
              var responseLength := if AsksForWrite(request) then 512 else resp.Length / 512 * 512;
              Outcome(Exchanged(old(dev.bus)), Exchanged(dev.bus), request, r, resp[..responseLength])
    ensures 512 <= req.Length < 33 * 512 && 512 <= resp.Length < 33 * 512 ==> dev.Excused(old(dev.now), r)
    ensures Silent.AfterAll(Exchanged(old(dev.bus))) != ReadInVain ==>
              && Silent.AfterAll(Exchanged(dev.bus)) != ReadInVain
              && (r == Success ==> Silent.AfterAll(Exchanged(dev.bus)) == Silent)
  {
    hide Proper, Progress, Exchanged, ForeignRegisters, IdentityOf, CidLayout, Device.AfterAll, Outcome, AsksForWrite,
      ResultReadRequest, IsWriteRequest, Usdhc.Good, Usdhc.Fault;
    var reqBlocks, respBlocks := req.Length / RPMB_DATA_FRAME_SIZE, resp.Length / RPMB_DATA_FRAME_SIZE;
    if reqBlocks == 0 || respBlocks == 0 {
      return BadParameters;
    }
    r := Exchange(dev, req, reqBlocks, resp, respBlocks);
    ghost var request := req[..req.Length / 512 * 512];
    ghost var responseLength := if AsksForWrite(request) then 512 else resp.Length / 512 * 512;
    if Silent.AfterAll(Exchanged(old(dev.bus))) != ReadInVain {
      OutcomeObeys(Exchanged(old(dev.bus)), Exchanged(dev.bus), request, r, resp[..responseLength]);
    }
  }

  /** The switch over the message type. */
  method Exchange(dev: Usdhc, req: array<byte>, reqBlocks: nat, resp: array<byte>, respBlocks: nat)
    returns (r: TeeResult)
    requires dev.Valid() && req != resp && req != dev.dmaBounce && resp != dev.dmaBounce
    requires reqBlocks == req.Length / 512 > 0 && respBlocks == resp.Length / 512 > 0
    modifies dev, dev.dmaBounce, req, resp
    ensures dev.Valid() && Proper(dev.bus) && old(dev.bus) <= dev.bus && req[..] == old(req[..])
    ensures dev.CardBoot() == old(dev.CardBoot())
    ensures reqBlocks <= 32 && respBlocks <= 32 ==> dev.Excused(old(dev.now), r)
    ensures var request := req[..reqBlocks * 512];
            var responseLength := if AsksForWrite(request) then 512 else respBlocks * 512;
            Outcome(Exchanged(old(dev.bus)), Exchanged(dev.bus), request, r, resp[..responseLength])
  {
    hide Proper, Progress, Exchanged, ForeignRegisters, IdentityOf, CidLayout, Device.AfterAll, Outcome, AsksForWrite,
      AsksForResult, ResultReadRequest, RequestsOf, IsWriteRequest, Usdhc.Good, Usdhc.Fault, Usdhc.Excused;
    RequestsAsk(req[..reqBlocks * RPMB_DATA_FRAME_SIZE]);
    var msgType := req[RPMB_MSG_TYPE_OFFSET] as int * 0x100 + req[RPMB_MSG_TYPE_OFFSET + 1];
    IsMsgType(req[..reqBlocks * RPMB_DATA_FRAME_SIZE], msgType);
    if msgType == REQ_AUTH_KEY_PROGRAM || msgType == REQ_AUTH_DATA_WRITE {
      r := WriteAndResult(dev, req, reqBlocks, resp);
    } else {
      r := RequestAndRead(dev, req, reqBlocks, resp, respBlocks);
    }
  }

  lemma IsMsgType(frames: bytes, msgType: nat)
    requires |frames| >= 512 && msgType == frames[510] as int * 0x100 + frames[511]
    ensures IsWriteRequest(frames) <==> msgType == REQ_AUTH_KEY_PROGRAM || msgType == REQ_AUTH_DATA_WRITE
  {
  }

  /** A write, the request for its result, and the result. */
  method WriteAndResult(dev: Usdhc, req: array<byte>, reqBlocks: nat, resp: array<byte>) returns (r: TeeResult)
    requires dev.Valid() && req != resp && req != dev.dmaBounce && resp != dev.dmaBounce
    requires 0 < reqBlocks * 512 <= req.Length && 512 <= resp.Length && IsWriteRequest(req[..reqBlocks * 512])
    modifies dev, dev.dmaBounce, req, resp
    ensures dev.Valid() && Proper(dev.bus) && old(dev.bus) <= dev.bus && req[..] == old(req[..])
    ensures dev.CardBoot() == old(dev.CardBoot()) && (reqBlocks <= 32 ==> dev.Excused(old(dev.now), r))
    ensures Outcome(Exchanged(old(dev.bus)), Exchanged(dev.bus), req[..reqBlocks * 512], r, resp[..512])
  {
    hide Proper, Progress, Exchanged, ForeignRegisters, IdentityOf, CidLayout, Device.AfterAll, Outcome, AsksForWrite,
      ResultReadRequest, IsWriteRequest, Usdhc.FromCard, Usdhc.Good;
    ghost var before, request := Exchanged(dev.bus), req[..reqBlocks * RPMB_DATA_FRAME_SIZE];
    r := dev.RpmbWrite(req, reqBlocks);
    if r != Success {
      Cut(before, Exchanged(dev.bus), request, 0, r, resp[..512]);
      return;
    }
    forall i | 0 <= i < resp.Length {
      resp[i] := 0;
    }
    resp[RPMB_MSG_TYPE_OFFSET + 1] := REQ_RESULT_READ;
    IsResultRead(resp[..512]);
    r := dev.RpmbWrite(resp, 1);
    if r != Success {
      Cut(before, Exchanged(dev.bus), request, 1, r, resp[..512]);
      return;
    }
    r := dev.RpmbRead(resp, 1);
    Ends(before, Exchanged(dev.bus), request, r, resp[..512]);
  }

  /** Any other request, and the answer to it. */
  method RequestAndRead(dev: Usdhc, req: array<byte>, reqBlocks: nat, resp: array<byte>, respBlocks: nat)
    returns (r: TeeResult)
    requires dev.Valid() && req != resp && req != dev.dmaBounce && resp != dev.dmaBounce
    requires 0 < reqBlocks * 512 <= req.Length && 0 < respBlocks * 512 <= resp.Length
    requires !IsWriteRequest(req[..reqBlocks * 512])
    modifies dev, dev.dmaBounce, req, resp
    ensures dev.Valid() && Proper(dev.bus) && old(dev.bus) <= dev.bus && req[..] == old(req[..])
    ensures dev.CardBoot() == old(dev.CardBoot())
    ensures reqBlocks <= 32 && respBlocks <= 32 ==> dev.Excused(old(dev.now), r)
    ensures Outcome(Exchanged(old(dev.bus)), Exchanged(dev.bus), req[..reqBlocks * 512], r, resp[..respBlocks * 512])
  {
    hide Proper, Progress, Exchanged, ForeignRegisters, IdentityOf, CidLayout, Device.AfterAll, Outcome, AsksForWrite,
      ResultReadRequest, IsWriteRequest, Usdhc.FromCard, Usdhc.Good;
    ghost var before, request := Exchanged(dev.bus), req[..reqBlocks * RPMB_DATA_FRAME_SIZE];
    r := dev.RpmbWrite(req, reqBlocks);
    if r != Success {
      Cut(before, Exchanged(dev.bus), request, 0, r, resp[..respBlocks * 512]);
      return;
    }
    r := dev.RpmbRead(resp, respBlocks);
    Ends(before, Exchanged(dev.bus), request, r, resp[..respBlocks * 512]);
  }

  lemma IsResultRead(b: bytes)
    requires |b| == 512 && b[511] == 5 && forall i :: 0 <= i < 511 ==> b[i] == 0
    ensures b == ResultReadRequest()
  {
  }

  lemma Ends(before: seq<Frames>, after: seq<Frames>, request: bytes, r: TeeResult, response: bytes)
    requires |request| >= RPMB_DATA_FRAME_SIZE
    requires after == before + RequestsOf(request) + if r == Success then [Received(response)] else []
    ensures Outcome(before, after, request, r, response)
  {
    if r != Success {
      assert after == before + RequestsOf(request);
      CutAtEnd(before, after, request, r, response);
    }
  }
}
