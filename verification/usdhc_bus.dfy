/**
  What goes over the eMMC bus, and what the driver of imx_usdhc.c must see to:
  every frame transfer is announced, goes to the RPMB partition, and follows a
  complete identification since anything last went wrong.
 */
module UsdhcBus {
  import opened BigEndian

  const GO_IDLE_STATE: nat := 0
  const SEND_OP_COND: nat := 1
  const ALL_SEND_CID: nat := 2
  const SET_RELATIVE_ADDR: nat := 3
  const SWITCH: nat := 6
  const SELECT_CARD: nat := 7
  const SEND_EXT_CSD: nat := 8
  const SET_BLOCKLEN: nat := 16
  const READ_MULTIPLE_BLOCK: nat := 18
  const SET_BLOCK_COUNT: nat := 23
  const WRITE_MULTIPLE_BLOCK: nat := 25

  const BLOCK_SIZE: nat := 512
  const PART_ACCESS_RPMB: nat := 3
  const RELIABLE_WRITE: nat := 0x8000_0000
  const EXT_CSD_PART_CONF: nat := 179

  /** The response registers; all but the first are of meaning for a long response only. */
  datatype Response = Response(r0: uint32, r1: uint32, r2: uint32, r3: uint32)

  const NO_RESPONSE := Response(0, 0, 0, 0)

  /** The command did not complete, or it did, with or without its data phase. */
  datatype Outcome = NoResponse | Accepted(resp: Response) | DataFailed

  /** A register, as the set of the bits that are one. */
  type Register = set<nat>

  const MIXCTRL_DMAEN: nat := 0
  const MIXCTRL_BCEN: nat := 1
  const MIXCTRL_DTDSEL: nat := 4
  const MIXCTRL_MSBSEL: nat := 5

  /**
    A command on the bus, with the value of MIXCTRL and the PART_CONF octet of the
    card when it arrives; DAT0 seen released by the card; another master at work.
   */
  datatype Event =
    | Command(idx: nat, arg: nat, blocks: nat, write: bool, data: bytes, mix: Register, conf: byte, outcome: Outcome)
    | Released
    | OtherMaster
  {
    predicate IsTransfer() {
      Command? && (idx == READ_MULTIPLE_BLOCK || idx == WRITE_MULTIPLE_BLOCK)
    }

    predicate Ok(i: nat) {
      Command? && idx == i && outcome.Accepted?
    }

    predicate Did(i: nat, a: nat) {
      Ok(i) && arg == a
    }

    /** The partition that the card is on. */
    function Part(): nat
      requires Command?
    {
      conf as int % 8
    }
  }

  predicate CardReady(ocr: nat) {
    ocr / 0x8000_0000 % 2 == 1
  }

  predicate SwitchRejected(status: nat) {
    status / 0x80 % 2 == 1
  }

  // ----- how far the card has been identified -----

  const IDENTIFIED: nat := 7
  // sector mode and the voltages from 2.7 V to 3.6 V
  const OCR_ARG: nat := 0x40ff_8000
  // relative card address 1
  const RCA_ARG: nat := 0x1_0000

  /** One step through CMD0, CMD1 until ready, CMD2, CMD3, CMD7, CMD16 and CMD8. */
  function Advance(p: nat, e: Event): nat {
    if e.Released? then p
    else if e.OtherMaster? || e.outcome.DataFailed? then 0
    else if e.idx == GO_IDLE_STATE then (if e.Did(GO_IDLE_STATE, 0) then 1 else 0)
    else if p == IDENTIFIED then p
    else if p == 1 && e.Did(SEND_OP_COND, OCR_ARG) then (if CardReady(e.outcome.resp.r0) then 2 else 1)
    else if p == 2 && e.Did(ALL_SEND_CID, 0) then 3
    else if p == 3 && e.Did(SET_RELATIVE_ADDR, RCA_ARG) then 4
    else if p == 4 && e.Did(SELECT_CARD, RCA_ARG) then 5
    else if p == 5 && e.Did(SET_BLOCKLEN, BLOCK_SIZE) then 6
    else if p == 6 && e.Did(SEND_EXT_CSD, 0) then IDENTIFIED
    else 0
  }

  function Progress(bus: seq<Event>): (p: nat)
    ensures p <= IDENTIFIED
  {
    if bus == [] then 0 else Advance(Progress(bus[..|bus| - 1]), bus[|bus| - 1])
  }

  // ----- proper transfers -----

  function BlockCountArg(blocks: nat, write: bool): nat {
    if write then blocks + RELIABLE_WRITE else blocks
  }

  /** The announcement of a transfer. */
  predicate Announces(e: Event, blocks: nat, write: bool) {
    e.Ok(SET_BLOCK_COUNT) && e.arg == BlockCountArg(blocks, write) && e.Part() == PART_ACCESS_RPMB
  }

  /** MIXCTRL for a transfer: DMA, its direction, a block count for more than one block, and nothing else. */
  predicate MixFor(mix: Register, blocks: nat, write: bool) {
    mix == {MIXCTRL_DMAEN} + (if write then {} else {MIXCTRL_DTDSEL})
           + if blocks > 1 then {MIXCTRL_BCEN, MIXCTRL_MSBSEL} else {}
  }

  /** The argument of a SWITCH that leaves all of PART_CONF but the access bits as it is. */
  predicate SelectsOnly(arg: nat, conf: byte) {
    && arg / 0x100_0000 == 3
    && arg / 0x1_0000 % 0x100 == EXT_CSD_PART_CONF
    && arg / 0x100 % 0x100 / 8 == conf as int / 8
    && arg % 0x100 == 0
  }

  /** A frame transfer is due: announced, and the card identified and on the RPMB partition. */
  predicate MayTransfer(bus: seq<Event>, idx: nat, arg: nat, blocks: nat, write: bool, conf: byte) {
    idx == READ_MULTIPLE_BLOCK || idx == WRITE_MULTIPLE_BLOCK ==>
      && Progress(bus) == IDENTIFIED
      && bus != [] && Announces(bus[|bus| - 1], blocks, write)
      && arg == 0 && conf as int % 8 == PART_ACCESS_RPMB && (write <==> idx == WRITE_MULTIPLE_BLOCK)
  }

  predicate ProperAfter(bus: seq<Event>, e: Event) {
    e.Command? ==>
      && MayTransfer(bus, e.idx, e.arg, e.blocks, e.write, e.conf)
      && (e.IsTransfer() ==> MixFor(e.mix, e.blocks, e.write))
      && (e.idx == SWITCH ==> SelectsOnly(e.arg, e.conf))
      // nothing is announced to a card that may still be busy
      && (e.idx == SET_BLOCK_COUNT ==> bus != [] && bus[|bus| - 1].Released?)
  }

  predicate Proper(bus: seq<Event>) {
    bus == [] || (Proper(bus[..|bus| - 1]) && ProperAfter(bus[..|bus| - 1], bus[|bus| - 1]))
  }

  lemma {:induction false} ProperAt(bus: seq<Event>, i: nat)
    requires Proper(bus) && i < |bus|
    ensures ProperAfter(bus[..i], bus[i])
  {
    if i < |bus| - 1 {
      ProperAt(bus[..|bus| - 1], i);
      assert bus[..|bus| - 1][..i] == bus[..i];
    }
  }

  lemma OneMore(bus: seq<Event>, e: Event)
    ensures Progress(bus + [e]) == Advance(Progress(bus), e)
    ensures Proper(bus + [e]) <==> Proper(bus) && ProperAfter(bus, e)
  {
    assert (bus + [e])[..|bus|] == bus;
  }

  /** An accepted step of the identification: idle; ready; the CID; an address; selected; block length; EXT_CSD. */
  predicate IsStep(i: nat, e: Event)
    requires i < 7
  {
    && e.Did([0, 1, 2, 3, 7, 16, 8][i], [0, 0x40ff_8000, 0, 0x1_0000, 0x1_0000, 512, 0][i])
    && (i == 1 ==> e.outcome.resp.r0 >= 0x8000_0000)
  }

  /** Events, in order and all behind from, that are the first steps. */
  predicate Identifies(bus: seq<Event>, at: seq<nat>, from: int) {
    && |at| <= 7
    && (forall i :: 0 <= i < |at| ==> from < at[i] < |bus| && IsStep(i, bus[at[i]]))
    && (forall i, j :: 0 <= i < j < |at| ==> at[i] < at[j])
  }

  lemma AdvanceIsStep(p: nat, e: Event)
    requires 0 < p < IDENTIFIED && Advance(p, e) == p + 1
    ensures IsStep(p, e)
  {
  }

  lemma FirstStep(e: Event)
    requires e.Did(GO_IDLE_STATE, 0)
    ensures IsStep(0, e)
  {
  }

  /** Since the start, or since trouble, as much of the identification has been gone through as counts. */
  lemma {:induction false} IdentifiedBetween(bus: seq<Event>, from: int) returns (at: seq<nat>)
    requires -1 <= from < |bus|
    requires from >= 0 ==> bus[from].OtherMaster? || (bus[from].Command? && bus[from].outcome.DataFailed?)
    ensures Identifies(bus, at, from) && |at| == Progress(bus)
  {
    hide IsStep;
    if bus == [] || Progress(bus) == 0 {
      return [];
    }
    var front, last := bus[..|bus| - 1], bus[|bus| - 1];
    assert bus == front + [last];
    OneMore(front, last);
    if last.Did(GO_IDLE_STATE, 0) {
      FirstStep(last);
      at := [|bus| - 1];
    } else {
      assert from < |front|;
      at := IdentifiedBetween(front, from);
      if Progress(bus) > Progress(front) {
        AdvanceIsStep(|at|, last);
        at := at + [|bus| - 1];
      }
    }
  }

  /**
    What the invariant of the driver is for: on a proper bus, whatever went wrong
    before a transfer of frames, a failed data phase or another master at work, the
    whole identification lies in between: CMD0, CMD1 until the card is ready, CMD2,
    CMD3, CMD7, CMD16 and CMD8.  The transfer goes to the RPMB partition, directly
    behind its announcement, which has the reliable write bit for a write, to a card
    that was seen released; MIXCTRL has DMA, direction and block count.
   */
  lemma TransferAfterIdentification(bus: seq<Event>, from: int, i: nat) returns (at: seq<nat>)
    requires Proper(bus) && -1 <= from < i < |bus| && bus[i].Command? && bus[i].idx in {18, 25}
    requires from >= 0 ==> bus[from].OtherMaster? || (bus[from].Command? && bus[from].outcome.DataFailed?)
    ensures |at| == 7 && from < at[0] && at[6] < i - 2 && forall j, k :: 0 <= j < k < 7 ==> at[j] < at[k]
    ensures forall k :: 0 <= k < 7 ==>
              && bus[at[k]].Command? && bus[at[k]].outcome.Accepted?
              && bus[at[k]].idx == [0, 1, 2, 3, 7, 16, 8][k]
              && bus[at[k]].arg == [0, 0x40ff_8000, 0, 0x1_0000, 0x1_0000, 512, 0][k]
    ensures bus[at[1]].outcome.resp.r0 >= 0x8000_0000
    ensures bus[i - 2].Released? && bus[i - 1].Command? && bus[i - 1].idx == 23 && bus[i - 1].outcome.Accepted?
    ensures bus[i - 1].arg == bus[i].blocks + if bus[i].write then 0x8000_0000 else 0
    ensures bus[i - 1].conf as int % 8 == 3 == bus[i].conf as int % 8
    ensures bus[i].arg == 0 && (bus[i].write <==> bus[i].idx == 25)
    ensures bus[i].mix == {0} + (if bus[i].write then {} else {4}) + if bus[i].blocks > 1 then {1, 5} else {}
  {
    ProperAt(bus, i);
    ProperAt(bus, i - 1);
    hide Progress, Advance, Proper;
    at := IdentifiedBetween(bus[..i], from);
    assert forall k :: 0 <= k < i ==> bus[..i][k] == bus[k];
    assert bus[..i - 1][i - 2] == bus[i - 2];
    assert IsStep(6, bus[..i][at[6]]) && IsStep(1, bus[at[1]]);
  }

  /** On a proper bus no SWITCH writes anything but the access bits of PART_CONF. */
  lemma SwitchKeepsBoot(bus: seq<Event>, i: nat)
    requires Proper(bus) && i < |bus| && bus[i].Command? && bus[i].idx == 6
    ensures bus[i].arg == 0x3b3_0000 + (bus[i].conf as int / 8 * 8 + bus[i].arg / 0x100 % 8) * 0x100
  {
    ProperAt(bus, i);
    var arg := bus[i].arg;
    assert arg / 0x100 % 0x100 == arg / 0x100 % 0x100 / 8 * 8 + arg / 0x100 % 8;
    assert arg == arg / 0x100_0000 * 0x100_0000 + arg / 0x1_0000 % 0x100 * 0x1_0000 + arg / 0x100 % 0x100 * 0x100;
  }

  // ----- what the card has told about itself -----

  /** The response to the last CMD2 and the data of the last CMD8 that the card accepted. */
  datatype Identity = Identity(cid: Response, extCsd: bytes)

  function IdentityAfter(id: Identity, e: Event): Identity {
    if e.Ok(ALL_SEND_CID) then id.(cid := e.outcome.resp)
    else if e.Ok(SEND_EXT_CSD) then id.(extCsd := e.data)
    else id
  }

  function IdentityOf(bus: seq<Event>): Identity {
    if bus == [] then Identity(NO_RESPONSE, []) else IdentityAfter(IdentityOf(bus[..|bus| - 1]), bus[|bus| - 1])
  }

  lemma IdentityMore(bus: seq<Event>, e: Event)
    ensures IdentityOf(bus + [e]) == IdentityAfter(IdentityOf(bus), e)
  {
    assert (bus + [e])[..|bus|] == bus;
  }

  /** The responses to the last CMD2 and the data of the last CMD8. */
  lemma {:induction false} IdentityIsLast(bus: seq<Event>, i: nat)
    requires i < |bus|
    ensures bus[i].Ok(2) && (forall k :: i < k < |bus| ==> !bus[k].Ok(2)) ==>
              IdentityOf(bus).cid == bus[i].outcome.resp
    ensures bus[i].Ok(8) && (forall k :: i < k < |bus| ==> !bus[k].Ok(8)) ==> IdentityOf(bus).extCsd == bus[i].data
  {
    var front, last := bus[..|bus| - 1], bus[|bus| - 1];
    IdentityMore(front, last);
    assert front + [last] == bus;
    if i < |front| {
      IdentityIsLast(front, i);
    }
  }

  // ----- the frames alone -----

  datatype Frames = Sent(b: bytes) | Received(b: bytes)

  /** The frames that completed transfers moved. */
  function Exchanged(bus: seq<Event>): seq<Frames> {
    if bus == [] then [] else Exchanged(bus[..|bus| - 1]) + FramesOf(bus[|bus| - 1])
  }

  function FramesOf(e: Event): seq<Frames> {
    if !e.IsTransfer() || !e.outcome.Accepted? then [] else if e.write then [Sent(e.data)] else [Received(e.data)]
  }

  lemma ExchangedMore(bus: seq<Event>, e: Event)
    ensures Exchanged(bus + [e]) == Exchanged(bus) + FramesOf(e)
  {
    assert (bus + [e])[..|bus|] == bus;
  }
}
