/**
  The driver of imx_usdhc.c.  Everything it reads from outside, register bits that
  hardware sets, responses, data and time-outs, is answered by an arbitrary
  environment; the card keeps its PART_CONF octet, and other masters may come in
  between calls.
 */
module ImxUsdhc {
  import opened BigEndian
  import opened UsdhcBus

  datatype TeeResult = Success | Busy | Communication | Generic | ExcessData | BadParameters

  /**
    One answer of the environment: whether what is waited for comes, what there is to
    read, whether a command without response was carried out, and to what end.
   */
  datatype Answer = Answer(ok: bool, late: bool, resp: Response, data: bytes, word: Register, taken: bool, conf: byte)

  const DMA_BOUNCE_BLOCKS: nat := 32
  const EXT_CSD_RPMB_MULT: nat := 168
  const EXT_CSD_REL_WR_SEC_C: nat := 222
  const CID_SIZE: nat := 16
  const UNKNOWN_PART: nat := 0xff

  // ----- registers -----

  const SYSCTL_RST_FIFO: Register := {22}
  const SYSCTL_RSTA_RSTT: Register := {24, 28}
  const SYSCTL_RSTC_RSTD: Register := {25, 26}
  const SYSCTL_INITA: Register := {27}
  // 14 in the timeout field
  const SYSCTL_TIMEOUT_14: Register := {17, 18, 19}
  // 0x20: one data line, little-endian
  const PROCTL_DEFAULT: Register := {5}
  // a prescaler of 0x20 in bits 8 to 15
  const PRESCALER_0X20: Register := {13}

  /** SYSCTL masked with 0x0000fff0. */
  function ClockField(r: Register): Register {
    set b | b in r && 4 <= b < 16
  }

  /** SYSCTL with the clock and timeout fields masked off. */
  function WithoutClockAndTimeout(r: Register): Register {
    set b | b in r && !(4 <= b < 20)
  }

  /** A data width of more than one line, another divider, or a mode bit in the upper 24. */
  predicate ForeignRegisters(proctl: Register, sysctl: Register, mixctrl: Register, clockBits: Register) {
    || 1 in proctl || 2 in proctl
    || ClockField(sysctl) != clockBits
    || exists b :: b in mixctrl && 8 <= b
  }

  /** A bit of DTW, the divider bits, and the mode bits from 8 on. */
  lemma ForeignIff(proctl: Register, sysctl: Register, mixctrl: Register, clockBits: Register)
    ensures ForeignRegisters(proctl, sysctl, mixctrl, clockBits)
       <==> proctl * {1, 2} != {} || sysctl * {4, 5, 6, 7, 8, 9, 10, 11, 12, 13, 14, 15} != clockBits
            || !(mixctrl <= {0, 1, 2, 3, 4, 5, 6, 7})
  {
    assert ClockField(sysctl) == sysctl * {4, 5, 6, 7, 8, 9, 10, 11, 12, 13, 14, 15};
    assert proctl * {1, 2} != {} <==> 1 in proctl * {1, 2} || 2 in proctl * {1, 2};
    assert mixctrl <= {0, 1, 2, 3, 4, 5, 6, 7} <==> forall b :: b in mixctrl ==> b in {0, 1, 2, 3, 4, 5, 6, 7};
  }

  lemma ClockFieldUntouched(s: Register, bits: Register)
    requires ClockField(bits) == {}
    ensures ClockField(s + bits) == ClockField(s) == ClockField(s - bits) == ClockField(s + bits - bits)
  {
    assert forall b :: b in bits && 4 <= b < 16 ==> b in ClockField(bits);
  }

  lemma ClockFieldSet(s: Register, want: Register)
    requires ClockField(want) == want
    ensures ClockField(WithoutClockAndTimeout(s) + want + SYSCTL_TIMEOUT_14) == want
    ensures (WithoutClockAndTimeout(s) + want + SYSCTL_TIMEOUT_14) * {16, 17, 18, 19} == {17, 18, 19}
    ensures forall b :: b < 4 || b >= 20 ==> (b in WithoutClockAndTimeout(s) + want + SYSCTL_TIMEOUT_14 <==> b in s)
  {
    var t := WithoutClockAndTimeout(s) + want + SYSCTL_TIMEOUT_14;
    assert forall b :: b in ClockField(t) <==> b in want;
    assert forall b :: b in want ==> b in ClockField(want);
  }

  // ----- the card identification -----

  /** CID[127:8], as the response registers hold it. */
  function CidRegister(resp: Response): nat {
    ((resp.r3 * 0x1_0000_0000 + resp.r2) * 0x1_0000_0000 + resp.r1) * 0x1_0000_0000 + resp.r0
  }

  /** The JEDEC layout: most significant octet first, zero in place of the CRC; or the layout of the first driver. */
  function CidLayout(resp: Response, compat: bool): (cid: bytes)
    ensures |cid| == CID_SIZE
  {
    if compat then ToBytes(CidRegister(resp), 16) else ToBytes(CidRegister(resp), 15) + [0]
  }

  /** The octets of one response register. */
  function WordOctets(w: uint32): bytes {
    [w / 0x100_0000, w / 0x1_0000 % 0x100, w / 0x100 % 0x100, w % 0x100]
  }

  lemma LowOctet(n: nat, k: nat)
    ensures ToBytes(n, k + 1) == ToBytes(n / 0x100, k) + [n % 0x100]
  {
  }

  /** An octet of what was added below goes first. */
  lemma ShiftSum(high: nat, low: nat)
    ensures (high * 0x100 + low) / 0x100 == high + low / 0x100 && (high * 0x100 + low) % 0x100 == low % 0x100
  {
  }

  lemma OneMoreWord(high: nat, w: uint32, k: nat)
    ensures ToBytes(high * 0x1_0000_0000 + w, k + 4) == ToBytes(high, k) + WordOctets(w)
  {
    var n0, n1 := high * 0x1_0000_0000 + w, high * 0x100_0000 + w / 0x100;
    var n2, n3 := high * 0x1_0000 + w / 0x1_0000, high * 0x100 + w / 0x100_0000;
    ShiftSum(high * 0x100_0000, w);
    ShiftSum(high * 0x1_0000, w / 0x100);
    ShiftSum(high * 0x100, w / 0x1_0000);
    ShiftSum(high, w / 0x100_0000);
    hide ToBytes;
    LowOctet(n0, k + 3);
    LowOctet(n1, k + 2);
    LowOctet(n2, k + 1);
    LowOctet(n3, k);
    assert n0 / 0x100 == n1 && n1 / 0x100 == n2 && n2 / 0x100 == n3 && n3 / 0x100 == high;
    assert ToBytes(high, k) + WordOctets(w)
           == ToBytes(high, k) + [n3 % 0x100] + [n2 % 0x100] + [n1 % 0x100] + [n0 % 0x100];
  }

  lemma OctetsOfWord(w: uint32)
    ensures WordOctets(w) == [w / 0x100_0000, w / 0x1_0000 % 0x100, w / 0x100 % 0x100, w % 0x100]
  {
  }

  /** The octets of the n highest words. */
  function HighWords(words: seq<uint32>, n: nat): bytes
    requires n <= |words|
  {
    if n == 0 then [] else HighWords(words, n - 1) + WordOctets(words[|words| - n])
  }

  lemma AllWords(resp: Response)
    ensures HighWords([resp.r0, resp.r1, resp.r2, resp.r3], 4)
         == WordOctets(resp.r3) + WordOctets(resp.r2) + WordOctets(resp.r1) + WordOctets(resp.r0)
  {
    hide WordOctets;
    var words := [resp.r0, resp.r1, resp.r2, resp.r3];
    assert HighWords(words, 1) == WordOctets(resp.r3);
    assert HighWords(words, 3) == HighWords(words, 2) + WordOctets(resp.r1);
  }

  /** The words from the highest on are the number in network order. */
  lemma CidOctets(resp: Response)
    ensures ToBytes(CidRegister(resp), 16)
         == WordOctets(resp.r3) + WordOctets(resp.r2) + WordOctets(resp.r1) + WordOctets(resp.r0)
    ensures ToBytes(CidRegister(resp), 15) == ToBytes(CidRegister(resp), 16)[1..]
  {
    hide WordOctets, ToBytes, Shr8;
    var a := resp.r3 * 0x1_0000_0000 + resp.r2;
    var b := a * 0x1_0000_0000 + resp.r1;
    OneMoreWord(0, resp.r3, 0);
    OneMoreWord(resp.r3, resp.r2, 4);
    OneMoreWord(a, resp.r1, 8);
    OneMoreWord(b, resp.r0, 12);
    NoOctets();
    ToBytesGrow(CidRegister(resp), 15);
    assert [] + WordOctets(resp.r3) == WordOctets(resp.r3);
  }

  /** As the octets of the registers: all of them, or without the first and with a zero at the end. */
  function CidFrom(resp: Response, compat: bool): bytes {
    var octets := WordOctets(resp.r3) + WordOctets(resp.r2) + WordOctets(resp.r1) + WordOctets(resp.r0);
    if compat then octets else octets[1..] + [0]
  }

  lemma NoOctets()
    ensures ToBytes(0, 0) == []
  {
  }

  // ----- the card -----

  /** SWITCH: write byte, index PART_CONF, value, command set 0. */
  function SwitchArg(value: nat): nat {
    0x300_0000 + EXT_CSD_PART_CONF * 0x1_0000 + value * 0x100
  }

  function PartConfFor(partConf: byte, part: nat): nat {
    partConf as int / 8 * 8 + part % 8
  }

  lemma SwitchArgFields(value: nat)
    requires value < 0x100
    ensures var arg := SwitchArg(value);
            && arg / 0x100_0000 == 3 && arg / 0x1_0000 % 0x100 == EXT_CSD_PART_CONF && arg / 0x100 % 0x100 == value
            && arg % 0x100 == 0
    ensures SwitchArg(value) / 0x100 % 8 == value % 8
  {
    assert SwitchArg(value) / 0x100 == 0x3_0000 + EXT_CSD_PART_CONF * 0x100 + value;
    assert SwitchArg(value) / 0x1_0000 == 0x300 + EXT_CSD_PART_CONF;
  }

  lemma PartConfFields(partConf: byte, part: nat)
    ensures var value := PartConfFor(partConf, part);
            value < 0x100 && value % 8 == part % 8 && value / 8 == partConf as int / 8
  {
  }

  lemma SwitchSelects(partConf: byte, conf: byte, part: nat)
    requires partConf as int / 8 == conf as int / 8
    ensures var arg := SwitchArg(PartConfFor(partConf, part));
            SelectsOnly(arg, conf) && arg / 0x100 % 0x100 % 8 == arg / 0x100 % 8 == part % 8
  {
    hide PartConfFor, SwitchArg;
    PartConfFields(partConf, part);
    SwitchArgFields(PartConfFor(partConf, part));
  }

  /**
    The octet of PART_CONF when a SWITCH has been carried out; one that does not
    write this octet could do anything.
   */
  function Switched(conf: byte, arg: nat, a: Answer): byte {
    if arg / 0x100_0000 == 3 && arg / 0x1_0000 % 0x100 == 179 then arg / 0x100 % 0x100 else a.conf
  }

  /**
    The octet when a command has been on the bus.  A SWITCH may have been carried out
    although no response arrives; CMD0 may select a partition, but keeps the rest.
   */
  function CardAfter(conf: byte, idx: nat, arg: nat, a: Answer): byte {
    if idx == GO_IDLE_STATE then conf as int / 8 * 8 + a.conf as int % 8
    else if idx != SWITCH then conf
    else if a.ok && SwitchRejected(a.resp.r0) then conf
    else if a.ok || a.taken then Switched(conf, arg, a)
    else conf
  }

  lemma CardKeepsBoot(conf: byte, idx: nat, arg: nat, a: Answer)
    requires idx == SWITCH ==> SelectsOnly(arg, conf)
    ensures CardAfter(conf, idx, arg, a) as int / 8 == conf as int / 8
  {
  }

  /** What the card sends; its EXT_CSD tells the octet. */
  function CardSends(conf: byte, idx: nat, length: nat, a: Answer): (b: bytes)
    ensures |b| == length
    ensures idx == SEND_EXT_CSD && length > EXT_CSD_PART_CONF ==> b[EXT_CSD_PART_CONF] == conf
    ensures forall i :: 0 <= i < length && i < |a.data| && !(idx == 8 && i == 179) ==> b[i] == a.data[i]
  {
    seq(length, i requires 0 <= i => CardOctet(conf, idx, i, a))
  }

  function CardOctet(conf: byte, idx: nat, i: nat, a: Answer): byte {
    if idx == SEND_EXT_CSD && i == EXT_CSD_PART_CONF then conf
    else if i < |a.data| then a.data[i] else 0
  }

  function Moved(write: bool, b: bytes): Frames {
    if write then Sent(b) else Received(b)
  }

  class Usdhc {
    const env: nat -> Answer
    const ocrPolls: nat
    // CFG_IMX_USDHC_CID_COMPAT
    const cidCompat: bool
    const dmaBounce: array<byte>
    var now: nat

    // registers
    var proctl: Register
    var sysctl: Register
    var mixctrl: Register

    // usdhc_ctx
    var clockBits: Register
    var cid: bytes
    var rpmbMult: byte
    var relWrSecC: byte
    var partConf: byte
    var curPart: nat
    var inited: bool

    ghost var bus: seq<Event>
    /** What SYSCTL was told to do. */
    ghost var pulsed: seq<Register>
    /** The PART_CONF octet of the card, not known to the driver; the environment's part of the state. */
    var cardConf: byte
    /** Another master has been at work since the last identification. */
    ghost var disturbed: bool

    ghost predicate Foreign()
      reads this
    {
      ForeignRegisters(proctl, sysctl, mixctrl, clockBits)
    }

    /** What the driver remembers of the card is what that has told. */
    ghost predicate Cached(id: Identity)
      reads this
    {
      && |id.extCsd| == BLOCK_SIZE
      && cid == CidLayout(id.cid, cidCompat)
      && partConf == id.extCsd[EXT_CSD_PART_CONF]
      && rpmbMult == id.extCsd[EXT_CSD_RPMB_MULT] && relWrSecC == id.extCsd[EXT_CSD_REL_WR_SEC_C]
    }

    /** What holds at every command. */
    ghost predicate Inv()
      reads this
    {
      && dmaBounce.Length == DMA_BOUNCE_BLOCKS * BLOCK_SIZE
      && Proper(bus)
      && (inited <==> curPart != UNKNOWN_PART)
      && (inited ==> Cached(IdentityOf(bus)))
      && (inited && !disturbed ==>
            && Progress(bus) == IDENTIFIED && !Foreign()
            && partConf as int / 8 == cardConf as int / 8
            && (curPart == PART_ACCESS_RPMB ==> CardPart() == PART_ACCESS_RPMB))
    }

    /** The partition that the card is on. */
    function CardPart(): nat
      reads this
    {
      cardConf as int % 8
    }

    /** Everything in the octet but the partition: what the card boots from, and its acknowledge bit. */
    function CardBoot(): nat
      reads this
    {
      cardConf as int / 8
    }

    /** What holds between calls: other masters leave traces. */
    ghost predicate Valid()
      reads this
    {
      Inv() && (inited && disturbed ==> Foreign())
    }

    constructor (env: nat -> Answer, ocrPolls: nat, cidCompat: bool, conf: byte,
                 proctl: Register, sysctl: Register, mixctrl: Register)
      ensures Valid() && !inited && !disturbed && bus == [] && pulsed == [] && now == 0 && fresh(dmaBounce)
      ensures this.env == env && this.ocrPolls == ocrPolls && this.cidCompat == cidCompat && cardConf == conf
      ensures this.proctl == proctl && this.sysctl == sysctl && this.mixctrl == mixctrl && clockBits == {}
    {
      this.env := env;
      this.ocrPolls := ocrPolls;
      this.cidCompat := cidCompat;
      this.cid := seq(CID_SIZE, _ => 0);
      this.rpmbMult := 0;
      this.relWrSecC := 0;
      this.now := 0;
      this.proctl := proctl;
      this.sysctl := sysctl;
      this.mixctrl := mixctrl;
      this.clockBits := {};
      this.partConf := 0;
      this.curPart := UNKNOWN_PART;
      this.inited := false;
      this.dmaBounce := new byte[DMA_BOUNCE_BLOCKS * BLOCK_SIZE](_ => 0);
      this.bus := [];
      this.pulsed := [];
      this.cardConf := conf;
      this.disturbed := false;
    }

    /**
      Another master uses the controller and the card; it does not leave the checked
      registers as this driver set them.
     */
    method OtherMasterWorks(proctl: Register, sysctl: Register, mixctrl: Register, conf: byte)
      requires Valid() && ForeignRegisters(proctl, sysctl, mixctrl, clockBits)
      modifies this
      ensures Valid() && bus == old(bus) + [OtherMaster] && inited == old(inited) && disturbed
      ensures this.proctl == proctl && this.sysctl == sysctl && this.mixctrl == mixctrl && cardConf == conf
    {
      hide Progress, Proper, ForeignRegisters, IdentityOf, CidLayout;
      OneMore(bus, OtherMaster);
      IdentityMore(bus, OtherMaster);
      this.proctl := proctl;
      this.sysctl := sysctl;
      this.mixctrl := mixctrl;
      bus := bus + [OtherMaster];
      cardConf := conf;
      disturbed := true;
    }

    /** An answer as the driver wants it: in time, the card ready, and no error of a SWITCH. */
    static predicate Good(a: Answer) {
      a.ok && 0x8000_0000 <= a.resp.r0 < 0xffff_ffff && a.resp.r0 / 128 % 2 == 0
    }

    /** Among the answers from one to the other was one that was not. */
    ghost predicate Fault(from: nat, to: nat) {
      exists k :: from <= k < to && !Good(env(k))
    }

    static function WithResponse(resp: Response): Answer {
      Answer(true, false, resp, [], {}, false, 0)
    }

    /** An error is returned only where hardware or card gave reason. */
    ghost predicate Excused(from: nat, r: TeeResult)
      reads this
    {
      from <= now && (r != Success ==> Fault(from, now))
    }

    /** Something did not come in time. */
    ghost predicate Unanswered(from: nat, to: nat) {
      exists k :: from <= k < to && !env(k).ok
    }

    lemma NotInTime(k: nat, from: nat, to: nat)
      requires from <= k < to && !env(k).ok
      ensures Fault(from, to)
    {
    }

    method Ask() returns (a: Answer)
      modifies this`now
      ensures now == old(now) + 1 && a == env(old(now))
    {
      a := env(now);
      now := now + 1;
    }

    /** Sets bits that the hardware clears; whether it does in time is the answer. */
    method PulseBits(bits: Register) returns (ok: bool)
      requires ClockField(bits) == {}
      modifies this`now, this`sysctl, this`pulsed
      ensures ClockField(sysctl) == ClockField(old(sysctl)) && pulsed == old(pulsed) + [bits]
      ensures now == old(now) + 1 && ok == env(old(now)).ok && (!ok ==> Fault(old(now), now))
      ensures sysctl == if ok then old(sysctl) - bits else old(sysctl) + bits
    {
      pulsed := pulsed + [bits];
      ClockFieldUntouched(sysctl, bits);
      sysctl := sysctl + bits;
      var a := Ask();
      if a.ok {
        sysctl := sysctl - bits;
      }
      ok := a.ok;
    }

    /** Command and data lines of the controller. */
    method ResetTransfer()
      requires Inv()
      modifies this`now, this`sysctl, this`pulsed
      ensures Inv() && Foreign() == old(Foreign()) && pulsed == old(pulsed) + [{25, 26}]
      ensures now == old(now) + 1
    {
      var _ := PulseBits(SYSCTL_RSTC_RSTD);
    }

    /** Card and controller are identified anew before anything else. */
    method StartFromScratch()
      requires Inv()
      modifies this`now, this`sysctl, this`pulsed, this`inited, this`curPart
      ensures Inv() && Foreign() == old(Foreign()) && !inited && curPart == UNKNOWN_PART
      ensures old(now) <= now && pulsed == old(pulsed) + [{25, 26}]
    {
      hide Proper, Progress, ForeignRegisters, IdentityOf, CidLayout;
      ResetTransfer();
      inited := false;
      curPart := UNKNOWN_PART;
    }

    // ----- commands -----

    /** What one call of send_cmd leaves on the bus: nothing, or this command. */
    ghost predicate OnBus(before: seq<Event>, confBefore: byte, idx: nat, arg: nat, blocks: nat, write: bool,
                          r: TeeResult, resp: Response, sent: bytes)
      reads this
    {
      if r == Success then
        && |bus| == |before| + 1 && bus[|before|].Command?
        && bus == before + [Command(idx, arg, blocks, write, sent, bus[|before|].mix, confBefore, Accepted(resp))]
      else
        || bus == before
        || exists o: Outcome, d, mix ::
             !o.Accepted? && bus == before + [Command(idx, arg, blocks, write, d, mix, confBefore, o)]
    }

    lemma SwitchSelectsOnly(e: Event)
      requires ProperAfter(bus, e) && e.Command?
      ensures e.idx == SWITCH ==> SelectsOnly(e.arg, e.conf)
    {
    }

    /** One more command on the bus, and what the card makes of it. */
    method Record(ghost e: Event, idx: nat, arg: nat, a: Answer)
      requires Inv() && (inited ==> !disturbed) && ProperAfter(bus, e)
      requires e.Command? && e.conf == cardConf && e.idx == idx && e.arg == arg
      requires inited ==> e.idx != GO_IDLE_STATE && !(e.idx == SWITCH && curPart == PART_ACCESS_RPMB)
      requires inited ==> e.idx != ALL_SEND_CID && e.idx != SEND_EXT_CSD
      requires inited ==> !e.outcome.DataFailed?
      modifies this`bus, this`cardConf
      ensures Inv() && bus == old(bus) + [e] && cardConf == CardAfter(old(cardConf), idx, arg, a)
      ensures CardBoot() == old(CardBoot())
      ensures Progress(bus) == Advance(Progress(old(bus)), e) && Exchanged(bus) == Exchanged(old(bus)) + FramesOf(e)
      ensures IdentityOf(bus) == IdentityAfter(IdentityOf(old(bus)), e)
    {
      hide Proper, ProperAfter, Progress, Exchanged, ForeignRegisters, IdentityOf, CidLayout;
      OneMore(bus, e);
      IdentityMore(bus, e);
      ExchangedMore(bus, e);
      SwitchSelectsOnly(e);
      CardKeepsBoot(cardConf, idx, arg, a);
      bus := bus + [e];
      cardConf := CardAfter(cardConf, idx, arg, a);
    }

    /** The data direction, block mode and, for a write, the data. */
    method PrepareData(data: array<byte>, blocks: nat, write: bool)
      requires Inv() && blocks * BLOCK_SIZE <= dmaBounce.Length && blocks * BLOCK_SIZE <= data.Length
               && data != dmaBounce
      modifies this`mixctrl, dmaBounce
      ensures Inv() && (!old(Foreign()) ==> !Foreign())
      ensures write ==> dmaBounce[..blocks * BLOCK_SIZE] == data[..blocks * BLOCK_SIZE]
      ensures !write ==> dmaBounce[..] == old(dmaBounce[..])
      ensures MixFor(mixctrl, blocks, write)
    {
      hide Proper, Progress, ClockField;
      var len := blocks * BLOCK_SIZE;
      if write {
        forall i | 0 <= i < len {
          dmaBounce[i] := data[i];
        }
      }
      var mix := {MIXCTRL_DMAEN};
      if blocks > 1 {
        mix := mix + {MIXCTRL_MSBSEL, MIXCTRL_BCEN};
      }
      if !write {
        mix := mix + {MIXCTRL_DTDSEL};
      }
      mixctrl := mix;
    }

    /** The controller fills the bounce buffer with what the card sends, and the caller gets its content. */
    method DeliverData(data: array<byte>, conf: byte, idx: nat, len: nat, a: Answer)
      requires len <= dmaBounce.Length && len <= data.Length && data != dmaBounce
      modifies dmaBounce, data
      ensures data[..len] == CardSends(conf, idx, len, a) && data[len..] == old(data[len..])
    {
      forall i | 0 <= i < len {
        dmaBounce[i] := CardOctet(conf, idx, i, a);
      }
      forall i | 0 <= i < len {
        data[i] := dmaBounce[i];
      }
    }

    /** The lines are free in time, or after a wedged transfer has been reset. */
    predicate LinesFree(n: nat) {
      env(n).ok || env(n + 2).ok
    }

    /** The answers that this takes. */
    function AfterLines(n: nat): nat {
      if env(n).ok then n + 1 else n + 3
    }

    /** Waits until command and data lines are free, resetting a wedged transfer once. */
    method WaitLines() returns (ok: bool)
      requires Inv()
      modifies this`now, this`sysctl, this`pulsed
      ensures Inv() && Foreign() == old(Foreign())
      ensures ok == LinesFree(old(now)) && now == AfterLines(old(now)) && (!ok ==> Fault(old(now), now))
      ensures pulsed == old(pulsed) + if env(old(now)).ok then [] else [{25, 26}]
    {
      hide Proper, Progress, ForeignRegisters, IdentityOf, CidLayout;
      var a := Ask();
      if !a.ok {
        ResetTransfer();
        a := Ask();
      }
      ok := a.ok;
    }

    /** An answer that did not come in time, or was wrong. */
    static function Refused(a: Answer): TeeResult {
      if a.late then Busy else Communication
    }

    /** The command itself, once the lines are free. */
    method Issue(idx: nat, arg: nat) returns (r: TeeResult, resp: Response)
      requires Inv() && (inited ==> !disturbed)
      requires idx != READ_MULTIPLE_BLOCK && idx != WRITE_MULTIPLE_BLOCK
      requires idx == SET_BLOCK_COUNT ==> bus != [] && bus[|bus| - 1].Released?
      requires idx == SWITCH ==> SelectsOnly(arg, cardConf)
      requires inited ==>
                 && idx != GO_IDLE_STATE && idx != ALL_SEND_CID && idx != SEND_EXT_CSD
                 && !(idx == SWITCH && curPart == PART_ACCESS_RPMB)
      modifies this`now, this`bus, this`cardConf
      ensures Inv() && CardBoot() == old(CardBoot()) && now == old(now) + 1
      ensures var a := env(old(now));
              && bus == old(bus) + [Command(idx, arg, 0, false, [], mixctrl, old(cardConf),
                                            if a.ok then Accepted(a.resp) else NoResponse)]
              && r == (if a.ok then Success else Refused(a)) && (a.ok ==> resp == a.resp)
              && cardConf == CardAfter(old(cardConf), idx, arg, a)
      ensures Counted(old(bus), r)
    {
      hide Proper, Progress, ForeignRegisters, Advance, Exchanged, IdentityOf, CidLayout, CardAfter;
      var a := Ask();
      if !a.ok {
        Record(Command(idx, arg, 0, false, [], mixctrl, cardConf, NoResponse), idx, arg, a);
        return if a.late then Busy else Communication, NO_RESPONSE;
      }
      Record(Command(idx, arg, 0, false, [], mixctrl, cardConf, Accepted(a.resp)), idx, arg, a);
      return Success, a.resp;
    }

    /** Nothing is issued on lines that are not free; otherwise the answer to the command decides. */
    ghost predicate Answered(n: nat, before: seq<Event>, r: TeeResult)
      reads this
    {
      if !LinesFree(n) then r == Busy && bus == before
      else
        var a := env(AfterLines(n));
        && r == (if a.ok then Success else Refused(a))
        && |bus| == |before| + 1 && bus[|before|].Command?
        && bus[|before|].outcome == if a.ok then Accepted(a.resp) else NoResponse
    }

    /** send_cmd without data. */
    method SendCmd(idx: nat, arg: nat) returns (r: TeeResult, resp: Response)
      requires Inv() && (inited ==> !disturbed)
      requires idx != READ_MULTIPLE_BLOCK && idx != WRITE_MULTIPLE_BLOCK
      requires idx == SET_BLOCK_COUNT ==> bus != [] && bus[|bus| - 1].Released?
      requires idx == SWITCH ==> SelectsOnly(arg, cardConf)
      requires inited ==>
                 && idx != GO_IDLE_STATE && idx != ALL_SEND_CID && idx != SEND_EXT_CSD
                 && !(idx == SWITCH && curPart == PART_ACCESS_RPMB)
      modifies this
      ensures Inv() && Foreign() == old(Foreign()) && Kept(old(disturbed), old(cid), old(clockBits), old(CardBoot()))
      ensures inited == old(inited) && curPart == old(curPart)
      ensures Answered(old(now), old(bus), r) && (r != Success ==> Unanswered(old(now), now))
      ensures OnBus(old(bus), old(cardConf), idx, arg, 0, false, r, resp, []) && Counted(old(bus), r)
      ensures idx != GO_IDLE_STATE && idx != SWITCH ==> cardConf == old(cardConf)
      ensures r == Success && idx == SWITCH && !SwitchRejected(resp.r0) ==> CardPart() == arg / 0x100 % 0x100 % 8
      ensures Excused(old(now), r) && (r == Success && !Good(WithResponse(resp)) ==> Fault(old(now), now))
      ensures r == Success ==> now > 0 && env(now - 1).ok && env(now - 1).resp == resp
      ensures r != Success && bus != old(bus) ==> now > 0 && r == if env(now - 1).late then Busy else Communication
    {
      hide Proper, Progress, ForeignRegisters, Advance, Exchanged, IdentityOf, CidLayout;
      var ok := WaitLines();
      if !ok {
        return Busy, NO_RESPONSE;
      }
      r, resp := Issue(idx, arg);
    }

    ghost predicate Kept(disturbed: bool, cid: bytes, clockBits: Register, boot: nat)
      reads this
    {
      this.disturbed == disturbed && this.cid == cid && this.clockBits == clockBits && CardBoot() == boot
    }

    /** The same with data, which is answered for separately. */
    ghost predicate DataAnswered(n: nat, before: seq<Event>, r: TeeResult)
      reads this
    {
      var a, d := env(n), env(n + 1);
      && r == (if !a.ok then Refused(a) else if !d.ok then Refused(d) else Success)
      && |bus| == |before| + 1 && bus[|before|].Command?
      && bus[|before|].outcome == if !a.ok then NoResponse else if !d.ok then DataFailed else Accepted(a.resp)
    }

    /** From the preparation of the data on. */
    method TransferData(idx: nat, arg: nat, data: array<byte>, blocks: nat, write: bool)
      returns (r: TeeResult, ghost resp: Response, ghost sent: bytes)
      requires Inv() && (inited ==> !disturbed && idx != SEND_EXT_CSD) && idx != GO_IDLE_STATE && idx != SWITCH
               && idx != ALL_SEND_CID
      requires data != dmaBounce && blocks * BLOCK_SIZE <= data.Length && blocks <= DMA_BOUNCE_BLOCKS
      requires idx != SET_BLOCK_COUNT && MayTransfer(bus, idx, arg, blocks, write, cardConf)
      modifies this, dmaBounce, data
      ensures Inv() && (!old(Foreign()) ==> !Foreign())
              && Kept(old(disturbed), old(cid), old(clockBits), old(CardBoot()))
              && cardConf == old(cardConf)
      ensures OnBus(old(bus), cardConf, idx, arg, blocks, write, r, resp, sent) && Counted(old(bus), r)
      ensures if |bus| > |old(bus)| && bus[|bus| - 1].outcome.DataFailed? then !inited && curPart == UNKNOWN_PART
              else inited == old(inited) && curPart == old(curPart)
      ensures write || r != Success ==> data[..] == old(data[..])
      ensures r == Success ==> data[..blocks * BLOCK_SIZE] == sent
      ensures r == Success && idx == SEND_EXT_CSD && !write && blocks == 1 ==> data[EXT_CSD_PART_CONF] == cardConf
      ensures Excused(old(now), r) && DataAnswered(old(now), old(bus), r)
      ensures r == Success ==>
                && now == old(now) + 2 && env(now - 2).ok && env(now - 1).ok
                && (!write ==> sent == CardSends(cardConf, idx, blocks * BLOCK_SIZE, env(now - 1)))
    {
      hide Proper, Progress, ForeignRegisters, IdentityOf, CidLayout, CardSends, DataAnswered, OnBus, Counted, Good,
        Fault, MayTransfer, Exchanged;
      PrepareData(data, blocks, write);
      r, resp, sent := IssueData(idx, arg, data, blocks, write);
    }

    /** send_cmd with data; after a failed data phase, card and controller start from scratch the next time. */
    method SendDataCmd(idx: nat, arg: nat, data: array<byte>, blocks: nat, write: bool)
      returns (r: TeeResult, ghost resp: Response, ghost sent: bytes)
      requires Inv() && (inited ==> !disturbed && idx != SEND_EXT_CSD) && idx != GO_IDLE_STATE && idx != SWITCH
               && idx != ALL_SEND_CID
      requires data != dmaBounce && (blocks <= DMA_BOUNCE_BLOCKS ==> blocks * BLOCK_SIZE <= data.Length)
      requires idx != SET_BLOCK_COUNT
               && (blocks <= DMA_BOUNCE_BLOCKS ==> MayTransfer(bus, idx, arg, blocks, write, cardConf))
      modifies this, dmaBounce, data
      ensures Inv() && (!old(Foreign()) ==> !Foreign())
              && Kept(old(disturbed), old(cid), old(clockBits), old(CardBoot()))
              && cardConf == old(cardConf)
      ensures OnBus(old(bus), cardConf, idx, arg, blocks, write, r, resp, sent) && Counted(old(bus), r)
      ensures if |bus| > |old(bus)| && bus[|bus| - 1].outcome.DataFailed? then !inited && curPart == UNKNOWN_PART
              else inited == old(inited) && curPart == old(curPart)
      ensures write || r != Success ==> data[..] == old(data[..])
      ensures r == Success ==> blocks <= DMA_BOUNCE_BLOCKS && data[..blocks * BLOCK_SIZE] == sent
      ensures r == Success && idx == SEND_EXT_CSD && !write && blocks == 1 ==>
                data[EXT_CSD_PART_CONF] == cardConf
      ensures blocks > DMA_BOUNCE_BLOCKS ==> r != Success && bus == old(bus)
      ensures blocks <= 32 ==> Excused(old(now), r)
      ensures if !LinesFree(old(now)) then r == Busy && bus == old(bus)
              else if blocks > 32 then r == ExcessData && bus == old(bus)
              else DataAnswered(AfterLines(old(now)), old(bus), r)
      ensures r == Success ==>
                && now >= 2 && env(now - 2).ok && env(now - 1).ok
                && (!write ==> sent == CardSends(cardConf, idx, blocks * BLOCK_SIZE, env(now - 1)))
    {
      hide Proper, Progress, ForeignRegisters, IdentityOf, CidLayout, CardSends, DataAnswered;
      resp, sent := NO_RESPONSE, [];
      var ok := WaitLines();
      if !ok {
        return Busy, NO_RESPONSE, [];
      }
      if blocks * BLOCK_SIZE > dmaBounce.Length {
        return ExcessData, NO_RESPONSE, [];
      }
      r, resp, sent := TransferData(idx, arg, data, blocks, write);
    }

    /** How identification and frames come along with one command. */
    ghost predicate Counted(before: seq<Event>, r: TeeResult)
      reads this
    {
      if r == Success then
        && bus != [] && Progress(bus) == Advance(Progress(before), bus[|bus| - 1])
        && Exchanged(bus) == Exchanged(before) + FramesOf(bus[|bus| - 1])
        && IdentityOf(bus) == IdentityAfter(IdentityOf(before), bus[|bus| - 1])
      else Exchanged(bus) == Exchanged(before) && IdentityOf(bus) == IdentityOf(before)
    }

    lemma NothingMoved(e: Event, id: Identity)
      requires e.Command? && !e.outcome.Accepted?
      ensures FramesOf(e) == [] && IdentityAfter(id, e) == id
    {
    }

    /** A data phase that does not complete. */
    method FailData(idx: nat, arg: nat, ghost out: bytes, blocks: nat, write: bool, a: Answer)
      requires Inv() && (inited ==> !disturbed) && idx != GO_IDLE_STATE && idx != SWITCH
      requires idx != SET_BLOCK_COUNT && MayTransfer(bus, idx, arg, blocks, write, cardConf)
               && MixFor(mixctrl, blocks, write)
      modifies this`now, this`sysctl, this`pulsed, this`inited, this`curPart, this`bus, this`cardConf
      ensures Inv() && Foreign() == old(Foreign()) && !inited && curPart == UNKNOWN_PART && cardConf == old(cardConf)
      ensures bus == old(bus) + [Command(idx, arg, blocks, write, out, mixctrl, cardConf, DataFailed)]
      ensures Exchanged(bus) == Exchanged(old(bus)) && IdentityOf(bus) == IdentityOf(old(bus))
      ensures old(now) <= now && pulsed == old(pulsed) + [{25, 26}]
    {
      hide Proper, Progress, Advance, Exchanged, ForeignRegisters, SwitchRejected, MayTransfer, MixFor, Announces,
        IdentityOf, CidLayout, FramesOf, IdentityAfter;
      StartFromScratch();
      ghost var failed := Command(idx, arg, blocks, write, out, mixctrl, cardConf, DataFailed);
      NothingMoved(failed, IdentityOf(bus));
      Record(failed, idx, arg, a);
    }

    /** The data phase of a command that the card has accepted. */
    method DataPhase(idx: nat, arg: nat, data: array<byte>, blocks: nat, write: bool, a: Answer)
      returns (r: TeeResult, ghost resp: Response, ghost sent: bytes)
      requires now > 0 && a == env(now - 1) && a.ok
      requires Inv() && (inited ==> !disturbed && idx != SEND_EXT_CSD) && idx != GO_IDLE_STATE && idx != SWITCH
               && idx != ALL_SEND_CID
      requires data != dmaBounce && blocks * BLOCK_SIZE <= data.Length && blocks <= DMA_BOUNCE_BLOCKS
      requires idx != SET_BLOCK_COUNT && MayTransfer(bus, idx, arg, blocks, write, cardConf)
               && MixFor(mixctrl, blocks, write)
      requires write ==> dmaBounce[..blocks * BLOCK_SIZE] == data[..blocks * BLOCK_SIZE]
      modifies this, dmaBounce, data
      ensures Inv() && Foreign() == old(Foreign()) && Kept(old(disturbed), old(cid), old(clockBits), old(CardBoot()))
              && cardConf == old(cardConf)
      ensures OnBus(old(bus), cardConf, idx, arg, blocks, write, r, resp, sent) && Counted(old(bus), r)
      ensures if |bus| > |old(bus)| && bus[|bus| - 1].outcome.DataFailed? then !inited && curPart == UNKNOWN_PART
              else inited == old(inited) && curPart == old(curPart)
      ensures write || r != Success ==> data[..] == old(data[..])
      ensures r == Success ==> data[..blocks * BLOCK_SIZE] == sent
      ensures r == Success && idx == SEND_EXT_CSD && !write && blocks == 1 ==>
                data[EXT_CSD_PART_CONF] == cardConf
      ensures Excused(old(now), r)
      ensures DataAnswered(old(now) - 1, old(bus), r)
      ensures r == Success ==>
                && now == old(now) + 1
                && (!write ==> sent == CardSends(cardConf, idx, blocks * BLOCK_SIZE, env(now - 1)))
    {
      hide Proper, Progress, Advance, Exchanged, ForeignRegisters, SwitchRejected, MayTransfer, MixFor, Announces,
        IdentityOf, CidLayout,
        FramesOf, IdentityAfter, CardSends, Good, Fault;
      ghost var out := if write then dmaBounce[..blocks * BLOCK_SIZE] else [];
      resp, sent := a.resp, out;
      var d := Ask();
      if !d.ok {
        FailData(idx, arg, out, blocks, write, a);
        NotInTime(old(now), old(now), now);
        return if d.late then Busy else Communication, a.resp, [];
      }
      sent := MoveData(idx, arg, data, blocks, write, a, d);
      return Success, a.resp, sent;
    }

    /** A data phase that completes. */
    method MoveData(idx: nat, arg: nat, data: array<byte>, blocks: nat, write: bool, a: Answer, d: Answer)
      returns (ghost sent: bytes)
      requires Inv() && (inited ==> !disturbed && idx != SEND_EXT_CSD) && idx != GO_IDLE_STATE && idx != SWITCH
               && idx != ALL_SEND_CID
      requires data != dmaBounce && blocks * BLOCK_SIZE <= data.Length && blocks <= DMA_BOUNCE_BLOCKS
      requires idx != SET_BLOCK_COUNT && MayTransfer(bus, idx, arg, blocks, write, cardConf)
               && MixFor(mixctrl, blocks, write)
      requires write ==> dmaBounce[..blocks * BLOCK_SIZE] == data[..blocks * BLOCK_SIZE]
      modifies this`bus, this`cardConf, dmaBounce, data
      ensures Inv() && cardConf == old(cardConf)
      ensures OnBus(old(bus), cardConf, idx, arg, blocks, write, Success, a.resp, sent) && Counted(old(bus), Success)
      ensures write ==> data[..] == old(data[..])
      ensures data[..blocks * BLOCK_SIZE] == sent
      ensures idx == SEND_EXT_CSD && !write && blocks == 1 ==> data[EXT_CSD_PART_CONF] == cardConf
      ensures bus[|bus| - 1].Command? && bus[|bus| - 1].outcome == Accepted(a.resp) && |bus| == |old(bus)| + 1
      ensures !write ==> sent == CardSends(cardConf, idx, blocks * BLOCK_SIZE, d)
    {
      hide Proper, Progress, Advance, Exchanged, ForeignRegisters, SwitchRejected, MayTransfer, MixFor, Announces,
        IdentityOf, CidLayout,
        FramesOf, IdentityAfter, CardSends;
      sent := dmaBounce[..blocks * BLOCK_SIZE];
      if !write {
        DeliverData(data, cardConf, idx, blocks * BLOCK_SIZE, d);
        sent := CardSends(cardConf, idx, blocks * BLOCK_SIZE, d);
      }
      Record(Command(idx, arg, blocks, write, sent, mixctrl, cardConf, Accepted(a.resp)), idx, arg, a);
    }

    /** The command, its response and its data phase. */
    method IssueData(idx: nat, arg: nat, data: array<byte>, blocks: nat, write: bool)
      returns (r: TeeResult, ghost resp: Response, ghost sent: bytes)
      requires Inv() && (inited ==> !disturbed && idx != SEND_EXT_CSD) && idx != GO_IDLE_STATE && idx != SWITCH
               && idx != ALL_SEND_CID
      requires data != dmaBounce && blocks * BLOCK_SIZE <= data.Length && blocks <= DMA_BOUNCE_BLOCKS
      requires idx != SET_BLOCK_COUNT && MayTransfer(bus, idx, arg, blocks, write, cardConf)
               && MixFor(mixctrl, blocks, write)
      requires write ==> dmaBounce[..blocks * BLOCK_SIZE] == data[..blocks * BLOCK_SIZE]
      modifies this, dmaBounce, data
      ensures Inv() && Foreign() == old(Foreign()) && Kept(old(disturbed), old(cid), old(clockBits), old(CardBoot()))
              && cardConf == old(cardConf)
      ensures OnBus(old(bus), cardConf, idx, arg, blocks, write, r, resp, sent) && Counted(old(bus), r)
      ensures if |bus| > |old(bus)| && bus[|bus| - 1].outcome.DataFailed? then !inited && curPart == UNKNOWN_PART
              else inited == old(inited) && curPart == old(curPart)
      ensures write || r != Success ==> data[..] == old(data[..])
      ensures r == Success ==> data[..blocks * BLOCK_SIZE] == sent
      ensures r == Success && idx == SEND_EXT_CSD && !write && blocks == 1 ==>
                data[EXT_CSD_PART_CONF] == cardConf
      ensures Excused(old(now), r)
      ensures DataAnswered(old(now), old(bus), r)
      ensures r == Success ==>
                && now == old(now) + 2 && env(now - 2).ok && env(now - 1).ok
                && (!write ==> sent == CardSends(cardConf, idx, blocks * BLOCK_SIZE, env(now - 1)))
    {
      hide Proper, Progress, Advance, Exchanged, ForeignRegisters, SwitchRejected, MayTransfer, MixFor, Announces,
        IdentityOf, CidLayout, CardSends, Good, Unanswered, LinesFree, AfterLines;
      ghost var out := if write then dmaBounce[..blocks * BLOCK_SIZE] else [];
      var a := Ask();
      if !a.ok {
        NotInTime(old(now), old(now), now);
        Record(Command(idx, arg, blocks, write, out, mixctrl, cardConf, NoResponse), idx, arg, a);
        return if a.late then Busy else Communication, NO_RESPONSE, [];
      }
      r, resp, sent := DataPhase(idx, arg, data, blocks, write, a);
    }

    // ----- initialization -----

    /** want holds the divider bits of SYSCTL. */
    method SetClock(want: Register)
      requires Inv() && !inited && ClockField(want) == want
      modifies this`sysctl, this`clockBits
      ensures Inv() && ClockField(sysctl) == clockBits == want && (!old(Foreign()) ==> !Foreign())
      // the longest data time-out, and nothing else
      ensures sysctl * {16, 17, 18, 19} == {17, 18, 19}
      ensures forall b :: b < 4 || b >= 20 ==> (b in sysctl <==> b in old(sysctl))
    {
      hide Proper, Progress, ClockField, WithoutClockAndTimeout;
      ClockFieldSet(sysctl, want);
      sysctl := WithoutClockAndTimeout(sysctl) + want + SYSCTL_TIMEOUT_14;
      clockBits := want;
    }

    method ResetController() returns (r: TeeResult)
      requires Inv() && !inited
      modifies this`now, this`sysctl, this`pulsed, this`mixctrl, this`proctl, this`clockBits
      ensures Inv() && (r == Success ==> !Foreign())
      ensures r == (if env(old(now)).ok && env(old(now) + 3).ok then Success else Busy) && Excused(old(now), r)
      // the whole controller, the FIFO, the initialization clocks; 0x20 in PROCTL, divider 64, no mode
      ensures r == Success ==> pulsed == old(pulsed) + [{24, 28}, {22}, {27}]
      ensures r == Success ==> proctl == {5} && ClockField(sysctl) == {13} && mixctrl == {}
    {
      hide Proper, Progress, WithoutClockAndTimeout, Good, Fault, IdentityOf, ForeignRegisters, CidLayout;
      ghost var n := now;
      assert ClockField(SYSCTL_RSTA_RSTT) == {};
      var ok := PulseBits(SYSCTL_RSTA_RSTT);
      if !ok {
        NotInTime(n, n, now);
        return Busy;
      }
      ok := SetDefaults();
      if !ok {
        NotInTime(n + 3, n, now);
      }
      return if ok then Success else Busy;
    }

    /** The registers after a reset, which leaves what the hardware has in them. */
    method SetDefaults() returns (ok: bool)
      requires Inv() && !inited
      modifies this`now, this`sysctl, this`pulsed, this`mixctrl, this`proctl, this`clockBits
      ensures Inv() && !Foreign() && now == old(now) + 3 && ok == env(old(now) + 2).ok
      ensures pulsed == old(pulsed) + [{22}, {27}] && proctl == {5} && ClockField(sysctl) == {13} && mixctrl == {}
      ensures forall b :: b < 4 || (b >= 20 && b != 22 && b != 27) ==> (b in sysctl <==> b in env(old(now)).word)
    {
      hide Proper, Progress, WithoutClockAndTimeout, IdentityOf, CidLayout;
      assert ClockField(SYSCTL_RST_FIFO) == {} && ClockField(SYSCTL_INITA) == {};
      assert ClockField(PRESCALER_0X20) == PRESCALER_0X20;
      var a := Ask();
      sysctl := a.word;
      mixctrl := {};
      var _ := PulseBits(SYSCTL_RST_FIFO);
      proctl := PROCTL_DEFAULT;
      SetClock(PRESCALER_0X20);
      ok := PulseBits(SYSCTL_INITA);
    }

    /** Bit 31 of an answer to CMD1 that is not all ones. */
    predicate SaysReady(e: Event) {
      e.Ok(1) && 0x8000_0000 <= e.outcome.resp.r0 < 0xffff_ffff
    }

    lemma PollAnswered(e: Event)
      requires e.Did(SEND_OP_COND, 0x40ff_8000)
      ensures Advance(1, e) == if CardReady(e.outcome.resp.r0) then 2 else 1
      ensures SaysReady(e) <==> CardReady(e.outcome.resp.r0) && e.outcome.resp.r0 != 0xffff_ffff
      ensures FramesOf(e) == [] && (Good(WithResponse(e.outcome.resp)) ==> SaysReady(e))
    {
    }

    lemma LastNotReady(bus: seq<Event>)
      ensures bus != [] && !(bus[|bus| - 1].Command? && bus[|bus| - 1].outcome.Accepted?) ==>
                !SaysReady(bus[|bus| - 1])
    {
    }

    /** CMD1 until the card is ready. */
    method WaitOpCond() returns (r: TeeResult)
      requires Inv() && !inited && !Foreign() && Progress(bus) == 1
      modifies this
      ensures Inv() && !inited && !Foreign() && Kept(old(disturbed), old(cid), old(clockBits), old(CardBoot()))
      ensures old(bus) <= bus && Exchanged(bus) == Exchanged(old(bus)) && (r == Success ==> Progress(bus) == 2)
      ensures r == Success <==> |bus| > |old(bus)| && SaysReady(bus[|bus| - 1])
      // not given up too early
      ensures r == Busy && |bus| <= |old(bus)| + ocrPolls ==> Unanswered(old(now), now)
      ensures Excused(old(now), r)
    {
      hide Proper, Progress, Exchanged, Advance, CardReady, SaysReady, ForeignRegisters, IdentityOf, CidLayout,
        Answered, LinesFree, AfterLines, Good;
      var polls := 0;
      while true
        invariant Inv() && !inited && !Foreign() && Progress(bus) == 1
                  && Kept(old(disturbed), old(cid), old(clockBits), old(CardBoot()))
        invariant old(bus) <= bus && Exchanged(bus) == Exchanged(old(bus)) && polls <= ocrPolls
        invariant |bus| > |old(bus)| ==> !SaysReady(bus[|bus| - 1])
        invariant |bus| == |old(bus)| + polls
        invariant old(now) <= now && (polls > 0 ==> Fault(old(now), now))
        decreases ocrPolls - polls
      {
        var resp;
        r, resp := SendCmd(SEND_OP_COND, 0x40ff_8000);
        if r != Success {
          LastNotReady(bus);
          return;
        }
        PollAnswered(bus[|bus| - 1]);
        if resp.r0 == 0xffff_ffff {
          return Communication;
        }
        if CardReady(resp.r0) {
          return Success;
        }
        if polls == ocrPolls {
          return Busy;
        }
        polls := polls + 1;
      }
    }

    /** Up to the first commands at full clock speed; the identification of the card is kept as it was received. */
    method CardIdentify() returns (r: TeeResult)
      requires Inv() && !inited && !Foreign()
      modifies this
      ensures Inv() && !inited && !Foreign() && disturbed == old(disturbed) && CardBoot() == old(CardBoot())
      ensures old(bus) <= bus && Exchanged(bus) == Exchanged(old(bus)) && (r == Success ==> Progress(bus) == 6)
      // at the full clock by then
      ensures r == Success ==> clockBits == {}
      ensures r == Success ==> cid == CidLayout(IdentityOf(bus).cid, cidCompat)
      ensures Excused(old(now), r)
    {
      hide Proper, Progress, Exchanged, ForeignRegisters, CardReady, SwitchRejected, IdentityOf, CidLayout, Answered,
        LinesFree, AfterLines, Good, Unanswered, Refused, DataAnswered, CardSends, SelectsOnly, MixFor;
      var resp;
      r, resp := SendCmd(GO_IDLE_STATE, 0);
      if r != Success {
        return;
      }
      r := WaitOpCond();
      if r != Success {
        return;
      }
      r, resp := SendCmd(ALL_SEND_CID, 0);
      if r != Success {
        return;
      }
      StoreCid(resp);
      r := SelectCard();
    }

    /** Rebuilds the CID from the response registers. */
    method StoreCid(resp: Response)
      requires Inv() && !inited
      modifies this`cid
      ensures Inv() && cid == CidLayout(resp, cidCompat)
    {
      hide Proper, Progress, ForeignRegisters, IdentityOf, CidRegister, WordOctets;
      CidOctets(resp);
      AllWords(resp);
      var words := [resp.r0, resp.r1, resp.r2, resp.r3];
      var raw: bytes := [];
      for i := 0 to 4
        invariant raw == HighWords(words, i)
      {
        var w := words[3 - i];
        OctetsOfWord(w);
        raw := raw + [w / 0x100_0000, w / 0x1_0000 % 0x100, w / 0x100 % 0x100, w % 0x100];
      }
      cid := if cidCompat then raw else raw[1..] + [0];
    }

    /** The second half of card_identify, at full clock speed from CMD7 on. */
    method SelectCard() returns (r: TeeResult)
      requires Inv() && !inited && !Foreign() && Progress(bus) == 3
      modifies this
      ensures Inv() && !inited && !Foreign() && disturbed == old(disturbed) && cid == old(cid)
      ensures CardBoot() == old(CardBoot()) && (r == Success ==> clockBits == {})
      ensures old(bus) <= bus && Exchanged(bus) == Exchanged(old(bus)) && (r == Success ==> Progress(bus) == 6)
      ensures r == Success ==> IdentityOf(bus) == IdentityOf(old(bus))
      ensures Excused(old(now), r)
    {
      hide Proper, Progress, Exchanged, ForeignRegisters, CardReady, SwitchRejected, IdentityOf, CidLayout, Answered,
        LinesFree, AfterLines, Good, Unanswered, Refused, DataAnswered, CardSends, SelectsOnly, MixFor;
      var resp;
      r, resp := SendCmd(SET_RELATIVE_ADDR, 0x1_0000);
      if r != Success {
        return;
      }
      SetClock({});
      r, resp := SendCmd(SELECT_CARD, 0x1_0000);
      if r != Success {
        return;
      }
      r, resp := SendCmd(SET_BLOCKLEN, BLOCK_SIZE);
    }

    /** imx_usdhc_init: trusts the cached state only while the registers are as this driver set them. */
    method Init() returns (r: TeeResult)
      requires Valid()
      modifies this, dmaBounce
      ensures Valid() && Proper(bus) && old(bus) <= bus && Exchanged(bus) == Exchanged(old(bus))
              && CardBoot() == old(CardBoot())
      ensures r == Success ==> inited && !disturbed
      ensures r != Success ==> !inited && curPart == UNKNOWN_PART
      ensures old(inited && !disturbed) ==> r == Success && bus == old(bus)
      ensures old(inited && disturbed) && r == Success ==> |bus| > |old(bus)|
      ensures Excused(old(now), r)
      ensures (!old(inited) || old(Foreign())) && !env(old(now)).ok ==> r == Generic && bus == old(bus)
    {
      hide Proper, Progress, Exchanged, ForeignRegisters, Advance, IdentityOf, CidLayout, Answered, LinesFree,
        AfterLines, Unanswered, Refused, DataAnswered, CardSends, SwitchRejected, SelectsOnly, MixFor;
      if inited {
        var foreign := ControllerStateForeign();
        if !foreign {
          return Success;
        }
        inited := false;
        curPart := UNKNOWN_PART;
      }
      var pads := Ask();
      if !pads.ok {
        return Generic;
      }
      r := ResetController();
      if r != Success {
        return;
      }
      r := CardIdentify();
      if r != Success {
        return;
      }
      r := ReadConfiguration();
    }

    method ReadConfiguration() returns (r: TeeResult)
      requires Inv() && !inited && !Foreign() && Progress(bus) == 6
      requires cid == CidLayout(IdentityOf(bus).cid, cidCompat)
      modifies this, dmaBounce
      ensures Inv() && old(bus) <= bus && Exchanged(bus) == Exchanged(old(bus)) && CardBoot() == old(CardBoot())
      ensures r == Success ==> inited && !disturbed && |bus| > |old(bus)|
      ensures r != Success ==> !inited && curPart == UNKNOWN_PART
      ensures Excused(old(now), r)
    {
      hide Proper, Progress, Exchanged, ForeignRegisters, IdentityOf, CidLayout, Answered, LinesFree, AfterLines, Good,
        Unanswered, Refused, DataAnswered, CardSends, SwitchRejected, SelectsOnly, MixFor;
      var extCsd := new byte[BLOCK_SIZE](_ => 0);
      ghost var resp, sent;
      r, resp, sent := SendDataCmd(SEND_EXT_CSD, 0, extCsd, 1, false);
      if r != Success {
        return;
      }
      assert extCsd[..] == sent == IdentityOf(bus).extCsd;
      Remember(extCsd);
    }

    method Remember(extCsd: array<byte>)
      requires Inv() && !inited && !Foreign() && Progress(bus) == IDENTIFIED
      requires extCsd.Length == BLOCK_SIZE && extCsd[..] == IdentityOf(bus).extCsd
      requires extCsd[EXT_CSD_PART_CONF] == cardConf && cid == CidLayout(IdentityOf(bus).cid, cidCompat)
      modifies this`rpmbMult, this`relWrSecC, this`partConf, this`curPart, this`inited, this`disturbed
      ensures Inv() && inited && !disturbed
    {
      hide Proper, Progress, Exchanged, ForeignRegisters, IdentityOf, CidLayout;
      rpmbMult := extCsd[EXT_CSD_RPMB_MULT];
      relWrSecC := extCsd[EXT_CSD_REL_WR_SEC_C];
      partConf := extCsd[EXT_CSD_PART_CONF];
      curPart := partConf as int % 8;
      inited := true;
      disturbed := false;
    }

    /**
      imx_usdhc_dev_info: what the card has told in the identification that holds,
      fresh if need be.  The CID is put together from the response registers.
     */
    method DevInfo() returns (r: TeeResult, cid: bytes, rpmbSizeMult: byte, relWrSecC: byte)
      requires Valid()
      modifies this, dmaBounce
      ensures Valid() && Proper(bus) && old(bus) <= bus && Exchanged(bus) == Exchanged(old(bus))
              && CardBoot() == old(CardBoot())
      ensures r == Success ==> inited && !disturbed
      ensures r == Success ==>
                var id := IdentityOf(bus);
                && cid == CidFrom(id.cid, cidCompat)
                && |id.extCsd| == 512 && rpmbSizeMult == id.extCsd[168] && relWrSecC == id.extCsd[222]
      ensures Excused(old(now), r)
    {
      hide Proper, Progress, Exchanged, ForeignRegisters, IdentityOf, CidRegister;
      r := Init();
      cid, rpmbSizeMult, relWrSecC := this.cid, this.rpmbMult, this.relWrSecC;
      CidOctets(IdentityOf(bus).cid);
    }

    method ControllerStateForeign() returns (foreign: bool)
      ensures foreign <==> Foreign()
    {
      if 1 in proctl || 2 in proctl {
        return true;
      }
      if ClockField(sysctl) != clockBits {
        return true;
      }
      if exists b :: b in mixctrl && 8 <= b {
        return true;
      }
      return false;
    }

    // ----- RPMB transfers -----

    /** What the card sent, octet by octet; zeroes are for what is left open of it. */
    static predicate FromCard(b: bytes, sent: bytes) {
      forall i :: 0 <= i < |b| && i < |sent| ==> b[i] == sent[i]
    }

    /** A SWITCH to the partition, its status without bit 7, the error bit of a SWITCH. */
    predicate Selected(e: Event, part: nat) {
      e.Ok(6) && e.arg / 0x100 % 8 == part && e.outcome.resp.r0 / 128 % 2 == 0
    }

    lemma SwitchAnswered(e: Event, part: nat)
      requires e.Ok(SWITCH) && e.arg / 0x100 % 8 == part
      ensures Selected(e, part) <==> !SwitchRejected(e.outcome.resp.r0)
      ensures Good(WithResponse(e.outcome.resp)) ==> !SwitchRejected(e.outcome.resp.r0)
    {
    }

    lemma NotSelected(bus: seq<Event>, part: nat)
      ensures bus != [] && !(bus[|bus| - 1].Command? && bus[|bus| - 1].outcome.Accepted?) ==>
                !Selected(bus[|bus| - 1], part)
    {
    }

    /** To any partition; from the RPMB partition nothing switches away. */
    method SwitchPartition(part: nat) returns (r: TeeResult)
      requires Inv() && inited && !disturbed && part < 8
      requires curPart == PART_ACCESS_RPMB ==> part == PART_ACCESS_RPMB
      modifies this
      ensures Inv() && inited && !disturbed && old(bus) <= bus && Exchanged(bus) == Exchanged(old(bus))
      ensures r == Success ==> curPart == part
      ensures r == Success && (part == PART_ACCESS_RPMB || old(curPart) != part) ==> CardPart() == part
      ensures CardBoot() == old(CardBoot()) && (r != Success ==> curPart == old(curPart))
      ensures old(curPart) == part ==> r == Success && bus == old(bus)
      ensures old(curPart) != part ==> (r == Success <==> |bus| > |old(bus)| && Selected(bus[|bus| - 1], part))
      ensures Excused(old(now), r)
    {
      hide Proper, Progress, Exchanged, ForeignRegisters, Advance, SwitchArg, PartConfFor, IdentityOf, CidLayout,
        SwitchRejected, Selected, Good, SelectsOnly, Answered, LinesFree, AfterLines, Unanswered, Refused, DataAnswered,
          CardSends, MixFor;
      if curPart == part {
        return Success;
      }
      var value := PartConfFor(partConf, part);
      SwitchSelects(partConf, cardConf, part);
      var resp;
      r, resp := SendCmd(SWITCH, SwitchArg(value));
      if r != Success {
        NotSelected(bus, part);
        return;
      }
      SwitchAnswered(bus[|bus| - 1], part);
      if SwitchRejected(resp.r0) {
        return Generic;
      }
      curPart := part;
    }

    /** The card releases DAT0 when it is done programming. */
    method WaitCardReady() returns (r: TeeResult)
      requires Inv()
      modifies this`now, this`bus
      ensures Inv() && Exchanged(bus) == Exchanged(old(bus))
      ensures if r == Success then bus == old(bus) + [Released] else r == Busy && bus == old(bus)
      ensures Excused(old(now), r)
      ensures now == old(now) + 1 && (r == Success <==> env(old(now)).ok)
    {
      hide Proper, Progress, Exchanged, ForeignRegisters, IdentityOf, CidLayout;
      var a := Ask();
      if !a.ok {
        return Busy;
      }
      OneMore(bus, Released);
      ExchangedMore(bus, Released);
      IdentityMore(bus, Released);
      bus := bus + [Released];
      return Success;
    }

    /** nblocks | BIT32(31) for a write, in 32 bits. */
    function SetBlockCountArg(nblocks: nat, write: bool): nat {
      var word := nblocks % 0x1_0000_0000;
      if write && word < RELIABLE_WRITE then word + RELIABLE_WRITE else word
    }

    /** One announced transfer of frames, over initialized controller and card. */
    method RpmbXfer(buf: array<byte>, nblocks: nat, write: bool) returns (r: TeeResult)
      requires Valid() && buf != dmaBounce && nblocks * BLOCK_SIZE <= buf.Length
      modifies this, dmaBounce, buf
      ensures Valid() && Proper(bus) && old(bus) <= bus && CardBoot() == old(CardBoot())
      ensures r == Success ==> nblocks <= 32
      ensures r == Success ==> Exchanged(bus) == Exchanged(old(bus)) + [Moved(write, buf[..nblocks * BLOCK_SIZE])]
      ensures r != Success ==> Exchanged(bus) == Exchanged(old(bus))
      ensures write || r != Success ==> buf[..] == old(buf[..])
      ensures nblocks <= 32 ==> Excused(old(now), r)
      ensures r == Success ==>
                && now >= 2 && env(now - 2).ok && env(now - 1).ok
                && (!write ==> FromCard(buf[..nblocks * BLOCK_SIZE], env(now - 1).data))
    {
      hide Proper, Progress, Exchanged, ForeignRegisters, Advance, SetBlockCountArg, IdentityOf, CidLayout, Answered,
        LinesFree, AfterLines, Good, FromCard, Unanswered, Refused, DataAnswered, CardSends, SwitchRejected,
          SelectsOnly, MixFor, Selected;
      r := Init();
      if r != Success {
        return;
      }
      r := SwitchPartition(PART_ACCESS_RPMB);
      if r != Success {
        return;
      }
      r := WaitCardReady();
      if r != Success {
        return;
      }
      r := AnnouncedTransfer(buf, nblocks, write);
    }

    /** CMD23 and, directly behind it, CMD25 or CMD18. */
    method AnnouncedTransfer(buf: array<byte>, nblocks: nat, write: bool) returns (r: TeeResult)
      requires bus != [] && bus[|bus| - 1].Released?
      requires Inv() && inited && !disturbed && CardPart() == PART_ACCESS_RPMB && buf != dmaBounce
               && nblocks * BLOCK_SIZE <= buf.Length
      modifies this, dmaBounce, buf
      ensures Inv() && !disturbed && old(bus) <= bus && CardBoot() == old(CardBoot())
      ensures r == Success ==> nblocks <= DMA_BOUNCE_BLOCKS
      ensures r == Success ==> Exchanged(bus) == Exchanged(old(bus)) + [Moved(write, buf[..nblocks * BLOCK_SIZE])]
      ensures r != Success ==> Exchanged(bus) == Exchanged(old(bus))
      ensures write || r != Success ==> buf[..] == old(buf[..])
      ensures nblocks <= 32 ==> Excused(old(now), r)
      ensures r == Success ==>
                && now >= 2 && env(now - 2).ok && env(now - 1).ok
                && (!write ==> FromCard(buf[..nblocks * BLOCK_SIZE], env(now - 1).data))
    {
      hide Proper, Progress, Exchanged, ForeignRegisters, Advance, IdentityOf, CidLayout, Answered, LinesFree,
        AfterLines, Good, Unanswered, Refused, DataAnswered, CardSends, SwitchRejected, SelectsOnly, MixFor;
      var resp;
      r, resp := SendCmd(SET_BLOCK_COUNT, SetBlockCountArg(nblocks, write));
      if r != Success {
        return;
      }
      ghost var answer, sent;
      var idx := if write then WRITE_MULTIPLE_BLOCK else READ_MULTIPLE_BLOCK;
      r, answer, sent := SendDataCmd(idx, 0, buf, nblocks, write);
    }

    /**
      After a failed data phase, or another master, the cached state is not used: Init
      goes through the identification.
     */
    lemma TroubleIsRemembered()
      requires Valid() && bus != []
      requires var e := bus[|bus| - 1]; e.OtherMaster? || (e.Command? && e.outcome.DataFailed?)
      ensures !inited || Foreign()
    {
      OneMore(bus[..|bus| - 1], bus[|bus| - 1]);
    }

    method RpmbRead(buf: array<byte>, nblocks: nat) returns (r: TeeResult)
      requires Valid() && buf != dmaBounce && nblocks * BLOCK_SIZE <= buf.Length
      modifies this, dmaBounce, buf
      ensures Valid() && Proper(bus) && old(bus) <= bus && CardBoot() == old(CardBoot())
              && (r == Success ==> nblocks <= 32)
      ensures Exchanged(bus) == Exchanged(old(bus)) + if r == Success then [Received(buf[..nblocks * BLOCK_SIZE])]
              else []
      ensures r != Success ==> buf[..] == old(buf[..])
      ensures nblocks <= 32 ==> Excused(old(now), r)
      ensures r == Success ==>
                now >= 2 && env(now - 2).ok && env(now - 1).ok
                  && FromCard(buf[..nblocks * BLOCK_SIZE], env(now - 1).data)
    {
      hide Proper, Progress, Exchanged, ForeignRegisters, IdentityOf, CidLayout, Good, Unanswered, Refused,
        DataAnswered, CardSends, SwitchRejected, SelectsOnly, MixFor;
      r := RpmbXfer(buf, nblocks, false);
    }

    /** The frames can have been taken although the wait for the card then fails. */
    method RpmbWrite(buf: array<byte>, nblocks: nat) returns (r: TeeResult)
      requires Valid() && buf != dmaBounce && nblocks * BLOCK_SIZE <= buf.Length
      modifies this, dmaBounce, buf
      ensures Valid() && Proper(bus) && old(bus) <= bus && CardBoot() == old(CardBoot()) && buf[..] == old(buf[..])
      ensures r == Success ==> nblocks <= 32 && bus != [] && bus[|bus| - 1].Released?
      ensures Exchanged(bus) == Exchanged(old(bus)) + [Sent(buf[..nblocks * BLOCK_SIZE])]
              || (r != Success && Exchanged(bus) == Exchanged(old(bus)))
      ensures nblocks <= 32 ==> Excused(old(now), r)
      ensures r == Success ==> now >= 3 && env(now - 3).ok && env(now - 2).ok && env(now - 1).ok
    {
      hide Proper, Progress, Exchanged, ForeignRegisters, IdentityOf, CidLayout, FromCard, Good, Unanswered, Refused,
        DataAnswered, CardSends, SwitchRejected, SelectsOnly, MixFor;
      r := RpmbXfer(buf, nblocks, true);
      if r != Success {
        return;
      }
      r := WaitCardReady();
    }
  }
}
