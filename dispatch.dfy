/**
 * What a guest write to the controller page, or a virtual interrupt sent
 * by the hypervisor, does: the new register page, the calls made into the
 * rest of the hypervisor (recorded as events) and the status returned.
 *
 * The calls into the virtual-interrupt and vcpu layers (virq_enable,
 * virq_disable, clear_pending_virq, send_virq_to_vcpu, vcpu_power_on) are
 * not modelled; each becomes an Event. get_vcpu_in_vm is a parameter: the
 * set of vcpu ids for which it finds a vcpu.
 */
module Dispatch {
  import opened Words
  import opened Layout
  import opened SpiBank
  import opened RegisterFile

  /** A call into the rest of the hypervisor. */
  datatype Event =
    | Enable(vcpu: nat, virq: int)          // virq_enable(vcpu, virq)
    | Disable(vcpu: nat, virq: int)         // virq_disable(vcpu, virq)
    | ClearPending(vcpu: nat, irq: u32)     // clear_pending_virq(vcpu, irq)
    | Send(target: nat, sgi: nat)           // send_virq_to_vcpu(target, sgi)
    | PowerOn(vcpu: nat, cpu: nat, entry: u64) // vcpu_power_on(vcpu, cpuid_to_affinity(cpu), entry, 0)

  /** The VM of the writing vcpu: vm->vcpu_nr, and the ids get_vcpu_in_vm finds. */
  datatype Vm = Vm(vcpuNr: nat, present: set<nat>)

  /** The outcome of one handler: the register page after it, the calls it made, its return value. */
  datatype Effect = Effect(page: Page, events: seq<Event>, status: int)

  /** virq_enable or virq_disable, as `enable` says. */
  function Toggle(enable: bool, vcpu: nat, virq: int): Event
  {
    if enable then Enable(vcpu, virq) else Disable(vcpu, virq)
  }

  /** e is a virq_enable (or, when !enable, a virq_disable) call for vcpu. */
  predicate IsToggle(enable: bool, vcpu: nat, e: Event)
  {
    (if enable then e.Enable? else e.Disable?) && e.vcpu == vcpu
  }

  // ---------------------------------------------------------------------
  // Routing by offset (bcm2836_virq_write, bcm2835_virq_write)

  datatype Route =
    | Ignored                          // LOCAL_CONTROL, LOCAL_PRESCALER, mailbox interrupt control, default
    | TimerControl(cpu: nat)           // LOCAL_TIMER_INT_CONTROL0 .. 3
    | MailboxSet(cpu: nat)             // LOCAL_MAILBOX_SET_START .. END
    | MailboxClear(cpu: nat)           // LOCAL_MAILBOX_CLR_START .. END
    | SpinRelease(cpu: nat)            // BCM2836_RELEASE_OFFSET .. END
    | MaskWrite(enable: bool, base: nat) // the legacy enable and disable registers
    | LegacyAck                        // BCM2835_IRQ_ACK
    | LocalAck                         // BCM2836_IRQ_ACK

  /**
   * The handler a write at byte offset `offset` of the page reaches. The
   * per-core index is the offset into the register group divided by the
   * group's stride (4 for timer control, 16 for mailboxes, 8 for release
   * entries).
   */
  function RouteWrite(offset: nat): (r: Route)
    requires offset < PageSize
    ensures (r.TimerControl? || r.MailboxSet? || r.MailboxClear? || r.SpinRelease?) ==> r.cpu < MaxCores && offset < Bcm2835IncOffset
    ensures r.MaskWrite? || r.LegacyAck? || r.LocalAck? ==> offset >= Bcm2835IncOffset
    ensures r.MaskWrite? ==> r.base == 32 || r.base == 64 || r.base == 96
  {
    if offset >= Bcm2835IncOffset then
      if offset == Bcm2835IrqEnable1 then MaskWrite(true, 64)
      else if offset == Bcm2835IrqEnable2 then MaskWrite(true, 96)
      else if offset == Bcm2835IrqBasicEnable then MaskWrite(true, 32)
      else if offset == Bcm2835IrqDisable1 then MaskWrite(false, 64)
      else if offset == Bcm2835IrqDisable2 then MaskWrite(false, 96)
      else if offset == Bcm2835IrqDisableBasic then MaskWrite(false, 32)
      else if offset == Bcm2835IrqAck then LegacyAck
      else if offset == Bcm2836IrqAck then LocalAck
      else Ignored
    else if LocalTimerIntControl0 <= offset <= LocalTimerIntControl3 then
      TimerControl((offset - LocalTimerIntControl0) / 4)
    else if LocalMailboxSetStart <= offset <= LocalMailboxSetEnd then
      MailboxSet((offset - LocalMailboxSetStart) / 16)
    else if LocalMailboxClrStart <= offset <= LocalMailboxClrEnd then
      MailboxClear((offset - LocalMailboxClrStart) / 16)
    else if ReleaseOffset <= offset <= ReleaseOffsetEnd then
      SpinRelease((offset - ReleaseOffset) / 8)
    else
      Ignored
  }

  /** Each core's registers route to that core's handler. */
  lemma RouteFindsCore(cpu: nat, j: nat)
    requires cpu < MaxCores && j < 4
    ensures RouteWrite(4 * TimerControlWord(cpu)) == TimerControl(cpu)
    ensures RouteWrite(LocalMailboxSetStart + 16 * cpu + 4 * j) == MailboxSet(cpu)
    ensures RouteWrite(4 * MailboxClrWord(cpu) + 4 * j) == MailboxClear(cpu)
    ensures RouteWrite(ReleaseOffset + 8 * cpu) == SpinRelease(cpu)
  {
    assert (16 * cpu + 4 * j) / 16 == cpu;
    assert (8 * cpu) / 8 == cpu;
  }

  /**
   * A word-aligned write that reaches a per-core handler addresses that
   * core's register: the timer-control word, or one of the four mailbox
   * words, mailbox 0 first.
   */
  lemma RouteAddressesCoreRegister(offset: nat)
    requires offset < PageSize && offset % 4 == 0
    ensures RouteWrite(offset).TimerControl? ==> offset / 4 == TimerControlWord(RouteWrite(offset).cpu)
    ensures RouteWrite(offset).MailboxClear? ==>
      MailboxClrWord(RouteWrite(offset).cpu) <= offset / 4 < MailboxClrWord(RouteWrite(offset).cpu) + 4
    ensures RouteWrite(offset).MailboxSet? ==>
      LocalMailboxSetStart + 16 * RouteWrite(offset).cpu <= offset < LocalMailboxSetStart + 16 * RouteWrite(offset).cpu + 16
  {
    var r := RouteWrite(offset);
    if r.TimerControl? {
      assert offset - LocalTimerIntControl0 == 4 * r.cpu;
    } else if r.MailboxClear? {
      var d := offset - LocalMailboxClrStart;
      assert d == 16 * (d / 16) + d % 16;
    } else if r.MailboxSet? {
      var d := offset - LocalMailboxSetStart;
      assert d == 16 * (d / 16) + d % 16;
    }
  }

  /**
   * The enable and disable registers of legacy bank k act on the SPIs of
   * bank k: base 32 + 32k, and bit b of the written value names the SPI
   * with id b in that bank.
   */
  lemma MaskRoutesMatchBanks(bank: nat, b: nat)
    requires bank < NrBanks && b < 32
    ensures RouteWrite(EnableOffsets[bank]) == MaskWrite(true, 32 + 32 * bank)
    ensures RouteWrite(DisableOffsets[bank]) == MaskWrite(false, 32 + 32 * bank)
    ensures HwirqBank(32 + 32 * bank + b) == bank && LocalId(32 + 32 * bank + b) == b
  {
    assert 32 + 32 * bank + b == SpiOf(bank, b);
  }

  // ---------------------------------------------------------------------
  // Event sequences of the looping handlers

  /**
   * The calls for_each_set_bit(bit, value, n) makes in
   * bcm2835_virq_enable/disable: one per set bit below n, lowest first.
   */
  function MaskEventsBelow(enable: bool, vcpu: nat, base: nat, w: bv32, n: nat): (r: seq<Event>)
    requires n <= 32
    ensures forall virq :: Toggle(enable, vcpu, virq) in r <==> base <= virq < base + n && BitSet(w, virq - base)
    ensures forall i :: 0 <= i < |r| ==> IsToggle(enable, vcpu, r[i]) && r[i].virq < base + n
    ensures forall i, j :: 0 <= i < j < |r| ==> (r[i].Enable? || r[i].Disable?) && (r[j].Enable? || r[j].Disable?) && r[i].virq < r[j].virq
  {
    if n == 0 then []
    else MaskEventsBelow(enable, vcpu, base, w, n - 1) + (if BitSet(w, n - 1) then [Toggle(enable, vcpu, base + n - 1)] else [])
  }

  /** The calls of an enable or disable write: exactly one per set bit of the written word. */
  function MaskEvents(enable: bool, vcpu: nat, base: nat, w: bv32): (r: seq<Event>)
    ensures forall virq :: Toggle(enable, vcpu, virq) in r <==> base <= virq < base + 32 && BitSet(w, virq - base)
    ensures forall i :: 0 <= i < |r| ==> IsToggle(enable, vcpu, r[i])
    ensures forall i, j :: 0 <= i < j < |r| ==> (r[i].Enable? || r[i].Disable?) && (r[j].Enable? || r[j].Disable?) && r[i].virq < r[j].virq
  {
    MaskEventsBelow(enable, vcpu, base, w, 32)
  }

  /** The calls the first n rounds of the loop in bcm2836_timer_int_action make. */
  function TimerEventsBelow(vcpu: nat, v: bv32, n: nat): (r: seq<Event>)
    requires n <= 4
    ensures |r| == n
    ensures forall virq :: Enable(vcpu, virq) in r <==> 16 <= virq < 16 + n && BitSet(v, virq - 16)
    ensures forall virq :: Disable(vcpu, virq) in r <==> 16 <= virq < 16 + n && !BitSet(v, virq - 16)
    ensures forall i :: 0 <= i < n ==> (r[i].Enable? || r[i].Disable?) && r[i].vcpu == vcpu && r[i].virq == 16 + i
  {
    if n == 0 then []
    else TimerEventsBelow(vcpu, v, n - 1) + [Toggle(BitSet(v, n - 1), vcpu, 16 + n - 1)]
  }

  /**
   * The timer interrupts are PPIs 16 .. 19: a timer-control write enables
   * PPI 16 + i exactly when bit i of the value is set and disables it
   * otherwise, each once.
   */
  function TimerEvents(vcpu: nat, v: bv32): (r: seq<Event>)
    ensures |r| == 4
    ensures forall virq :: Enable(vcpu, virq) in r <==> 16 <= virq < 20 && BitSet(v, virq - 16)
    ensures forall virq :: Disable(vcpu, virq) in r <==> 16 <= virq < 20 && !BitSet(v, virq - 16)
    ensures forall i :: 0 <= i < 4 ==> (r[i].Enable? || r[i].Disable?) && r[i].vcpu == vcpu && r[i].virq == 16 + i
    ensures forall i :: 0 <= i < 4 ==> (r[i].Enable? <==> BitSet(v, i))
  {
    TimerEventsBelow(vcpu, v, 4)
  }

  // ---------------------------------------------------------------------
  // The handlers

  /**
   * The checks bcm2836_send_vsgi and bcm2836_clear_vsgi share: the SGI is
   * the lowest set bit of the written word, and the write is refused when
   * the value is zero, the core index exceeds vcpu_nr, the SGI is 16 or
   * more, or the VM has no such vcpu.
   */
  function MailboxRequest(vm: Vm, cpu: nat, value: u64): (r: Option<nat>)
    ensures r.Some? <==> value != 0 && cpu <= vm.vcpuNr && cpu in vm.present
                         && exists b :: 0 <= b < 16 && BitSet(Low32(value), b)
    ensures r.Some? ==> r.value < 16 && BitSet(Low32(value), r.value)
    ensures r.Some? ==> forall b :: 0 <= b < r.value ==> !BitSet(Low32(value), b)
  {
    if value == 0 then None
    else
      var sgi := LowestSetBit(Low32(value));
      if cpu > vm.vcpuNr || sgi >= 16 then None
      else if cpu !in vm.present then None
      else Some(sgi)
  }

  /**
   * bcm2836_send_vsgi: ask the rest of the hypervisor to send the SGI to
   * the target core. The page is not touched here; the status is whatever
   * send_virq_to_vcpu returns (`sendResult`).
   */
  function SendVsgiEffect(vm: Vm, p: Page, cpu: nat, value: u64, sendResult: int): (r: Effect)
    requires |p| == PageWords
    ensures r.page == p
    ensures MailboxRequest(vm, cpu, value).None? ==> r.events == [] && r.status == -EINVAL
    ensures MailboxRequest(vm, cpu, value).Some? ==>
      r.events == [Send(cpu, MailboxRequest(vm, cpu, value).value)] && r.status == sendResult
  {
    match MailboxRequest(vm, cpu, value)
    case None => Effect(p, [], -EINVAL)
    case Some(sgi) => Effect(p, [Send(cpu, sgi)], sendResult)
  }

  /**
   * bcm2836_clear_vsgi on the mailbox word `offset / 4` of core cpu: clear
   * the written bits, drop the core's mailbox summary bit when the word is
   * left zero, and clear the SGI pending on the writing vcpu.
   */
  function ClearVsgiEffect(vm: Vm, vcpu: nat, p: Page, offset: nat, value: u64): (r: Effect)
    requires |p| == PageWords && offset % 4 == 0 && LocalMailboxClrStart <= offset <= LocalMailboxClrEnd
    ensures |r.page| == PageWords
    ensures MailboxRequest(vm, (offset - LocalMailboxClrStart) / 16, value).None? ==> r == Effect(p, [], -EINVAL)
    ensures MailboxRequest(vm, (offset - LocalMailboxClrStart) / 16, value).Some? ==>
      && r.status == 0
      && r.events == [ClearPending(vcpu, MailboxRequest(vm, (offset - LocalMailboxClrStart) / 16, value).value)]
      && r.page[offset / 4] == ClearBits(p[offset / 4], Low32(value))
      && UnchangedExcept(p, r.page, {offset / 4, LocalPendingWord((offset - LocalMailboxClrStart) / 16)})
    ensures MailboxRequest(vm, (offset - LocalMailboxClrStart) / 16, value).Some? ==>
      r.page == ClearMailboxPage(p, offset / 4, (offset - LocalMailboxClrStart) / 16, Low32(value))
  {
    var cpu := (offset - LocalMailboxClrStart) / 16;
    match MailboxRequest(vm, cpu, value)
    case None => Effect(p, [], -EINVAL)
    case Some(sgi) => Effect(ClearMailboxPage(p, offset / 4, cpu, Low32(value)), [ClearPending(vcpu, sgi)], 0)
  }

  /**
   * bcm2836_timer_int_action: refused when the VM has no vcpu `cpu`;
   * otherwise the value is stored for the guest to read back and the four
   * timer PPIs of the writing vcpu are enabled or disabled.
   */
  function TimerEffect(vm: Vm, vcpu: nat, p: Page, cpu: nat, value: u64): (r: Effect)
    requires |p| == PageWords && cpu < MaxCores
    ensures cpu !in vm.present ==> r == Effect(p, [], -EINVAL)
    ensures cpu in vm.present ==>
      && r.status == 0 && r.page == StoreTimerControlPage(p, cpu, Low32(value))
      && r.events == TimerEvents(vcpu, Low32(value))
  {
    if cpu !in vm.present then Effect(p, [], -EINVAL)
    else Effect(StoreTimerControlPage(p, cpu, Low32(value)), TimerEvents(vcpu, Low32(value)), 0)
  }

  /**
   * bcm2835_virq_write at BCM2835_IRQ_ACK: the guest acknowledges legacy
   * interrupt `value`, virq value + 32 in uint32_t arithmetic. The
   * located bit is cleared (nothing, when the lookup refuses the virq) and
   * the virq is cleared pending on the writing vcpu in either case.
   */
  function LegacyAckEffect(vcpu: nat, p: Page, value: u64): (r: Effect)
    requires |p| == PageWords
    ensures |r.page| == PageWords && r.status == 0
    ensures r.events == [ClearPending(vcpu, Add32(Trunc32(value), 32))]
    ensures SpiLocation(Add32(Trunc32(value), 32)).None? ==> r.page == p
    ensures SpiLocation(Add32(Trunc32(value), 32)).Some? ==> r.page == ClearSpiPage(p, SpiLocation(Add32(Trunc32(value), 32)).value)
  {
    var irq := Add32(Trunc32(value), 32);
    var page := match SpiLocation(irq) case None => p case Some(loc) => ClearSpiPage(p, loc);
    Effect(page, [ClearPending(vcpu, irq)], 0)
  }

  /**
   * bcm2835_virq_write at BCM2836_IRQ_ACK: the guest acknowledges local
   * interrupt `value`. bcm2836_clear_ppi refuses ids above
   * LOCAL_IRQ_PMU_FAST; the pending PPI value + 16 is cleared in either case.
   */
  function LocalAckEffect(vcpu: nat, p: Page, value: u64): (r: Effect)
    requires |p| == PageWords && vcpu < MaxCores
    ensures |r.page| == PageWords && r.status == 0
    ensures r.events == [ClearPending(vcpu, Add32(Trunc32(value), 16))]
    ensures Trunc32(value) > LocalIrqPmuFast ==> r.page == p
    ensures Trunc32(value) <= LocalIrqPmuFast ==> r.page == ClearPpiPage(p, vcpu, Trunc32(value))
  {
    var irq := Trunc32(value);
    var page := if irq > LocalIrqPmuFast then p else ClearPpiPage(p, vcpu, irq);
    Effect(page, [ClearPending(vcpu, Add32(irq, 16))], 0)
  }

  /**
   * bcm2836_virq_write (and bcm2835_virq_write above offset 0x200): a
   * 32-bit-aligned guest write of `value` at byte offset `offset` of the
   * page, made by vcpu `vcpu` of `vm`. The handler's own status is dropped:
   * the write always returns 0.
   */
  function GuestWrite(vm: Vm, vcpu: nat, p: Page, offset: nat, value: u64): (r: Effect)
    requires |p| == PageWords && vcpu < MaxCores && offset < PageSize && offset % 4 == 0
    ensures |r.page| == PageWords && r.status == 0
    ensures (RouteWrite(offset).Ignored? || RouteWrite(offset).MaskWrite? || RouteWrite(offset).MailboxSet?
             || RouteWrite(offset).SpinRelease?) ==> r.page == p
  {
    match RouteWrite(offset)
    case Ignored => Effect(p, [], 0)
    case TimerControl(cpu) => TimerEffect(vm, vcpu, p, cpu, value).(status := 0)
    case MailboxSet(cpu) => SendVsgiEffect(vm, p, cpu, value, 0).(status := 0)
    case MailboxClear(_) => ClearVsgiEffect(vm, vcpu, p, offset, value).(status := 0)
    case SpinRelease(cpu) => Effect(p, [PowerOn(vcpu, cpu, value)], 0)
    case MaskWrite(enable, base) => Effect(p, MaskEvents(enable, vcpu, base, Low32(value)), 0)
    case LegacyAck => LegacyAckEffect(vcpu, p, value)
    case LocalAck => LocalAckEffect(vcpu, p, value)
  }

  /**
   * bcm_virq_send_virq: the register page after the hypervisor sends virq
   * to vcpu: SGIs 0 .. 15 go to the vcpu's mailbox, PPIs 16 .. 31 to its
   * local pending register (except the fast-GPU id), SPIs 32 .. 127 to the
   * legacy pending registers; anything else, or a refused lookup, leaves
   * the page as it was. It always returns 0.
   */
  function SendVirqPage(p: Page, vcpu: nat, virq: u32): (r: Page)
    requires |p| == PageWords && vcpu < MaxCores
    ensures |r| == PageWords
    ensures virq < 16 ==> r == InjectSgiPage(p, vcpu, virq)
    ensures 16 <= virq < 32 && virq - 16 != LocalIrqGpuFast ==> r == InjectPpiPage(p, vcpu, virq - 16)
    ensures 32 <= virq < 128 && SpiLocation(virq).Some? ==> r == InjectSpiPage(p, SpiLocation(virq).value)
    ensures virq - 16 == LocalIrqGpuFast || virq >= 128 || (virq >= 32 && SpiLocation(virq).None?) ==> r == p
  {
    if virq < 16 then InjectSgiPage(p, vcpu, virq)
    else if virq < 32 then (if virq - 16 == LocalIrqGpuFast then p else InjectPpiPage(p, vcpu, virq - 16))
    else if virq < 128 then (match SpiLocation(virq) case None => p case Some(loc) => InjectSpiPage(p, loc))
    else p
  }
}
