/**
 * What the controller guarantees across whole operations: a guest write
 * can only clear interrupt state, a send can only raise it, both keep the
 * summary bits right outside the cases named below, and acknowledging an
 * interrupt the hypervisor has just sent restores the page.
 */
module Guarantees {
  import opened Words
  import opened Layout
  import opened SpiBank
  import opened RegisterFile
  import opened Dispatch

  /**
   * A guest write never sets a bit in the page: the guest cannot make an
   * interrupt pending by writing. The one word it can raise bits in is the
   * timer-control word it writes to, which holds the value written.
   */
  lemma GuestWriteNeverRaises(vm: Vm, vcpu: nat, p: Page, offset: nat, value: u64)
    requires |p| == PageWords && vcpu < MaxCores && offset < PageSize && offset % 4 == 0
    ensures RouteWrite(offset).TimerControl? ==>
      NoBitRaised(p, GuestWrite(vm, vcpu, p, offset, value).page, {TimerControlWord(RouteWrite(offset).cpu)})
    ensures !RouteWrite(offset).TimerControl? ==> NoBitRaised(p, GuestWrite(vm, vcpu, p, offset, value).page, {})
  {
    var r := GuestWrite(vm, vcpu, p, offset, value);
    NoChangeNoBitRaised(p);
    match RouteWrite(offset)
    case TimerControl(cpu) =>
      forall k | 0 <= k < PageWords && k != TimerControlWord(cpu)
        ensures BitsWithin(r.page[k], p[k])
      {
        assert r.page[k] == p[k];
      }
    case MailboxClear(cpu) =>
      if MailboxRequest(vm, cpu, value).Some? {
        ClearMailboxNeverRaises(p, offset / 4, cpu, Low32(value));
      }
    case LegacyAck =>
      var irq := Add32(Trunc32(value), 32);
      if SpiLocation(irq).Some? {
        ClearSpiNeverRaises(p, SpiLocation(irq).value);
      }
    case LocalAck =>
      if Trunc32(value) <= LocalIrqPmuFast {
        ClearPpiNeverRaises(p, vcpu, Trunc32(value));
      }
    case _ =>
  }

  /** Sending a virq never clears a bit in the page. */
  lemma SendVirqNeverDrops(p: Page, vcpu: nat, virq: u32)
    requires |p| == PageWords && vcpu < MaxCores
    ensures NoBitDropped(p, SendVirqPage(p, vcpu, virq))
  {
    NoChangeNoBitRaised(p);
    if virq < 16 {
      InjectSgiNeverDrops(p, vcpu, virq);
    } else if virq < 32 {
      if virq - 16 != LocalIrqGpuFast {
        InjectPpiNeverDrops(p, vcpu, virq - 16);
      }
    } else if virq < 128 && SpiLocation(virq).Some? {
      InjectSpiNeverDrops(p, SpiLocation(virq).value);
    }
  }

  /**
   * Sending any virq keeps the legacy summary right, and an SPI makes it
   * right whatever it was: bit 8 is only ever set together with a legacy
   * pending bit, and the fast-GPU PPI is refused.
   */
  lemma SendVirqKeepsSummary(p: Page, vcpu: nat, virq: u32)
    requires |p| == PageWords && vcpu < MaxCores
    requires SummaryConsistent(p) || (32 <= virq < 128 && SpiLocation(virq).Some?)
    ensures SummaryConsistent(SendVirqPage(p, vcpu, virq))
  {
    if virq < 16 {
      InjectSgiKeepsSummary(p, vcpu, virq);
    } else if virq < 32 {
      if virq - 16 != LocalIrqGpuFast {
        InjectPpiKeepsSummary(p, vcpu, virq - 16);
      }
    } else if virq < 128 && SpiLocation(virq).Some? {
      InjectSpiSetsSummary(p, SpiLocation(virq).value);
    }
  }

  /**
   * Sending a virq keeps core c's mailbox summary right, except PPI 20 sent
   * to c itself, and an SGI sent to c makes it right whatever it was.
   */
  lemma SendVirqKeepsMailbox(p: Page, vcpu: nat, virq: u32, c: nat)
    requires |p| == PageWords && vcpu < MaxCores && c < MaxCores
    requires !(c == vcpu && virq == 16 + LocalIrqMailbox0)
    requires MailboxConsistent(p, c) || (c == vcpu && virq < 16)
    ensures MailboxConsistent(SendVirqPage(p, vcpu, virq), c)
  {
    if virq < 16 {
      InjectSgiKeepsMailbox(p, vcpu, virq, c);
    } else if virq < 32 {
      if virq - 16 != LocalIrqGpuFast {
        InjectPpiKeepsMailbox(p, vcpu, virq - 16, c);
      }
    } else if virq < 128 && SpiLocation(virq).Some? {
      InjectSpiKeepsMailbox(p, SpiLocation(virq).value, c);
    }
  }

  /**
   * Sending a virq keeps both summary invariants, except PPI 20, whose
   * local id is the mailbox summary bit: it sets that bit with mailbox 0
   * empty.
   */
  lemma SendVirqKeepsConsistent(p: Page, vcpu: nat, virq: u32)
    requires |p| == PageWords && vcpu < MaxCores && Consistent(p)
    requires virq != 16 + LocalIrqMailbox0
    ensures Consistent(SendVirqPage(p, vcpu, virq))
  {
    SendVirqKeepsSummary(p, vcpu, virq);
    forall c | 0 <= c < MaxCores
      ensures MailboxConsistent(SendVirqPage(p, vcpu, virq), c)
    {
      SendVirqKeepsMailbox(p, vcpu, virq, c);
    }
  }

  /** PPI 20 on an empty mailbox raises the mailbox summary bit alone. */
  lemma SendPpi20BreaksMailboxSummary()
    ensures !MailboxConsistent(SendVirqPage(ZeroPage(), 0, 16 + LocalIrqMailbox0), 0)
  {
    var r := SendVirqPage(ZeroPage(), 0, 16 + LocalIrqMailbox0);
    assert r[LocalPendingWord(0)] == SetBits(0, Mask(LocalIrqMailbox0));
  }

  /**
   * A guest write of 1 to mailbox 1 of core 0 (offset 0xc4), accepted for
   * vcpu 0, drops core 0's mailbox summary bit while mailbox 0 still holds
   * SGI 0.
   */
  lemma GuestClearOfMailbox1DropsSummary()
    ensures var p := ZeroPage()[MailboxClrWord(0) := 1][LocalPendingWord(0) := Mask(LocalIrqMailbox0)];
            Consistent(p) && !Consistent(GuestWrite(Vm(0, {0}), 0, p, 0xc4, 1).page)
  {
    ClearOtherMailboxDropsSummary();
    assert RouteWrite(0xc4) == MailboxClear(0);
    assert BitSet(Low32(1), 0);
    assert MailboxRequest(Vm(0, {0}), 0, 1).Some?;
  }

  /**
   * A guest write keeps the legacy summary right, whatever it does to the
   * mailbox summaries, except an acknowledge of local id 8 (the legacy
   * summary bit itself) from vcpu 0.
   */
  lemma GuestWriteKeepsSummary(vm: Vm, vcpu: nat, p: Page, offset: nat, value: u64)
    requires |p| == PageWords && vcpu < MaxCores && offset < PageSize && offset % 4 == 0
    requires SummaryConsistent(p)
    requires RouteWrite(offset).LocalAck? ==> !(vcpu == 0 && Trunc32(value) == SummaryBit)
    ensures SummaryConsistent(GuestWrite(vm, vcpu, p, offset, value).page)
  {
    match RouteWrite(offset)
    case TimerControl(cpu) =>
      if cpu in vm.present {
        StoreTimerControlKeepsSummary(p, cpu, Low32(value));
      }
    case MailboxClear(cpu) =>
      ClearVsgiEffectPage(vm, vcpu, p, offset, value);
      if MailboxRequest(vm, cpu, value).Some? {
        ClearMailboxKeepsSummary(p, offset / 4, cpu, Low32(value));
      }
    case LegacyAck =>
      var irq := Add32(Trunc32(value), 32);
      if SpiLocation(irq).Some? {
        ClearSpiKeepsSummary(p, SpiLocation(irq).value);
      }
    case LocalAck =>
      if Trunc32(value) <= LocalIrqPmuFast {
        ClearPpiKeepsSummary(p, vcpu, Trunc32(value));
      }
    case _ =>
  }

  /**
   * A guest write keeps core c's mailbox summary right, except a clear of
   * mailbox 1, 2 or 3 of core c, and an acknowledge of local id 4 (the
   * mailbox summary bit itself) by vcpu c.
   */
  lemma GuestWriteKeepsMailbox(vm: Vm, vcpu: nat, p: Page, offset: nat, value: u64, c: nat)
    requires |p| == PageWords && vcpu < MaxCores && offset < PageSize && offset % 4 == 0 && c < MaxCores
    requires MailboxConsistent(p, c)
    requires RouteWrite(offset) == MailboxClear(c) ==> offset == 4 * MailboxClrWord(c)
    requires RouteWrite(offset).LocalAck? && vcpu == c ==> Trunc32(value) != LocalIrqMailbox0
    ensures MailboxConsistent(GuestWrite(vm, vcpu, p, offset, value).page, c)
  {
    match RouteWrite(offset)
    case TimerControl(cpu) =>
      if cpu in vm.present {
        StoreTimerControlKeepsMailbox(p, cpu, Low32(value), c);
      }
    case MailboxClear(cpu) =>
      ClearVsgiEffectPage(vm, vcpu, p, offset, value);
      if MailboxRequest(vm, cpu, value).Some? {
        ClearMailboxKeepsMailbox(p, offset / 4, cpu, Low32(value), c);
      }
    case LegacyAck =>
      var irq := Add32(Trunc32(value), 32);
      if SpiLocation(irq).Some? {
        ClearSpiKeepsMailbox(p, SpiLocation(irq).value, c);
      }
    case LocalAck =>
      if Trunc32(value) <= LocalIrqPmuFast {
        ClearPpiKeepsMailbox(p, vcpu, Trunc32(value), c);
      }
    case _ =>
  }

  /**
   * A guest write keeps both summary invariants, except a clear of a
   * mailbox other than mailbox 0, and an acknowledge of local id 4 (the
   * mailbox summary bit) or, from vcpu 0, local id 8 (the legacy summary
   * bit).
   */
  lemma GuestWriteKeepsConsistent(vm: Vm, vcpu: nat, p: Page, offset: nat, value: u64)
    requires |p| == PageWords && vcpu < MaxCores && offset < PageSize && offset % 4 == 0
    requires Consistent(p)
    requires RouteWrite(offset).MailboxClear? ==> offset == 4 * MailboxClrWord(RouteWrite(offset).cpu)
    requires RouteWrite(offset).LocalAck? ==>
      Trunc32(value) != LocalIrqMailbox0 && !(vcpu == 0 && Trunc32(value) == SummaryBit)
    ensures Consistent(GuestWrite(vm, vcpu, p, offset, value).page)
  {
    match RouteWrite(offset)
    case TimerControl(cpu) =>
      TimerKeepsConsistent(vm, vcpu, p, cpu, value);
    case MailboxClear(cpu) =>
      ClearVsgiKeepsConsistent(vm, vcpu, p, cpu, value);
    case LegacyAck =>
      LegacyAckKeepsConsistent(vcpu, p, value);
    case LocalAck =>
      LocalAckKeepsConsistent(vcpu, p, value);
    case _ =>
  }

  lemma TimerKeepsConsistent(vm: Vm, vcpu: nat, p: Page, cpu: nat, value: u64)
    requires |p| == PageWords && cpu < MaxCores && Consistent(p)
    ensures Consistent(TimerEffect(vm, vcpu, p, cpu, value).page)
  {
    StoreTimerControlKeepsConsistent(p, cpu, Low32(value));
  }

  lemma ClearVsgiKeepsConsistent(vm: Vm, vcpu: nat, p: Page, cpu: nat, value: u64)
    requires |p| == PageWords && cpu < MaxCores && Consistent(p)
    ensures Consistent(ClearVsgiEffect(vm, vcpu, p, 4 * MailboxClrWord(cpu), value).page)
  {
    var offset := 4 * MailboxClrWord(cpu);
    RouteFindsCore(cpu, 0);
    assert RouteWrite(offset) == MailboxClear(cpu);
    ClearVsgiEffectPage(vm, vcpu, p, offset, value);
    assert offset / 4 == MailboxClrWord(cpu);
    if MailboxRequest(vm, cpu, value).Some? {
      ClearMailbox0KeepsConsistent(p, cpu, Low32(value));
    }
  }

  /**
   * A guest write to any of core cpu's four mailbox-clear words either is
   * refused and changes nothing, or is ClearMailboxPage on that word.
   */
  lemma ClearVsgiEffectPage(vm: Vm, vcpu: nat, p: Page, offset: nat, value: u64)
    requires |p| == PageWords && offset < PageSize && offset % 4 == 0 && RouteWrite(offset).MailboxClear?
    ensures LocalMailboxClrStart <= offset <= LocalMailboxClrEnd
    ensures MailboxClrWord(RouteWrite(offset).cpu) <= offset / 4 < MailboxClrWord(RouteWrite(offset).cpu) + 4
    ensures ClearVsgiEffect(vm, vcpu, p, offset, value).page
            == if MailboxRequest(vm, RouteWrite(offset).cpu, value).Some?
               then ClearMailboxPage(p, offset / 4, RouteWrite(offset).cpu, Low32(value)) else p
  {
    RouteAddressesCoreRegister(offset);
  }

  lemma LegacyAckKeepsConsistent(vcpu: nat, p: Page, value: u64)
    requires |p| == PageWords && Consistent(p)
    ensures Consistent(LegacyAckEffect(vcpu, p, value).page)
  {
    var irq := Add32(Trunc32(value), 32);
    if SpiLocation(irq).Some? {
      ClearSpiKeepsConsistent(p, SpiLocation(irq).value);
    }
  }

  lemma LocalAckKeepsConsistent(vcpu: nat, p: Page, value: u64)
    requires |p| == PageWords && vcpu < MaxCores && Consistent(p)
    requires Trunc32(value) != LocalIrqMailbox0 && !(vcpu == 0 && Trunc32(value) == SummaryBit)
    ensures Consistent(LocalAckEffect(vcpu, p, value).page)
  {
    if Trunc32(value) <= LocalIrqPmuFast {
      ClearPpiKeepsConsistent(p, vcpu, Trunc32(value));
    }
  }

  /**
   * The guest acknowledging, at BCM2835_IRQ_ACK, an SPI the hypervisor has
   * just sent (value virq - 32) restores the page and clears that virq
   * pending, provided its bit was clear before.
   */
  lemma SpiSendThenAck(vm: Vm, vcpu: nat, p: Page, virq: u32)
    requires |p| == PageWords && vcpu < MaxCores && 32 <= virq < 128 && SpiLocation(virq).Some?
    requires SummaryConsistent(p)
    requires !BitSet(p[PendingWord(SpiLocation(virq).value.bank)], SpiLocation(virq).value.bit)
    ensures GuestWrite(vm, vcpu, SendVirqPage(p, vcpu, virq), Bcm2835IrqAck, virq - 32)
            == Effect(p, [ClearPending(vcpu, virq)], 0)
  {
    var loc := SpiLocation(virq).value;
    assert Add32(Trunc32(virq - 32), 32) == virq;
    SpiInjectAckRoundTrip(p, loc);
  }

  /**
   * Two SPIs that the lookup places at the same bit (GPU 18 and 19, GPU 57
   * and 62) cannot be told apart in the page: after b is sent, the guest's
   * acknowledge of a clears b's pending bit.
   */
  lemma SharedAckClearsPartner(vm: Vm, vcpu: nat, p: Page, a: u32, b: u32)
    requires |p| == PageWords && vcpu < MaxCores && 32 <= a < 128
    requires SpiLocation(a).Some? && SpiLocation(a) == SpiLocation(b)
    ensures var loc, q := SpiLocation(b).value, SendVirqPage(p, vcpu, b);
            && BitSet(q[PendingWord(loc.bank)], loc.bit)
            && !BitSet(GuestWrite(vm, vcpu, q, Bcm2835IrqAck, a - 32).page[PendingWord(loc.bank)], loc.bit)
  {
    var loc := SpiLocation(b).value;
    SpiOfInverse(b);
    var q := SendVirqPage(p, vcpu, b);
    assert q == InjectSpiPage(p, loc);
    LegacyAckClears(vm, vcpu, q, a);
  }

  /** The guest's acknowledge at BCM2835_IRQ_ACK of value virq - 32 clears the located bit of virq. */
  lemma LegacyAckClears(vm: Vm, vcpu: nat, p: Page, virq: u32)
    requires |p| == PageWords && vcpu < MaxCores && 32 <= virq < 128 && SpiLocation(virq).Some?
    ensures GuestWrite(vm, vcpu, p, Bcm2835IrqAck, virq - 32).page == ClearSpiPage(p, SpiLocation(virq).value)
  {
    assert Add32(Trunc32(virq - 32), 32) == virq;
  }

  /**
   * The guest acknowledging, at BCM2836_IRQ_ACK, a PPI the hypervisor has
   * just sent (value virq - 16) restores the page, for local ids up to
   * LOCAL_IRQ_PMU_FAST other than the fast-GPU id.
   */
  lemma PpiSendThenAck(vm: Vm, vcpu: nat, p: Page, id: nat)
    requires |p| == PageWords && vcpu < MaxCores && id <= LocalIrqPmuFast && id != LocalIrqGpuFast
    requires !BitSet(p[LocalPendingWord(vcpu)], id)
    ensures GuestWrite(vm, vcpu, SendVirqPage(p, vcpu, 16 + id), Bcm2836IrqAck, id)
            == Effect(p, [ClearPending(vcpu, 16 + id)], 0)
  {
    PpiInjectClearRoundTrip(p, vcpu, id);
  }

  /**
   * PPIs 26 .. 31 can be sent but not acknowledged: bcm2836_clear_ppi
   * refuses local ids above LOCAL_IRQ_PMU_FAST, so their bit stays set in
   * the page after the guest's acknowledge.
   */
  lemma HighPpiStaysPending(vm: Vm, vcpu: nat, p: Page, id: nat)
    requires |p| == PageWords && vcpu < MaxCores && LocalIrqPmuFast < id < 16
    ensures var q := SendVirqPage(p, vcpu, 16 + id);
            && BitSet(q[LocalPendingWord(vcpu)], id)
            && GuestWrite(vm, vcpu, q, Bcm2836IrqAck, id).page == q
  {
    var q := SendVirqPage(p, vcpu, 16 + id);
    assert q[LocalPendingWord(vcpu)] == SetBits(p[LocalPendingWord(vcpu)], Mask(id));
  }
}
