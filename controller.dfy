/**
 * The emulated controller itself (struct bcm2836_virq): one page of
 * registers, updated in place by read-modify-write, and the per-bank
 * register offsets recorded when the VM is created. The calls the
 * controller makes into the rest of the hypervisor are kept in a ghost log.
 *
 * Every method is specified against the page and effect functions of
 * RegisterFile and Dispatch, whose properties are proved there and in
 * Guarantees.
 */
module BcmVirq {
  import opened Words
  import opened Layout
  import opened SpiBank
  import opened RegisterFile
  import opened Dispatch

  class Controller {
    /** The register page the guest reads directly, as 32-bit words. */
    const iomem: array<bv32>
    /** bcm2835_pending[bank], bcm2835_enable[bank], bcm2835_disable[bank]: byte offsets into the page. */
    const pending: seq<nat>
    const enable: seq<nat>
    const disable: seq<nat>
    /** The calls made into the rest of the hypervisor, oldest first. */
    ghost var log: seq<Event>

    ghost predicate Valid()
    {
      && iomem.Length == PageWords
      && pending == PendingOffsets && enable == EnableOffsets && disable == DisableOffsets
    }

    /** The page as a value. */
    function Contents(): (p: Page)
      reads iomem
      requires Valid()
      ensures |p| == PageWords
    {
      iomem[..]
    }

    /**
     * The part of bcm_virq_create_vm that builds the controller: record the
     * bank offsets and zero the page.
     */
    constructor ()
      ensures Valid() && fresh(iomem)
      ensures Contents() == ZeroPage() && log == []
    {
      iomem := new bv32[PageWords](_ => 0);
      pending := PendingOffsets;
      enable := EnableOffsets;
      disable := DisableOffsets;
      log := [];
    }

    /** bcm2836_virq_reset: memset(iomem, 0, PAGE_SIZE). */
    method Reset()
      requires Valid()
      modifies iomem
      ensures Contents() == ZeroPage()
    {
      forall k | 0 <= k < iomem.Length {
        iomem[k] := 0;
      }
    }

    /** bcm2836_inject_spi. */
    method InjectSpi(virq: u32) returns (status: int)
      requires Valid()
      modifies iomem
      ensures SpiLocation(virq).None? ==> status == -EINVAL && Contents() == old(Contents())
      ensures SpiLocation(virq).Some? ==> status == 0 && Contents() == InjectSpiPage(old(Contents()), SpiLocation(virq).value)
    {
      match SpiLocation(virq)
      case None =>
        return -EINVAL;
      case Some(loc) =>
        var base := pending[loc.bank] / 4;
        assert base == PendingWord(loc.bank);
        iomem[base] := SetBits(iomem[base], Mask(loc.bit));
        iomem[SummaryWord] := SetBits(iomem[SummaryWord], Mask(SummaryBit));
        return 0;
    }

    /** bcm2836_clear_spi. */
    method ClearSpi(virq: u32) returns (status: int)
      requires Valid()
      modifies iomem
      ensures SpiLocation(virq).None? ==> status == -EINVAL && Contents() == old(Contents())
      ensures SpiLocation(virq).Some? ==> status == 0 && Contents() == ClearSpiPage(old(Contents()), SpiLocation(virq).value)
    {
      match SpiLocation(virq)
      case None =>
        return -EINVAL;
      case Some(loc) =>
        var base := pending[loc.bank] / 4;
        assert base == PendingWord(loc.bank);
        iomem[base] := ClearBits(iomem[base], Mask(loc.bit));
        var p0, p1, p2 := iomem[pending[0] / 4], iomem[pending[1] / 4], iomem[pending[2] / 4];
        assert pending[0] / 4 == PendingWord(0) && pending[1] / 4 == PendingWord(1) && pending[2] / 4 == PendingWord(2);
        if p0 == 0 && p1 == 0 && p2 == 0 {
          iomem[SummaryWord] := ClearBits(iomem[SummaryWord], Mask(SummaryBit));
        }
        return 0;
    }

    /** bcm2836_inject_sgi: SGI virq to vcpu. */
    method InjectSgi(vcpu: nat, virq: u32) returns (status: int)
      requires Valid() && vcpu < MaxCores && virq < 16
      modifies iomem
      ensures status == 0 && Contents() == InjectSgiPage(old(Contents()), vcpu, virq)
    {
      var base := MailboxClrWord(vcpu);
      iomem[base] := SetBits(iomem[base], Mask(virq));
      base := LocalPendingWord(vcpu);
      iomem[base] := SetBits(iomem[base], Mask(LocalIrqMailbox0));
      return 0;
    }

    /** bcm2836_inject_ppi: PPI virq (16 .. 31) to vcpu. */
    method InjectPpi(vcpu: nat, virq: u32) returns (status: int)
      requires Valid() && vcpu < MaxCores && 16 <= virq < 32
      modifies iomem
      ensures virq - 16 == LocalIrqGpuFast ==> status == -EINVAL && Contents() == old(Contents())
      ensures virq - 16 != LocalIrqGpuFast ==> status == 0 && Contents() == InjectPpiPage(old(Contents()), vcpu, virq - 16)
    {
      var id := virq - 16;
      if id == LocalIrqGpuFast {
        return -EINVAL;
      }
      var base := LocalPendingWord(vcpu);
      iomem[base] := SetBits(iomem[base], Mask(id));
      return 0;
    }

    /** bcm2836_clear_ppi: clear local interrupt virq of vcpu. */
    method ClearPpi(vcpu: nat, virq: u32) returns (status: int)
      requires Valid() && vcpu < MaxCores
      modifies iomem
      ensures virq > LocalIrqPmuFast ==> status == -EINVAL && Contents() == old(Contents())
      ensures virq <= LocalIrqPmuFast ==> status == 0 && Contents() == ClearPpiPage(old(Contents()), vcpu, virq)
    {
      if virq > LocalIrqPmuFast {
        return -EINVAL;
      }
      var base := LocalPendingWord(vcpu);
      iomem[base] := ClearBits(iomem[base], Mask(virq));
      return 0;
    }

    /** bcm_virq_send_virq: route a virq sent to vcpu by its number. */
    method SendVirq(vcpu: nat, virq: u32) returns (status: int)
      requires Valid() && vcpu < MaxCores
      modifies iomem
      ensures status == 0 && Contents() == SendVirqPage(old(Contents()), vcpu, virq)
    {
      if virq < 16 {
        var _ := InjectSgi(vcpu, virq);
      } else if virq < 32 {
        var _ := InjectPpi(vcpu, virq);
      } else if virq < 128 {
        var _ := InjectSpi(virq);
      }
      return 0;
    }

    /**
     * bcm2835_virq_enable and bcm2835_virq_disable: for each set bit b of
     * the low 32 bits of value, lowest first, enable (or disable) virq
     * base + b on vcpu.
     */
    method ToggleBits(on: bool, vcpu: nat, base: nat, value: u64)
      modifies this
      ensures log == old(log) + MaskEvents(on, vcpu, base, Low32(value))
    {
      var w := Low32(value);
      for bit := 0 to 32
        invariant log == old(log) + MaskEventsBelow(on, vcpu, base, w, bit)
      {
        if BitSet(w, bit) {
          log := log + [Toggle(on, vcpu, base + bit)];
        }
      }
    }

    /** bcm2836_send_vsgi: `sendResult` is what send_virq_to_vcpu returns. */
    method SendVsgi(vm: Vm, offset: nat, value: u64, sendResult: int) returns (status: int)
      requires Valid() && LocalMailboxSetStart <= offset <= LocalMailboxSetEnd
      modifies this
      ensures var e := SendVsgiEffect(vm, Contents(), (offset - LocalMailboxSetStart) / 16, value, sendResult);
              log == old(log) + e.events && status == e.status
    {
      var cpu := (offset - LocalMailboxSetStart) / 16;
      if value == 0 {
        return -EINVAL;
      }
      var sgi := LowestSetBit(Low32(value));
      if cpu > vm.vcpuNr || sgi >= 16 {
        return -EINVAL;
      }
      if cpu !in vm.present {
        return -EINVAL;
      }
      log := log + [Send(cpu, sgi)];
      return sendResult;
    }

    /** bcm2836_clear_vsgi, written by vcpu. */
    method ClearVsgi(vm: Vm, vcpu: nat, offset: nat, value: u64) returns (status: int)
      requires Valid() && offset % 4 == 0 && LocalMailboxClrStart <= offset <= LocalMailboxClrEnd
      modifies this, iomem
      ensures var e := ClearVsgiEffect(vm, vcpu, old(Contents()), offset, value);
              Contents() == e.page && log == old(log) + e.events && status == e.status
    {
      var cpu := (offset - LocalMailboxClrStart) / 16;
      if value == 0 {
        return -EINVAL;
      }
      var sgi := LowestSetBit(Low32(value));
      if cpu > vm.vcpuNr || sgi >= 16 || cpu !in vm.present {
        assert MailboxRequest(vm, cpu, value).None?;
        return -EINVAL;
      }
      assert MailboxRequest(vm, cpu, value) == Some(sgi);
      ghost var before := Contents();
      var k := offset / 4;
      var v := ClearBits(iomem[k], Low32(value));
      iomem[k] := v;
      if v == 0 {
        var base := LocalPendingWord(cpu);
        iomem[base] := ClearBits(iomem[base], Mask(LocalIrqMailbox0));
      }
      assert Contents() == ClearMailboxPage(before, k, cpu, Low32(value));
      log := log + [ClearPending(vcpu, sgi)];
      return 0;
    }

    /** bcm2836_timer_int_action, for the timer-control register of core cpu, written by vcpu. */
    method TimerIntAction(vm: Vm, vcpu: nat, cpu: nat, value: u64) returns (status: int)
      requires Valid() && cpu < MaxCores
      modifies this, iomem
      ensures var e := TimerEffect(vm, vcpu, old(Contents()), cpu, value);
              Contents() == e.page && log == old(log) + e.events && status == e.status
    {
      var v := Low32(value);
      if cpu !in vm.present {
        return -EINVAL;
      }
      iomem[TimerControlWord(cpu)] := v;
      assert Contents() == StoreTimerControlPage(old(Contents()), cpu, v);
      TimerToggles(vcpu, v);
      return 0;
    }

    /**
     * The loop of bcm2836_timer_int_action: the timer interrupts are PPIs
     * 16 .. 19, and PPI 16 + i is enabled when bit i of v is set, disabled
     * otherwise.
     */
    method TimerToggles(vcpu: nat, v: bv32)
      modifies this
      ensures log == old(log) + TimerEvents(vcpu, v)
    {
      for i := 0 to 4
        invariant log == old(log) + TimerEventsBelow(vcpu, v, i)
      {
        if BitSet(v, i) {
          log := log + [Enable(vcpu, i + 16)];
        } else {
          log := log + [Disable(vcpu, i + 16)];
        }
      }
    }

    /** bcm2835_virq_write: the legacy controller's registers, offset at or above 0x200. */
    method Bcm2835Write(vm: Vm, vcpu: nat, offset: nat, value: u64) returns (status: int)
      requires Valid() && vcpu < MaxCores && Bcm2835IncOffset <= offset < PageSize && offset % 4 == 0
      modifies this, iomem
      ensures var e := GuestWrite(vm, vcpu, old(Contents()), offset, value);
              Contents() == e.page && log == old(log) + e.events && status == e.status
    {
      if offset == Bcm2835IrqEnable1 {
        ToggleBits(true, vcpu, 64, value);
      } else if offset == Bcm2835IrqEnable2 {
        ToggleBits(true, vcpu, 96, value);
      } else if offset == Bcm2835IrqBasicEnable {
        ToggleBits(true, vcpu, 32, value);
      } else if offset == Bcm2835IrqDisable1 {
        ToggleBits(false, vcpu, 64, value);
      } else if offset == Bcm2835IrqDisable2 {
        ToggleBits(false, vcpu, 96, value);
      } else if offset == Bcm2835IrqDisableBasic {
        ToggleBits(false, vcpu, 32, value);
      } else if offset == Bcm2835IrqAck {
        var irq := Add32(Trunc32(value), 32);
        var _ := ClearSpi(irq);
        log := log + [ClearPending(vcpu, irq)];
      } else if offset == Bcm2836IrqAck {
        var irq := Trunc32(value);
        var _ := ClearPpi(vcpu, irq);
        log := log + [ClearPending(vcpu, Add32(irq, 16))];
      }
      return 0;
    }

    /**
     * bcm2836_virq_write: a guest write at byte offset `offset` of the
     * page by vcpu of vm. `sendResult` is what send_virq_to_vcpu returns;
     * the write drops it.
     */
    method Bcm2836Write(vm: Vm, vcpu: nat, offset: nat, value: u64, sendResult: int) returns (status: int)
      requires Valid() && vcpu < MaxCores && offset < PageSize && offset % 4 == 0
      modifies this, iomem
      ensures var e := GuestWrite(vm, vcpu, old(Contents()), offset, value);
              Contents() == e.page && log == old(log) + e.events && status == e.status
    {
      if offset >= Bcm2835IncOffset {
        status := Bcm2835Write(vm, vcpu, offset, value);
        return;
      }
      if LocalTimerIntControl0 <= offset <= LocalTimerIntControl3 {
        var _ := TimerIntAction(vm, vcpu, (offset - LocalTimerIntControl0) / 4, value);
      } else if LocalMailboxSetStart <= offset <= LocalMailboxSetEnd {
        var _ := SendVsgi(vm, offset, value, sendResult);
      } else if LocalMailboxClrStart <= offset <= LocalMailboxClrEnd {
        var _ := ClearVsgi(vm, vcpu, offset, value);
      } else if ReleaseOffset <= offset <= ReleaseOffsetEnd {
        var cpu := (offset - ReleaseOffset) / 8;
        log := log + [PowerOn(vcpu, cpu, value)];
      }
      return 0;
    }
  }
}
