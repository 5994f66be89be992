/**
 * The register page of the emulated controller. One page, mapped read-only
 * into the guest at BCM2836_INC_BASE, holds the ARM-local (BCM2836)
 * controller from offset 0 and the legacy (BCM2835) controller from offset
 * 0x200. Offsets are byte offsets into the page; the page is modelled as
 * 32-bit words, word k holding bytes 4k .. 4k+3.
 *
 * The named offsets come from asm/bcm_irq.h, which is not part of this
 * model: the hardware ones are those of the BCM2836 ARM-local peripherals
 * and of the BCM2835 interrupt controller; the release region and the two
 * acknowledge registers are hypervisor inventions whose values are assumed
 * (see README.md).
 */
module Layout {

  /** PAGE_SIZE is 4096 bytes: 1024 words. */
  const PageWords: nat := 1024
  const PageSize: nat := 4 * PageWords

  // ARM-local controller (BCM2836)
  const LocalControl: nat := 0x00
  const LocalPrescaler: nat := 0x08
  const LocalTimerIntControl0: nat := 0x40
  const LocalTimerIntControl3: nat := 0x4c
  const LocalMailboxIntControl0: nat := 0x50
  const LocalMailboxIntControl3: nat := 0x5c
  const LocalIrqPending0: nat := 0x60
  /** LOCAL_MAILBOX0_SET0, the start of the mailbox-set registers (4 per core, 16-byte stride) */
  const LocalMailboxSetStart: nat := 0x80
  const LocalMailboxSetEnd: nat := 0xbc
  /** LOCAL_MAILBOX0_CLR0, the start of the mailbox read-and-clear registers */
  const LocalMailboxClrStart: nat := 0xc0
  const LocalMailboxClrEnd: nat := 0xfc
  /** Spin-table release entries, 8 bytes per core (assumed placement). */
  const ReleaseOffset: nat := 0x100
  const ReleaseOffsetEnd: nat := 0x11c

  // bits of LOCAL_IRQ_PENDINGn
  const LocalIrqMailbox0: nat := 4
  const LocalIrqGpuFast: nat := 8
  const LocalIrqPmuFast: nat := 9

  // legacy controller (BCM2835), offsets from the page start
  const Bcm2835IncOffset: nat := 0x200
  const Bcm2835IrqEnable1: nat := Bcm2835IncOffset + 0x10
  const Bcm2835IrqEnable2: nat := Bcm2835IncOffset + 0x14
  const Bcm2835IrqBasicEnable: nat := Bcm2835IncOffset + 0x18
  const Bcm2835IrqDisable1: nat := Bcm2835IncOffset + 0x1c
  const Bcm2835IrqDisable2: nat := Bcm2835IncOffset + 0x20
  const Bcm2835IrqDisableBasic: nat := Bcm2835IncOffset + 0x24
  /** Guest acknowledge of a legacy interrupt (assumed placement). */
  const Bcm2835IrqAck: nat := Bcm2835IncOffset + 0x40
  /** Guest acknowledge of a local interrupt (assumed placement). */
  const Bcm2836IrqAck: nat := Bcm2835IncOffset + 0x44

  const NrBanks: nat := 3
  /** The BCM2836 has four cores; the local controller has four per-core register slots. */
  const MaxCores: nat := 4
  const EINVAL: int := 22

  /**
   * The per-bank register offsets recorded at creation. The enable and
   * disable registers of bank 0 (the "basic" bank) sit above those of
   * banks 1 and 2.
   */
  const PendingOffsets: seq<nat> := [Bcm2835IncOffset + 0x00, Bcm2835IncOffset + 0x04, Bcm2835IncOffset + 0x08]
  const EnableOffsets: seq<nat> := [Bcm2835IncOffset + 0x18, Bcm2835IncOffset + 0x10, Bcm2835IncOffset + 0x14]
  const DisableOffsets: seq<nat> := [Bcm2835IncOffset + 0x24, Bcm2835IncOffset + 0x1c, Bcm2835IncOffset + 0x20]

  /** The word holding bcm2835_pending[bank]. */
  function PendingWord(bank: nat): (k: nat)
    requires bank < NrBanks
    ensures 4 * k == PendingOffsets[bank]
  {
    0x80 + bank
  }

  /** The word holding LOCAL_IRQ_PENDING0 + 4 * cpu. */
  function LocalPendingWord(cpu: nat): (k: nat)
    ensures 4 * k == LocalIrqPending0 + 4 * cpu
  {
    0x18 + cpu
  }

  /** The word holding LOCAL_MAILBOX0_CLR0 + 16 * cpu, mailbox 0 of that core. */
  function MailboxClrWord(cpu: nat): (k: nat)
    ensures 4 * k == LocalMailboxClrStart + 16 * cpu
  {
    0x30 + 4 * cpu
  }

  /** The word holding LOCAL_TIMER_INT_CONTROL0 + 4 * cpu. */
  function TimerControlWord(cpu: nat): (k: nat)
    ensures 4 * k == LocalTimerIntControl0 + 4 * cpu
  {
    0x10 + cpu
  }

  /** Bit 8 of LOCAL_IRQ_PENDING0 (word LocalPendingWord(0)) summarises the three legacy pending banks. */
  const SummaryWord: nat := 0x18
  const SummaryBit: nat := 8

  /**
   * The registers the model tracks are distinct words inside the page: no
   * write to one of them can change another.
   */
  lemma RegistersDisjoint(bank: nat, bank': nat, cpu: nat, cpu': nat)
    requires bank < NrBanks && bank' < NrBanks && cpu < MaxCores && cpu' < MaxCores
    ensures PendingWord(bank) < PageWords && LocalPendingWord(cpu) < PageWords
    ensures MailboxClrWord(cpu) < PageWords && TimerControlWord(cpu) < PageWords
    ensures bank != bank' ==> PendingWord(bank) != PendingWord(bank')
    ensures cpu != cpu' ==> LocalPendingWord(cpu) != LocalPendingWord(cpu') && MailboxClrWord(cpu) != MailboxClrWord(cpu')
    ensures PendingWord(bank) != LocalPendingWord(cpu) && PendingWord(bank) != MailboxClrWord(cpu)
    ensures PendingWord(bank) != TimerControlWord(cpu)
    ensures LocalPendingWord(cpu) != MailboxClrWord(cpu') && LocalPendingWord(cpu) != TimerControlWord(cpu')
    ensures MailboxClrWord(cpu) != TimerControlWord(cpu')
  {
  }
}
