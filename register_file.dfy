/**
 * The register page as a value, and what each read-modify-write of the
 * controller does to it. The guest reads this page directly, so these
 * functions are the whole guest-visible effect of an operation.
 *
 * Two aggregate invariants tie summary bits to the registers they summarise:
 *  - the legacy summary: bit 8 of LOCAL_IRQ_PENDING0 is set exactly when one
 *    of the three legacy pending registers is non-zero;
 *  - the mailbox summary of core c: bit LOCAL_IRQ_MAILBOX0 of
 *    LOCAL_IRQ_PENDINGc is set exactly when mailbox 0 of core c is non-zero.
 */
module RegisterFile {
  import opened Words
  import opened Layout
  import opened SpiBank

  /** The register page, word by word; a page has PageWords words. */
  type Page = seq<bv32>

  /** Every word of r outside `changed` equals that word of p. */
  predicate UnchangedExcept(p: Page, r: Page, changed: set<nat>)
    requires |p| == PageWords && |r| == PageWords
  {
    forall k :: 0 <= k < PageWords && k !in changed ==> r[k] == p[k]
  }

  /** No word of r outside `except` has a bit that the same word of p lacks. */
  predicate NoBitRaised(p: Page, r: Page, except: set<nat>)
    requires |p| == PageWords && |r| == PageWords
  {
    forall k :: 0 <= k < PageWords && k !in except ==> BitsWithin(r[k], p[k])
  }

  /** Every bit set in p is still set in r. */
  predicate NoBitDropped(p: Page, r: Page)
    requires |p| == PageWords && |r| == PageWords
  {
    forall k :: 0 <= k < PageWords ==> BitsWithin(p[k], r[k])
  }

  predicate AnyLegacyPending(p: Page)
    requires |p| == PageWords
  {
    p[PendingWord(0)] != 0 || p[PendingWord(1)] != 0 || p[PendingWord(2)] != 0
  }

  /** Bit 8 of LOCAL_IRQ_PENDING0 is set exactly when a legacy pending register is non-zero. */
  predicate SummaryConsistent(p: Page)
    requires |p| == PageWords
  {
    BitSet(p[SummaryWord], SummaryBit) <==> AnyLegacyPending(p)
  }

  /** The mailbox summary bit of core cpu is set exactly when its mailbox 0 is non-zero. */
  predicate MailboxConsistent(p: Page, cpu: nat)
    requires |p| == PageWords && cpu < MaxCores
  {
    BitSet(p[LocalPendingWord(cpu)], LocalIrqMailbox0) <==> p[MailboxClrWord(cpu)] != 0
  }

  predicate Consistent(p: Page)
    requires |p| == PageWords
  {
    && SummaryConsistent(p)
    && forall cpu :: 0 <= cpu < MaxCores ==> MailboxConsistent(p, cpu)
  }

  /** The page after memset(iomem, 0, PAGE_SIZE). */
  function ZeroPage(): (p: Page)
    ensures |p| == PageWords
    ensures Consistent(p)
    ensures !AnyLegacyPending(p)
  {
    seq(PageWords, _ => 0 as bv32)
  }

  /**
   * bcm2836_inject_spi after a successful lookup: set the located bit and
   * the legacy summary bit.
   */
  function InjectSpiPage(p: Page, loc: Location): (r: Page)
    requires |p| == PageWords && loc.bank < NrBanks && loc.bit < 32
    ensures |r| == PageWords
    ensures r[PendingWord(loc.bank)] == SetBits(p[PendingWord(loc.bank)], Mask(loc.bit))
    ensures r[SummaryWord] == SetBits(p[SummaryWord], Mask(SummaryBit))
    ensures UnchangedExcept(p, r, {PendingWord(loc.bank), SummaryWord})
  {
    var w := PendingWord(loc.bank);
    var q := p[w := SetBits(p[w], Mask(loc.bit))];
    q[SummaryWord := SetBits(p[SummaryWord], Mask(SummaryBit))]
  }

  /**
   * bcm2836_clear_spi after a successful lookup: clear the located bit, then
   * clear the legacy summary bit if all three pending registers are zero.
   */
  function ClearSpiPage(p: Page, loc: Location): (r: Page)
    requires |p| == PageWords && loc.bank < NrBanks && loc.bit < 32
    ensures |r| == PageWords
    ensures r[PendingWord(loc.bank)] == ClearBits(p[PendingWord(loc.bank)], Mask(loc.bit))
    ensures AnyLegacyPending(r) ==> r[SummaryWord] == p[SummaryWord]
    ensures !AnyLegacyPending(r) ==> r[SummaryWord] == ClearBits(p[SummaryWord], Mask(SummaryBit))
    ensures UnchangedExcept(p, r, {PendingWord(loc.bank), SummaryWord})
  {
    var w := PendingWord(loc.bank);
    var q := p[w := ClearBits(p[w], Mask(loc.bit))];
    if q[PendingWord(0)] == 0 && q[PendingWord(1)] == 0 && q[PendingWord(2)] == 0 then
      q[SummaryWord := ClearBits(p[SummaryWord], Mask(SummaryBit))]
    else
      q
  }

  /**
   * bcm2836_inject_sgi: set bit sgi of the core's mailbox 0 and the core's
   * mailbox summary bit.
   */
  function InjectSgiPage(p: Page, cpu: nat, sgi: nat): (r: Page)
    requires |p| == PageWords && cpu < MaxCores && sgi < 16
    ensures |r| == PageWords
    ensures r[MailboxClrWord(cpu)] == SetBits(p[MailboxClrWord(cpu)], Mask(sgi))
    ensures r[LocalPendingWord(cpu)] == SetBits(p[LocalPendingWord(cpu)], Mask(LocalIrqMailbox0))
    ensures UnchangedExcept(p, r, {MailboxClrWord(cpu), LocalPendingWord(cpu)})
  {
    var q := p[MailboxClrWord(cpu) := SetBits(p[MailboxClrWord(cpu)], Mask(sgi))];
    q[LocalPendingWord(cpu) := SetBits(p[LocalPendingWord(cpu)], Mask(LocalIrqMailbox0))]
  }

  /**
   * bcm2836_clear_vsgi after validation: clear the written bits m from the
   * mailbox word k, and clear the mailbox summary bit of core cpu when the
   * mailbox word is left zero.
   */
  function ClearMailboxPage(p: Page, k: nat, cpu: nat, m: bv32): (r: Page)
    requires |p| == PageWords && cpu < MaxCores && k < PageWords && k != LocalPendingWord(cpu)
    ensures |r| == PageWords
    ensures r[k] == ClearBits(p[k], m)
    ensures r[k] == 0 ==> r[LocalPendingWord(cpu)] == ClearBits(p[LocalPendingWord(cpu)], Mask(LocalIrqMailbox0))
    ensures r[k] != 0 ==> r[LocalPendingWord(cpu)] == p[LocalPendingWord(cpu)]
    ensures UnchangedExcept(p, r, {k, LocalPendingWord(cpu)})
  {
    var q := p[k := ClearBits(p[k], m)];
    if q[k] == 0 then q[LocalPendingWord(cpu) := ClearBits(p[LocalPendingWord(cpu)], Mask(LocalIrqMailbox0))] else q
  }

  /** bcm2836_inject_ppi after validation: set bit `bit` of the core's local pending register. */
  function InjectPpiPage(p: Page, cpu: nat, bit: nat): (r: Page)
    requires |p| == PageWords && cpu < MaxCores && bit < 32
    ensures |r| == PageWords
    ensures r[LocalPendingWord(cpu)] == SetBits(p[LocalPendingWord(cpu)], Mask(bit))
    ensures UnchangedExcept(p, r, {LocalPendingWord(cpu)})
  {
    p[LocalPendingWord(cpu) := SetBits(p[LocalPendingWord(cpu)], Mask(bit))]
  }

  /** bcm2836_clear_ppi after validation: clear bit `bit` of the core's local pending register. */
  function ClearPpiPage(p: Page, cpu: nat, bit: nat): (r: Page)
    requires |p| == PageWords && cpu < MaxCores && bit < 32
    ensures |r| == PageWords
    ensures r[LocalPendingWord(cpu)] == ClearBits(p[LocalPendingWord(cpu)], Mask(bit))
    ensures UnchangedExcept(p, r, {LocalPendingWord(cpu)})
  {
    p[LocalPendingWord(cpu) := ClearBits(p[LocalPendingWord(cpu)], Mask(bit))]
  }

  /** A timer-control write: the core's LOCAL_TIMER_INT_CONTROL word holds v, for the guest to read back. */
  function StoreTimerControlPage(p: Page, cpu: nat, v: bv32): (r: Page)
    requires |p| == PageWords && cpu < MaxCores
    ensures |r| == PageWords
    ensures r[TimerControlWord(cpu)] == v
    ensures UnchangedExcept(p, r, {TimerControlWord(cpu)})
  {
    p[TimerControlWord(cpu) := v]
  }

  // ---------------------------------------------------------------------
  // What each operation does to the legacy summary, on its own

  /** Injecting an SPI makes the legacy summary right on any page: it sets a pending bit and bit 8 together. */
  lemma InjectSpiSetsSummary(p: Page, loc: Location)
    requires |p| == PageWords && loc.bank < NrBanks && loc.bit < 32
    ensures SummaryConsistent(InjectSpiPage(p, loc))
  {
    var r := InjectSpiPage(p, loc);
    RegistersDisjoint(loc.bank, loc.bank, 0, 0);
    assert r[PendingWord(loc.bank)] != 0;
    assert BitSet(r[SummaryWord], SummaryBit);
  }

  /**
   * Acknowledging an SPI keeps the legacy summary right: bit 8 goes exactly
   * when the three pending registers are left zero.
   */
  lemma ClearSpiKeepsSummary(p: Page, loc: Location)
    requires |p| == PageWords && loc.bank < NrBanks && loc.bit < 32
    requires SummaryConsistent(p)
    ensures SummaryConsistent(ClearSpiPage(p, loc))
  {
    var r := ClearSpiPage(p, loc);
    RegistersDisjoint(loc.bank, loc.bank, 0, 0);
    if AnyLegacyPending(r) {
      var w := PendingWord(loc.bank);
      assert r[w] != 0 ==> p[w] != 0;
      assert AnyLegacyPending(p);
    } else {
      assert !BitSet(r[SummaryWord], SummaryBit);
    }
  }

  /** Injecting an SGI keeps the legacy summary right: it touches bit 4 only. */
  lemma InjectSgiKeepsSummary(p: Page, cpu: nat, sgi: nat)
    requires |p| == PageWords && cpu < MaxCores && sgi < 16
    requires SummaryConsistent(p)
    ensures SummaryConsistent(InjectSgiPage(p, cpu, sgi))
  {
    var r := InjectSgiPage(p, cpu, sgi);
    RegistersDisjoint(0, 1, cpu, cpu);
    RegistersDisjoint(2, 1, cpu, cpu);
    assert BitSet(r[SummaryWord], SummaryBit) == BitSet(p[SummaryWord], SummaryBit);
  }

  /** Clearing any of the four mailboxes of a core keeps the legacy summary right. */
  lemma ClearMailboxKeepsSummary(p: Page, k: nat, cpu: nat, m: bv32)
    requires |p| == PageWords && cpu < MaxCores && MailboxClrWord(cpu) <= k < MailboxClrWord(cpu) + 4
    requires SummaryConsistent(p)
    ensures SummaryConsistent(ClearMailboxPage(p, k, cpu, m))
  {
    var r := ClearMailboxPage(p, k, cpu, m);
    RegistersDisjoint(0, 1, cpu, cpu);
    RegistersDisjoint(2, 1, cpu, cpu);
    assert BitSet(r[SummaryWord], SummaryBit) == BitSet(p[SummaryWord], SummaryBit);
  }

  /** Injecting a PPI keeps the legacy summary right unless it sets bit 8 of core 0. */
  lemma InjectPpiKeepsSummary(p: Page, cpu: nat, bit: nat)
    requires |p| == PageWords && cpu < MaxCores && bit < 32 && !(cpu == 0 && bit == SummaryBit)
    requires SummaryConsistent(p)
    ensures SummaryConsistent(InjectPpiPage(p, cpu, bit))
  {
    var r := InjectPpiPage(p, cpu, bit);
    RegistersDisjoint(0, 1, cpu, cpu);
    RegistersDisjoint(2, 1, cpu, cpu);
    assert BitSet(r[SummaryWord], SummaryBit) == BitSet(p[SummaryWord], SummaryBit);
  }

  /** Clearing a local interrupt keeps the legacy summary right unless it clears bit 8 of core 0. */
  lemma ClearPpiKeepsSummary(p: Page, cpu: nat, bit: nat)
    requires |p| == PageWords && cpu < MaxCores && bit < 32 && !(cpu == 0 && bit == SummaryBit)
    requires SummaryConsistent(p)
    ensures SummaryConsistent(ClearPpiPage(p, cpu, bit))
  {
    var r := ClearPpiPage(p, cpu, bit);
    RegistersDisjoint(0, 1, cpu, cpu);
    RegistersDisjoint(2, 1, cpu, cpu);
    assert BitSet(r[SummaryWord], SummaryBit) == BitSet(p[SummaryWord], SummaryBit);
  }

  /** A timer-control write keeps the legacy summary right. */
  lemma StoreTimerControlKeepsSummary(p: Page, cpu: nat, v: bv32)
    requires |p| == PageWords && cpu < MaxCores
    requires SummaryConsistent(p)
    ensures SummaryConsistent(StoreTimerControlPage(p, cpu, v))
  {
    RegistersDisjoint(0, 1, cpu, 0);
    RegistersDisjoint(2, 1, cpu, 0);
  }

  // ---------------------------------------------------------------------
  // What each operation does to one core's mailbox summary, on its own

  /** Injecting an SPI keeps every core's mailbox summary as it was: bit 8 is not bit 4. */
  lemma InjectSpiKeepsMailbox(p: Page, loc: Location, c: nat)
    requires |p| == PageWords && loc.bank < NrBanks && loc.bit < 32 && c < MaxCores
    requires MailboxConsistent(p, c)
    ensures MailboxConsistent(InjectSpiPage(p, loc), c)
  {
    var r := InjectSpiPage(p, loc);
    RegistersDisjoint(loc.bank, loc.bank, c, 0);
    assert BitSet(r[LocalPendingWord(c)], LocalIrqMailbox0) == BitSet(p[LocalPendingWord(c)], LocalIrqMailbox0);
  }

  /** Acknowledging an SPI keeps every core's mailbox summary as it was. */
  lemma ClearSpiKeepsMailbox(p: Page, loc: Location, c: nat)
    requires |p| == PageWords && loc.bank < NrBanks && loc.bit < 32 && c < MaxCores
    requires MailboxConsistent(p, c)
    ensures MailboxConsistent(ClearSpiPage(p, loc), c)
  {
    var r := ClearSpiPage(p, loc);
    RegistersDisjoint(loc.bank, loc.bank, c, 0);
    assert BitSet(r[LocalPendingWord(c)], LocalIrqMailbox0) == BitSet(p[LocalPendingWord(c)], LocalIrqMailbox0);
  }

  /**
   * Injecting an SGI makes the target core's mailbox summary right on any
   * page, and leaves the other cores' as they were.
   */
  lemma InjectSgiKeepsMailbox(p: Page, cpu: nat, sgi: nat, c: nat)
    requires |p| == PageWords && cpu < MaxCores && sgi < 16 && c < MaxCores
    requires c != cpu ==> MailboxConsistent(p, c)
    ensures MailboxConsistent(InjectSgiPage(p, cpu, sgi), c)
  {
    var r := InjectSgiPage(p, cpu, sgi);
    RegistersDisjoint(0, 0, c, cpu);
    if c == cpu {
      assert r[MailboxClrWord(c)] != 0;
      assert BitSet(r[LocalPendingWord(c)], LocalIrqMailbox0);
    }
  }

  /**
   * Clearing mailbox 0 of core cpu keeps every core's mailbox summary
   * right; clearing mailbox 1, 2 or 3 of core cpu keeps every other core's.
   */
  lemma ClearMailboxKeepsMailbox(p: Page, k: nat, cpu: nat, m: bv32, c: nat)
    requires |p| == PageWords && cpu < MaxCores && MailboxClrWord(cpu) <= k < MailboxClrWord(cpu) + 4 && c < MaxCores
    requires k == MailboxClrWord(cpu) || c != cpu
    requires MailboxConsistent(p, c)
    ensures MailboxConsistent(ClearMailboxPage(p, k, cpu, m), c)
  {
    var r := ClearMailboxPage(p, k, cpu, m);
    RegistersDisjoint(0, 0, c, cpu);
    if c == cpu {
      if r[k] != 0 {
        assert p[k] != 0;
      } else {
        assert !BitSet(r[LocalPendingWord(c)], LocalIrqMailbox0);
      }
    } else {
      assert k != MailboxClrWord(c);
    }
  }

  /** Injecting a PPI keeps a core's mailbox summary right unless it sets that core's bit 4. */
  lemma InjectPpiKeepsMailbox(p: Page, cpu: nat, bit: nat, c: nat)
    requires |p| == PageWords && cpu < MaxCores && bit < 32 && c < MaxCores
    requires !(c == cpu && bit == LocalIrqMailbox0)
    requires MailboxConsistent(p, c)
    ensures MailboxConsistent(InjectPpiPage(p, cpu, bit), c)
  {
    var r := InjectPpiPage(p, cpu, bit);
    RegistersDisjoint(0, 0, c, cpu);
    assert BitSet(r[LocalPendingWord(c)], LocalIrqMailbox0) == BitSet(p[LocalPendingWord(c)], LocalIrqMailbox0);
  }

  /** Clearing a local interrupt keeps a core's mailbox summary right unless it clears that core's bit 4. */
  lemma ClearPpiKeepsMailbox(p: Page, cpu: nat, bit: nat, c: nat)
    requires |p| == PageWords && cpu < MaxCores && bit < 32 && c < MaxCores
    requires !(c == cpu && bit == LocalIrqMailbox0)
    requires MailboxConsistent(p, c)
    ensures MailboxConsistent(ClearPpiPage(p, cpu, bit), c)
  {
    var r := ClearPpiPage(p, cpu, bit);
    RegistersDisjoint(0, 0, c, cpu);
    assert BitSet(r[LocalPendingWord(c)], LocalIrqMailbox0) == BitSet(p[LocalPendingWord(c)], LocalIrqMailbox0);
  }

  /** A timer-control write keeps every core's mailbox summary as it was. */
  lemma StoreTimerControlKeepsMailbox(p: Page, cpu: nat, v: bv32, c: nat)
    requires |p| == PageWords && cpu < MaxCores && c < MaxCores
    requires MailboxConsistent(p, c)
    ensures MailboxConsistent(StoreTimerControlPage(p, cpu, v), c)
  {
    RegistersDisjoint(0, 0, c, cpu);
  }

  // ---------------------------------------------------------------------
  // Both invariants together

  /** Injecting an SPI keeps every invariant. */
  lemma InjectSpiKeepsConsistent(p: Page, loc: Location)
    requires |p| == PageWords && loc.bank < NrBanks && loc.bit < 32
    requires Consistent(p)
    ensures Consistent(InjectSpiPage(p, loc))
  {
    InjectSpiSetsSummary(p, loc);
    forall c | 0 <= c < MaxCores
      ensures MailboxConsistent(InjectSpiPage(p, loc), c)
    {
      InjectSpiKeepsMailbox(p, loc, c);
    }
  }

  /** Acknowledging an SPI keeps every invariant. */
  lemma ClearSpiKeepsConsistent(p: Page, loc: Location)
    requires |p| == PageWords && loc.bank < NrBanks && loc.bit < 32
    requires Consistent(p)
    ensures Consistent(ClearSpiPage(p, loc))
  {
    ClearSpiKeepsSummary(p, loc);
    forall c | 0 <= c < MaxCores
      ensures MailboxConsistent(ClearSpiPage(p, loc), c)
    {
      ClearSpiKeepsMailbox(p, loc, c);
    }
  }

  /**
   * Injecting an SPI whose bit was clear and then acknowledging it restores
   * the page word for word, the legacy summary bit included.
   */
  lemma {:induction false} SpiInjectAckRoundTrip(p: Page, loc: Location)
    requires |p| == PageWords && loc.bank < NrBanks && loc.bit < 32
    requires SummaryConsistent(p) && !BitSet(p[PendingWord(loc.bank)], loc.bit)
    ensures ClearSpiPage(InjectSpiPage(p, loc), loc) == p
  {
    var r := ClearSpiPage(InjectSpiPage(p, loc), loc);
    SpiRoundTripRestoresPending(p, loc);
    assert AnyLegacyPending(r) == AnyLegacyPending(p);
    if AnyLegacyPending(p) {
      SetBitsIdle(p[SummaryWord], SummaryBit);
    } else {
      ClearUndoesSet(p[SummaryWord], SummaryBit);
    }
    assert r[SummaryWord] == p[SummaryWord];
    forall k | 0 <= k < PageWords
      ensures r[k] == p[k]
    {
    }
  }

  /** The pending-register half of SpiInjectAckRoundTrip. */
  lemma SpiRoundTripRestoresPending(p: Page, loc: Location)
    requires |p| == PageWords && loc.bank < NrBanks && loc.bit < 32
    requires !BitSet(p[PendingWord(loc.bank)], loc.bit)
    ensures forall i | 0 <= i < NrBanks ::
      ClearSpiPage(InjectSpiPage(p, loc), loc)[PendingWord(i)] == p[PendingWord(i)]
  {
    var q := InjectSpiPage(p, loc);
    var r := ClearSpiPage(q, loc);
    var w := PendingWord(loc.bank);
    ClearUndoesSet(p[w], loc.bit);
    assert r[w] == p[w];
    forall i | 0 <= i < NrBanks && i != loc.bank
      ensures r[PendingWord(i)] == p[PendingWord(i)]
    {
      var k := PendingWord(i);
      RegistersDisjoint(loc.bank, i, 0, 0);
      assert k != w && k != SummaryWord;
      assert q[k] == p[k];
    }
  }

  /** Injecting an SGI keeps every invariant. */
  lemma InjectSgiKeepsConsistent(p: Page, cpu: nat, sgi: nat)
    requires |p| == PageWords && cpu < MaxCores && sgi < 16
    requires Consistent(p)
    ensures Consistent(InjectSgiPage(p, cpu, sgi))
  {
    InjectSgiKeepsSummary(p, cpu, sgi);
    forall c | 0 <= c < MaxCores
      ensures MailboxConsistent(InjectSgiPage(p, cpu, sgi), c)
    {
      InjectSgiKeepsMailbox(p, cpu, sgi, c);
    }
  }

  /**
   * A guest clear of mailbox 0 of core cpu keeps every invariant: the
   * summary bit goes exactly when the mailbox empties.
   */
  lemma ClearMailbox0KeepsConsistent(p: Page, cpu: nat, m: bv32)
    requires |p| == PageWords && cpu < MaxCores
    requires Consistent(p)
    ensures Consistent(ClearMailboxPage(p, MailboxClrWord(cpu), cpu, m))
  {
    ClearMailboxKeepsSummary(p, MailboxClrWord(cpu), cpu, m);
    forall c | 0 <= c < MaxCores
      ensures MailboxConsistent(ClearMailboxPage(p, MailboxClrWord(cpu), cpu, m), c)
    {
      ClearMailboxKeepsMailbox(p, MailboxClrWord(cpu), cpu, m, c);
    }
  }

  /**
   * A guest clear of mailbox 1 of core 0 that leaves that (never used)
   * mailbox zero drops core 0's mailbox summary bit even while mailbox 0
   * still holds an SGI.
   */
  lemma ClearOtherMailboxDropsSummary()
    ensures var p := ZeroPage()[MailboxClrWord(0) := 1][LocalPendingWord(0) := Mask(LocalIrqMailbox0)];
            Consistent(p) && !Consistent(ClearMailboxPage(p, MailboxClrWord(0) + 1, 0, 1))
  {
    var p := ZeroPage()[MailboxClrWord(0) := 1][LocalPendingWord(0) := Mask(LocalIrqMailbox0)];
    assert MailboxConsistent(p, 0);
    forall c | 1 <= c < MaxCores
      ensures MailboxConsistent(p, c)
    {
    }
    var r := ClearMailboxPage(p, MailboxClrWord(0) + 1, 0, 1);
    assert !MailboxConsistent(r, 0);
  }

  /**
   * Injecting a PPI keeps every invariant unless it is PPI 20, whose bit is
   * the mailbox summary bit. (The fast-GPU bit 8 is refused before.)
   */
  lemma InjectPpiKeepsConsistent(p: Page, cpu: nat, bit: nat)
    requires |p| == PageWords && cpu < MaxCores && bit < 16 && bit != LocalIrqGpuFast && bit != LocalIrqMailbox0
    requires Consistent(p)
    ensures Consistent(InjectPpiPage(p, cpu, bit))
  {
    InjectPpiKeepsSummary(p, cpu, bit);
    forall c | 0 <= c < MaxCores
      ensures MailboxConsistent(InjectPpiPage(p, cpu, bit), c)
    {
      InjectPpiKeepsMailbox(p, cpu, bit, c);
    }
  }

  /**
   * Clearing a local interrupt keeps every invariant except when it clears
   * the mailbox summary bit (local id 4) or, on core 0, the legacy summary
   * bit (local id 8).
   */
  lemma ClearPpiKeepsConsistent(p: Page, cpu: nat, bit: nat)
    requires |p| == PageWords && cpu < MaxCores && bit <= LocalIrqPmuFast && bit != LocalIrqMailbox0
    requires !(cpu == 0 && bit == SummaryBit)
    requires Consistent(p)
    ensures Consistent(ClearPpiPage(p, cpu, bit))
  {
    ClearPpiKeepsSummary(p, cpu, bit);
    forall c | 0 <= c < MaxCores
      ensures MailboxConsistent(ClearPpiPage(p, cpu, bit), c)
    {
      ClearPpiKeepsMailbox(p, cpu, bit, c);
    }
  }

  /**
   * Clearing local id 8 on core 0 clears the legacy summary bit even while
   * a legacy pending register is non-zero.
   */
  lemma ClearGpuFastDropsSummary()
    ensures var p := ZeroPage()[PendingWord(1) := 1][SummaryWord := Mask(SummaryBit)];
            Consistent(p) && !SummaryConsistent(ClearPpiPage(p, 0, LocalIrqGpuFast))
  {
    var p := ZeroPage()[PendingWord(1) := 1][SummaryWord := Mask(SummaryBit)];
    assert SummaryConsistent(p);
    forall c | 0 <= c < MaxCores
      ensures MailboxConsistent(p, c)
    {
    }
  }

  /** A timer-control write keeps every invariant. */
  lemma StoreTimerControlKeepsConsistent(p: Page, cpu: nat, v: bv32)
    requires |p| == PageWords && cpu < MaxCores
    requires Consistent(p)
    ensures Consistent(StoreTimerControlPage(p, cpu, v))
  {
    StoreTimerControlKeepsSummary(p, cpu, v);
    forall c | 0 <= c < MaxCores
      ensures MailboxConsistent(StoreTimerControlPage(p, cpu, v), c)
    {
      StoreTimerControlKeepsMailbox(p, cpu, v, c);
    }
  }

  // ---------------------------------------------------------------------
  // Injecting only sets bits; acknowledging only clears them

  lemma InjectSpiNeverDrops(p: Page, loc: Location)
    requires |p| == PageWords && loc.bank < NrBanks && loc.bit < 32
    ensures NoBitDropped(p, InjectSpiPage(p, loc))
  {
    var r := InjectSpiPage(p, loc);
    forall k | 0 <= k < PageWords
      ensures BitsWithin(p[k], r[k])
    {
      SetBitsWithin(p[k], Mask(loc.bit));
      SetBitsWithin(p[k], Mask(SummaryBit));
      BitsWithinSelf(p[k]);
    }
  }

  lemma ClearSpiNeverRaises(p: Page, loc: Location)
    requires |p| == PageWords && loc.bank < NrBanks && loc.bit < 32
    ensures NoBitRaised(p, ClearSpiPage(p, loc), {})
  {
    var r := ClearSpiPage(p, loc);
    forall k | 0 <= k < PageWords
      ensures BitsWithin(r[k], p[k])
    {
      ClearBitsWithin(p[k], Mask(loc.bit));
      ClearBitsWithin(p[k], Mask(SummaryBit));
      BitsWithinSelf(p[k]);
    }
  }

  lemma InjectSgiNeverDrops(p: Page, cpu: nat, sgi: nat)
    requires |p| == PageWords && cpu < MaxCores && sgi < 16
    ensures NoBitDropped(p, InjectSgiPage(p, cpu, sgi))
  {
    var r := InjectSgiPage(p, cpu, sgi);
    forall k | 0 <= k < PageWords
      ensures BitsWithin(p[k], r[k])
    {
      SetBitsWithin(p[k], Mask(sgi));
      SetBitsWithin(p[k], Mask(LocalIrqMailbox0));
      BitsWithinSelf(p[k]);
    }
  }

  lemma ClearMailboxNeverRaises(p: Page, k: nat, cpu: nat, m: bv32)
    requires |p| == PageWords && cpu < MaxCores && k < PageWords && k != LocalPendingWord(cpu)
    ensures NoBitRaised(p, ClearMailboxPage(p, k, cpu, m), {})
  {
    var r := ClearMailboxPage(p, k, cpu, m);
    forall j | 0 <= j < PageWords
      ensures BitsWithin(r[j], p[j])
    {
      if j == k {
        ClearBitsWithin(p[j], m);
      } else if j == LocalPendingWord(cpu) {
        assert r[j] == p[j] || r[j] == ClearBits(p[j], Mask(LocalIrqMailbox0));
        ClearBitsWithin(p[j], Mask(LocalIrqMailbox0));
        BitsWithinSelf(p[j]);
      } else {
        assert r[j] == p[j];
        BitsWithinSelf(p[j]);
      }
    }
  }

  lemma InjectPpiNeverDrops(p: Page, cpu: nat, bit: nat)
    requires |p| == PageWords && cpu < MaxCores && bit < 32
    ensures NoBitDropped(p, InjectPpiPage(p, cpu, bit))
  {
    var r := InjectPpiPage(p, cpu, bit);
    forall k | 0 <= k < PageWords
      ensures BitsWithin(p[k], r[k])
    {
      SetBitsWithin(p[k], Mask(bit));
      BitsWithinSelf(p[k]);
    }
  }

  lemma ClearPpiNeverRaises(p: Page, cpu: nat, bit: nat)
    requires |p| == PageWords && cpu < MaxCores && bit < 32
    ensures NoBitRaised(p, ClearPpiPage(p, cpu, bit), {})
  {
    var r := ClearPpiPage(p, cpu, bit);
    forall k | 0 <= k < PageWords
      ensures BitsWithin(r[k], p[k])
    {
      ClearBitsWithin(p[k], Mask(bit));
      BitsWithinSelf(p[k]);
    }
  }

  lemma NoChangeNoBitRaised(p: Page)
    requires |p| == PageWords
    ensures NoBitRaised(p, p, {}) && NoBitDropped(p, p)
  {
    forall k | 0 <= k < PageWords
      ensures BitsWithin(p[k], p[k])
    {
      BitsWithinSelf(p[k]);
    }
  }

  /**
   * Sending an SGI to a core whose mailbox 0 is empty and then clearing
   * that SGI's bit in the mailbox restores the page word for word.
   */
  lemma {:induction false} SgiInjectClearRoundTrip(p: Page, cpu: nat, sgi: nat)
    requires |p| == PageWords && cpu < MaxCores && sgi < 16
    requires MailboxConsistent(p, cpu) && p[MailboxClrWord(cpu)] == 0
    ensures ClearMailboxPage(InjectSgiPage(p, cpu, sgi), MailboxClrWord(cpu), cpu, Mask(sgi)) == p
  {
    var q := InjectSgiPage(p, cpu, sgi);
    var r := ClearMailboxPage(q, MailboxClrWord(cpu), cpu, Mask(sgi));
    var m, l := MailboxClrWord(cpu), LocalPendingWord(cpu);
    ClearUndoesSet(p[m], sgi);
    assert r[m] == p[m];
    ClearUndoesSet(p[l], LocalIrqMailbox0);
    assert r[l] == p[l];
    forall k | 0 <= k < PageWords
      ensures r[k] == p[k]
    {
    }
  }

  /** Setting a local interrupt bit that was clear and then clearing it restores the page. */
  lemma {:induction false} PpiInjectClearRoundTrip(p: Page, cpu: nat, bit: nat)
    requires |p| == PageWords && cpu < MaxCores && bit < 32
    requires !BitSet(p[LocalPendingWord(cpu)], bit)
    ensures ClearPpiPage(InjectPpiPage(p, cpu, bit), cpu, bit) == p
  {
    var r := ClearPpiPage(InjectPpiPage(p, cpu, bit), cpu, bit);
    ClearUndoesSet(p[LocalPendingWord(cpu)], bit);
    forall k | 0 <= k < PageWords
      ensures r[k] == p[k]
    {
    }
  }
}
