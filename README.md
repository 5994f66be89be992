# Virtual BCM2836/BCM2835 interrupt controller of the Minos hypervisor

Minos gives a native guest on a Raspberry Pi 2/3 an emulated interrupt controller
(`hypervisor/arch/arm/common/bcm_virq.c`). It is one page of registers. The guest
reads the page directly, through a read-only mapping. Every guest write traps to
the hypervisor, which updates the page by read-modify-write. The page holds two
controllers:

- the ARM-local (BCM2836) controller, from offset 0: per-core timer-control words,
  mailboxes (inter-core SGIs) and the per-core local pending words `LOCAL_IRQ_PENDINGn`;
- the legacy (BCM2835) controller, from offset 0x200: three pending registers
  (banks 0, 1, 2), plus enable and disable registers.

The hypervisor injects virtual interrupts (virqs) into the page with
`bcm_virq_send_virq`:

- SGIs 0..15 set a bit in the vcpu's mailbox 0 and the mailbox summary bit (bit 4)
  of its local pending word;
- PPIs 16..31 set bit `virq - 16` of the local pending word;
- SPIs 32..127 set a bit in a legacy pending register. The lookup stores eleven
  "shared" GPU interrupts at shadow bits 10..19 of bank 0, and refuses bank-0 ids
  10..20 to keep that range for them. This mapping is the code's own (a switch with
  falling-through case labels): it puts the eleven ids on nine bits. Bit 8 of
  `LOCAL_IRQ_PENDING0` is then set as the legacy summary.

The guest acknowledges and masks interrupts by writing registers:

- the mailbox-clear words;
- the timer-control words;
- the legacy enable and disable registers;
- two acknowledge registers;
- the spin-table release entries, which power on a vcpu.

The model has these modules:

- `Words`: 32-bit words, the uint32_t casts and additions, and `__ffs`.
- `Layout`: register offsets and the page's word layout.
- `SpiBank`: the SPI location lookup. The shared-interrupt aliasing is a table, and a
  lemma proves the table agrees with the source's falling-through `switch`.
- `RegisterFile`: the page as a value, each read-modify-write as a function on it, and
  two invariants. One is the legacy summary: bit 8 is set exactly when a legacy
  pending register is non-zero. The other is the mailbox summary: bit 4 of core c's
  local pending word is set exactly when core c's mailbox 0 is non-zero.
- `Dispatch`: routing by offset and by virq number, with the effect of every guest
  write (new page, calls made, status).
- `Guarantees`: whole-operation properties.
- `BcmVirq`: the controller class. It holds `iomem` as an array of 32-bit words, and
  its methods do the read-modify-writes in place.

Calls into the rest of the hypervisor are not modelled. Each is appended to a ghost
event log: `virq_enable`, `virq_disable`, `clear_pending_virq`, `send_virq_to_vcpu`
and `vcpu_power_on`. `get_vcpu_in_vm` is a parameter: the set of vcpu ids it finds.

Properties the proofs bring out about the code as written:

- The guest can break the mailbox summary. A clear of mailbox 1, 2 or 3 of a core
  that leaves that mailbox zero drops the core's mailbox summary bit, even while
  mailbox 0 still holds an SGI (`ClearOtherMailboxDropsSummary` on the page,
  `GuestClearOfMailbox1DropsSummary` for a guest write at offset 0xc4).
- The guest can break the legacy summary. On vcpu 0, acknowledging local id 8 clears
  the legacy summary bit while a legacy register is still pending
  (`ClearGpuFastDropsSummary`).
- Sending PPI 20 sets the mailbox summary bit, because local id 4 is that bit
  (`SendPpi20BreaksMailboxSummary`).
- The SPI lookup gives two pairs of interrupts the same bit: GPU interrupts 18 and 19
  (virqs 82 and 83, bit 10 of bank 0) and GPU interrupts 57 and 62 (virqs 121 and 126,
  bit 15), while bits 14 and 20 of the reserved range 10..20 stay unused. So the guest
  acknowledging one of a pair clears the other's pending bit too (`SharedLocations`,
  `SharedAckClearsPartner`).
- PPIs 26..31 can be sent but never acknowledged in the page, because
  `bcm2836_clear_ppi` refuses ids above 9 (`HighPpiStaysPending`).
- The SGI checks test `cpu > vcpu_nr`, so `cpu == vcpu_nr` passes that test. It is
  kept as written. Whether such a write is refused depends on `get_vcpu_in_vm`,
  which is not part of this model: `Vm.present` may contain `vcpuNr`, and then the
  model accepts the write.

Two further facts about the code as written:

- `bcm_virq_send_virq` returns 0 for every virq, including those outside 0..127,
  which change nothing (`bcm_virq.c:454-459`).
- No handler takes a lock. Each read-modify-write assumes it runs alone.

The SPI round trip (inject, then acknowledge, restores the page) holds only when the
located bit was clear and the legacy summary was consistent before;
`SpiInjectAckRoundTrip` states it with exactly those conditions.

## Model

| member | source | states |
|---|---|---|
| Words.Trunc32 | hypervisor/arch/arm/common/bcm_virq.c:198 | `(uint32_t)*value` keeps the low 32 bits: the value less a multiple of 2^32, and the value itself when it is below 2^32 |
| Words.Add32 | hypervisor/arch/arm/common/bcm_virq.c:114 | uint32_t addition: the sum when it fits in 32 bits, otherwise the sum less 2^32 |
| Words.LowestSetBit | hypervisor/arch/arm/common/bcm_virq.c:142 | `__ffs`: the result is a set bit with no set bit below it, or 32 when the word is zero |
| Words.LowestSetBitFrom | hypervisor/arch/arm/common/bcm_virq.c:169 | the lowest set bit at or above i, or 32 when there is none |
| Layout.PendingWord | hypervisor/arch/arm/common/bcm_virq.c:483-486 | the word of `bcm2835_pending[bank]` is at byte offset 0x200 + 4 * bank |
| Layout.LocalPendingWord | hypervisor/arch/arm/common/bcm_virq.c:278 | the word of core cpu's local pending register is at `LOCAL_IRQ_PENDING0 + 4 * cpu` |
| Layout.MailboxClrWord | hypervisor/arch/arm/common/bcm_virq.c:271 | the word of core cpu's mailbox 0 is at `LOCAL_MAILBOX0_CLR0 + 16 * cpu` |
| Layout.TimerControlWord | hypervisor/arch/arm/common/bcm_virq.c:200 | the word of core cpu's timer control is at `LOCAL_TIMER_INT_CONTROL0 + 4 * cpu` |
| Layout.RegistersDisjoint | hypervisor/arch/arm/common/bcm_virq.c:483-492 | every tracked register lies inside the page, and no two of them share a word |
| SpiBank.SpiLocation | hypervisor/arch/arm/common/bcm_virq.c:305-372 | the lookup refuses exactly a bank of 3 or more, or a bank-0 id in 10..20. Otherwise it returns a bit below 32 in bank 0..2. A GPU-bank id stays in its own bank at bit id unless it moves to a bank-0 shadow bit 10..19. A bank-0 id stays at bit id |
| SpiBank.SpiOf | hypervisor/arch/arm/common/bcm_virq.c:311-312 | the SPI `32 + 32 * bank + id` has bank `bank` and id `id` under `HWIRQ_BANK` and `% 32` |
| SpiBank.Bank1SharedShadows | hypervisor/arch/arm/common/bcm_virq.c:324-343 | bank-1 ids 7, 9, 10, 18, 19 are located at bank-0 bits 13, 12, 11, 10, 10 |
| SpiBank.Bank2SharedShadows | hypervisor/arch/arm/common/bcm_virq.c:344-365 | bank-2 ids 21, 22, 23, 24, 25, 30 are located at bank-0 bits 19, 18, 17, 16, 15, 15 |
| SpiBank.UnsharedInterruptsStayInBank | hypervisor/arch/arm/common/bcm_virq.c:339-342 | every bank-1 or bank-2 id outside the alias table stays in its own bank at bit id |
| SpiBank.SharedLocations | hypervisor/arch/arm/common/bcm_virq.c:324-365 | two distinct SPIs share a location only as the pairs (bank-1 ids 18 and 19) and (bank-2 ids 25 and 30) |
| SpiBank.SpiOfInverse | hypervisor/arch/arm/common/bcm_virq.c:311-313 | a virq whose bank is below 3 is the SPI of its bank and id |
| SpiBank.SharedShadowPairs | hypervisor/arch/arm/common/bcm_virq.c:326-348 | only the case label pairs `18, 19` and `25, 30` share a shadow bit |
| SpiBank.CaseGroupIndex | hypervisor/arch/arm/common/bcm_virq.c:326-335 | control enters the switch at the first label group that holds the id, or reaches `default` when no group does |
| SpiBank.FallThroughIndex | hypervisor/arch/arm/common/bcm_virq.c:345-357 | falling through from group g to the end decrements `index` once per remaining group |
| SpiBank.SpiLocationMatchesSwitch | hypervisor/arch/arm/common/bcm_virq.c:324-365 | the alias table and the falling-through switch locate every virq alike |
| RegisterFile.ZeroPage | hypervisor/arch/arm/common/bcm_virq.c:494 | the zeroed page satisfies both summary invariants and has nothing pending |
| RegisterFile.InjectSpiPage | hypervisor/arch/arm/common/bcm_virq.c:430-436 | SPI inject sets the located bit and legacy summary bit 8, and changes no other word |
| RegisterFile.ClearSpiPage | hypervisor/arch/arm/common/bcm_virq.c:385-397 | SPI acknowledge clears the located bit. Summary bit 8 is cleared if the three pending registers are then zero, and kept otherwise. No other word changes |
| RegisterFile.InjectSgiPage | hypervisor/arch/arm/common/bcm_virq.c:271-280 | SGI inject sets bit sgi of mailbox 0 and mailbox summary bit 4, and changes no other word |
| RegisterFile.ClearMailboxPage | hypervisor/arch/arm/common/bcm_virq.c:179-188 | a mailbox clear removes every written bit from the mailbox word. It clears summary bit 4 exactly when the word is left zero, and changes no other word |
| RegisterFile.InjectPpiPage | hypervisor/arch/arm/common/bcm_virq.c:298-300 | PPI inject sets only bit `virq - 16` of the core's local pending word |
| RegisterFile.ClearPpiPage | hypervisor/arch/arm/common/bcm_virq.c:412-414 | PPI clear clears only that bit of the core's local pending word |
| RegisterFile.StoreTimerControlPage | hypervisor/arch/arm/common/bcm_virq.c:207-208 | a timer-control write stores the value verbatim in the core's timer-control word, and nothing else changes |
| RegisterFile.InjectSpiSetsSummary | hypervisor/arch/arm/common/bcm_virq.c:430-436 | after an SPI inject the legacy summary is right on every page, whatever it was before |
| RegisterFile.ClearSpiKeepsSummary | hypervisor/arch/arm/common/bcm_virq.c:385-397 | an SPI acknowledge keeps the legacy summary right, whatever the mailbox summaries are |
| RegisterFile.InjectSgiKeepsSummary | hypervisor/arch/arm/common/bcm_virq.c:271-280 | an SGI inject keeps the legacy summary right |
| RegisterFile.ClearMailboxKeepsSummary | hypervisor/arch/arm/common/bcm_virq.c:179-188 | a clear of any of a core's four mailboxes keeps the legacy summary right |
| RegisterFile.InjectPpiKeepsSummary | hypervisor/arch/arm/common/bcm_virq.c:298-300 | a PPI inject keeps the legacy summary right unless it sets bit 8 of core 0 |
| RegisterFile.ClearPpiKeepsSummary | hypervisor/arch/arm/common/bcm_virq.c:412-414 | a PPI clear keeps the legacy summary right unless it clears bit 8 of core 0 |
| RegisterFile.StoreTimerControlKeepsSummary | hypervisor/arch/arm/common/bcm_virq.c:207-208 | a timer-control write keeps the legacy summary right |
| RegisterFile.InjectSpiKeepsMailbox | hypervisor/arch/arm/common/bcm_virq.c:430-436 | an SPI inject keeps each core's mailbox summary right |
| RegisterFile.ClearSpiKeepsMailbox | hypervisor/arch/arm/common/bcm_virq.c:385-397 | an SPI acknowledge keeps each core's mailbox summary right |
| RegisterFile.InjectSgiKeepsMailbox | hypervisor/arch/arm/common/bcm_virq.c:271-280 | an SGI inject makes the target core's mailbox summary right on any page, and keeps every other core's |
| RegisterFile.ClearMailboxKeepsMailbox | hypervisor/arch/arm/common/bcm_virq.c:179-188 | a clear of mailbox 0 keeps every core's mailbox summary right; a clear of mailbox 1..3 keeps every other core's |
| RegisterFile.InjectPpiKeepsMailbox | hypervisor/arch/arm/common/bcm_virq.c:298-300 | a PPI inject keeps a core's mailbox summary right unless it sets that core's bit 4 |
| RegisterFile.ClearPpiKeepsMailbox | hypervisor/arch/arm/common/bcm_virq.c:412-414 | a PPI clear keeps a core's mailbox summary right unless it clears that core's bit 4 |
| RegisterFile.StoreTimerControlKeepsMailbox | hypervisor/arch/arm/common/bcm_virq.c:207-208 | a timer-control write keeps each core's mailbox summary right |
| RegisterFile.InjectSpiKeepsConsistent | hypervisor/arch/arm/common/bcm_virq.c:430-436 | SPI inject keeps both summary invariants (the two lemmas above, together) |
| RegisterFile.ClearSpiKeepsConsistent | hypervisor/arch/arm/common/bcm_virq.c:385-397 | SPI acknowledge keeps both summary invariants (the two lemmas above, together) |
| RegisterFile.SpiInjectAckRoundTrip | hypervisor/arch/arm/common/bcm_virq.c:385-397 | inject then acknowledge of an SPI restores the page word for word, summary bit 8 included, when its bit was clear and the summary consistent before |
| RegisterFile.SpiRoundTripRestoresPending | hypervisor/arch/arm/common/bcm_virq.c:385-386 | inject then acknowledge restores all three legacy pending registers |
| RegisterFile.InjectSgiKeepsConsistent | hypervisor/arch/arm/common/bcm_virq.c:271-280 | SGI inject keeps both summary invariants |
| RegisterFile.ClearMailbox0KeepsConsistent | hypervisor/arch/arm/common/bcm_virq.c:179-188 | a clear of mailbox 0 keeps both summary invariants |
| RegisterFile.ClearOtherMailboxDropsSummary | hypervisor/arch/arm/common/bcm_virq.c:184-187 | a clear of mailbox 1 of core 0 can leave a consistent page with core 0's mailbox summary wrong |
| RegisterFile.InjectPpiKeepsConsistent | hypervisor/arch/arm/common/bcm_virq.c:292-300 | PPI inject keeps both summary invariants, for every local id below 16 except 4 and 8 (8 is refused before) |
| RegisterFile.ClearPpiKeepsConsistent | hypervisor/arch/arm/common/bcm_virq.c:409-414 | PPI clear keeps both summary invariants, except for id 4, and except for id 8 on core 0 |
| RegisterFile.ClearGpuFastDropsSummary | hypervisor/arch/arm/common/bcm_virq.c:412-414 | clearing local id 8 on core 0 can leave a consistent page with summary bit 8 wrong |
| RegisterFile.StoreTimerControlKeepsConsistent | hypervisor/arch/arm/common/bcm_virq.c:207-208 | a timer-control write keeps both summary invariants |
| RegisterFile.InjectSpiNeverDrops | hypervisor/arch/arm/common/bcm_virq.c:430-436 | SPI inject clears no bit anywhere in the page |
| RegisterFile.ClearSpiNeverRaises | hypervisor/arch/arm/common/bcm_virq.c:385-397 | SPI acknowledge sets no bit anywhere in the page |
| RegisterFile.InjectSgiNeverDrops | hypervisor/arch/arm/common/bcm_virq.c:271-280 | SGI inject clears no bit |
| RegisterFile.ClearMailboxNeverRaises | hypervisor/arch/arm/common/bcm_virq.c:179-188 | a mailbox clear sets no bit |
| RegisterFile.InjectPpiNeverDrops | hypervisor/arch/arm/common/bcm_virq.c:298-300 | PPI inject clears no bit |
| RegisterFile.ClearPpiNeverRaises | hypervisor/arch/arm/common/bcm_virq.c:412-414 | PPI clear sets no bit |
| RegisterFile.SgiInjectClearRoundTrip | hypervisor/arch/arm/common/bcm_virq.c:179-188 | an SGI sent to a core with an empty, consistent mailbox 0, then cleared with its own bit, restores the page |
| RegisterFile.PpiInjectClearRoundTrip | hypervisor/arch/arm/common/bcm_virq.c:409-414 | PPI inject then clear restores the page when the bit was clear |
| Dispatch.RouteWrite | hypervisor/arch/arm/common/bcm_virq.c:221-259 | per-core routes carry a core index below 4 and lie below 0x200. Legacy routes lie at or above 0x200. Mask writes use base 32, 64 or 96 |
| Dispatch.RouteFindsCore | hypervisor/arch/arm/common/bcm_virq.c:237-258 | each core's timer-control word, its four mailbox-set words, its four mailbox-clear words and its release entry route to that core (strides 4, 16 and 8) |
| Dispatch.RouteAddressesCoreRegister | hypervisor/arch/arm/common/bcm_virq.c:241-252 | an aligned write routed to core c addresses core c's timer-control word, or one of its four mailbox words |
| Dispatch.MaskRoutesMatchBanks | hypervisor/arch/arm/common/bcm_virq.c:95-112 | the enable and disable registers of bank k use base `32 + 32k`, so bit b names the SPI with id b in bank k |
| Dispatch.MaskEventsBelow | hypervisor/arch/arm/common/bcm_virq.c:75-76 | the first n loop rounds enable (or disable) exactly `base + b` for the set bits b below n, in increasing order |
| Dispatch.MaskEvents | hypervisor/arch/arm/common/bcm_virq.c:70-86 | an enable (disable) write calls `virq_enable` (`virq_disable`) exactly on `{base + b \| bit b set, b < 32}`, in increasing order |
| Dispatch.TimerEventsBelow | hypervisor/arch/arm/common/bcm_virq.c:211-216 | the first n loop rounds make n calls, call i being for PPI 16 + i; PPI 16 + k is enabled when bit k is set and disabled otherwise |
| Dispatch.TimerEvents | hypervisor/arch/arm/common/bcm_virq.c:210-216 | a timer-control write makes four calls, in order: call i is for PPI 16 + i, an enable exactly when bit i is set and a disable otherwise |
| Dispatch.MailboxRequest | hypervisor/arch/arm/common/bcm_virq.c:139-150 | a mailbox write is accepted exactly when all of these hold: the value is non-zero, cpu is at most `vcpu_nr`, the vcpu exists, and a bit below 16 is set. The SGI is then the lowest set bit |
| Dispatch.SendVsgiEffect | hypervisor/arch/arm/common/bcm_virq.c:131-153 | `send_vsgi` never touches the page. When refused it returns -EINVAL and makes no call. Otherwise it makes one send call and returns the send's status |
| Dispatch.ClearVsgiEffect | hypervisor/arch/arm/common/bcm_virq.c:155-192 | `clear_vsgi` refused: -EINVAL, no call, page unchanged. Otherwise the page is `ClearMailboxPage` of the written mailbox word (written bits cleared, the core's summary bit 4 dropped when the word is left zero), only that word and the core's local pending word change, the SGI is cleared pending, and the status is 0 |
| Dispatch.TimerEffect | hypervisor/arch/arm/common/bcm_virq.c:194-219 | when the vcpu is absent: -EINVAL with nothing changed. Otherwise: store the value, make the four timer enable/disable calls, return 0 |
| Dispatch.LegacyAckEffect | hypervisor/arch/arm/common/bcm_virq.c:113-117 | the legacy ack clears the SPI `value + 32` (uint32_t) when the lookup accepts it, and clears that virq pending in any case |
| Dispatch.LocalAckEffect | hypervisor/arch/arm/common/bcm_virq.c:118-122 | the local ack clears local id `value` when it is at most 9, and clears virq `value + 16` pending in any case |
| Dispatch.GuestWrite | hypervisor/arch/arm/common/bcm_virq.c:221-262 | a guest write always returns 0. Ignored, mask, mailbox-set and release writes leave the page unchanged |
| Dispatch.SendVirqPage | hypervisor/arch/arm/common/bcm_virq.c:441-460 | `send_virq` routes 0..15 to the SGI inject, 16..31 to the PPI inject (except the fast-GPU id) and 32..127 to the SPI inject. Anything else leaves the page unchanged |
| Guarantees.GuestWriteNeverRaises | hypervisor/arch/arm/common/bcm_virq.c:221-262 | no guest write sets a bit in the page, except in the timer-control word it writes |
| Guarantees.SendVirqNeverDrops | hypervisor/arch/arm/common/bcm_virq.c:441-460 | sending a virq clears no bit |
| Guarantees.SendVirqKeepsSummary | hypervisor/arch/arm/common/bcm_virq.c:441-460 | sending any virq, 20 included, keeps the legacy summary right, and an accepted SPI makes it right whatever it was |
| Guarantees.SendVirqKeepsMailbox | hypervisor/arch/arm/common/bcm_virq.c:441-460 | sending a virq keeps core c's mailbox summary right unless it is PPI 20 sent to c, and an SGI sent to c makes it right whatever it was |
| Guarantees.SendVirqKeepsConsistent | hypervisor/arch/arm/common/bcm_virq.c:441-460 | sending any virq other than 20 keeps both summary invariants (the two lemmas above, together) |
| Guarantees.SendPpi20BreaksMailboxSummary | hypervisor/arch/arm/common/bcm_virq.c:298-300 | sending PPI 20 to a zero page leaves the mailbox summary wrong |
| Guarantees.GuestClearOfMailbox1DropsSummary | hypervisor/arch/arm/common/bcm_virq.c:179-188 | a guest write of 1 at offset 0xc4 (mailbox 1 of core 0) turns a consistent page, whose mailbox 0 holds SGI 0, into one whose mailbox summary bit is clear |
| Guarantees.GuestWriteKeepsSummary | hypervisor/arch/arm/common/bcm_virq.c:221-262 | every guest write keeps the legacy summary right, from that invariant alone, except a local ack of id 8 from vcpu 0 |
| Guarantees.GuestWriteKeepsMailbox | hypervisor/arch/arm/common/bcm_virq.c:221-262 | every guest write keeps core c's mailbox summary right, except a clear of c's mailboxes 1..3 and a local ack of id 4 by vcpu c |
| Guarantees.GuestWriteKeepsConsistent | hypervisor/arch/arm/common/bcm_virq.c:221-262 | every guest write keeps both summary invariants, except three cases: a clear of mailboxes 1..3, a local ack of id 4, and a local ack of id 8 from vcpu 0 |
| Guarantees.TimerKeepsConsistent | hypervisor/arch/arm/common/bcm_virq.c:194-219 | a timer-control write keeps both summary invariants |
| Guarantees.ClearVsgiKeepsConsistent | hypervisor/arch/arm/common/bcm_virq.c:155-192 | a guest clear of mailbox 0 keeps both summary invariants, whether accepted or refused |
| Guarantees.ClearVsgiEffectPage | hypervisor/arch/arm/common/bcm_virq.c:160-188 | a write to any of core cpu's four mailbox-clear words clears exactly that mailbox word when accepted, and leaves the page unchanged when refused |
| Guarantees.LegacyAckKeepsConsistent | hypervisor/arch/arm/common/bcm_virq.c:113-117 | the legacy ack keeps both summary invariants for every written value |
| Guarantees.LocalAckKeepsConsistent | hypervisor/arch/arm/common/bcm_virq.c:118-122 | the local ack keeps both summary invariants for ids other than 4, and other than 8 on vcpu 0 |
| Guarantees.SpiSendThenAck | hypervisor/arch/arm/common/bcm_virq.c:113-117 | after sending an SPI whose bit was clear, the guest's legacy ack with `virq - 32` restores the page and clears exactly that virq pending |
| Guarantees.SharedAckClearsPartner | hypervisor/arch/arm/common/bcm_virq.c:113-117 | when two SPIs share a location, sending one sets its bit and the guest's legacy ack of the other clears it |
| Guarantees.LegacyAckClears | hypervisor/arch/arm/common/bcm_virq.c:113-117 | the guest's legacy ack with `virq - 32` makes the page `ClearSpiPage` of virq's location |
| Guarantees.PpiSendThenAck | hypervisor/arch/arm/common/bcm_virq.c:118-122 | after sending a PPI with local id at most 9 (not 8), the guest's local ack with that id restores the page and clears the PPI pending |
| Guarantees.HighPpiStaysPending | hypervisor/arch/arm/common/bcm_virq.c:409-410 | PPIs 26..31 stay set in the page after the guest's local ack |
| BcmVirq.Controller.constructor | hypervisor/arch/arm/common/bcm_virq.c:483-494 | a new controller records the bank offsets, has a zero page and an empty log |
| BcmVirq.Controller.Reset | hypervisor/arch/arm/common/bcm_virq.c:55-60 | reset zeroes the whole page |
| BcmVirq.Controller.InjectSpi | hypervisor/arch/arm/common/bcm_virq.c:419-439 | a refused lookup returns -EINVAL with the page unchanged. Otherwise the page becomes `InjectSpiPage` and the status is 0 |
| BcmVirq.Controller.ClearSpi | hypervisor/arch/arm/common/bcm_virq.c:374-400 | a refused lookup returns -EINVAL with the page unchanged. Otherwise the page becomes `ClearSpiPage` and the status is 0 |
| BcmVirq.Controller.InjectSgi | hypervisor/arch/arm/common/bcm_virq.c:264-283 | the page becomes `InjectSgiPage`, status 0 |
| BcmVirq.Controller.InjectPpi | hypervisor/arch/arm/common/bcm_virq.c:285-303 | the fast-GPU id returns -EINVAL with the page unchanged. Any other id makes the page `InjectPpiPage`, status 0 |
| BcmVirq.Controller.ClearPpi | hypervisor/arch/arm/common/bcm_virq.c:402-417 | ids above 9 return -EINVAL with the page unchanged. Any other id makes the page `ClearPpiPage`, status 0 |
| BcmVirq.Controller.SendVirq | hypervisor/arch/arm/common/bcm_virq.c:441-460 | the page becomes `SendVirqPage`, status 0 |
| BcmVirq.Controller.ToggleBits | hypervisor/arch/arm/common/bcm_virq.c:70-86 | the loop appends exactly `MaskEvents` to the log |
| BcmVirq.Controller.SendVsgi | hypervisor/arch/arm/common/bcm_virq.c:131-153 | the log and the status follow `SendVsgiEffect`, and the page is untouched |
| BcmVirq.Controller.ClearVsgi | hypervisor/arch/arm/common/bcm_virq.c:155-192 | the page, the log and the status follow `ClearVsgiEffect` |
| BcmVirq.Controller.TimerIntAction | hypervisor/arch/arm/common/bcm_virq.c:194-219 | the page, the log and the status follow `TimerEffect` |
| BcmVirq.Controller.TimerToggles | hypervisor/arch/arm/common/bcm_virq.c:210-216 | the four-round loop appends exactly `TimerEvents`: PPI 16 + i is enabled when bit i is set, and disabled otherwise |
| BcmVirq.Controller.Bcm2835Write | hypervisor/arch/arm/common/bcm_virq.c:88-129 | a write at or above 0x200 changes the page, the log and the status as `GuestWrite` says |
| BcmVirq.Controller.Bcm2836Write | hypervisor/arch/arm/common/bcm_virq.c:221-262 | every guest write changes the page, the log and the status as `GuestWrite` says |

## Left out

- Locking and concurrency: the code takes no lock. The model is sequential.
- Logging (`pr_info`, `pr_warn`, `pr_error`) and the read handler, which does nothing
  (`bcm_virq.c:62-68`).
- Allocation and lifecycle: `zalloc`, `get_io_page`, `free`, `host_vdev_init`,
  `create_guest_mapping`, the `vgicv2_create_vm` pass-through, `bcm2836_virq_deinit`.
  The constructor keeps only the bank offsets and the zeroed page.
- Calls into the rest of the hypervisor. `virq_enable`, `virq_disable`,
  `clear_pending_virq`, `send_virq_to_vcpu` and `vcpu_power_on` are log entries only.
  What `send_virq_to_vcpu` returns is the parameter `sendResult`. `get_vcpu_in_vm` is
  the set `Vm.present`. `cpuid_to_affinity` is not modelled: the power-on entry
  records the core index.
- `asm/bcm_irq.h` is not part of this model. Its constants are assumed:
  - `NR_BANKS` is 3;
  - `HWIRQ_BANK(virq)` is `(virq - 32) / 32` in uint32_t arithmetic. The lookup's
    bank numbers depend on this assumption: with `HWIRQ_BANK(i) = i >> 5` applied
    to the virq itself, as in Linux's irq-bcm2835.c, every SPI would sit one bank
    higher (virq 39 would be bank 1, id 7), and the aliasing would apply to other
    virqs;
  - the local-controller offsets are those of the BCM2836 datasheet;
  - the BCM2835 offsets are those of its interrupt controller, at 0x200;
  - the release entries are at 0x100..0x11c;
  - `BCM2835_IRQ_ACK` is at 0x240 and `BCM2836_IRQ_ACK` at 0x244. These two are
    hypervisor inventions; their exact values change only which offsets route where.
- Guest writes are taken as 32-bit aligned byte offsets into the page, below
  `PAGE_SIZE`. The subtraction of `BCM2836_INC_BASE` is done by the caller.
- Vcpu ids are below 4, the number of per-core register slots.
- `__ffs(0)` is undefined in the source, and it is reached: `send_vsgi` and
  `clear_vsgi` test the whole 64-bit value for zero, but pass only its low 32 bits
  to `__ffs`, so a value such as `0x1_0000_0000` gives `__ffs(0)`. The model
  resolves this undefined case by returning 32, so such a write is refused.
- The SGI and PPI injects take a virq already in range, as `bcm_virq_send_virq`
  guarantees. Called directly with a larger virq, the source's shift would be
  undefined.
- `BcmVirq.Controller.Contents` only exposes the array as a sequence; it has no
  property of its own.
