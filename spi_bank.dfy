/**
 * Where a shared peripheral interrupt (SPI, virq 32 .. 127) lives in the
 * legacy controller's three pending registers.
 *
 * The legacy hwirq number is virq - 32; bank 0 is the "basic" bank, banks 1
 * and 2 are the GPU banks. The lookup treats eleven GPU ids as "shared":
 * it stores them at shadow bits 10 .. 19 of the basic pending register,
 * and refuses basic-bank ids 10 .. 20 to keep that range for them. The
 * mapping is the code's own: its switch, with falling-through case labels,
 * puts the eleven ids on nine bits (bits 14 and 20 stay unused, and two
 * pairs of ids share a bit). The model states the mapping as a table and
 * proves the table and the switch agree.
 */
module SpiBank {
  import opened Words
  import opened Layout

  /** A location in the legacy pending registers: bit `bit` of bcm2835_pending[bank]. */
  datatype Location = Location(bank: nat, bit: nat)

  /** HWIRQ_BANK(virq): the bank of hwirq virq - 32, computed in uint32_t. */
  function HwirqBank(virq: u32): nat
  {
    ((virq - 32) % 0x1_0000_0000) / 32
  }

  /** virq % 32: the id within the bank. */
  function LocalId(virq: u32): nat
  {
    virq % 32
  }

  /** The shared interrupts: (bank, id) to the shadow bit in bcm2835_pending[0]. */
  const SharedAliases: map<(nat, nat), nat> := map[
    (1, 7) := 13, (1, 9) := 12, (1, 10) := 11, (1, 18) := 10, (1, 19) := 10,
    (2, 21) := 19, (2, 22) := 18, (2, 23) := 17, (2, 24) := 16, (2, 25) := 15, (2, 30) := 15
  ]

  /**
   * bcm2836_get_spi_bank: the pending register and bit of an SPI, or None
   * for -EINVAL (a bank past the third, or a basic-bank id 10 .. 20, which
   * is reserved for the shadow bits).
   */
  function SpiLocation(virq: u32): (r: Option<Location>)
    ensures r.None? <==> HwirqBank(virq) >= NrBanks || (HwirqBank(virq) == 0 && 10 <= LocalId(virq) <= 20)
    ensures r.Some? ==> r.value.bank < NrBanks && r.value.bit < 32
    ensures r.Some? && r.value.bank != 0 ==> r.value == Location(HwirqBank(virq), LocalId(virq))
    ensures r.Some? && HwirqBank(virq) == 0 ==> r.value == Location(0, LocalId(virq))
    ensures r.Some? && r.value.bank != HwirqBank(virq) ==> r.value.bank == 0 && 10 <= r.value.bit <= 19
  {
    var bank, id := HwirqBank(virq), LocalId(virq);
    if bank >= NrBanks then None
    else if bank == 0 then (if 10 <= id <= 20 then None else Some(Location(0, id)))
    else if (bank, id) in SharedAliases then Some(Location(0, SharedAliases[(bank, id)]))
    else Some(Location(bank, id))
  }

  /** The SPI with the given bank and id. */
  function SpiOf(bank: nat, id: nat): (virq: u32)
    requires bank < NrBanks && id < 32
    ensures 32 <= virq < 128 && HwirqBank(virq) == bank && LocalId(virq) == id
  {
    32 + 32 * bank + id
  }

  /** The shared interrupts of GPU bank 1 are stored at the shadow bits of bank 0 the switch gives them. */
  lemma Bank1SharedShadows()
    ensures SpiLocation(SpiOf(1, 7)) == Some(Location(0, 13))
    ensures SpiLocation(SpiOf(1, 9)) == Some(Location(0, 12))
    ensures SpiLocation(SpiOf(1, 10)) == Some(Location(0, 11))
    ensures SpiLocation(SpiOf(1, 18)) == Some(Location(0, 10))
    ensures SpiLocation(SpiOf(1, 19)) == Some(Location(0, 10))
  {
  }

  /** The shared interrupts of GPU bank 2 are stored at the shadow bits of bank 0 the switch gives them. */
  lemma Bank2SharedShadows()
    ensures SpiLocation(SpiOf(2, 21)) == Some(Location(0, 19))
    ensures SpiLocation(SpiOf(2, 22)) == Some(Location(0, 18))
    ensures SpiLocation(SpiOf(2, 23)) == Some(Location(0, 17))
    ensures SpiLocation(SpiOf(2, 24)) == Some(Location(0, 16))
    ensures SpiLocation(SpiOf(2, 25)) == Some(Location(0, 15))
    ensures SpiLocation(SpiOf(2, 30)) == Some(Location(0, 15))
  {
  }

  /** Every GPU id outside the table stays in its own bank at bit id. */
  lemma UnsharedInterruptsStayInBank(bank: nat, id: nat)
    requires 1 <= bank < NrBanks && id < 32 && (bank, id) !in SharedAliases
    ensures SpiLocation(SpiOf(bank, id)) == Some(Location(bank, id))
  {
  }

  /**
   * Two distinct interrupts share a location only in the two pairs the
   * switch sends to one shadow bit: GPU ids 18 and 19 (bit 10) and GPU ids
   * 57 and 62 (bit 15). Every other SPI has a location of its own.
   */
  lemma SharedLocations(a: u32, b: u32)
    requires a < b && SpiLocation(a).Some? && SpiLocation(a) == SpiLocation(b)
    ensures (a, b) == (SpiOf(1, 18), SpiOf(1, 19)) || (a, b) == (SpiOf(2, 25), SpiOf(2, 30))
  {
    var ka, kb := (HwirqBank(a), LocalId(a)), (HwirqBank(b), LocalId(b));
    SpiOfInverse(a);
    SpiOfInverse(b);
    assert ka != kb;
    var loc := SpiLocation(a).value;
    if loc.bank == 0 && ka.0 != 0 && kb.0 != 0 {
      SharedShadowPairs(ka, kb);
    }
  }

  /** A virq that the lookup accepts is the SPI of its bank and id. */
  lemma SpiOfInverse(virq: u32)
    requires HwirqBank(virq) < NrBanks
    ensures virq == SpiOf(HwirqBank(virq), LocalId(virq))
  {
    var m := (virq - 32) % 0x1_0000_0000;
    assert m < 96;
    assert m == if virq >= 32 then virq - 32 else virq - 32 + 0x1_0000_0000;
    var h := virq - 32;
    assert h == m;
    assert h == 32 * (h / 32) + h % 32;
    assert h % 32 == virq % 32;
  }

  /** Only two pairs of table entries share a shadow bit. */
  lemma SharedShadowPairs(k: (nat, nat), k': (nat, nat))
    requires k in SharedAliases && k' in SharedAliases && k != k' && SharedAliases[k] == SharedAliases[k']
    ensures {k, k'} == {(1, 18), (1, 19)} || {k, k'} == {(2, 25), (2, 30)}
  {
  }

  // bcm2836_get_spi_bank as written: the GPU banks use a switch in which
  // each case label group falls through into the next, decrementing
  // `index` once per group, before the shadow bit is computed as
  // base + index.

  /** The first case label group that contains id: where control enters the switch. */
  function CaseGroupIndex(groups: seq<set<nat>>, id: nat): (r: Option<nat>)
    ensures r.Some? ==> r.value < |groups| && id in groups[r.value]
    ensures r.Some? ==> forall j :: 0 <= j < r.value ==> id !in groups[j]
    ensures r.None? ==> forall j :: 0 <= j < |groups| ==> id !in groups[j]
  {
    if groups == [] then None
    else if id in groups[0] then Some(0)
    else match CaseGroupIndex(groups[1..], id)
      case None => None
      case Some(i) => Some(i + 1)
  }

  /** `index` after control enters at group g and falls through every later group. */
  function FallThroughIndex(index: nat, groups: seq<set<nat>>, g: nat): (r: nat)
    requires g <= |groups| && |groups| - g <= index
    ensures r == index - (|groups| - g)
    decreases |groups| - g
  {
    if g == |groups| then index else FallThroughIndex(index - 1, groups, g + 1)
  }

  /** The shadow bit the switch computes, or None when control reaches `default`. */
  function SwitchShadowBit(index: nat, base: nat, groups: seq<set<nat>>, id: nat): Option<nat>
    requires |groups| <= index
  {
    match CaseGroupIndex(groups, id)
    case None => None
    case Some(g) => Some(base + FallThroughIndex(index, groups, g))
  }

  const Bank1Cases: seq<set<nat>> := [{19, 18}, {10}, {9}, {7}]
  const Bank2Cases: seq<set<nat>> := [{30, 25}, {24}, {23}, {22}, {21}]

  function SpiLocationAsWritten(virq: u32): Option<Location>
  {
    var bank, id := HwirqBank(virq), LocalId(virq);
    if bank >= NrBanks then None
    else if bank == 0 then (if 10 <= id <= 20 then None else Some(Location(0, id)))
    else
      var shadow := if bank == 1 then SwitchShadowBit(4, 10, Bank1Cases, id) else SwitchShadowBit(5, 15, Bank2Cases, id);
      match shadow
      case Some(bit) => Some(Location(0, bit))
      case None => Some(Location(bank, id))
  }

  /** The alias table and the falling-through switch of the source locate every virq alike. */
  lemma SpiLocationMatchesSwitch(virq: u32)
    ensures SpiLocation(virq) == SpiLocationAsWritten(virq)
  {
    var bank, id := HwirqBank(virq), LocalId(virq);
    if bank == 1 {
      var g := CaseGroupIndex(Bank1Cases, id);
      assert Bank1Cases[0] == {19, 18} && Bank1Cases[1] == {10} && Bank1Cases[2] == {9} && Bank1Cases[3] == {7};
    } else if bank == 2 {
      var g := CaseGroupIndex(Bank2Cases, id);
      assert Bank2Cases[0] == {30, 25} && Bank2Cases[1] == {24} && Bank2Cases[2] == {23};
      assert Bank2Cases[3] == {22} && Bank2Cases[4] == {21};
    }
  }
}
