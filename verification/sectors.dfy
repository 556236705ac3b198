/**
  The two flash banks of the nRF52 (code and UICR), their sector tables,
  and the shared chip record: bank configuration, probing and sector lookup
  (src/flash/nor/nrf52.c:60-155, 268-280, 588-627).
*/
module Sectors {
  import opened DebugLink

  const FlashBase: nat := 0x0
  const FicrCodePageSizeAddr: nat := 0x1000_0010
  const FicrCodeSizeAddr: nat := 0x1000_0014
  const UicrBase: nat := 0x1000_1000

  /** The driver's tri-state flags: -1 is Unknown, 0 is No, 1 is Yes. */
  datatype Tri = Unknown | No | Yes

  datatype Sector = Sector(offset: nat, size: nat, erased: Tri, protected: Tri)

  /** A flash bank: its base address, its index into the chip's per-bank
      slots, its size in bytes and its sector table. */
  datatype Bank = Bank(base: nat, number: nat, size: nat, sectors: seq<Sector>)

  /** The write routine a bank is configured with. */
  datatype Strategy = CodeWrite | UicrWrite

  datatype Slot = Slot(probed: bool, write: Option<Strategy>)

  /** The state shared by both banks: page size and code size as last read
      from the FICR, and one slot per bank. */
  datatype Chip = Chip(pageSize: u32, codeSize: u32, slots: seq<Slot>)

  ghost predicate ValidChip(c: Chip)
  {
    |c.slots| == 2
  }

  /** The bank number agrees with the base address, as configuration sets it. */
  ghost predicate Configured(b: Bank)
  {
    || (b.base == FlashBase && b.number == 0)
    || (b.base == UicrBase && b.number == 1)
  }

  /** The sector table probing builds for the code bank: `n` sectors of one
      page each, back to back from offset 0. */
  ghost predicate CodeLayout(sectors: seq<Sector>, pageSize: nat, n: nat)
  {
    && |sectors| == n
    && forall i :: 0 <= i < n ==> sectors[i].offset == i * pageSize && sectors[i].size == pageSize
  }

  /** Sector `i` contains `addr` by the lookup's test, which uses the page size
      rather than the sector's own size. */
  ghost predicate Covers(sectors: seq<Sector>, pageSize: nat, i: nat, addr: nat)
    requires i < |sectors|
  {
    sectors[i].offset <= addr < sectors[i].offset + pageSize
  }

  // ---------------------------------------------------------------------
  // Lookup

  /** Linear scan for the first sector whose page contains `addr`
      (src/flash/nor/nrf52.c:268-280). */
  function FindSector(sectors: seq<Sector>, pageSize: nat, addr: nat): (r: Option<nat>)
    ensures r.Some? ==> r.value < |sectors| && Covers(sectors, pageSize, r.value, addr)
    ensures r.Some? ==> forall j :: 0 <= j < r.value ==> !Covers(sectors, pageSize, j, addr)
    ensures r.None? ==> forall j :: 0 <= j < |sectors| ==> !Covers(sectors, pageSize, j, addr)
  {
    FindFrom(sectors, pageSize, addr, 0)
  }

  function FindFrom(sectors: seq<Sector>, pageSize: nat, addr: nat, i: nat): (r: Option<nat>)
    requires i <= |sectors|
    decreases |sectors| - i
    ensures r.Some? ==> i <= r.value < |sectors| && Covers(sectors, pageSize, r.value, addr)
    ensures r.Some? ==> forall j :: i <= j < r.value ==> !Covers(sectors, pageSize, j, addr)
    ensures r.None? ==> forall j :: i <= j < |sectors| ==> !Covers(sectors, pageSize, j, addr)
  {
    if i == |sectors| then None
    else if sectors[i].offset <= addr < sectors[i].offset + pageSize then Some(i)
    else FindFrom(sectors, pageSize, addr, i + 1)
  }

  lemma {:induction false} MulStep(i: nat, j: nat, p: nat)
    requires j < i
    ensures j * p + p <= i * p
    decreases i - j
  {
    assert (i - 1) * p + p == i * p;
    if j < i - 1 {
      MulStep(i - 1, j, p);
    }
  }

  /** In the code layout only sector `addr / pageSize` can cover `addr`. */
  lemma CoverUnique(sectors: seq<Sector>, pageSize: nat, n: nat, i: nat, addr: nat)
    requires pageSize > 0
    requires CodeLayout(sectors, pageSize, n)
    requires i < n && Covers(sectors, pageSize, i, addr)
    ensures i == addr / pageSize
  {
    var q := addr / pageSize;
    assert q * pageSize <= addr < q * pageSize + pageSize;
    if i < q {
      MulStep(q, i, pageSize);
    } else if q < i {
      MulStep(i, q, pageSize);
    }
  }

  /** In the code layout the lookup returns sector `addr / pageSize` for every
      address below `n * pageSize` and nothing otherwise. */
  lemma FindSectorInLayout(sectors: seq<Sector>, pageSize: nat, n: nat, addr: nat)
    requires pageSize > 0
    requires CodeLayout(sectors, pageSize, n)
    ensures FindSector(sectors, pageSize, addr) == if addr < n * pageSize then Some(addr / pageSize) else None
  {
    var r := FindSector(sectors, pageSize, addr);
    if r.Some? {
      LayoutHit(sectors, pageSize, n, addr, r.value);
    } else {
      LayoutMiss(sectors, pageSize, n, addr);
    }
  }

  /** A sector of the code layout covering `addr` is sector `addr / pageSize`, inside the bank. */
  lemma LayoutHit(sectors: seq<Sector>, pageSize: nat, n: nat, addr: nat, i: nat)
    requires pageSize > 0
    requires CodeLayout(sectors, pageSize, n)
    requires i < n && Covers(sectors, pageSize, i, addr)
    ensures i == addr / pageSize && addr < n * pageSize
  {
    CoverUnique(sectors, pageSize, n, i, addr);
    assert addr < i * pageSize + pageSize;
    if i + 1 < n {
      MulStep(n, i + 1, pageSize);
    }
    assert (i + 1) * pageSize == i * pageSize + pageSize;
  }

  /** An address no sector of the code layout covers lies beyond the bank. */
  lemma LayoutMiss(sectors: seq<Sector>, pageSize: nat, n: nat, addr: nat)
    requires pageSize > 0
    requires CodeLayout(sectors, pageSize, n)
    requires forall j :: 0 <= j < n ==> !Covers(sectors, pageSize, j, addr)
    ensures n * pageSize <= addr
  {
    var q := addr / pageSize;
    assert q * pageSize <= addr < q * pageSize + pageSize;
    if q < n {
      assert Covers(sectors, pageSize, q, addr);
    } else if n < q {
      MulStep(q, n, pageSize);
    }
  }

  // ---------------------------------------------------------------------
  // Configuration and probing

  datatype ConfigOut = ConfigOut(status: Status, chip: Option<Chip>, bank: Bank)

  /** The strategy each bank base is configured with. */
  function StrategyFor(base: nat): Strategy
  {
    if base == FlashBase then CodeWrite else UicrWrite
  }

  /** Register a bank (src/flash/nor/nrf52.c:588-627). The first bank creates
      the shared chip; each bank's slot gets its write strategy and is marked
      unprobed. An unknown base is refused before anything changes. */
  function FlashBankCommand(chip: Option<Chip>, bank: Bank): (r: ConfigOut)
    requires chip.Some? ==> ValidChip(chip.value)
    ensures r.status == Ok <==> bank.base == FlashBase || bank.base == UicrBase
    ensures r.status.Err? ==> r.status == Err(Fail) && r.chip == chip && r.bank == bank
    ensures r.status == Ok ==>
      && Configured(r.bank)
      && r.bank == bank.(number := r.bank.number)
      && r.chip.Some? && ValidChip(r.chip.value)
      && r.chip.value.slots[r.bank.number] == Slot(false, Some(StrategyFor(bank.base)))
    ensures r.status == Ok && chip.Some? ==>
      && r.chip.value.pageSize == chip.value.pageSize
      && r.chip.value.codeSize == chip.value.codeSize
      && r.chip.value.slots[1 - r.bank.number] == chip.value.slots[1 - r.bank.number]
    ensures r.status == Ok && chip.None? ==> r.chip.value.slots[1 - r.bank.number] == Slot(false, None)
  {
    if bank.base != FlashBase && bank.base != UicrBase then ConfigOut(Err(Fail), chip, bank)
    else
      var n := if bank.base == FlashBase then 0 else 1;
      var c := if chip.None? then Chip(0, 0, [Slot(false, None), Slot(false, None)]) else chip.value;
      ConfigOut(Ok, Some(c.(slots := c.slots[n := Slot(false, Some(StrategyFor(bank.base)))])), bank.(number := n))
  }

  datatype ProbeOut = ProbeOut(status: Status, chip: Chip, bank: Bank, link: Link)

  /** The code-bank sector table for `size` bytes of pages of `pageSize` bytes. */
  function CodeSectors(size: nat, pageSize: nat): (s: seq<Sector>)
    requires pageSize > 0
    ensures CodeLayout(s, pageSize, size / pageSize)
    ensures forall i :: 0 <= i < |s| ==> s[i].erased == Unknown && s[i].protected == Unknown
  {
    seq(size / pageSize, i requires 0 <= i < size / pageSize => Sector(i * pageSize, pageSize, Unknown, Unknown))
  }

  /** Read the page size and page count from the FICR and rebuild the bank's
      sector table with every flag unknown (src/flash/nor/nrf52.c:76-139). The
      code size is the 32-bit product of the two reads. */
  function Probe(chip: Chip, bank: Bank, l: Link): (r: ProbeOut)
    requires ValidChip(chip)
    requires bank.base == FlashBase && l.replies(l.next).Ack? ==> l.replies(l.next).word > 0
    ensures ValidChip(r.chip)
    ensures r.link.trace == l.trace + [ReadU32(FicrCodePageSizeAddr)] + (if l.replies(l.next).Ack? then [ReadU32(FicrCodeSizeAddr)] else [])
    ensures r.link.replies == l.replies && r.link.flash == l.flash
    ensures r.status.Err? ==> r.bank == bank && r.chip.slots == chip.slots
    ensures r.status == Ok <==> l.replies(l.next).Ack? && l.replies(l.next + 1).Ack?
    ensures l.replies(l.next).Nak? ==> r.status == Err(Transport(l.replies(l.next).code))
    ensures l.replies(l.next).Ack? && l.replies(l.next + 1).Nak? ==> r.status == Err(Transport(l.replies(l.next + 1).code))
    ensures l.replies(l.next).Ack? ==> r.chip.pageSize == l.replies(l.next).word
    ensures r.status == Ok ==> r.chip.codeSize == (l.replies(l.next + 1).word * r.chip.pageSize) % U32Limit
    ensures r.status == Ok ==> Rebuilt(chip, bank, r)
  {
    var x := Call(l, ReadU32(FicrCodePageSizeAddr));
    if x.reply.Nak? then ProbeOut(x.reply.AsStatus(), chip, bank, x.link)
    else
      var ps := x.reply.word;
      var y := Call(x.link, ReadU32(FicrCodeSizeAddr));
      if y.reply.Nak? then ProbeOut(y.reply.AsStatus(), chip.(pageSize := ps), bank, y.link)
      else Rebuild(chip, bank, ps, (y.reply.word * ps) % U32Limit, y.link)
  }

  /** The bank after a successful probe, given the chip before it: the code
      bank becomes `codeSize / pageSize` sectors of one page, the UICR bank a
      single sector of one page, every flag unknown, and the bank's slot is
      marked probed. */
  ghost predicate Rebuilt(chip: Chip, bank: Bank, r: ProbeOut)
  {
    && |chip.slots| == |r.chip.slots| == 2
    && (bank.base == FlashBase ==>
          && r.chip.pageSize > 0
          && r.bank == bank.(size := r.chip.codeSize, sectors := r.bank.sectors)
          && CodeLayout(r.bank.sectors, r.chip.pageSize, r.chip.codeSize / r.chip.pageSize)
          && (forall i :: 0 <= i < |r.bank.sectors| ==> r.bank.sectors[i].erased == Unknown && r.bank.sectors[i].protected == Unknown)
          && r.chip.slots == chip.slots[0 := chip.slots[0].(probed := true)])
    && (bank.base != FlashBase ==>
          && r.bank == bank.(size := r.chip.pageSize, sectors := [Sector(0, r.chip.pageSize, Unknown, Unknown)])
          && r.chip.slots == chip.slots[1 := chip.slots[1].(probed := true)])
  }

  /** The final step of a probe once both FICR reads succeeded. */
  function Rebuild(chip: Chip, bank: Bank, ps: u32, codeSize: u32, l: Link): (r: ProbeOut)
    requires ValidChip(chip)
    requires bank.base == FlashBase ==> ps > 0
    ensures r.status == Ok && r.link == l && ValidChip(r.chip)
    ensures r.chip.pageSize == ps && r.chip.codeSize == codeSize
    ensures Rebuilt(chip, bank, r)
  {
    var c := chip.(pageSize := ps, codeSize := codeSize);
    if bank.base == FlashBase then
      // the protection check that follows is a stub that changes nothing
      ProbeOut(Ok, c.(slots := c.slots[0 := c.slots[0].(probed := true)]),
               bank.(size := codeSize, sectors := CodeSectors(codeSize, ps)), l)
    else
      ProbeOut(Ok, c.(slots := c.slots[1 := c.slots[1].(probed := true)]),
               bank.(size := ps, sectors := [Sector(0, ps, Unknown, Unknown)]), l)
  }

  /** Probe unless this bank's slot already says probed
      (src/flash/nor/nrf52.c:141-155). */
  function AutoProbe(chip: Chip, bank: Bank, l: Link): (r: ProbeOut)
    requires ValidChip(chip) && bank.number < 2
    requires !chip.slots[bank.number].probed && bank.base == FlashBase && l.replies(l.next).Ack? ==>
               l.replies(l.next).word > 0
    ensures ValidChip(r.chip)
    ensures chip.slots[bank.number].probed ==> r == ProbeOut(Ok, chip, bank, l)
    ensures r.status.Err? ==> r.bank == bank && r.chip.slots == chip.slots
    ensures r.status == Ok ==> r.bank.number == bank.number
    ensures Configured(bank) && r.status == Ok ==> r.chip.slots[bank.number].probed
    ensures !chip.slots[bank.number].probed ==>
      && |r.link.trace| > |l.trace| && r.link.trace[..|l.trace| + 1] == l.trace + [ReadU32(FicrCodePageSizeAddr)]
      && (r.status == Ok <==> l.replies(l.next).Ack? && l.replies(l.next + 1).Ack?)
  {
    if chip.slots[bank.number].probed then ProbeOut(Ok, chip, bank, l) else Probe(chip, bank, l)
  }

  /** For a configured bank a successful auto-probe leaves the bank probed, so
      a second auto-probe is a no-op that does not touch the target. */
  lemma AutoProbeIdempotent(chip: Chip, bank: Bank, l: Link)
    requires ValidChip(chip) && Configured(bank)
    requires !chip.slots[bank.number].probed && bank.base == FlashBase && l.replies(l.next).Ack? ==>
               l.replies(l.next).word > 0
    requires AutoProbe(chip, bank, l).status == Ok
    ensures var r := AutoProbe(chip, bank, l);
      r.bank.number == bank.number && AutoProbe(r.chip, r.bank, r.link) == r
  {
  }

  /** The code bank after a probe: sector `a / pageSize` for every address
      inside the bank, nothing outside it. */
  lemma ProbedLookup(chip: Chip, bank: Bank, l: Link, addr: nat)
    requires ValidChip(chip) && bank.base == FlashBase
    requires l.replies(l.next).Ack? ==> l.replies(l.next).word > 0
    requires Probe(chip, bank, l).status == Ok
    ensures var r := Probe(chip, bank, l);
      FindSector(r.bank.sectors, r.chip.pageSize, addr) ==
        if addr < |r.bank.sectors| * r.chip.pageSize then Some(addr / r.chip.pageSize) else None
  {
    var r := Probe(chip, bank, l);
    FindSectorInLayout(r.bank.sectors, r.chip.pageSize, |r.bank.sectors|, addr);
  }
}
