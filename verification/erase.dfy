/**
  The erase-state cache: erasing one page, a range of sectors, and the whole
  chip, and which `erased` flags each of them sets
  (src/flash/nor/nrf52.c:282-315, 484-495, 629-667).
*/
module Erasure {
  import opened DebugLink
  import opened Nvmc
  import opened Sectors

  datatype BankOut = BankOut(status: Status, bank: Bank, link: Link)

  /** `b` is `a` with some sector flags possibly changed: same bank, same
      sectors at the same offsets, sizes and protection. */
  ghost predicate SameShape(a: Bank, b: Bank)
  {
    && b.base == a.base && b.number == a.number && b.size == a.size
    && |b.sectors| == |a.sectors|
    && forall j :: 0 <= j < |a.sectors| ==>
         b.sectors[j].offset == a.sectors[j].offset
         && b.sectors[j].size == a.sectors[j].size
         && b.sectors[j].protected == a.sectors[j].protected
  }

  /** Sector `i` recorded as erased. */
  function MarkErased(bank: Bank, i: nat): (r: Bank)
    requires i < |bank.sectors|
    ensures SameShape(bank, r)
    ensures r.sectors[i].erased == Yes
    ensures forall j :: 0 <= j < |bank.sectors| && j != i ==> r.sectors[j] == bank.sectors[j]
  {
    bank.(sectors := bank.sectors[i := bank.sectors[i].(erased := Yes)])
  }

  /** The erase register and value that erase sector `i` of `bank`: the UICR
      has its own erase register, code pages are erased by offset. */
  function Trigger(bank: Bank, i: nat): (nat, nat)
    requires i < |bank.sectors|
  {
    if bank.base == UicrBase then (EraseUicrAddr, 1) else (ErasePageAddr, bank.sectors[i].offset)
  }

  /** The register writes of a successful erase with trigger `t`. */
  function EraseWrites(t: (nat, nat)): seq<(nat, nat)>
  {
    [(ConfigAddr, ConfigValue(EraseEnable)), t, (ConfigAddr, ConfigValue(ReadOnly))]
  }

  /** Erase sector `i` (src/flash/nor/nrf52.c:290-315). A protected sector is
      refused with Fail before any access. Otherwise the generic erase runs
      with the sector's trigger; its status is returned and the sector is
      marked erased only when it is Ok. */
  function ErasePage(bank: Bank, i: nat, l: Link): (r: BankOut)
    requires i < |bank.sectors|
    ensures Extends(l, r.link) && RegistersOnly(l, r.link)
    ensures bank.sectors[i].protected == Yes ==> r == BankOut(Err(Fail), bank, l)
    ensures r.status.Err? ==> r.bank == bank
    ensures r.status == Ok ==> r.bank == MarkErased(bank, i)
    ensures r.status == Ok ==> r.link.fx.writes == l.fx.writes + EraseWrites(Trigger(bank, i))
    ensures r.status == Err(Fail) <==> bank.sectors[i].protected == Yes
    ensures r.status.Err? && bank.sectors[i].protected != Yes ==> NvmcStatus(r.status)
  {
    if bank.sectors[i].protected == Yes then BankOut(Err(Fail), bank, l)
    else
      var e := GenericErase(l, Trigger(bank, i).0, Trigger(bank, i).1);
      GenericEraseStatus(l, Trigger(bank, i).0, Trigger(bank, i).1);
      BankOut(e.status, if e.status == Ok then MarkErased(bank, i) else bank, e.link)
  }

  /** The register writes that erase sectors `first..last` of `bank` one after another. */
  function RangeWrites(bank: Bank, first: nat, last: int): seq<(nat, nat)>
    requires last < |bank.sectors|
    decreases last - first
  {
    if last < first then [] else EraseWrites(Trigger(bank, first)) + RangeWrites(bank, first + 1, last)
  }

  /** The trigger of a sector depends only on the bank base and the sector's offset. */
  lemma RangeWritesShape(a: Bank, b: Bank, first: nat, last: int)
    requires SameShape(a, b) && last < |a.sectors|
    decreases last - first
    ensures RangeWrites(a, first, last) == RangeWrites(b, first, last)
  {
    if first <= last {
      RangeWritesShape(a, b, first + 1, last);
    }
  }

  /** Erase sectors `first..last` in order, stopping at the first failure
      (src/flash/nor/nrf52.c:484-495). Sectors outside the range are left
      alone; on success the register writes are the erase sequences of the
      range in ascending order; on failure the loop stopped at some sector of
      the range, with the ones before it marked erased and the rest unchanged. */
  function Erase(bank: Bank, first: nat, last: int, l: Link): (r: BankOut)
    requires last < |bank.sectors|
    decreases last - first
    ensures Extends(l, r.link) && RegistersOnly(l, r.link)
    ensures SameShape(bank, r.bank)
    ensures forall j :: 0 <= j < |bank.sectors| && !(first <= j <= last) ==> r.bank.sectors[j] == bank.sectors[j]
    ensures r.status == Ok ==> r.link.fx.writes == l.fx.writes + RangeWrites(bank, first, last)
    ensures r.status.Err? ==> exists f :: StoppedAt(bank, r.bank, first, f, last)
  {
    if last < first then BankOut(Ok, bank, l)
    else
      var e := ErasePage(bank, first, l);
      if e.status.Err? then
        assert StoppedAt(bank, e.bank, first, first, last);
        e
      else
        var r := Erase(e.bank, first + 1, last, e.link);
        if r.status.Err? then
          StoppedLater(bank, e.bank, r.bank, first, first + 1, last);
          r
        else
          RangeWritesShape(bank, e.bank, first + 1, last);
          SeqAssoc(l.fx.writes, EraseWrites(Trigger(bank, first)), RangeWrites(bank, first + 1, last));
          r
  }

  /** One step of the erase loop. */
  lemma EraseStep(bank: Bank, first: nat, last: int, l: Link)
    requires last < |bank.sectors| && first <= last
    ensures var e := ErasePage(bank, first, l);
      Erase(bank, first, last, l) == if e.status.Err? then e else Erase(e.bank, first + 1, last, e.link)
  {
  }

  /** On success every sector of the range was unprotected and is now marked
      erased. */
  lemma {:induction false} EraseOk(bank: Bank, first: nat, last: int, l: Link)
    requires last < |bank.sectors|
    requires Erase(bank, first, last, l).status == Ok
    decreases last - first
    ensures var r := Erase(bank, first, last, l);
      && (forall j :: first <= j <= last ==> r.bank.sectors[j] == bank.sectors[j].(erased := Yes))
      && (forall j :: first <= j <= last ==> bank.sectors[j].protected != Yes)
  {
    if first <= last {
      var e := ErasePage(bank, first, l);
      EraseStep(bank, first, last, l);
      EraseOk(e.bank, first + 1, last, e.link);
    }
  }

  /** Marking sector `first` and then stopping later in the range is stopping in the range. */
  lemma StoppedLater(bank: Bank, mid: Bank, after: Bank, first: nat, next: nat, last: int)
    requires |mid.sectors| == |bank.sectors| == |after.sectors| && first < last < |bank.sectors| && next == first + 1
    requires mid == MarkErased(bank, first) && after.sectors[first] == mid.sectors[first]
    requires exists f :: StoppedAt(mid, after, next, f, last)
    ensures exists f :: StoppedAt(bank, after, first, f, last)
  {
    var f :| StoppedAt(mid, after, next, f, last);
    assert StoppedAt(bank, after, first, f, last);
  }

  /** Erasing `first..last` stopped at sector `f`: the sectors before it were
      marked erased and it and the ones after it were left as they were. */
  ghost predicate StoppedAt(before: Bank, after: Bank, first: nat, f: nat, last: int)
    requires |after.sectors| == |before.sectors| && last < |before.sectors|
  {
    && first <= f <= last
    && (forall j :: first <= j < f ==> after.sectors[j] == before.sectors[j].(erased := Yes))
    && (forall j :: f <= j <= last ==> after.sectors[j] == before.sectors[j])
  }

  /** Erasing a range twice: the second pass finds every sector already
      erased in the cache but erases them all again, since `Erase` consults
      only the protection flag. */
  lemma EraseIgnoresCache(bank: Bank, first: nat, last: int, l: Link)
    requires last < |bank.sectors|
    requires Erase(bank, first, last, l).status == Ok
    ensures var r := Erase(bank, first, last, l);
      && (forall j :: first <= j <= last ==> r.bank.sectors[j].erased == Yes)
      && (Erase(r.bank, first, last, r.link).status == Ok ==>
            Erase(r.bank, first, last, r.link).link.fx.writes == r.link.fx.writes + RangeWrites(bank, first, last))
  {
    var r := Erase(bank, first, last, l);
    EraseOk(bank, first, last, l);
    RangeWritesShape(bank, r.bank, first, last);
  }

  // ---------------------------------------------------------------------
  // Mass erase

  /** What looking a bank up by address produced: the bank, or the error. */
  datatype Lookup = Found(bank: Bank) | Missing(error: Error)

  datatype MassOut = MassOut(status: Status, code: Lookup, uicr: Lookup, link: Link)

  /** Every sector of `bank` recorded as erased. */
  function MarkAll(bank: Bank): (r: Bank)
    ensures SameShape(bank, r)
    ensures forall j :: 0 <= j < |r.sectors| ==> r.sectors[j] == bank.sectors[j].(erased := Yes)
  {
    bank.(sectors := seq(|bank.sectors|, j requires 0 <= j < |bank.sectors| => bank.sectors[j].(erased := Yes)))
  }

  /** The mass-erase command (src/flash/nor/nrf52.c:629-667) given the
      outcomes of looking up the code bank and the UICR bank. The code bank
      must be found, then ERASEALL runs; if it fails its status is returned
      and no flag changes. Otherwise every code sector is marked erased, the
      protection check (a stub) succeeds, and the UICR bank must be found:
      then its first sector is marked erased too. */
  function MassErase(code: Lookup, uicr: Lookup, l: Link): (r: MassOut)
    requires uicr.Found? ==> |uicr.bank.sectors| >= 1
    ensures Extends(l, r.link) && RegistersOnly(l, r.link)
    ensures r.status == Ok <==> code.Found? && GenericErase(l, EraseAllAddr, 1).status == Ok && uicr.Found?
    ensures code.Missing? ==> r == MassOut(Err(code.error), code, uicr, l)
    ensures code.Found? && GenericErase(l, EraseAllAddr, 1).status.Err? ==>
      r.status == GenericErase(l, EraseAllAddr, 1).status && r.code == code && r.uicr == uicr
    ensures code.Found? && GenericErase(l, EraseAllAddr, 1).status == Ok ==>
      && r.code == Found(MarkAll(code.bank))
      && r.link.fx.writes == l.fx.writes + EraseWrites((EraseAllAddr, 1))
      && (uicr.Missing? ==> r.status == Err(uicr.error) && r.uicr == uicr)
      && (uicr.Found? ==> r.uicr == Found(MarkErased(uicr.bank, 0)))
  {
    if code.Missing? then MassOut(Err(code.error), code, uicr, l)
    else
      var e := GenericErase(l, EraseAllAddr, 1);
      if e.status.Err? then MassOut(e.status, code, uicr, e.link)
      else if uicr.Missing? then MassOut(Err(uicr.error), Found(MarkAll(code.bank)), uicr, e.link)
      else MassOut(Ok, Found(MarkAll(code.bank)), Found(MarkErased(uicr.bank, 0)), e.link)
  }

  /** A failed chip erase leaves every cached flag of both banks as it was;
      a successful one leaves every code sector and the UICR sector erased. */
  lemma MassEraseCache(code: Bank, uicr: Bank, l: Link)
    requires |uicr.sectors| >= 1
    ensures var r := MassErase(Found(code), Found(uicr), l);
      && (r.status.Err? ==> r.code == Found(code) && r.uicr == Found(uicr))
      && (r.status == Ok ==>
            && (forall j :: 0 <= j < |code.sectors| ==> r.code.bank.sectors[j].erased == Yes)
            && r.uicr.bank.sectors[0].erased == Yes)
  {
  }
}
