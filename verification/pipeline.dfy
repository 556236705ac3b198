/**
  The read-modify-write pipeline: erasing the pages a write covers, the
  program phase (write-enable, low-level write, read-only restore), padding a
  code-flash write out to whole pages, the whole-page UICR write, and the
  per-bank dispatch (src/flash/nor/nrf52.c:432-585).
*/
module Pipeline {
  import opened DebugLink
  import opened Nvmc
  import opened Sectors
  import opened Loader
  import opened Erasure

  // ---------------------------------------------------------------------
  // Arithmetic on page-aligned offsets

  /** Division by `ps` is determined by quotient and remainder. */
  lemma DivUnique(x: nat, ps: nat, k: nat, rem: nat)
    requires ps > 0 && x == k * ps + rem && rem < ps
    ensures x / ps == k && x % ps == rem
  {
    var q := x / ps;
    assert q * ps <= x < q * ps + ps;
    if k < q {
      MulStep(q, k, ps);
    } else if q < k {
      MulStep(k, q, ps);
    }
  }

  /** In the code layout the lookup of page offset `k * ps` finds sector `k`
      when the bank has one and nothing otherwise. */
  lemma LayoutAt(sectors: seq<Sector>, ps: nat, n: nat, k: nat)
    requires ps > 0 && CodeLayout(sectors, ps, n)
    ensures FindSector(sectors, ps, k * ps) == if k < n then Some(k) else None
  {
    FindSectorInLayout(sectors, ps, n, k * ps);
    DivUnique(k * ps, ps, k, 0);
    if k < n {
      MulStep(n, k, ps);
    } else if n < k {
      MulStep(k, n, ps);
    }
  }

  // ---------------------------------------------------------------------
  // Erasing the pages of a write

  /** The erase sequences for the sectors in `[lo, hi)` that the cache does
      not record as erased, in ascending order. */
  function PendingWrites(bank: Bank, lo: nat, hi: nat): seq<(nat, nat)>
    requires lo < hi ==> hi <= |bank.sectors|
    decreases hi - lo
  {
    if hi <= lo then []
    else (if bank.sectors[lo].erased == Yes then [] else EraseWrites(Trigger(bank, lo))) + PendingWrites(bank, lo + 1, hi)
  }

  /** Two banks of the same shape that agree on the erase flags of `[lo, hi)` have the same pending erases there. */
  lemma PendingAgree(a: Bank, b: Bank, lo: nat, hi: nat)
    requires SameShape(a, b) && hi <= |a.sectors|
    requires forall j :: lo <= j < hi ==> a.sectors[j].erased == b.sectors[j].erased
    decreases hi - lo
    ensures PendingWrites(a, lo, hi) == PendingWrites(b, lo, hi)
  {
    if lo < hi {
      PendingAgree(a, b, lo + 1, hi);
    }
  }

  /** Nothing is pending in a range whose sectors are all recorded as erased. */
  lemma {:induction false} NothingPending(bank: Bank, lo: nat, hi: nat)
    requires hi <= |bank.sectors|
    requires forall j :: lo <= j < hi ==> bank.sectors[j].erased == Yes
    decreases hi - lo
    ensures PendingWrites(bank, lo, hi) == []
  {
    if lo < hi {
      NothingPending(bank, lo + 1, hi);
    }
  }

  /** The sector table of `b` is the code layout whenever that of `a` is and they have the same shape. */
  lemma ShapeKeepsLayout(a: Bank, b: Bank, ps: nat)
    requires SameShape(a, b) && CodeLayout(a.sectors, ps, |a.sectors|)
    ensures CodeLayout(b.sectors, ps, |b.sectors|)
  {
  }

  /** What erasing the pages `lo..hi-1` of a code-layout bank achieved, given
      its outcome `r`: sectors outside the range never change; on success
      the range lies inside the bank, holds no protected sector, every
      sector of it is now recorded as erased, and exactly the ones not
      recorded as erased before were erased, in ascending order; on failure
      the loop stopped at one page of the range (`StoppedAtPage`). */
  ghost predicate RangeDone(bank: Bank, lo: nat, hi: nat, l: Link, r: BankOut)
    requires |r.bank.sectors| == |bank.sectors|
  {
    RangeFrame(bank, lo, hi, r) && RangeOk(bank, lo, hi, l, r) && RangeErr(bank, lo, hi, r)
  }

  /** Sectors outside `lo..hi-1` never change. */
  ghost predicate RangeFrame(bank: Bank, lo: nat, hi: nat, r: BankOut)
    requires |r.bank.sectors| == |bank.sectors|
  {
    forall j :: 0 <= j < |bank.sectors| && !(lo <= j < hi) ==> r.bank.sectors[j] == bank.sectors[j]
  }

  /** On success the range lies in the bank, holds no protected sector, is
      recorded as erased, and exactly its sectors not recorded as erased
      before were erased, in order. */
  ghost predicate RangeOk(bank: Bank, lo: nat, hi: nat, l: Link, r: BankOut)
    requires |r.bank.sectors| == |bank.sectors|
  {
    r.status == Ok ==>
      && (lo < hi ==> hi <= |bank.sectors|)
      && (forall j :: lo <= j < hi ==> bank.sectors[j].protected != Yes)
      && (forall j :: lo <= j < hi ==> r.bank.sectors[j] == bank.sectors[j].(erased := Yes))
      && r.link.fx.writes == l.fx.writes + PendingWrites(bank, lo, hi)
  }

  /** A failure stopped the loop at some page of the range. */
  ghost predicate RangeErr(bank: Bank, lo: nat, hi: nat, r: BankOut)
    requires |r.bank.sectors| == |bank.sectors|
  {
    r.status.Err? ==> exists f :: StoppedAtPage(bank, lo, hi, f, r)
  }

  /** The erase loop over pages `lo..hi-1` stopped at page `f`: every page
      before it was found, unprotected, and is now recorded as erased; it
      and the pages after it are unchanged. SectorInvalid means page `f`
      lies beyond the bank, Fail that sector `f` is protected, and any other
      error is an NVMC status from erasing sector `f`, which the cache did
      not record as erased. */
  ghost predicate StoppedAtPage(bank: Bank, lo: nat, hi: nat, f: nat, r: BankOut)
    requires |r.bank.sectors| == |bank.sectors|
  {
    && lo <= f < hi
    && (lo < f ==> f <= |bank.sectors|)
    && (forall j :: lo <= j < f ==>
          j < |bank.sectors| && bank.sectors[j].protected != Yes && r.bank.sectors[j] == bank.sectors[j].(erased := Yes))
    && (forall j :: f <= j < hi && j < |bank.sectors| ==> r.bank.sectors[j] == bank.sectors[j])
    && (r.status == Err(SectorInvalid) <==> |bank.sectors| <= f)
    && (r.status == Err(Fail) <==> f < |bank.sectors| && bank.sectors[f].protected == Yes)
    && (r.status != Err(SectorInvalid) && r.status != Err(Fail) ==>
          f < |bank.sectors| && bank.sectors[f].erased != Yes && NvmcStatus(r.status) && r.status.Err?)
  }

  /** `[off, end)` is the span of pages `lo..hi-1` of a bank laid out as
      probing builds the code bank. */
  ghost predicate PageRange(ps: nat, bank: Bank, off: nat, end: nat, lo: nat, hi: nat)
  {
    CodeLayout(bank.sectors, ps, |bank.sectors|) && off == lo * ps && end == hi * ps
  }

  /** Erase the sectors of `[off, end)` that the cache does not record as
      erased (src/flash/nor/nrf52.c:446-468). Each offset is looked up; a
      missing sector ends the loop with SectorInvalid, a protected one with
      Fail, a failed erase with its error. Every sector the loop passes is
      recorded as erased. When the range is the pages `lo..hi-1` of the
      code layout, the outcome satisfies `RangeDone`. */
  function EraseRange(ps: nat, bank: Bank, off: nat, end: nat, l: Link, ghost lo: nat, ghost hi: nat): (r: BankOut)
    requires ps > 0
    decreases end - off
    ensures Extends(l, r.link) && RegistersOnly(l, r.link)
    ensures SameShape(bank, r.bank)
    ensures PageRange(ps, bank, off, end, lo, hi) ==> RangeDone(bank, lo, hi, l, r)
  {
    if off >= end then
      EmptyRange(ps, bank, off, end, l, lo, hi);
      BankOut(Ok, bank, l)
    else match FindSector(bank.sectors, ps, off)
      case None =>
        StopsAt(ps, bank, off, end, l, lo, hi, BankOut(Err(SectorInvalid), bank, l));
        BankOut(Err(SectorInvalid), bank, l)
      case Some(i) =>
        if bank.sectors[i].protected == Yes then
          StopsAt(ps, bank, off, end, l, lo, hi, BankOut(Err(Fail), bank, l));
          BankOut(Err(Fail), bank, l)
        else
          var e := if bank.sectors[i].erased != Yes then ErasePage(bank, i, l) else BankOut(Ok, bank, l);
          if e.status.Err? then
            StopsAt(ps, bank, off, end, l, lo, hi, e);
            e
          else
            var b := MarkErased(e.bank, i);
            var r := EraseRange(ps, b, off + ps, end, e.link, lo + 1, hi);
            NextPage(ps, bank, off, end, l, lo, hi, i, e, b, r);
            r
  }

  /** An empty range erases nothing. */
  lemma EmptyRange(ps: nat, bank: Bank, off: nat, end: nat, l: Link, lo: nat, hi: nat)
    requires ps > 0 && end <= off
    ensures PageRange(ps, bank, off, end, lo, hi) ==> RangeDone(bank, lo, hi, l, BankOut(Ok, bank, l))
  {
    if PageRange(ps, bank, off, end, lo, hi) && lo < hi {
      MulStep(hi, lo, ps);
    }
  }

  /** The loop stopping at the first page with outcome `r`, the bank
      unchanged: the page has no sector, or a protected one, or erasing it
      failed. */
  lemma StopsAt(ps: nat, bank: Bank, off: nat, end: nat, l: Link, lo: nat, hi: nat, r: BankOut)
    requires ps > 0 && off < end && r.status.Err? && r.bank == bank
    requires r.status == Err(SectorInvalid) <==> FindSector(bank.sectors, ps, off).None?
    requires r.status != Err(SectorInvalid) ==>
      var i := FindSector(bank.sectors, ps, off).value;
      && (r.status == Err(Fail) <==> bank.sectors[i].protected == Yes)
      && (r.status != Err(Fail) ==> bank.sectors[i].erased != Yes && NvmcStatus(r.status))
    ensures PageRange(ps, bank, off, end, lo, hi) ==> RangeDone(bank, lo, hi, l, r)
  {
    if PageRange(ps, bank, off, end, lo, hi) {
      LayoutAt(bank.sectors, ps, |bank.sectors|, lo);
      if hi <= lo {
        if lo != hi {
          MulStep(lo, hi, ps);
        }
        assert false;
      }
      assert StoppedAtPage(bank, lo, hi, lo, r);
    }
  }

  /** The first page found, unprotected, erased if it needed to be, then the
      rest of the range as `r`. */
  lemma NextPage(ps: nat, bank: Bank, off: nat, end: nat, l: Link, lo: nat, hi: nat, i: nat, e: BankOut, b: Bank, r: BankOut)
    requires ps > 0 && off < end
    requires FindSector(bank.sectors, ps, off) == Some(i) && bank.sectors[i].protected != Yes
    requires e == (if bank.sectors[i].erased != Yes then ErasePage(bank, i, l) else BankOut(Ok, bank, l))
    requires e.status == Ok && b == MarkErased(e.bank, i)
    requires SameShape(b, r.bank)
    requires PageRange(ps, b, off + ps, end, lo + 1, hi) ==> RangeDone(b, lo + 1, hi, e.link, r)
    ensures PageRange(ps, bank, off, end, lo, hi) ==> RangeDone(bank, lo, hi, l, r)
  {
    if PageRange(ps, bank, off, end, lo, hi) {
      LayoutAt(bank.sectors, ps, |bank.sectors|, lo);
      assert (lo + 1) * ps == lo * ps + ps;
      ShapeKeepsLayout(bank, b, ps);
      if hi <= lo {
        if lo != hi {
          MulStep(lo, hi, ps);
        }
      }
      EraseRangeJoin(bank, lo, hi, l, e, b, r);
    }
  }

  /** Sector `lo` erased if it needed to be, then the rest of the range. */
  lemma EraseRangeJoin(bank: Bank, lo: nat, hi: nat, l: Link, e: BankOut, b: Bank, r: BankOut)
    requires lo < hi && lo < |bank.sectors| && bank.sectors[lo].protected != Yes
    requires e == (if bank.sectors[lo].erased != Yes then ErasePage(bank, lo, l) else BankOut(Ok, bank, l))
    requires e.status == Ok && b == MarkErased(e.bank, lo)
    requires SameShape(b, r.bank)
    requires RangeDone(b, lo + 1, hi, e.link, r)
    ensures RangeDone(bank, lo, hi, l, r)
  {
    assert forall j :: 0 <= j < |bank.sectors| && j != lo ==> b.sectors[j] == bank.sectors[j];
    JoinOk(bank, lo, hi, l, e, b, r);
    JoinErr(bank, lo, hi, b, r);
  }

  /** The success part of `EraseRangeJoin`. */
  lemma JoinOk(bank: Bank, lo: nat, hi: nat, l: Link, e: BankOut, b: Bank, r: BankOut)
    requires lo < hi && lo < |bank.sectors| && bank.sectors[lo].protected != Yes
    requires e == (if bank.sectors[lo].erased != Yes then ErasePage(bank, lo, l) else BankOut(Ok, bank, l))
    requires e.status == Ok && b == MarkErased(e.bank, lo)
    requires SameShape(b, r.bank) && SameShape(bank, b)
    requires forall j :: 0 <= j < |bank.sectors| && j != lo ==> b.sectors[j] == bank.sectors[j]
    requires RangeFrame(b, lo + 1, hi, r) && RangeOk(b, lo + 1, hi, e.link, r)
    ensures RangeOk(bank, lo, hi, l, r)
  {
    if r.status == Ok {
      PendingAgree(bank, b, lo + 1, hi);
      var head := if bank.sectors[lo].erased == Yes then [] else EraseWrites(Trigger(bank, lo));
      assert e.link.fx.writes == l.fx.writes + head;
      assert PendingWrites(bank, lo, hi) == head + PendingWrites(bank, lo + 1, hi);
      SeqAssoc(l.fx.writes, head, PendingWrites(bank, lo + 1, hi));
    }
  }

  /** The failure part of `EraseRangeJoin`: a stop later in the range is a
      stop in the range, with sector `lo` passed and marked erased. */
  lemma JoinErr(bank: Bank, lo: nat, hi: nat, b: Bank, r: BankOut)
    requires lo < hi && lo < |bank.sectors| && bank.sectors[lo].protected != Yes
    requires |b.sectors| == |bank.sectors| == |r.bank.sectors|
    requires b.sectors[lo] == bank.sectors[lo].(erased := Yes) && r.bank.sectors[lo] == b.sectors[lo]
    requires forall j :: 0 <= j < |bank.sectors| && j != lo ==> b.sectors[j] == bank.sectors[j]
    requires RangeErr(b, lo + 1, hi, r)
    ensures RangeErr(bank, lo, hi, r)
  {
    if r.status.Err? {
      var f: nat :| StoppedAtPage(b, lo + 1, hi, f, r);
      forall j | lo <= j < f
        ensures j < |bank.sectors| && bank.sectors[j].protected != Yes
        ensures r.bank.sectors[j] == bank.sectors[j].(erased := Yes)
      {
        if j > lo {
          assert lo + 1 <= j < f <= |b.sectors|;
          assert r.bank.sectors[j] == b.sectors[j].(erased := Yes);
          assert b.sectors[j] == bank.sectors[j];
        }
      }
      forall j | f <= j < hi && j < |bank.sectors|
        ensures r.bank.sectors[j] == bank.sectors[j]
      {
        assert r.bank.sectors[j] == b.sectors[j];
        assert b.sectors[j] == bank.sectors[j];
      }
      if f < |bank.sectors| {
        assert b.sectors[f] == bank.sectors[f];
      }
      assert StoppedAtPage(bank, lo, hi, f, r);
    }
  }

  // ---------------------------------------------------------------------
  // The program phase

  /** Write-enable, low-level write, read-only restore
      (src/flash/nor/nrf52.c:470-481, 564-574). A failed write-enable is
      returned at once with no restore; a failed low-level write is returned
      after the restore has been attempted, whatever the restore reports;
      otherwise the restore's status is returned. On success the two CONFIG
      writes are write-enable then read-only, and `buf` has been programmed
      at `addr`. Nothing is programmed unless write mode was entered. */
  function Program(addr: nat, buf: seq<byte>, l: Link): (r: Out)
    requires |buf| % 4 == 0
    ensures Extends(l, r.link)
    ensures SetConfig(l, WriteEnable).status.Err? ==>
      r.status == SetConfig(l, WriteEnable).status && r.link.fx.programs == l.fx.programs
      && r.link.fx.allocs == l.fx.allocs
      && r.link.fx.writes <= l.fx.writes + [(ConfigAddr, ConfigValue(WriteEnable))]
    ensures SetConfig(l, WriteEnable).status == Ok ==>
      var w := LlFlashWrite(addr, buf, SetConfig(l, WriteEnable).link);
      && (w.status.Err? ==> r.status == w.status && r.link == SetConfig(w.link, ReadOnly).link)
      && (w.status == Ok ==> r == SetConfig(w.link, ReadOnly))
    ensures r.status == Ok ==>
      && r.link.fx.writes == l.fx.writes + [(ConfigAddr, ConfigValue(WriteEnable)), (ConfigAddr, ConfigValue(ReadOnly))]
      && r.link.fx.programs == l.fx.programs + Chunks(addr, buf)
  {
    var we := SetConfig(l, WriteEnable);
    if we.status.Err? then
      assert we.link.fx.writes <= l.fx.writes + [(ConfigAddr, ConfigValue(WriteEnable))];
      we
    else
      var w := LlFlashWrite(addr, buf, we.link);
      var ro := SetConfig(w.link, ReadOnly);
      SetConfigOutcome(w.link, ReadOnly);
      if w.status.Err? then Out(w.status, ro.link)
      else
        SeqAssoc(l.fx.writes, [(ConfigAddr, ConfigValue(WriteEnable))], [(ConfigAddr, ConfigValue(ReadOnly))]);
        ro
  }

  /** Erase the pages of `[start, end)` as needed, then program `buf` there
      (src/flash/nor/nrf52.c:432-482). An erase-phase failure is returned
      before write mode is entered and programs nothing; the cache keeps
      whatever the erase phase recorded. On success `buf` has been
      programmed at `start` and the last two register writes are
      write-enable and read-only. When the range is the pages `lo..hi-1` of
      the code layout, sectors outside it never change, and on success it
      lies inside the bank, every page of it is recorded as erased, and the
      register writes are the pending erases of the range in ascending order
      followed by write-enable and read-only. */
  function WritePages(ps: nat, bank: Bank, start: nat, end: nat, buf: seq<byte>, l: Link, ghost lo: nat, ghost hi: nat): (r: BankOut)
    requires ps > 0 && start % ps == 0 && end % ps == 0
    requires start <= end && |buf| == end - start && |buf| % 4 == 0
    ensures Extends(l, r.link) && SameShape(bank, r.bank)
    ensures var e := EraseRange(ps, bank, start, end, l, lo, hi);
      && (e.status.Err? ==> r == e)
      && (e.status == Ok ==> r.bank == e.bank && r.status == Program(start, buf, e.link).status)
    ensures r.status == Ok ==>
      && r.link.fx.programs == l.fx.programs + Chunks(start, buf)
      && r.link.fx.writes == EraseRange(ps, bank, start, end, l, lo, hi).link.fx.writes
           + [(ConfigAddr, ConfigValue(WriteEnable)), (ConfigAddr, ConfigValue(ReadOnly))]
    ensures PageRange(ps, bank, start, end, lo, hi) ==>
      forall j :: 0 <= j < |bank.sectors| && !(lo <= j < hi) ==> r.bank.sectors[j] == bank.sectors[j]
    ensures PageRange(ps, bank, start, end, lo, hi) && EraseRange(ps, bank, start, end, l, lo, hi).status.Err? ==>
      RangeErr(bank, lo, hi, r)
    ensures PageRange(ps, bank, start, end, lo, hi) && r.status == Ok ==>
      && (lo < hi ==> hi <= |bank.sectors|)
      && (forall j :: lo <= j < hi ==> bank.sectors[j].protected != Yes)
      && (forall j :: lo <= j < hi ==> r.bank.sectors[j] == bank.sectors[j].(erased := Yes))
      && r.link.fx.writes == l.fx.writes + PendingWrites(bank, lo, hi)
           + [(ConfigAddr, ConfigValue(WriteEnable)), (ConfigAddr, ConfigValue(ReadOnly))]
  {
    var e := EraseRange(ps, bank, start, end, l, lo, hi);
    if e.status.Err? then e
    else
      var p := Program(start, buf, e.link);
      BankOut(p.status, e.bank, p.link)
  }

  /** Writing the same pages twice: after a successful write every sector of
      the range is recorded as erased, so a second write erases nothing and
      issues only the write-enable and read-only writes. */
  lemma RewriteSkipsErase(ps: nat, bank: Bank, start: nat, end: nat, buf: seq<byte>, buf2: seq<byte>, l: Link, lo: nat, hi: nat)
    requires ps > 0 && start % ps == 0 && end % ps == 0
    requires start <= end && |buf| == end - start && |buf| % 4 == 0 && |buf2| == |buf|
    requires PageRange(ps, bank, start, end, lo, hi)
    requires WritePages(ps, bank, start, end, buf, l, lo, hi).status == Ok
    ensures var r := WritePages(ps, bank, start, end, buf, l, lo, hi);
      var r2 := WritePages(ps, r.bank, start, end, buf2, r.link, lo, hi);
      r2.status == Ok ==>
        r2.link.fx.writes == r.link.fx.writes + [(ConfigAddr, ConfigValue(WriteEnable)), (ConfigAddr, ConfigValue(ReadOnly))]
  {
    var r := WritePages(ps, bank, start, end, buf, l, lo, hi);
    ShapeKeepsLayout(bank, r.bank, ps);
    CachedWrite(ps, r.bank, start, end, buf2, r.link, lo, hi);
  }

  /** A page range every sector of which is cached as erased is written with
      no erase: only write-enable and read-only. */
  lemma CachedWrite(ps: nat, bank: Bank, start: nat, end: nat, buf: seq<byte>, l: Link, lo: nat, hi: nat)
    requires ps > 0 && start % ps == 0 && end % ps == 0
    requires start <= end && |buf| == end - start && |buf| % 4 == 0
    requires PageRange(ps, bank, start, end, lo, hi)
    requires lo < hi ==> hi <= |bank.sectors| && forall j :: lo <= j < hi ==> bank.sectors[j].erased == Yes
    ensures var r := WritePages(ps, bank, start, end, buf, l, lo, hi);
      r.status == Ok ==>
        r.link.fx.writes == l.fx.writes + [(ConfigAddr, ConfigValue(WriteEnable)), (ConfigAddr, ConfigValue(ReadOnly))]
  {
    if lo < hi {
      NothingPending(bank, lo, hi);
    }
  }

  // ---------------------------------------------------------------------
  // Code-flash write: padding to whole pages

  /** The page-aligned span `[first, last)` covering a write, its first page
      and the page just past it, and the gaps before and after the caller's
      bytes. */
  datatype Pad = Pad(firstPage: nat, lastPage: nat, first: nat, last: nat, pre: nat, post: nat)

  /** Round `[offset, offset + count)` out to page boundaries
      (src/flash/nor/nrf52.c:504-528). The span is the smallest page-aligned
      one covering the write: each gap is shorter than a page. */
  function Padding(offset: nat, count: nat, ps: nat): (p: Pad)
    requires ps > 0
    ensures p.first == p.firstPage * ps && p.last == p.lastPage * ps && p.firstPage <= p.lastPage
    ensures p.first <= offset && offset + count <= p.last
    ensures p.first % ps == 0 && p.last % ps == 0
    ensures p.pre == offset - p.first && p.post == p.last - (offset + count)
    ensures p.pre < ps && p.post < ps
    ensures p.pre + count + p.post == p.last - p.first
    ensures ps % 4 == 0 ==> (p.last - p.first) % 4 == 0
  {
    var firstPage := offset / ps;
    var lastPage := (offset + count + ps - 1) / ps;
    PadFacts(offset, count, ps, firstPage, lastPage);
    var first := firstPage * ps;
    var last := lastPage * ps;
    Pad(firstPage, lastPage, first, last, offset - first, last - (offset + count))
  }

  datatype Filled = Filled(status: Status, buf: seq<byte>, link: Link)

  /** `buf` spans `p`: the flash bytes of the first gap, then `data`, then
      the flash bytes of the second gap. */
  ghost predicate FilledFrom(buf: seq<byte>, p: Pad, data: seq<byte>, flash: nat -> byte)
  {
    && |buf| == p.pre + |data| + p.post
    && forall i :: 0 <= i < |buf| ==>
         buf[i] == if p.pre <= i < p.pre + |data| then data[i - p.pre] else flash(p.first + i)
  }

  /** Fill the whole-page buffer: the flash bytes before the write, the
      caller's bytes, the flash bytes after it (src/flash/nor/nrf52.c:516-534).
      Each gap is read only when it is not empty; a failed read ends the fill
      with its error. Reading changes nothing on the target. */
  function PaddedBuffer(p: Pad, offset: nat, data: seq<byte>, l: Link): (r: Filled)
    requires offset == p.first + p.pre
    ensures Extends(l, r.link) && r.link.fx == l.fx
    ensures r.link.trace == l.trace
      + (if p.pre > 0 then [ReadMemory(p.first, p.pre)] else [])
      + (if p.post > 0 && (p.pre == 0 || l.replies(l.next).Ack?) then [ReadMemory(offset + |data|, p.post)] else [])
    ensures r.status.Err? ==> r.status.error.Transport?
    ensures p.pre > 0 && l.replies(l.next).Nak? ==> r.status == Err(Transport(l.replies(l.next).code))
    ensures var j := l.next + (if p.pre > 0 then 1 else 0);
      && ((p.pre == 0 || l.replies(l.next).Ack?) && p.post > 0 && l.replies(j).Nak? ==>
            r.status == Err(Transport(l.replies(j).code)))
      && (r.status == Ok <==> (p.pre == 0 || l.replies(l.next).Ack?) && (p.post == 0 || l.replies(j).Ack?))
    ensures r.status == Ok ==> FilledFrom(r.buf, p, data, l.flash)
  {
    var x := if p.pre > 0 then Call(l, ReadMemory(p.first, p.pre)) else Exchange(Ack(0), l);
    if x.reply.Nak? then Filled(x.reply.AsStatus(), [], x.link)
    else
      var y := if p.post > 0 then Call(x.link, ReadMemory(offset + |data|, p.post)) else Exchange(Ack(0), x.link);
      if y.reply.Nak? then Filled(y.reply.AsStatus(), [], y.link)
      else
        var before := Contents(l.flash, p.first, p.pre);
        var after := Contents(l.flash, offset + |data|, p.post);
        var buf := before + data + after;
        assert forall i :: p.pre + |data| <= i < |buf| ==> buf[i] == after[i - p.pre - |data|];
        Filled(Ok, buf, y.link)
  }

  /** The span `p` is page-aligned around `[offset, offset + count)`, as
      `Padding` computes it. */
  ghost predicate Spans(p: Pad, offset: nat, count: nat, ps: nat)
  {
    && ps > 0
    && p.first == p.firstPage * ps && p.last == p.lastPage * ps && p.firstPage <= p.lastPage
    && p.first % ps == 0 && p.last % ps == 0
    && p.first <= offset && offset + count <= p.last
    && p.pre == offset - p.first && p.post == p.last - (offset + count)
    && (ps % 4 == 0 ==> (p.last - p.first) % 4 == 0)
  }

  /** A code-bank write of `data` at `offset` (src/flash/nor/nrf52.c:497-537):
      pad to whole pages, then write the pages. A failed gap read is
      returned before anything is erased or written; after a successful
      write on the code layout every padded page is recorded as erased, and
      the register writes are the pending erases of those pages followed by
      write-enable and read-only. */
  function CodeFlashWrite(ps: nat, bank: Bank, data: seq<byte>, offset: nat, l: Link): (r: BankOut)
    requires ps > 0 && ps % 4 == 0
    requires offset + |data| + ps - 1 < U32Limit
    ensures Spans(Padding(offset, |data|, ps), offset, |data|, ps)
    ensures Extends(l, r.link) && SameShape(bank, r.bank)
    ensures var p := Padding(offset, |data|, ps); var f := PaddedBuffer(p, offset, data, l);
      && (f.status.Err? ==> r.status == f.status && r.bank == bank && r.link.fx == l.fx)
      && (r.status == Ok && CodeLayout(bank.sectors, ps, |bank.sectors|) ==>
            && (p.firstPage < p.lastPage ==> p.lastPage <= |bank.sectors|)
            && (forall j :: p.firstPage <= j < p.lastPage ==> r.bank.sectors[j].erased == Yes)
            && r.link.fx.writes == l.fx.writes + PendingWrites(bank, p.firstPage, p.lastPage)
                 + [(ConfigAddr, ConfigValue(WriteEnable)), (ConfigAddr, ConfigValue(ReadOnly))])
  {
    PaddedWrite(ps, bank, data, offset, Padding(offset, |data|, ps), l)
  }

  /** Write `data` at `offset` through the page-aligned span `p`: fill the
      gaps, then write the pages. A failed gap read is returned before
      anything is erased or written. After a successful write every byte of
      the span reads back as the caller's byte inside the written range and
      as the previous flash contents outside it; on the code layout every
      page of the span is recorded as erased, and the register writes are
      the pending erases of those pages followed by write-enable and
      read-only. */
  function PaddedWrite(ps: nat, bank: Bank, data: seq<byte>, offset: nat, p: Pad, l: Link): (r: BankOut)
    requires ps % 4 == 0 && Spans(p, offset, |data|, ps)
    ensures Extends(l, r.link) && SameShape(bank, r.bank)
    ensures var f := PaddedBuffer(p, offset, data, l);
      && (f.status.Err? ==> r.status == f.status && r.bank == bank && r.link.fx == l.fx)
      && (f.status == Ok ==> r == WritePages(ps, bank, p.first, p.last, f.buf, f.link, p.firstPage, p.lastPage))
    ensures r.status == Ok && CodeLayout(bank.sectors, ps, |bank.sectors|) ==>
      && (p.firstPage < p.lastPage ==> p.lastPage <= |bank.sectors|)
      && (forall j :: p.firstPage <= j < p.lastPage ==> r.bank.sectors[j].erased == Yes)
      && r.link.fx.writes == l.fx.writes + PendingWrites(bank, p.firstPage, p.lastPage)
           + [(ConfigAddr, ConfigValue(WriteEnable)), (ConfigAddr, ConfigValue(ReadOnly))]
  {
    var f := PaddedBuffer(p, offset, data, l);
    if f.status.Err? then BankOut(f.status, bank, f.link)
    else
      WritePages(ps, bank, p.first, p.last, f.buf, f.link, p.firstPage, p.lastPage)
  }

  /** What a successful code-flash write leaves in the flash: every byte of
      the padded pages reads back as the caller's byte inside the written
      range and as the previous flash contents outside it. */
  lemma CodeFlashWriteReadBack(ps: nat, bank: Bank, data: seq<byte>, offset: nat, l: Link, a: nat)
    requires ps > 0 && ps % 4 == 0
    requires offset + |data| + ps - 1 < U32Limit
    requires CodeFlashWrite(ps, bank, data, offset, l).status == Ok
    requires var p := Padding(offset, |data|, ps); p.first <= a < p.last
    ensures ByteAt(CodeFlashWrite(ps, bank, data, offset, l).link.fx.programs, a) ==
              Some(if offset <= a < offset + |data| then data[a - offset] else l.flash(a))
  {
    var p := Padding(offset, |data|, ps);
    PaddedWriteReadBack(ps, bank, data, offset, p, l, a);
  }

  lemma PaddedWriteReadBack(ps: nat, bank: Bank, data: seq<byte>, offset: nat, p: Pad, l: Link, a: nat)
    requires ps % 4 == 0 && Spans(p, offset, |data|, ps)
    requires PaddedWrite(ps, bank, data, offset, p, l).status == Ok
    requires p.first <= a < p.last
    ensures ByteAt(PaddedWrite(ps, bank, data, offset, p, l).link.fx.programs, a) ==
              Some(if offset <= a < offset + |data| then data[a - offset] else l.flash(a))
  {
    var f := PaddedBuffer(p, offset, data, l);
    var r := PaddedWrite(ps, bank, data, offset, p, l);
    assert f.status == Ok;
    assert r.link.fx.programs == f.link.fx.programs + Chunks(p.first, f.buf);
    SpanReadBack(f.link.fx.programs, p, offset, data, f.buf, l.flash, a);
  }

  /** Programming the filled span makes every byte of it read back as the
      caller's byte or the old flash byte. */
  lemma SpanReadBack(xs: seq<Chunk>, p: Pad, offset: nat, data: seq<byte>, buf: seq<byte>, flash: nat -> byte, a: nat)
    requires offset == p.first + p.pre && p.last == offset + |data| + p.post && p.first <= a < p.last
    requires FilledFrom(buf, p, data, flash)
    ensures ByteAt(xs + Chunks(p.first, buf), a) == Some(if offset <= a < offset + |data| then data[a - offset] else flash(a))
  {
    ReadBack(xs, p.first, buf, a - p.first);
  }

  /** The arithmetic behind `Padding`, kept apart from it. */
  lemma PadFacts(offset: nat, count: nat, ps: nat, firstPage: nat, lastPage: nat)
    requires ps > 0
    requires firstPage == offset / ps && lastPage == (offset + count + ps - 1) / ps
    ensures firstPage * ps <= offset < firstPage * ps + ps
    ensures lastPage * ps - ps < offset + count <= lastPage * ps
    ensures firstPage <= lastPage
    ensures (firstPage * ps) % ps == 0 && (lastPage * ps) % ps == 0
    ensures ps % 4 == 0 ==> (lastPage * ps - firstPage * ps) % 4 == 0
  {
    DivFloor(offset, ps);
    DivFloor(offset + count + ps - 1, ps);
    DivUnique(firstPage * ps, ps, firstPage, 0);
    DivUnique(lastPage * ps, ps, lastPage, 0);
    if lastPage < firstPage {
      MulStep(firstPage, lastPage, ps);
    }
    if ps % 4 == 0 {
      MulSub(lastPage, firstPage, ps);
      DivisibleByFour(lastPage - firstPage, ps);
    }
  }

  /** Rounding down to a multiple of `ps` loses less than `ps`. */
  lemma DivFloor(x: nat, ps: nat)
    requires ps > 0
    ensures (x / ps) * ps <= x < (x / ps) * ps + ps
  {
    assert x == (x / ps) * ps + x % ps;
  }

  lemma MulSub(a: nat, b: nat, ps: nat)
    requires b <= a
    ensures a * ps - b * ps == (a - b) * ps
  {
  }

  lemma DivisibleByFour(pages: nat, ps: nat)
    requires ps % 4 == 0
    ensures (pages * ps) % 4 == 0
  {
    var k := ps / 4;
    assert ps == k * 4;
    assert pages * ps == (pages * k) * 4;
    DivUnique(pages * ps, 4, pages * k, 0);
  }


  // ---------------------------------------------------------------------
  // UICR write: whole-page read-modify-write

  /** `page` with the bytes at `[offset, offset + |data|)` replaced by `data`. */
  function Splice(page: seq<byte>, offset: nat, data: seq<byte>): (r: seq<byte>)
    requires offset + |data| <= |page|
    ensures |r| == |page|
    ensures forall i :: 0 <= i < |page| ==> r[i] == if offset <= i < offset + |data| then data[i - offset] else page[i]
  {
    page[..offset] + data + page[offset + |data|..]
  }

  /** Erase sector `i` unless the cache already marks it erased
      (src/flash/nor/nrf52.c:556-560): on success the sector is marked erased
      and the register writes are those still pending for it. */
  function EraseIfPending(bank: Bank, i: nat, l: Link): (r: BankOut)
    requires i < |bank.sectors|
    ensures Extends(l, r.link) && RegistersOnly(l, r.link) && SameShape(bank, r.bank)
    ensures bank.sectors[i].erased == Yes ==> r.status == Ok && r.link == l
    ensures r.status.Err? ==> r.bank == bank && r.status == ErasePage(bank, i, l).status
    ensures r.status == Ok ==>
      && r.bank.sectors[i].erased == Yes
      && (forall j :: 0 <= j < |bank.sectors| && j != i ==> r.bank.sectors[j] == bank.sectors[j])
      && r.link.fx.writes == l.fx.writes + PendingWrites(bank, i, i + 1)
  {
    if bank.sectors[i].erased != Yes then ErasePage(bank, i, l) else BankOut(Ok, bank, l)
  }

  /** A UICR write of `data` at `offset` (src/flash/nor/nrf52.c:539-575). A
      write that does not fit in one page fails with Fail before any access.
      Otherwise the whole page is read first; a failed read is returned with
      nothing changed. Then the page is erased unless the cache says it is,
      and the old page with `data` spliced in is programmed back, exactly one
      page long. */
  function UicrFlashWrite(ps: nat, bank: Bank, data: seq<byte>, offset: nat, l: Link): (r: BankOut)
    requires |bank.sectors| >= 1 && ps % 4 == 0
    ensures Extends(l, r.link) && SameShape(bank, r.bank)
    ensures offset + |data| > ps ==> r == BankOut(Err(Fail), bank, l)
    ensures offset + |data| <= ps ==>
      && |r.link.trace| > |l.trace| && r.link.trace[|l.trace|] == ReadMemory(UicrBase, ps)
      && (l.replies(l.next).Nak? ==>
            r.status == Err(Transport(l.replies(l.next).code)) && r.bank == bank && r.link.fx == l.fx)
    ensures offset + |data| <= ps && l.replies(l.next).Ack? ==>
      var x := Call(l, ReadMemory(UicrBase, ps)); var e := EraseIfPending(bank, 0, x.link);
      && (e.status.Err? ==> r == e)
      && (e.status == Ok ==>
            r.bank == e.bank && r.status == Program(UicrBase, Splice(Contents(l.flash, UicrBase, ps), offset, data), e.link).status)
    ensures r.status == Ok ==>
      && r.bank.sectors[0].erased == Yes
      && r.link.fx.programs == l.fx.programs + Chunks(UicrBase, Splice(Contents(l.flash, UicrBase, ps), offset, data))
      && r.link.fx.writes == l.fx.writes + PendingWrites(bank, 0, 1)
           + [(ConfigAddr, ConfigValue(WriteEnable)), (ConfigAddr, ConfigValue(ReadOnly))]
  {
    if offset + |data| > ps then BankOut(Err(Fail), bank, l)
    else
      var x := Call(l, ReadMemory(UicrBase, ps));
      if x.reply.Nak? then BankOut(x.reply.AsStatus(), bank, x.link)
      else
        var page := Contents(l.flash, UicrBase, ps);
        var e := EraseIfPending(bank, 0, x.link);
        if e.status.Err? then e
        else
          var p := Program(UicrBase, Splice(page, offset, data), e.link);
          BankOut(p.status, e.bank, p.link)
  }

  /** A second UICR write after a successful one finds the sector cached as
      erased and issues no erase, only write-enable and read-only
      (src/flash/nor/nrf52.c:556). */
  lemma {:induction false} UicrSkipsErase(ps: nat, bank: Bank, data: seq<byte>, data2: seq<byte>, offset: nat, offset2: nat, l: Link)
    requires |bank.sectors| >= 1 && ps % 4 == 0
    requires UicrFlashWrite(ps, bank, data, offset, l).status == Ok
    ensures var r := UicrFlashWrite(ps, bank, data, offset, l);
      var r2 := UicrFlashWrite(ps, r.bank, data2, offset2, r.link);
      r2.status == Ok ==>
        r2.link.fx.writes == r.link.fx.writes + [(ConfigAddr, ConfigValue(WriteEnable)), (ConfigAddr, ConfigValue(ReadOnly))]
  {
    var r := UicrFlashWrite(ps, bank, data, offset, l);
    assert PendingWrites(r.bank, 0, 1) == [];
  }

  /** What a successful UICR write leaves in the page: the caller's bytes in
      the written window, the previous contents elsewhere. */
  lemma UicrReadBack(ps: nat, bank: Bank, data: seq<byte>, offset: nat, l: Link, i: nat)
    requires |bank.sectors| >= 1 && ps % 4 == 0
    requires UicrFlashWrite(ps, bank, data, offset, l).status == Ok
    requires i < ps
    ensures offset + |data| <= ps
    ensures ByteAt(UicrFlashWrite(ps, bank, data, offset, l).link.fx.programs, UicrBase + i) ==
              Some(if offset <= i < offset + |data| then data[i - offset] else l.flash(UicrBase + i))
  {
    var r := UicrFlashWrite(ps, bank, data, offset, l);
    var page := Contents(l.flash, UicrBase, ps);
    ReadBack(l.fx.programs, UicrBase, Splice(page, offset, data), i);
  }

  // ---------------------------------------------------------------------
  // Dispatch

  /** Route a write to the strategy configured for the bank's slot
      (src/flash/nor/nrf52.c:578-585). */
  function Write(chip: Chip, bank: Bank, data: seq<byte>, offset: nat, l: Link): (r: BankOut)
    requires ValidChip(chip) && bank.number < 2 && chip.slots[bank.number].write.Some?
    requires chip.slots[bank.number].write == Some(CodeWrite) ==>
      chip.pageSize > 0 && chip.pageSize % 4 == 0 && offset + |data| + chip.pageSize - 1 < U32Limit
    requires chip.slots[bank.number].write == Some(UicrWrite) ==>
      |bank.sectors| >= 1 && chip.pageSize % 4 == 0
    ensures Extends(l, r.link) && SameShape(bank, r.bank)
    ensures chip.slots[bank.number].write == Some(UicrWrite) && offset + |data| > chip.pageSize ==>
      r == BankOut(Err(Fail), bank, l)
    ensures r.status == Ok && chip.slots[bank.number].write == Some(UicrWrite) ==>
      && r.bank.sectors[0].erased == Yes
      && r.link.fx.programs == l.fx.programs + Chunks(UicrBase, Splice(Contents(l.flash, UicrBase, chip.pageSize), offset, data))
  {
    match chip.slots[bank.number].write.value
    case CodeWrite => CodeFlashWrite(chip.pageSize, bank, data, offset, l)
    case UicrWrite => UicrFlashWrite(chip.pageSize, bank, data, offset, l)
  }

  /** The written bytes of a successful UICR write read back as `data`,
      `offset` bytes into the page. */
  lemma UicrDataReadBack(ps: nat, bank: Bank, data: seq<byte>, offset: nat, l: Link, i: nat, k: nat)
    requires |bank.sectors| >= 1 && ps % 4 == 0
    requires UicrFlashWrite(ps, bank, data, offset, l).status == Ok
    requires i < |data| && k == offset + i
    ensures ByteAt(UicrFlashWrite(ps, bank, data, offset, l).link.fx.programs, UicrBase + k) == Some(data[i])
  {
    assert offset + |data| <= ps;
    UicrReadBack(ps, bank, data, offset, l, k);
    InsideData(UicrFlashWrite(ps, bank, data, offset, l).link.fx.programs, data, offset, l.flash(UicrBase + k), i, k, UicrBase + k);
  }

  /** The written bytes of a successful code-flash write read back as `data`. */
  lemma CodeDataReadBack(ps: nat, bank: Bank, data: seq<byte>, offset: nat, l: Link, i: nat, a: nat)
    requires ps > 0 && ps % 4 == 0
    requires offset + |data| + ps - 1 < U32Limit
    requires CodeFlashWrite(ps, bank, data, offset, l).status == Ok
    requires i < |data| && a == offset + i
    ensures ByteAt(CodeFlashWrite(ps, bank, data, offset, l).link.fx.programs, a) == Some(data[i])
  {
    CodeFlashWriteReadBack(ps, bank, data, offset, l, a);
    InsideData(CodeFlashWrite(ps, bank, data, offset, l).link.fx.programs, data, offset, l.flash(a), i, a, a);
  }

  /** A read-back that falls inside the data buffer yields the buffer's byte. */
  lemma InsideData(cs: seq<Chunk>, data: seq<byte>, offset: nat, prior: byte, i: nat, k: nat, at: nat)
    requires i < |data| && k == offset + i
    requires ByteAt(cs, at) == Some(if offset <= k < offset + |data| then data[k - offset] else prior)
    ensures ByteAt(cs, at) == Some(data[i])
  {
  }

  /** After configuration, a write to the UICR bank that does not fit in one
      page fails with Fail without touching the target, and a write to the
      code bank goes through the padded code-flash path. */
  lemma ConfiguredDispatch(chip: Option<Chip>, bank: Bank, data: seq<byte>, offset: nat, l: Link)
    requires chip.Some? ==> ValidChip(chip.value)
    requires FlashBankCommand(chip, bank).status == Ok
    ensures var c := FlashBankCommand(chip, bank);
      var ps := c.chip.value.pageSize; var b := c.bank.(sectors := bank.sectors);
      && (bank.base == UicrBase && |bank.sectors| >= 1 && ps % 4 == 0 && offset + |data| > ps ==>
            Write(c.chip.value, b, data, offset, l) == BankOut(Err(Fail), b, l))
      && (bank.base == UicrBase && |bank.sectors| >= 1 && ps % 4 == 0 && offset + |data| <= ps ==>
            Write(c.chip.value, b, data, offset, l) == UicrFlashWrite(ps, b, data, offset, l))
      && (bank.base == FlashBase && ps > 0 && ps % 4 == 0 && offset + |data| + ps - 1 < U32Limit ==>
            Write(c.chip.value, b, data, offset, l) == CodeFlashWrite(ps, b, data, offset, l))
  {
  }
}
