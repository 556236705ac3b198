/**
  The low-level writer (src/flash/nor/nrf52.c:317-430): it streams a
  word-aligned buffer into flash either through the resident drain program
  (fast path) or one word at a time with a readiness poll after each word
  (slow path). What the resident program does with the FIFO is modelled in
  module Drain; here a started run counts as programming its data word by
  word from register r3 on.
*/
module Loader {
  import opened DebugLink
  import opened Nvmc

  /** Size in bytes of the resident drain program: sixteen Thumb instructions
      (src/flash/nor/nrf52.c:317-338). */
  const LoaderSize: nat := 32

  /** The first FIFO size asked for. */
  const FirstFifoSize: nat := 8192

  /** A halved size at or below this ends the negotiation without being tried. */
  const FifoFloor: nat := 256

  /** The next FIFO size after a failed allocation: half, with the two low bits cleared. */
  function Halve(size: nat): nat
  {
    size / 2 - (size / 2) % 4
  }

  /** The FIFO sizes the negotiation tries, in order, when every allocation fails. */
  function Ladder(size: nat): (r: seq<nat>)
    decreases size
    ensures |r| >= 1 && r[0] == size
  {
    if Halve(size) <= FifoFloor then [size] else [size] + Ladder(Halve(size))
  }

  /** From 8192 the negotiation tries five sizes and never 256. */
  lemma LadderFromFirst()
    ensures Ladder(FirstFifoSize) == [8192, 4096, 2048, 1024, 512]
    ensures FifoFloor !in Ladder(FirstFifoSize)
  {
    assert Halve(8192) == 4096 && Halve(4096) == 2048 && Halve(2048) == 1024;
    assert Halve(1024) == 512 && Halve(512) == 256;
  }

  datatype Area = Area(addr: nat, size: nat)

  datatype Negotiated = Negotiated(area: Option<Area>, link: Link)

  /** Allocate the FIFO, halving the request after each failure
      (src/flash/nor/nrf52.c:389-399). The sizes requested are the first
      attempts of the ladder; the last one is granted, or the whole ladder was
      refused. */
  function Negotiate(size: nat, l: Link): (r: Negotiated)
    decreases size
    ensures Extends(l, r.link)
    ensures 1 <= r.link.next - l.next <= |Ladder(size)|
    ensures r.link.fx == l.fx.(allocs := l.fx.allocs + Ladder(size)[..r.link.next - l.next])
  {
    var x := Call(l, AllocArea(size));
    if x.reply.Ack? then Negotiated(Some(Area(x.reply.word, size)), x.link)
    else if Halve(size) <= FifoFloor then Negotiated(None, x.link)
    else
      var r := Negotiate(Halve(size), x.link);
      LadderPrefix(size, r.link.next - x.link.next);
      r
  }

  /** A refused request with a halved size above the floor leads to the next request. */
  lemma NegotiateStep(size: nat, l: Link)
    requires l.replies(l.next).Nak? && Halve(size) > FifoFloor
    ensures Negotiate(size, l) == Negotiate(Halve(size), Call(l, AllocArea(size)).link)
  {
  }

  /** Every request but the last was refused; the last one was granted, with
      the size asked for, exactly when the negotiation succeeds; a failed
      negotiation has asked for every size of the ladder. */
  lemma {:induction false} NegotiateOutcome(size: nat, l: Link)
    decreases size
    ensures var r := Negotiate(size, l); var n := r.link.next - l.next;
      && (forall k :: l.next <= k < r.link.next - 1 ==> l.replies(k).Nak?)
      && (r.area.Some? <==> l.replies(r.link.next - 1).Ack?)
      && (r.area.Some? ==> r.area.value == Area(l.replies(r.link.next - 1).word, Ladder(size)[n - 1]))
      && (r.area.None? ==> n == |Ladder(size)|)
  {
    var x := Call(l, AllocArea(size));
    if x.reply.Nak? && Halve(size) > FifoFloor {
      NegotiateStep(size, l);
      NegotiateOutcome(Halve(size), x.link);
      var r := Negotiate(Halve(size), x.link);
      assert Ladder(size)[r.link.next - l.next - 1] == Ladder(Halve(size))[r.link.next - x.link.next - 1];
    }
  }

  /** A refused negotiation asked for every size of the ladder. */
  lemma NegotiateRefused(size: nat, l: Link)
    ensures var r := Negotiate(size, l); r.area.None? ==> r.link.fx.allocs == l.fx.allocs + Ladder(size)
  {
    NegotiateOutcome(size, l);
    var r := Negotiate(size, l);
    if r.area.None? {
      assert Ladder(size)[..r.link.next - l.next] == Ladder(size);
    }
  }

  /** The first `n + 1` sizes tried from `size` are `size` followed by the first `n` from its half. */
  lemma LadderPrefix(size: nat, n: nat)
    requires Halve(size) > FifoFloor && n <= |Ladder(Halve(size))|
    ensures Ladder(size)[..n + 1] == [size] + Ladder(Halve(size))[..n]
  {
    assert Ladder(size) == [size] + Ladder(Halve(size));
  }

  /** One word of the slow path (src/flash/nor/nrf52.c:361-368): write it,
      then wait for the NVMC; a refused write or a failed wait is the outcome. */
  function WriteWord(addr: nat, word: seq<byte>, l: Link): (r: Out)
    ensures Extends(l, r.link)
    ensures r.link.fx.writes == l.fx.writes && r.link.fx.allocs == l.fx.allocs && r.link.fx.frees == l.fx.frees
    ensures r.link.fx.programs == l.fx.programs + [Chunk(addr, word)]
    ensures l.replies(l.next).Nak? ==> r == Out(Err(Transport(l.replies(l.next).code)), Call(l, WriteMemory(addr, word)).link)
    ensures l.replies(l.next).Ack? ==> r == WaitForNvmc(Call(l, WriteMemory(addr, word)).link)
    ensures r.status.Err? ==> NvmcStatus(r.status)
  {
    var x := Call(l, WriteMemory(addr, word));
    if x.reply.Nak? then Out(x.reply.AsStatus(), x.link)
    else
      PollOutcome(x.link, PollRetries);
      WaitForNvmc(x.link)
  }

  /** The slow path (src/flash/nor/nrf52.c:361-375): write one word, wait for
      the NVMC, advance; the first failure ends the loop with its error. On
      success it has programmed exactly the words of `buf` from `addr` on. */
  function SlowWrite(addr: nat, buf: seq<byte>, l: Link): (r: Out)
    requires |buf| % 4 == 0
    decreases |buf|
    ensures Extends(l, r.link)
    ensures r.link.fx.writes == l.fx.writes
    ensures r.link.fx.allocs == l.fx.allocs
    ensures r.link.fx.frees == l.fx.frees
    ensures r.status == Ok ==> r.link.fx.programs == l.fx.programs + Chunks(addr, buf)
    ensures r.status == Ok ==> 2 * r.link.next >= 2 * l.next + |buf|
    ensures r.status.Err? ==> NvmcStatus(r.status)
  {
    if |buf| == 0 then Out(Ok, l)
    else
      WordCount(|buf|);
      var w := WriteWord(addr, buf[..4], l);
      if w.status.Err? then w
      else
        var r := SlowWrite(addr + 4, buf[4..], w.link);
        assert |buf| == 4 ==> buf[..4] == buf;
        r
  }

  /** A failed slow write programmed a non-empty word prefix of `buf`: the
      words up to and including the one whose write or wait failed. */
  lemma {:induction false} SlowWriteErr(addr: nat, buf: seq<byte>, l: Link)
    requires |buf| % 4 == 0
    decreases |buf|
    ensures var r := SlowWrite(addr, buf, l);
      r.status.Err? ==> WordPrefix(r.link.fx.programs, l.fx.programs, addr, buf)
  {
    if |buf| > 0 {
      SlowStep(addr, buf, l);
      var w := WriteWord(addr, buf[..4], l);
      if w.status.Err? {
        FirstWord(addr, buf, l.fx.programs);
      } else {
        WordCount(|buf|);
        SlowWriteErr(addr + 4, buf[4..], w.link);
        var r := SlowWrite(addr + 4, buf[4..], w.link);
        if r.status.Err? {
          LaterWord(addr, buf, l.fx.programs, w.link.fx.programs, r.link.fx.programs);
        }
      }
    }
  }

  /** `after` is `before` followed by the chunks of a non-empty word prefix of `buf` at `addr`. */
  ghost predicate WordPrefix(after: seq<Chunk>, before: seq<Chunk>, addr: nat, buf: seq<byte>)
  {
    exists k :: 0 <= k && 4 * k + 4 <= |buf| && after == before + Chunks(addr, buf[..4 * k + 4])
  }

  lemma FirstWord(addr: nat, buf: seq<byte>, before: seq<Chunk>)
    requires |buf| >= 4
    ensures WordPrefix(before + [Chunk(addr, buf[..4])], before, addr, buf)
  {
    assert buf[..4 * 0 + 4] == buf[..4];
  }

  /** A failure later in the slow loop still leaves a word prefix of `buf` programmed. */
  lemma LaterWord(addr: nat, buf: seq<byte>, before: seq<Chunk>, mid: seq<Chunk>, after: seq<Chunk>)
    requires |buf| >= 4 && mid == before + [Chunk(addr, buf[..4])]
    requires WordPrefix(after, mid, addr + 4, buf[4..])
    ensures WordPrefix(after, before, addr, buf)
  {
    var k :| 0 <= k && 4 * k + 4 <= |buf[4..]| && after == mid + Chunks(addr + 4, buf[4..][..4 * k + 4]);
    var pre := buf[..4 * (k + 1) + 4];
    assert pre[..4] == buf[..4] && pre[4..] == buf[4..][..4 * k + 4];
    assert Chunks(addr, pre) == [Chunk(addr, buf[..4])] + Chunks(addr + 4, buf[4..][..4 * k + 4]);
    SeqAssoc(before, [Chunk(addr, buf[..4])], Chunks(addr + 4, buf[4..][..4 * k + 4]));
  }

  /** A non-empty whole number of words has a first word and whole words after it. */
  lemma WordCount(n: nat)
    requires n % 4 == 0 && n > 0
    ensures n >= 4 && (n - 4) % 4 == 0
  {
  }

  /** Whole words joined are whole words. */
  lemma WordsJoin(m: nat, n: nat)
    requires m % 4 == 0 && n % 4 == 0
    ensures (m + n) % 4 == 0 && m + n >= m
  {
  }

  /** One word of the slow loop. */
  lemma SlowStep(addr: nat, buf: seq<byte>, l: Link)
    requires |buf| % 4 == 0 && |buf| > 0
    ensures |buf[4..]| % 4 == 0
    ensures var w := WriteWord(addr, buf[..4], l);
      SlowWrite(addr, buf, l) == if w.status.Err? then w else SlowWrite(addr + 4, buf[4..], w.link)
  {
    WordCount(|buf|);
  }

  /** The first failing word ends the slow loop with its error: after the
      words of `done` went through, ending at `m`, a failed write or wait of
      the next word, at address `at`, is the outcome, whatever words follow. */
  lemma {:induction false} SlowWriteStops(addr: nat, done: seq<byte>, rest: seq<byte>, l: Link, m: Link, at: nat)
    requires |done| % 4 == 0 && |rest| % 4 == 0 && |rest| >= 4 && at == addr + |done|
    requires SlowWrite(addr, done, l) == Out(Ok, m)
    decreases |done|
    ensures |done + rest| % 4 == 0
    ensures var w := WriteWord(at, rest[..4], m);
      w.status.Err? ==> SlowWrite(addr, done + rest, l) == w
  {
    WordsJoin(|done|, |rest|);
    if |done| == 0 {
      assert done + rest == rest;
      SlowStep(addr, rest, l);
    } else {
      var w := WriteWord(addr, done[..4], l);
      SlowStopsStep(addr, done, rest, l, m);
      SlowWriteStops(addr + 4, done[4..], rest, w.link, m, at);
    }
  }

  /** The first word of `done` went through, and it is also the first word
      of `done + rest`: both loops carry on from where it left off. */
  lemma SlowStopsStep(addr: nat, done: seq<byte>, rest: seq<byte>, l: Link, m: Link)
    requires |done| % 4 == 0 && |rest| % 4 == 0 && |done| >= 4
    requires SlowWrite(addr, done, l) == Out(Ok, m)
    ensures |done[4..]| % 4 == 0 && |done + rest| % 4 == 0 && |done[4..] + rest| % 4 == 0
    ensures var w := WriteWord(addr, done[..4], l);
      && w.status == Ok
      && SlowWrite(addr + 4, done[4..], w.link) == Out(Ok, m)
      && SlowWrite(addr, done + rest, l) == SlowWrite(addr + 4, done[4..] + rest, w.link)
      && addr + 4 + |done[4..]| == addr + |done|
  {
    SlowStep(addr, done, l);
    SlowJoinStep(addr, done, rest, l);
  }

  /** A first word that went through is followed by the rest of `done + rest`. */
  lemma SlowJoinStep(addr: nat, done: seq<byte>, rest: seq<byte>, l: Link)
    requires |done| % 4 == 0 && |rest| % 4 == 0 && |done| >= 4
    requires WriteWord(addr, done[..4], l).status == Ok
    ensures |done[4..]| % 4 == 0 && |done + rest| % 4 == 0 && |done[4..] + rest| % 4 == 0
    ensures SlowWrite(addr, done + rest, l) == SlowWrite(addr + 4, done[4..] + rest, WriteWord(addr, done[..4], l).link)
  {
    JoinWords(done, rest);
    SlowStep(addr, done + rest, l);
  }

  /** `done + rest` starts with the first word of `done`, and every piece is whole words. */
  lemma JoinWords(done: seq<byte>, rest: seq<byte>)
    requires |done| % 4 == 0 && |rest| % 4 == 0 && |done| >= 4
    ensures |done[4..]| % 4 == 0 && |done + rest| % 4 == 0 && |done[4..] + rest| % 4 == 0
    ensures (done + rest)[..4] == done[..4] && (done + rest)[4..] == done[4..] + rest
  {
    WordCount(|done|);
    assert |done[4..]| == |done| - 4;
    WordsJoin(|done|, |rest|);
    WordsJoin(|done[4..]|, |rest|);
    var all := done + rest;
    assert all[..4] == done[..4] && all[4..] == done[4..] + rest;
  }

  /** Write `buf` to flash at `addr` (src/flash/nor/nrf52.c:341-430). No
      NVMC register is written here; on success both paths have programmed
      exactly the words of `buf` from `addr` on. */
  function LlFlashWrite(addr: nat, buf: seq<byte>, l: Link): (r: Out)
    requires |buf| % 4 == 0
    ensures Extends(l, r.link)
    ensures r.link.fx.writes == l.fx.writes
    ensures r.status == Ok ==> r.link.fx.programs == l.fx.programs + Chunks(addr, buf)
  {
    WriteVia(FirstFifoSize, addr, buf, l)
  }

  /** The low-level writer with the FIFO negotiation starting at `fifoSize`:
      the slow path when no program area can be had, the fast path otherwise. */
  function WriteVia(fifoSize: nat, addr: nat, buf: seq<byte>, l: Link): (r: Out)
    requires |buf| % 4 == 0
    ensures Extends(l, r.link)
    ensures r.link.fx.writes == l.fx.writes
    ensures r.status == Ok ==> r.link.fx.programs == l.fx.programs + Chunks(addr, buf)
  {
    var a := Call(l, AllocArea(LoaderSize));
    if a.reply.Nak? then SlowWrite(addr, buf, a.link)
    else FastWrite(a.reply.word, fifoSize, addr, buf, a.link)
  }

  /** The fast path once the program area at `algo` is held: upload the
      program, negotiate the FIFO, run (src/flash/nor/nrf52.c:382-430). */
  function FastWrite(algo: nat, fifoSize: nat, addr: nat, buf: seq<byte>, l: Link): (r: Out)
    requires |buf| % 4 == 0
    ensures Extends(l, r.link)
    ensures r.link.fx.writes == l.fx.writes
    ensures r.status == Ok ==> r.link.fx.programs == l.fx.programs + Chunks(addr, buf)
  {
    var u := Call(l, WriteBuffer(algo, LoaderSize));
    if u.reply.Nak? then Out(u.reply.AsStatus(), u.link)
    else
      var n := Negotiate(fifoSize, u.link);
      if n.area.None? then
        Out(Err(ResourceNotAvailable), Emit(n.link, FreeArea(algo)))
      else RunAndRelease(algo, n.area.value, addr, buf, n.link)
  }

  /** Run the resident program over `buf` through the FIFO, then release the
      FIFO and the program area, and report the run's outcome. */
  function RunAndRelease(algo: nat, fifo: Area, addr: nat, buf: seq<byte>, l: Link): (r: Out)
    ensures Extends(l, r.link)
    ensures r.link.fx.writes == l.fx.writes
    ensures r.link.fx.allocs == l.fx.allocs
    ensures r.link.fx.frees == l.fx.frees + [fifo.addr, algo]
    ensures r.link.fx.programs == l.fx.programs + Chunks(addr, buf)
    ensures r.status == l.replies(l.next).AsStatus()
  {
    var run := Call(l, RunAsync(buf, AsyncParams(algo, fifo, addr, |buf|)));
    var f1 := Emit(run.link, FreeArea(fifo.addr));
    Out(run.reply.AsStatus(), Emit(f1, FreeArea(algo)))
  }

  /** The register seeds of the fast path: r0 the byte count, r1 and r2 the
      FIFO's start and 32-bit end, r3 the flash address. */
  function AsyncParams(algo: nat, fifo: Area, addr: nat, bytes: nat): (r: Params)
    ensures r.entry == algo && r.fifoStart == fifo.addr && r.fifoSize == fifo.size
    ensures r.r0 == bytes && r.r1 == fifo.addr && r.r3 == addr
    ensures r.r2 < U32Limit && (fifo.addr + fifo.size - r.r2) % U32Limit == 0
    ensures fifo.addr + fifo.size < U32Limit ==> r.r2 == fifo.addr + fifo.size
  {
    Params(algo, fifo.addr, fifo.size, bytes, fifo.addr, (fifo.addr + fifo.size) % U32Limit, addr)
  }

  /** Working-area discipline of the low-level writer: when the program area
      cannot be had the slow path runs and nothing is released; when its
      upload fails the call returns that error and the program area is not
      released; otherwise the program area is released last, after the FIFO
      when one was granted, and a refused negotiation (all five sizes)
      reports ResourceNotAvailable. */
  lemma LlFlashWriteResources(addr: nat, buf: seq<byte>, l: Link)
    requires |buf| % 4 == 0
    ensures var r := LlFlashWrite(addr, buf, l); var alloc := l.replies(l.next); var upload := l.replies(l.next + 1);
      var before := l.fx; var after := r.link.fx;
      && |before.allocs| < |after.allocs| && after.allocs[..|before.allocs| + 1] == before.allocs + [LoaderSize]
      && (alloc.Nak? ==> after.frees == before.frees)
      && (alloc.Ack? && upload.Nak? ==> r.status == Err(Transport(upload.code)) && after.frees == before.frees)
      && (alloc.Ack? && upload.Ack? && r.status == Err(ResourceNotAvailable) ==>
            after.frees == before.frees + [alloc.word]
            && after.allocs == before.allocs + [LoaderSize] + [8192, 4096, 2048, 1024, 512])
      && (alloc.Ack? && upload.Ack? && r.status != Err(ResourceNotAvailable) ==>
            |after.frees| == |before.frees| + 2 && after.frees[..|before.frees|] == before.frees
            && after.frees[|before.frees| + 1] == alloc.word)
  {
    WriteViaResources(FirstFifoSize, addr, buf, l);
    LadderFromFirst();
  }

  lemma WriteViaResources(fifoSize: nat, addr: nat, buf: seq<byte>, l: Link)
    requires |buf| % 4 == 0
    ensures var r := WriteVia(fifoSize, addr, buf, l); var alloc := l.replies(l.next); var upload := l.replies(l.next + 1);
      var before := l.fx; var after := r.link.fx;
      && |before.allocs| < |after.allocs| && after.allocs[..|before.allocs| + 1] == before.allocs + [LoaderSize]
      && (alloc.Nak? ==> after.frees == before.frees)
      && (alloc.Ack? && upload.Nak? ==> r.status == Err(Transport(upload.code)) && after.frees == before.frees)
      && (alloc.Ack? && upload.Ack? && r.status == Err(ResourceNotAvailable) ==>
            after.frees == before.frees + [alloc.word]
            && after.allocs == before.allocs + [LoaderSize] + Ladder(fifoSize))
      && (alloc.Ack? && upload.Ack? && r.status != Err(ResourceNotAvailable) ==>
            |after.frees| == |before.frees| + 2 && after.frees[..|before.frees|] == before.frees
            && after.frees[|before.frees| + 1] == alloc.word)
  {
    var a := Call(l, AllocArea(LoaderSize));
    var before := l.fx;
    var mid := a.link.fx;
    assert mid.allocs == before.allocs + [LoaderSize] && mid.frees == before.frees;
    if a.reply.Ack? {
      FastWriteResources(a.reply.word, fifoSize, addr, buf, a.link);
      assert WriteVia(fifoSize, addr, buf, l) == FastWrite(a.reply.word, fifoSize, addr, buf, a.link);
      var after := WriteVia(fifoSize, addr, buf, l).link.fx;
      assert after.allocs[..|before.allocs| + 1] == mid.allocs;
    } else {
      assert WriteVia(fifoSize, addr, buf, l) == SlowWrite(addr, buf, a.link);
      var after := WriteVia(fifoSize, addr, buf, l).link.fx;
      assert after.allocs == mid.allocs;
      assert after.allocs[..|before.allocs| + 1] == mid.allocs;
    }
  }

  lemma FastWriteResources(algo: nat, fifoSize: nat, addr: nat, buf: seq<byte>, l: Link)
    requires |buf| % 4 == 0
    ensures var r := FastWrite(algo, fifoSize, addr, buf, l); var upload := l.replies(l.next);
      var before := l.fx; var after := r.link.fx;
      && before.allocs <= after.allocs
      && (upload.Nak? ==> r.status == Err(Transport(upload.code)) && after.frees == before.frees)
      && (upload.Ack? && r.status == Err(ResourceNotAvailable) ==>
            after.frees == before.frees + [algo] && after.allocs == before.allocs + Ladder(fifoSize))
      && (upload.Ack? && r.status != Err(ResourceNotAvailable) ==>
            |after.frees| == |before.frees| + 2 && after.frees[..|before.frees|] == before.frees
            && after.frees[|before.frees| + 1] == algo)
  {
    var before := l.fx;
    var u := Call(l, WriteBuffer(algo, LoaderSize));
    assert u.link.fx == before;
    if u.reply.Ack? {
      var n := Negotiate(fifoSize, u.link);
      NegotiateRefused(fifoSize, u.link);
      var tried := Ladder(fifoSize)[..n.link.next - u.link.next];
      var mid := n.link.fx;
      assert mid.allocs == before.allocs + tried && mid.frees == before.frees;
      if n.area.None? {
        var r := Out(Err(ResourceNotAvailable), Emit(n.link, FreeArea(algo)));
        assert FastWrite(algo, fifoSize, addr, buf, l) == r;
        assert r.link.trace == n.link.trace + [FreeArea(algo)];
      } else {
        var r := RunAndRelease(algo, n.area.value, addr, buf, n.link);
        assert FastWrite(algo, fifoSize, addr, buf, l) == r;
        assert r.status != Err(ResourceNotAvailable);
        assert r.link.fx.frees == before.frees + [n.area.value.addr, algo];
        assert r.link.fx.allocs == before.allocs + tried;
      }
    } else {
      assert FastWrite(algo, fifoSize, addr, buf, l) == Out(u.reply.AsStatus(), u.link);
    }
  }
}
