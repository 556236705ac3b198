/**
  The loader that runs on the target (src/flash/nor/nrf52.c:319-337): a
  Thumb loop that drains a ring buffer the host fills and stores each
  32-bit word into flash.

  Register use, as seeded by the host (src/flash/nor/nrf52.c:404-411):
  r0 the byte count still to program, r1 the start of the FIFO area, r2 its
  end, r3 the flash address of the next word. The word at r1 is the write
  pointer the host publishes (zero asks the loader to stop), the word at
  r1 + 4 is the read pointer the loader publishes, and the data slots are
  the words from r1 + 8 up to r2.

  One pass of the loop: load the write pointer and stop if it is zero;
  load the read pointer and start over if it equals the write pointer;
  otherwise copy the word under the read pointer to r3 (post-incrementing
  both), wrap the read pointer back to r1 + 8 when it reached r2, publish
  it, subtract 4 from r0 and leave the loop when r0 became zero.
*/
module Drain {
  import opened DebugLink
  import opened Loader

  /** A 32-bit word as the bytes it occupies in memory. */
  type Word = w: seq<byte> | |w| == 4 witness [0, 0, 0, 0]

  /** The FIFO area: `slots` data words follow the two pointer words at `start`. */
  datatype Fifo = Fifo(start: nat, slots: nat) {
    /** The value of r2: one past the last data slot. */
    function End(): nat { start + 8 + 4 * slots }
  }

  /** The address of data slot `q`. */
  function Slot(f: Fifo, q: nat): nat
  {
    f.start + 8 + 4 * q
  }

  /** The slot after `q` in ring order. */
  function Next(f: Fifo, q: nat): nat
  {
    if q + 1 < f.slots then q + 1 else 0
  }

  /** The slot `k` places after `q` in ring order. */
  function Ring(f: Fifo, q: nat, k: nat): (r: nat)
    decreases k
    ensures q < f.slots ==> r < f.slots
  {
    if k == 0 then q else Next(f, Ring(f, q, k - 1))
  }

  /** The read pointer after the post-increment: back to the first slot once
      it is no longer below r2 (`cmp r4, r2; bcc no_wrap`). */
  function Advance(f: Fifo, a: nat): nat
  {
    if a + 4 < f.End() then a + 4 else f.start + 8
  }

  /** The pointer arithmetic of the loop walks the data slots as a ring:
      advancing from slot `q` reaches the next slot in ring order. */
  lemma AdvanceIsNext(f: Fifo, q: nat)
    requires q < f.slots
    ensures Advance(f, Slot(f, q)) == Slot(f, Next(f, q))
    ensures Advance(f, Slot(f, q)) == Slot(f, q) + 4 <==> q + 1 < f.slots
  {
  }

  /** `x` reduced to 32 bits, as the flags-setting subtract leaves r0. */
  function Wrap(x: int): u32
  {
    x % U32Limit
  }

  /** The registers the loop changes; r1 and r2 stay fixed and are in the `Fifo`. */
  datatype Regs = Regs(r0: u32, r3: nat, rp: nat)

  /** The outcome of one pass: the host asked to stop, the FIFO was empty,
      or `word` was stored at `at` and the loop leaves when `done`. */
  datatype Step = Abort | Wait | Store(word: Word, at: nat, regs: Regs, done: bool)

  /** One pass of the loop against the write pointer `wp` and FIFO memory `mem`. */
  function DrainStep(f: Fifo, wp: nat, mem: nat -> Word, s: Regs): (r: Step)
    ensures r.Abort? <==> wp == 0
    ensures r.Wait? <==> wp != 0 && wp == s.rp
    ensures r.Store? ==>
      && r.word == mem(s.rp) && r.at == s.r3
      && r.regs.r3 == s.r3 + 4 && r.regs.rp == Advance(f, s.rp)
      && Wrap(r.regs.r0 + 4) == s.r0
      && (r.done <==> s.r0 == 4)
  {
    if wp == 0 then Abort
    else if s.rp == wp then Wait
    else
      var r0 := Wrap(s.r0 - 4);
      Store(mem(s.rp), s.r3, Regs(r0, s.r3 + 4, Advance(f, s.rp)), r0 == 0)
  }

  // ---------------------------------------------------------------------
  // Runs of the loop

  /** What the loader sees at one pass: the published write pointer and the
      FIFO memory at that moment. */
  datatype View = View(wp: nat, mem: nat -> Word)

  datatype Phase = Running | Exited | Aborted

  /** The state of a run: its phase, the registers, the chunks stored so far,
      the words read, and at which pass each of them was read. */
  datatype Drained = Drained(phase: Phase, regs: Regs, stores: seq<Chunk>, read: seq<Word>, at: seq<nat>)

  function Start(s0: Regs): Drained
  {
    Drained(Running, s0, [], [], [])
  }

  /** The bytes of a sequence of words, in order. */
  function Flatten(ws: seq<Word>): (r: seq<byte>)
    decreases |ws|
    ensures |r| == 4 * |ws|
  {
    if |ws| == 0 then [] else Flatten(ws[..|ws| - 1]) + ws[|ws| - 1]
  }

  /** Programming one more word after `x` appends one chunk. */
  lemma {:induction false} ChunksSnoc(a: nat, x: seq<byte>, w: Word)
    requires |x| % 4 == 0
    ensures Chunks(a, x + w) == Chunks(a, x) + [Chunk(a + |x|, w)]
    decreases |x|
  {
    if |x| == 0 {
      assert x + w == w;
    } else {
      assert (x + w)[..4] == x[..4];
      assert (x + w)[4..] == x[4..] + w;
      if |x| == 4 {
        assert x[4..] + w == w;
      } else {
        ChunksSnoc(a + 4, x[4..], w);
      }
    }
  }

  /** What every state of a run from `s0`, started at slot `q0`, satisfies
      after `i` passes. */
  ghost predicate Sound(f: Fifo, q0: nat, s0: Regs, views: seq<View>, i: nat, st: Drained)
  {
    SoundRegs(f, q0, s0, st) && SoundReads(f, q0, views, i, st) && SoundCount(s0, st)
  }

  /** After n words, r3 and the read pointer moved n words on (the read
      pointer in ring order) and the stores are those n words programmed
      contiguously from the first r3. */
  ghost predicate SoundRegs(f: Fifo, q0: nat, s0: Regs, st: Drained)
  {
    && st.regs.r3 == s0.r3 + 4 * |st.read|
    && st.regs.rp == Slot(f, Ring(f, q0, |st.read|))
    && st.stores == Chunks(s0.r3, Flatten(st.read))
  }

  /** One word per storing pass, the k-th taken from ring slot `Ring(f, q0, k)`
      as it was at the pass that read it. */
  ghost predicate SoundReads(f: Fifo, q0: nat, views: seq<View>, i: nat, st: Drained)
  {
    && |st.at| == |st.read|
    && (forall k :: 0 <= k < |st.at| ==> st.at[k] < i <= |views|)
    && (forall j, k :: 0 <= j < k < |st.at| ==> st.at[j] < st.at[k])
    && (forall k :: 0 <= k < |st.read| ==> st.read[k] == views[st.at[k]].mem(Slot(f, Ring(f, q0, k))))
  }

  /** r0 counts down by 4 per word modulo 2^32 and the run exited exactly
      when it first reached zero. */
  ghost predicate SoundCount(s0: Regs, st: Drained)
  {
    && st.regs.r0 == Wrap(s0.r0 - 4 * |st.read|)
    && (forall k :: 1 <= k < |st.read| ==> Wrap(s0.r0 - 4 * k) != 0)
    && (st.phase == Exited ==> |st.read| > 0 && st.regs.r0 == 0)
    && (st.phase != Exited && |st.read| > 0 ==> st.regs.r0 != 0)
  }

  /** A run starts sound when the read pointer names slot `q0`. */
  lemma StartSound(f: Fifo, q0: nat, s0: Regs, views: seq<View>)
    requires s0.rp == Slot(f, q0)
    ensures Sound(f, q0, s0, views, 0, Start(s0))
  {
    assert Chunks(s0.r3, Flatten([])) == [];
    assert Wrap(s0.r0) == s0.r0;
  }

  /** One pass of a running loop over view `views[i]`, as a run state. */
  function Pass(f: Fifo, views: seq<View>, i: nat, st: Drained, ghost q0: nat, ghost s0: Regs): (r: Drained)
    requires i < |views| && st.phase == Running
    ensures r.phase == Aborted <==> views[i].wp == 0
    ensures r.read == st.read || r.read == st.read + [views[i].mem(st.regs.rp)]
    ensures q0 < f.slots && Sound(f, q0, s0, views, i, st) ==> Sound(f, q0, s0, views, i + 1, r)
  {
    match DrainStep(f, views[i].wp, views[i].mem, st.regs)
    case Abort =>
      SoundLater(f, q0, s0, views, i, i + 1, st);
      st.(phase := Aborted)
    case Wait =>
      SoundLater(f, q0, s0, views, i, i + 1, st);
      st
    case Store(w, a, regs, done) =>
      var next := Drained(if done then Exited else Running, regs, st.stores + [Chunk(a, w)], st.read + [w], st.at + [i]);
      StoreKeepsSound(f, q0, s0, views, i, st, next);
      next
  }

  /** Run the loop over the passes `views[i..]`, stopping when it exits or is
      asked to abort. */
  function Run(f: Fifo, views: seq<View>, i: nat, st: Drained, ghost q0: nat, ghost s0: Regs): (r: Drained)
    requires i <= |views|
    decreases |views| - i
    ensures st.phase != Running ==> r == st
    ensures q0 < f.slots && Sound(f, q0, s0, views, i, st) ==> Sound(f, q0, s0, views, |views|, r)
    ensures r.phase == Aborted && st.phase == Running ==> exists j :: i <= j < |views| && views[j].wp == 0
  {
    if i == |views| || st.phase != Running then
      SoundLater(f, q0, s0, views, i, |views|, st);
      st
    else
      Run(f, views, i + 1, Pass(f, views, i, st, q0, s0), q0, s0)
  }

  /** Soundness does not depend on how many later passes are still to come. */
  lemma SoundLater(f: Fifo, q0: nat, s0: Regs, views: seq<View>, i: nat, j: nat, st: Drained)
    requires i <= j <= |views|
    ensures Sound(f, q0, s0, views, i, st) ==> Sound(f, q0, s0, views, j, st)
  {
  }

  /** A storing pass keeps the run sound. */
  lemma StoreKeepsSound(f: Fifo, q0: nat, s0: Regs, views: seq<View>, i: nat, st: Drained, next: Drained)
    requires i < |views| && st.phase == Running
    requires DrainStep(f, views[i].wp, views[i].mem, st.regs).Store?
    requires var s := DrainStep(f, views[i].wp, views[i].mem, st.regs);
      next == Drained(if s.done then Exited else Running, s.regs, st.stores + [Chunk(s.at, s.word)], st.read + [s.word], st.at + [i])
    ensures q0 < f.slots && Sound(f, q0, s0, views, i, st) ==> Sound(f, q0, s0, views, i + 1, next)
  {
    if q0 < f.slots && Sound(f, q0, s0, views, i, st) {
      var s := DrainStep(f, views[i].wp, views[i].mem, st.regs);
      RegsStep(f, q0, s0, st, next, s.word);
      ReadsStep(f, q0, views, i, st, next, s.word);
      CountStep(s0, st, next, s.done);
    }
  }

  lemma RegsStep(f: Fifo, q0: nat, s0: Regs, st: Drained, next: Drained, w: Word)
    requires q0 < f.slots && SoundRegs(f, q0, s0, st)
    requires next.read == st.read + [w] && next.stores == st.stores + [Chunk(st.regs.r3, w)]
    requires next.regs.r3 == st.regs.r3 + 4 && next.regs.rp == Advance(f, st.regs.rp)
    ensures SoundRegs(f, q0, s0, next)
  {
    var n := |st.read|;
    AdvanceIsNext(f, Ring(f, q0, n));
    assert Flatten(next.read) == Flatten(st.read) + w by {
      assert next.read[..n] == st.read;
    }
    ChunksSnoc(s0.r3, Flatten(st.read), w);
  }

  lemma ReadsStep(f: Fifo, q0: nat, views: seq<View>, i: nat, st: Drained, next: Drained, w: Word)
    requires i < |views| && SoundReads(f, q0, views, i, st)
    requires next.read == st.read + [w] && next.at == st.at + [i]
    requires w == views[i].mem(Slot(f, Ring(f, q0, |st.read|)))
    ensures SoundReads(f, q0, views, i + 1, next)
  {
    var n := |st.read|;
    forall k | 0 <= k < |next.read|
      ensures next.read[k] == views[next.at[k]].mem(Slot(f, Ring(f, q0, k)))
    {
      if k < n {
        assert next.read[k] == st.read[k] && next.at[k] == st.at[k];
      }
    }
  }

  lemma CountStep(s0: Regs, st: Drained, next: Drained, done: bool)
    requires SoundCount(s0, st) && st.phase == Running
    requires |next.read| == |st.read| + 1
    requires next.regs.r0 == Wrap(st.regs.r0 - 4)
    requires done <==> next.regs.r0 == 0
    requires next.phase == if done then Exited else Running
    ensures SoundCount(s0, next)
  {
    WrapStep(s0.r0, |st.read|);
  }

  /** Subtracting 4 from the wrapped count is the wrapped count one word later. */
  lemma WrapStep(r0: nat, n: nat)
    ensures Wrap(Wrap(r0 - 4 * n) - 4) == Wrap(r0 - 4 * (n + 1))
  {
    var x := r0 - 4 * n;
    var q := x / U32Limit;
    assert x == q * U32Limit + Wrap(x);
    assert Wrap(x) - 4 == (x - 4) - q * U32Limit;
    ModShift(x - 4, q);
  }

  /** Adding a multiple of 2^32 does not change the wrapped value. */
  lemma ModShift(y: int, q: int)
    ensures Wrap(y - q * U32Limit) == Wrap(y)
  {
    var a := y / U32Limit;
    var b := Wrap(y);
    assert y - q * U32Limit == (a - q) * U32Limit + b;
  }

  /** The loop leaves exactly when r0 first reaches zero: starting from a
      positive multiple of four, a run that exited read exactly r0 / 4
      words, and any other read fewer. */
  lemma ExitCount(s0: Regs, r: Drained, m: nat)
    requires SoundCount(s0, r)
    requires s0.r0 == 4 * m && m > 0
    ensures r.phase == Exited ==> |r.read| == m
    ensures r.phase != Exited ==> |r.read| < m
  {
    var n := |r.read|;
    if n > m {
      assert false;
    }
    if r.phase == Exited && n < m {
      assert false;
    }
    if r.phase != Exited && n == m {
      assert false;
    }
  }

  /** A byte count of zero is no stop condition: r0 wraps below zero, and a
      run that exited read at least 2^30 words. */
  lemma ZeroCountRunsOn(s0: Regs, r: Drained)
    requires SoundCount(s0, r)
    requires s0.r0 == 0
    ensures r.phase == Exited ==> |r.read| >= U32Limit / 4
  {
    var n := |r.read|;
    if r.phase == Exited && n < U32Limit / 4 {
      assert false;
    }
  }

  // ---------------------------------------------------------------------
  // A producer that keeps ahead

  /** The host keeps ahead of the loader: at pass `i` the write pointer is
      non-zero and differs from slot `Ring(f, q0, i)`, which holds `words[i]`. */
  ghost predicate Ahead(f: Fifo, q0: nat, views: seq<View>, words: seq<Word>)
  {
    && |views| == |words|
    && forall i :: 0 <= i < |views| ==>
         && views[i].wp != 0
         && views[i].wp != Slot(f, Ring(f, q0, i))
         && views[i].mem(Slot(f, Ring(f, q0, i))) == words[i]
  }

  /** Fed by a producer that keeps ahead, with r0 seeded to the byte count of
      `words`, the loop reads every word in order and exits after the last
      one, having programmed them contiguously from r3. */
  lemma {:induction false} Delivers(f: Fifo, q0: nat, s0: Regs, views: seq<View>, words: seq<Word>)
    requires q0 < f.slots && s0.rp == Slot(f, q0)
    requires Ahead(f, q0, views, words)
    requires s0.r0 == 4 * |words| && |words| > 0
    ensures var r := Run(f, views, 0, Start(s0), q0, s0);
      && r.phase == Exited && r.read == words
      && r.stores == Chunks(s0.r3, Flatten(words))
      && r.regs.r3 == s0.r3 + 4 * |words|
  {
    var st := Start(s0);
    StartSound(f, q0, s0, views);
    DeliversFrom(f, q0, s0, views, words, 0, st);
    var r := Run(f, views, 0, st, q0, s0);
    DeliveredAll(f, q0, s0, r, words);
  }

  /** A sound run that read a prefix of `words` and did not abort, and that
      read them all if still running, exited having read exactly `words`. */
  lemma DeliveredAll(f: Fifo, q0: nat, s0: Regs, r: Drained, words: seq<Word>)
    requires SoundRegs(f, q0, s0, r) && SoundCount(s0, r)
    requires s0.r0 == 4 * |words| && |words| > 0
    requires r.phase != Aborted && |r.read| <= |words| && r.read == words[..|r.read|]
    requires r.phase == Running ==> |r.read| == |words|
    ensures r.phase == Exited && r.read == words
    ensures r.stores == Chunks(s0.r3, Flatten(words)) && r.regs.r3 == s0.r3 + 4 * |words|
  {
    ExitCount(s0, r, |words|);
  }

  /** The induction behind `Delivers`: from pass `i`, having read the first
      `i` words and still running, the run reads the rest. */
  lemma {:induction false} DeliversFrom(f: Fifo, q0: nat, s0: Regs, views: seq<View>, words: seq<Word>, i: nat, st: Drained)
    requires q0 < f.slots && Ahead(f, q0, views, words)
    requires i <= |views| && st.regs.rp == Slot(f, Ring(f, q0, i))
    requires st.read == words[..i] && st.phase != Aborted && (i < |views| ==> st.phase == Running)
    ensures var r := Run(f, views, i, st, q0, s0);
      r.phase != Aborted && |r.read| <= |words| && r.read == words[..|r.read|] && (r.phase == Running ==> |r.read| == |words|)
    decreases |views| - i
  {
    if i < |views| {
      var s := DrainStep(f, views[i].wp, views[i].mem, st.regs);
      assert s.Store? && s.word == words[i];
      var next := Pass(f, views, i, st, q0, s0);
      assert next == Drained(if s.done then Exited else Running, s.regs, st.stores + [Chunk(s.at, s.word)], st.read + [s.word], st.at + [i]);
      AdvanceIsNext(f, Ring(f, q0, i));
      assert next.read == words[..i + 1];
      if s.done {
        assert Run(f, views, i + 1, next, q0, s0) == next;
        assert |next.read| == i + 1 <= |words|;
      } else {
        DeliversFrom(f, q0, s0, views, words, i + 1, next);
      }
    } else {
      assert |st.read| == i == |words|;
    }
  }

  /** The words of a buffer whose length is a multiple of four. */
  function Words(buf: seq<byte>): (ws: seq<Word>)
    requires |buf| % 4 == 0
    decreases |buf|
    ensures Flatten(ws) == buf
    ensures 4 * |ws| == |buf|
  {
    if |buf| == 0 then []
    else
      var ws := Words(buf[..|buf| - 4]);
      assert buf == buf[..|buf| - 4] + buf[|buf| - 4..];
      ws + [buf[|buf| - 4..]]
  }

  /** The loop programs what the host model records for a run of the loader.
      Seeded as the fast path seeds it (src/flash/nor/nrf52.c:404-412): r0 the
      byte count, r1 and r2 the bounds of the granted FIFO area, r3 the flash
      address. Fed the words of `buf`, it programs `Chunks(addr, buf)`, the
      effect `Record` gives `RunAsync`. */
  lemma DrainMatchesRecord(f: Fifo, fifo: Area, algo: nat, q0: nat, views: seq<View>, addr: nat, buf: seq<byte>)
    requires |buf| % 4 == 0 && 0 < |buf| < U32Limit
    requires f.start == fifo.addr && f.End() == fifo.addr + fifo.size && fifo.addr + fifo.size < U32Limit
    requires q0 < f.slots
    requires Ahead(f, q0, views, Words(buf))
    ensures var p := AsyncParams(algo, fifo, addr, |buf|);
      && p.r1 == f.start && p.r2 == f.End()
      && var s0 := Regs(p.r0, p.r3, Slot(f, q0));
         var r := Run(f, views, 0, Start(s0), q0, s0);
         && r.phase == Exited && r.stores == Chunks(addr, buf)
         && Record(Effects([], [], [], []), RunAsync(buf, p)).programs == r.stores
  {
    var p := AsyncParams(algo, fifo, addr, |buf|);
    Delivers(f, q0, Regs(p.r0, p.r3, Slot(f, q0)), views, Words(buf));
  }
}
