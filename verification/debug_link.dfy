/**
  The debug link as the nRF52 flash driver sees it.

  Every call the driver makes into the target (a register read, a register
  write, a block read or write, a working-area allocation, starting the
  resident loader) is an `Access`. A `Link` answers the calls from an oracle:
  the n-th call that expects an answer receives `replies(n)`. Block reads
  return bytes of `flash`, the device contents as they were when the
  operation started. Every access is appended to `trace`, and its effect on
  the target (a register write, programmed bytes, a working area requested
  or released) is recorded in `fx`, so the properties of an operation can be
  stated in terms of what it sent to the target.
*/
module DebugLink {

  const U32Limit: nat := 0x1_0000_0000

  type byte = x: nat | x < 256
  type u32 = x: nat | x < U32Limit

  datatype Option<+T> = None | Some(value: T)

  /** The errors a driver operation can report. */
  datatype Error =
    | Fail                    // generic failure
    | FlashBusy               // the NVMC never became ready
    | SectorInvalid           // an address outside every sector
    | ResourceNotAvailable    // no working area large enough for the FIFO
    | Transport(code: int)    // a debug-link call failed with this code

  datatype Status = Ok | Err(error: Error)

  /** What the target answers to one call. */
  datatype Reply = Ack(word: u32) | Nak(code: int) {
    function AsStatus(): Status {
      if Ack? then Ok else Err(Transport(code))
    }
  }

  /** The register seeds and buffer description handed to the async loader. */
  datatype Params = Params(entry: nat, fifoStart: nat, fifoSize: nat, r0: nat, r1: nat, r2: nat, r3: nat)

  datatype Access =
    | ReadU32(addr: nat)
    | WriteU32(addr: nat, value: nat)
    | ReadMemory(addr: nat, len: nat)
    | WriteMemory(addr: nat, data: seq<byte>)
    | AllocArea(size: nat)
    | WriteBuffer(addr: nat, len: nat)
    | RunAsync(data: seq<byte>, params: Params)
    | FreeArea(addr: nat)

  datatype Link = Link(next: nat, replies: nat -> Reply, flash: nat -> byte, trace: seq<Access>, fx: Effects)

  datatype Exchange = Exchange(reply: Reply, link: Link)

  /** Issue one call that expects an answer. */
  function Call(l: Link, a: Access): Exchange
  {
    Exchange(l.replies(l.next), l.(next := l.next + 1, trace := l.trace + [a], fx := Record(l.fx, a)))
  }

  /** Issue one call whose answer the driver ignores (releasing a working area). */
  function Emit(l: Link, a: Access): Link
  {
    l.(trace := l.trace + [a], fx := Record(l.fx, a))
  }

  /** `b` continues the session `a` did: same oracle and device contents, a longer trace. */
  ghost predicate Extends(a: Link, b: Link)
  {
    && b.replies == a.replies
    && b.flash == a.flash
    && a.next <= b.next
    && a.trace <= b.trace
  }

  /** The trace from `a` to `b` programs nothing and touches no working area. */
  ghost predicate RegistersOnly(a: Link, b: Link)
  {
    && b.fx.programs == a.fx.programs
    && b.fx.allocs == a.fx.allocs
    && b.fx.frees == a.fx.frees
  }

  /** The bytes a successful block read of `len` bytes at `addr` returns. */
  function Contents(flash: nat -> byte, addr: nat, len: nat): (s: seq<byte>)
    ensures |s| == len
    ensures forall i :: 0 <= i < len ==> s[i] == flash(addr + i)
  {
    seq(len, i requires 0 <= i < len => flash(addr + i))
  }

  // ---------------------------------------------------------------------
  // What a trace does to the target

  /** Bytes programmed at consecutive addresses starting at `addr`. */
  datatype Chunk = Chunk(addr: nat, data: seq<byte>)

  /** The side effects of a trace that matter to the flash: register writes
      (address, value) in order, programmed chunks in order, requested
      working-area sizes in order, and released working areas in order. */
  datatype Effects = Effects(writes: seq<(nat, nat)>, programs: seq<Chunk>, allocs: seq<nat>, frees: seq<nat>)

  /** `data` cut into the 4-byte words the loader programs one at a time. */
  function Chunks(addr: nat, data: seq<byte>): (cs: seq<Chunk>)
    decreases |data|
  {
    if |data| == 0 then []
    else if |data| <= 4 then [Chunk(addr, data)]
    else [Chunk(addr, data[..4])] + Chunks(addr + 4, data[4..])
  }

  /** The effects of a trace extended by `a`. */
  function Record(e: Effects, a: Access): Effects
  {
    match a
    case WriteU32(addr, value) => e.(writes := e.writes + [(addr, value)])
    case WriteMemory(addr, data) => e.(programs := e.programs + [Chunk(addr, data)])
    case RunAsync(data, p) => e.(programs := e.programs + Chunks(p.r3, data))
    case AllocArea(size) => e.(allocs := e.allocs + [size])
    case FreeArea(addr) => e.(frees := e.frees + [addr])
    case _ => e
  }

  lemma SeqAssoc<T>(a: seq<T>, b: seq<T>, c: seq<T>)
    ensures (a + b) + c == a + (b + c)
  {
  }

  /** The byte a list of programmed chunks leaves at address `a`: the last chunk covering it wins. */
  function ByteAt(cs: seq<Chunk>, a: nat): Option<byte>
    decreases |cs|
  {
    if |cs| == 0 then None
    else
      var c := cs[|cs| - 1];
      if c.addr <= a < c.addr + |c.data| then Some(c.data[a - c.addr])
      else ByteAt(cs[..|cs| - 1], a)
  }

  /** A later list of chunks overrides an earlier one wherever it writes. */
  lemma {:induction false} ByteAtAppend(xs: seq<Chunk>, ys: seq<Chunk>, a: nat)
    ensures ByteAt(xs + ys, a) == if ByteAt(ys, a).Some? then ByteAt(ys, a) else ByteAt(xs, a)
    decreases |ys|
  {
    if |ys| == 0 {
      assert xs + ys == xs;
    } else {
      var c := ys[|ys| - 1];
      assert (xs + ys)[..|xs + ys| - 1] == xs + ys[..|ys| - 1];
      if !(c.addr <= a < c.addr + |c.data|) {
        ByteAtAppend(xs, ys[..|ys| - 1], a);
      }
    }
  }

  /** Programming `data` word by word at `addr` leaves exactly `data` there. */
  lemma {:induction false} ByteAtChunks(addr: nat, data: seq<byte>, i: nat)
    requires i < |data|
    ensures ByteAt(Chunks(addr, data), addr + i) == Some(data[i])
    decreases |data|
  {
    if |data| > 4 {
      var rest := Chunks(addr + 4, data[4..]);
      ByteAtAppend([Chunk(addr, data[..4])], rest, addr + i);
      if i >= 4 {
        ByteAtChunks(addr + 4, data[4..], i - 4);
        assert addr + 4 + (i - 4) == addr + i;
      } else {
        ByteAtChunksBelow(addr + 4, data[4..], addr + i);
        assert ByteAt([Chunk(addr, data[..4])], addr + i) == Some(data[i]);
      }
    }
  }

  /** Chunks programmed from `addr` on leave every lower address alone. */
  lemma {:induction false} ByteAtChunksBelow(addr: nat, data: seq<byte>, a: nat)
    requires a < addr
    ensures ByteAt(Chunks(addr, data), a) == None
    decreases |data|
  {
    if |data| > 4 {
      ByteAtAppend([Chunk(addr, data[..4])], Chunks(addr + 4, data[4..]), a);
      ByteAtChunksBelow(addr + 4, data[4..], a);
    }
  }

  /** After `xs` is followed by the chunks of `data` at `addr`, every address
      in `[addr, addr + |data|)` reads back the corresponding byte of `data`. */
  lemma ReadBack(xs: seq<Chunk>, addr: nat, data: seq<byte>, i: nat)
    requires i < |data|
    ensures ByteAt(xs + Chunks(addr, data), addr + i) == Some(data[i])
  {
    ByteAtAppend(xs, Chunks(addr, data), addr + i);
    ByteAtChunks(addr, data, i);
  }
}
