# nRF52 flash driver: a Dafny model

This project models the host side of OpenOCD's nRF52 flash driver
(`src/flash/nor/nrf52.c`). It covers the following:

- the NVMC handshake: waiting for READY, then setting CONFIG to
  erase-enable, write-enable or read-only;
- the per-bank sector table and its erase-state cache;
- single-page, range and whole-chip erase;
- the padded, page-aligned code-flash write and the read-modify-write of the
  one-page UICR;
- the low-level writer: the slow word-by-word path, and the fast path with
  its working-area negotiation;
- the resident Thumb loop that drains the FIFO on the target.

The driver talks to the chip through a debug link. In the model this is a
`DebugLink.Link` that answers calls from an oracle: call number n receives
`replies(n)`, and block reads return the bytes of a `flash` snapshot. Every
call is appended to a trace. Its effect goes into `Effects`:

- register writes;
- programmed 4-byte chunks;
- requested working-area sizes;
- released working areas.

The properties are stated in terms of these effects. Examples are "on
success the register writes are exactly erase-enable, trigger, read-only"
and "the programmed chunks read back as the caller's data inside the window
and the old flash contents elsewhere".

Modules:

| module | file | models |
|---|---|---|
| `DebugLink` | debug_link.dfy | the oracle link, effects, chunks, read-back |
| `Nvmc` | nvmc.dfy | READY poll, CONFIG modes, generic erase |
| `Sectors` | sectors.dfy | chip and bank state, sector lookup, probe, bank registration |
| `Loader` | loader.dfy | low-level writer, FIFO negotiation, working-area discipline |
| `Erasure` | erase.dfy | page, range and mass erase and the erase cache |
| `Pipeline` | pipeline.dfy | erase-then-program of page ranges, padding, UICR write, dispatch |
| `Drain` | drain.dfy | the resident loop as a state machine over the FIFO ring |

## Model

| member | source | states |
|---|---|---|
| Nvmc.Poll | src/flash/nor/nrf52.c:163-174 | each poll performs between 1 and timeout+1 reads, only reads, and records no effect |
| Nvmc.PollOutcome | src/flash/nor/nrf52.c:163-177 | the poll stops at the first failed read or READY; every earlier read was a successful not-READY; a failed read's error is returned as a transport error; FlashBusy exactly when all timeout+1 reads were not READY |
| Nvmc.WaitForNvmc | src/flash/nor/nrf52.c:157-178 | at most 101 reads of READY and no write |
| Nvmc.WaitForNvmcOutcome | src/flash/nor/nrf52.c:157-178 | Ok iff one of the first 101 reads is READY after only not-READY reads; a transport error iff such a run ends in a failed read; FlashBusy iff all 101 reads are not READY |
| Nvmc.SetConfig | src/flash/nor/nrf52.c:180-235 | the only write is CONFIG := mode, issued only after a successful wait |
| Nvmc.SetConfigOutcome | src/flash/nor/nrf52.c:184-196 | a failed wait is returned unchanged; otherwise the status is that of the CONFIG write |
| Nvmc.GenericErase | src/flash/nor/nrf52.c:237-254 | programs nothing; on success the register writes are exactly erase-enable, trigger, read-only; once erase mode is entered the outcome is that of restoring read-only after the trigger |
| Nvmc.GenericEraseOutcome | src/flash/nor/nrf52.c:243-249 | a failed erase-enable is returned and no trigger is written; once erase mode is entered the trigger is written |
| Nvmc.GenericEraseStatus | src/flash/nor/nrf52.c:157-254 | the wait and the erase only report Ok, FlashBusy or a transport error |
| Nvmc.GenericEraseIgnoresTrigger | src/flash/nor/nrf52.c:247-253 | whatever the target answers to the trigger write, the erase reports the same status |
| Nvmc.PollFrame | src/flash/nor/nrf52.c:163-174 | the poll's outcome depends only on the replies it consumes |
| Sectors.FindSector | src/flash/nor/nrf52.c:268-280 | returns the first sector whose page contains the address, or None when no sector does |
| Sectors.FindSectorInLayout | src/flash/nor/nrf52.c:268-280 | in the probed code layout, the lookup returns sector addr / pagesize for addresses inside the bank and None beyond it |
| Sectors.CoverUnique | src/flash/nor/nrf52.c:273-276 | in the code layout only sector addr / pagesize can contain addr |
| Sectors.FlashBankCommand | src/flash/nor/nrf52.c:588-627 | Ok iff the base is the code or the UICR base; bank number, write strategy and unprobed slot follow the base; any other base fails with Fail and changes nothing |
| Sectors.Probe | src/flash/nor/nrf52.c:76-139 | reads the page size, then the page count; the code size wraps to 32 bits; the code bank gets code-size / pagesize sectors of one page with unknown flags; the UICR bank gets one sector of one page; a failed read returns its own transport code with the bank unchanged, and a failed page-size read stops before the page count is read |
| Sectors.CodeSectors | src/flash/nor/nrf52.c:101-116 | the sector table is the contiguous code layout with every flag unknown |
| Sectors.AutoProbe | src/flash/nor/nrf52.c:141-155 | a probed bank is returned as is, with no access; otherwise the page size is read first, the status is Ok exactly when both identification reads succeed, a failure leaves the bank and the slots unchanged, and success marks the bank's slot probed |
| Sectors.AutoProbeIdempotent | src/flash/nor/nrf52.c:120-155 | after a successful auto-probe a second auto-probe is a no-op |
| Sectors.ProbedLookup | src/flash/nor/nrf52.c:100-116 | after probing the code bank, the lookup of every address below the code size finds sector addr / pagesize |
| Loader.Ladder | src/flash/nor/nrf52.c:389-399 | the sizes the negotiation tries start with the requested size |
| Loader.LadderFromFirst | src/flash/nor/nrf52.c:345-399 | from 8192 the sizes tried are 8192, 4096, 2048, 1024, 512, and 256 is never tried |
| Loader.Negotiate | src/flash/nor/nrf52.c:389-399 | requests a prefix of the ladder, between one request and the whole ladder |
| Loader.NegotiateOutcome | src/flash/nor/nrf52.c:389-399 | every request but the last was refused; the last was granted, with the size requested, exactly when the negotiation succeeds; a failed negotiation requested every size |
| Loader.WriteWord | src/flash/nor/nrf52.c:361-368 | programs the word as one chunk at the address; a refused write returns its transport code without waiting; an accepted one returns the NVMC wait's outcome |
| Loader.SlowWrite | src/flash/nor/nrf52.c:361-375 | writes no register and touches no working area; on success it programmed exactly the words of the buffer from the address, with at least two calls per word; any error is a transport error or FlashBusy |
| Loader.SlowWriteErr | src/flash/nor/nrf52.c:361-375 | on failure the recorded chunks are the buffer's words from the first up to and including the failing one |
| Loader.SlowWriteStops | src/flash/nor/nrf52.c:361-375 | when every word of a prefix went through and the next word's write or wait fails, that failure is the loop's outcome, whatever follows in the buffer |
| Loader.LlFlashWrite | src/flash/nor/nrf52.c:341-430 | writes no NVMC register; on success both paths programmed exactly the words of the buffer from the address |
| Loader.AsyncParams | src/flash/nor/nrf52.c:404-412 | r0 is the byte count, r1 the FIFO start, r2 the FIFO end modulo 2^32 (the exact end when it fits in 32 bits), r3 the flash address |
| Loader.RunAndRelease | src/flash/nor/nrf52.c:414-429 | the run programs the buffer's words, frees the FIFO and then the program area, and reports the run's status |
| Loader.LlFlashWriteResources | src/flash/nor/nrf52.c:357-422 | the first request is for the 32-byte loader; no program area means slow path and no frees; a failed upload returns its error and leaks the program area; otherwise the program area is freed last, and a refused negotiation requested all five sizes and reports ResourceNotAvailable |
| Erasure.MarkErased | src/flash/nor/nrf52.c:312-313 | only the given sector's erase flag changes, to erased |
| Erasure.ErasePage | src/flash/nor/nrf52.c:290-315 | a protected sector fails with Fail before any access; Fail iff protected; otherwise the status is an NVMC status; the flag is set only on success; on success the register writes are the erase sequence with the UICR or page-offset trigger |
| Erasure.Erase | src/flash/nor/nrf52.c:484-495 | sectors outside the range are unchanged; on success the register writes are the range's erase sequences in order; on failure the loop stopped at one sector of the range, with the earlier ones marked erased and the rest unchanged |
| Erasure.EraseOk | src/flash/nor/nrf52.c:491-492 | a successful range erase found every sector unprotected and marked each of them erased |
| Erasure.EraseIgnoresCache | src/flash/nor/nrf52.c:484-495 | erasing an erased range again issues every erase sequence again |
| Erasure.MassErase | src/flash/nor/nrf52.c:629-667 | Ok iff the code bank is found, ERASEALL succeeds and the UICR bank is found; a failed ERASEALL changes no flag; after a successful ERASEALL every code sector is marked erased, even when the UICR lookup then fails |
| Erasure.MassEraseCache | src/flash/nor/nrf52.c:644-664 | a failed chip erase leaves both banks' flags unchanged; a successful one leaves every code sector and the UICR sector erased |
| Pipeline.LayoutAt | src/flash/nor/nrf52.c:447-448 | in the code layout the page at k * pagesize is sector k when k is inside the bank, and absent otherwise |
| Pipeline.EraseRange | src/flash/nor/nrf52.c:446-468 | other sectors are unchanged. On success the range lies inside the bank, no sector in it is protected, every sector in it is erased, and the register writes are the erase sequences of exactly the sectors not already cached as erased. On failure the loop stopped at one page f of the range: the pages before f are unprotected and erased, the rest are unchanged; SectorInvalid exactly when f is beyond the bank, Fail exactly when sector f is protected, otherwise an NVMC error from erasing an uncached sector f |
| Pipeline.EraseRangeJoin | src/flash/nor/nrf52.c:447-468 | the erase loop's first page plus the rest of the range gives the whole range |
| Pipeline.NothingPending | src/flash/nor/nrf52.c:460-466 | a range whose sectors are all cached as erased issues no erase |
| Pipeline.Program | src/flash/nor/nrf52.c:470-481 | a failed write-enable is returned, with nothing programmed and no area requested; a failed low-level write is returned after read-only is restored; on success the register writes are write-enable then read-only and the buffer is programmed |
| Pipeline.WritePages | src/flash/nor/nrf52.c:435-482 | an erase failure is returned before any programming, stopped at one page of the range as in the erase loop. On success no page of the range is protected and all are erased, the register writes are the pending erase sequences followed by write-enable and read-only, the buffer is programmed at the start, and the sectors outside the range are unchanged |
| Pipeline.RewriteSkipsErase | src/flash/nor/nrf52.c:460-467 | writing the same page range again issues no erase, only write-enable and read-only |
| Pipeline.Padding | src/flash/nor/nrf52.c:504-528 | the span is page-aligned and contains the write; the padding before and after are each less than a page; pre + count + post is the span length, a multiple of four |
| Pipeline.PaddedBuffer | src/flash/nor/nrf52.c:516-534 | reads only the flash before and after the data window, in that order, skipping the second read after a failed first; a failed read returns its own transport code; Ok exactly when every read issued succeeds; on success the buffer holds those flash bytes with the data in the window |
| Pipeline.PaddedWrite | src/flash/nor/nrf52.c:497-537 | a failed fill read is returned with nothing changed. Otherwise the page range is written. On success in the code layout the span's pages are inside the bank and erased, and the register writes are the pending erase sequences then write-enable and read-only |
| Pipeline.CodeFlashWrite | src/flash/nor/nrf52.c:497-537 | the padded span covers the write; a failed fill read is returned with the bank and every effect unchanged; on success in the code layout the span's pages lie inside the bank and are erased, and the register writes are the pending erase sequences followed by write-enable and read-only |
| Pipeline.CodeFlashWriteReadBack | src/flash/nor/nrf52.c:497-537 | after a successful code write, for every address of the padded span the last programmed chunk covering it holds the data byte inside the window and the previous flash byte elsewhere |
| Pipeline.CodeDataReadBack | src/flash/nor/nrf52.c:497-537 | after a successful code write the last programmed chunk covering offset + i holds the i-th data byte |
| Pipeline.Splice | src/flash/nor/nrf52.c:562 | the page with the data copied in at the offset, same length |
| Pipeline.UicrFlashWrite | src/flash/nor/nrf52.c:539-575 | a write that does not fit in a page fails with Fail before any access; otherwise the page is read first, and a failed read returns its transport code and changes nothing; the UICR sector is erased only when the cache does not already mark it erased, and an erase failure is returned before anything is programmed; after that the status is the write-enable's, or the low-level write's after the read-only restore; on success the UICR sector is marked erased, the old page with the data spliced in is programmed, and the register writes are the pending erase sequence (none when cached) then write-enable and read-only |
| Pipeline.UicrSkipsErase | src/flash/nor/nrf52.c:556-574 | a second UICR write after a successful one issues no erase, only write-enable and read-only |
| Pipeline.UicrReadBack | src/flash/nor/nrf52.c:544-568 | after a successful UICR write, for every address of the page the last programmed chunk covering it holds the data byte inside the window and the previous page byte elsewhere |
| Pipeline.UicrDataReadBack | src/flash/nor/nrf52.c:544-568 | after a successful UICR write the last programmed chunk covering the UICR base + offset + i holds the i-th data byte |
| Pipeline.Write | src/flash/nor/nrf52.c:578-585 | the bank's slot picks the route; neither route changes the sector table's shape; an oversize UICR write fails with Fail without touching the target; a successful UICR write leaves the UICR sector erased and programs the page read before the write with the data spliced in |
| Pipeline.ConfiguredDispatch | src/flash/nor/nrf52.c:578-627 | after registration a UICR write that does not fit fails with Fail without touching the target, one that fits goes through the UICR read-modify-write, and a code-bank write goes through the padded code write |
| Drain.Ring | src/flash/nor/nrf52.c:328-333 | the ring index stays below the slot count |
| Drain.AdvanceIsNext | src/flash/nor/nrf52.c:326-333 | the post-increment with wrap at r2 walks the data slots in ring order |
| Drain.DrainStep | src/flash/nor/nrf52.c:319-337 | abort iff the write pointer is zero; wait iff it equals the read pointer; otherwise the word under the read pointer is stored at r3, r3 moves on by 4, the read pointer advances, r0 drops by 4 modulo 2^32, and the loop exits iff r0 was 4 |
| Drain.Run | src/flash/nor/nrf52.c:319-337 | every run stays sound: one word per storing pass, the k-th from ring slot k, programmed contiguously from the first r3, r0 counting down modulo 2^32, and exit exactly when r0 first reaches zero; an abort needs a zero write pointer |
| Drain.ExitCount | src/flash/nor/nrf52.c:334-335 | from a positive multiple of four, the loop exits after exactly r0 / 4 words |
| Drain.ZeroCountRunsOn | src/flash/nor/nrf52.c:334-335 | from a zero byte count the loop does not exit before 2^30 words (a zero write pointer can still abort it) |
| Drain.Delivers | src/flash/nor/nrf52.c:319-337 | fed by a producer that keeps ahead, the loop reads every word in order, exits after the last and programs them contiguously from r3 |
| Drain.DrainMatchesRecord | src/flash/nor/nrf52.c:404-419 | seeded with the fast path's registers for a FIFO area below 2^32 (r1 its start, r2 its end, r0 the byte count, r3 the address), with a non-empty buffer and a producer that has the next word ready at every pass, the loop exits having programmed exactly the chunks the host model records for running the loader |
| Drain.Words | src/flash/nor/nrf52.c:414 | the words of a buffer flatten back to the buffer |
| DebugLink.ByteAtChunks | src/flash/nor/nrf52.c:361-373 | programming a buffer word by word leaves each of its bytes at its address |

## Left out

- The debug transport, the target's memory and the async-algorithm runner are left out. They are replaced by the reply oracle and the `flash` snapshot. The snapshot is fixed for the whole life of a link: programming and erasing are recorded in `Effects` but never written back into `flash`, so every block read returns the contents from before the first operation on the link.
- The host's half of the FIFO protocol is left out, because it lives outside this file. Running the loader is recorded as programming `Chunks(r3, buffer)`. `Drain.Delivers` proves that the resident loop does exactly this when the producer keeps ahead.
- The Thumb encoding of the loop is left out; `Drain` models its instruction semantics. Register r3 and the FIFO addresses are unbounded naturals, so a store address wrapping past 2^32 is not modelled.
- The byte-level results (`Pipeline.CodeFlashWriteReadBack`, `Pipeline.UicrReadBack`, `Pipeline.CodeDataReadBack`, `Pipeline.UicrDataReadBack` and the fill bytes of `Pipeline.PaddedBuffer`) hold for one write on a link whose snapshot matches the device. On a link that already carries an earlier write or erase, the page read of the UICR write (nrf52.c:551) and the padding fill reads (nrf52.c:517, :528) see the stale snapshot, so the model programs the old bytes where the device would keep the earlier write's data. Results about chained writes, such as `Pipeline.UicrSkipsErase` and `Pipeline.RewriteSkipsErase`, are stated for register writes only, not for bytes.
- Drain.DrainMatchesRecord: requires a non-empty buffer and a producer that has the next word ready at every pass, as `Drain.Delivers` does. Runs with waiting passes are not covered. A zero byte count is excluded because r0 = 0 does not end the loop by count (`Drain.ZeroCountRunsOn`).
- Drain.Delivers: delivery is proved for a producer that has the next word ready at every pass. Runs with waiting passes, as when the loop starts before the host has filled a slot, are covered by `Drain.Run`'s soundness but not by a delivery theorem.
- Logging, `alive_sleep` between polls and the `info` command are left out. Logging has no effect on the outcome, the sleep only affects timing, and the command only formats text.
- `nrf52_protect` and `nrf52_protect_check` are left out because they are stubs that return success. Sector protection flags are only ever the probe's Unknown or what the caller supplies.
- Sectors.Probe: requires a non-zero page size for the code bank because the source divides by it. Allocation failure (`ERROR_FLASH_BANK_NOT_PROBED`) is not modelled.
- Pipeline.CodeFlashWrite: requires `offset + count + pagesize - 1 < 2^32` and a page size that is a positive multiple of four. The source's 32-bit page arithmetic and its `bytes % 4 == 0` assertion assume both. Wrap-around of `offset + count` is not modelled.
- Pipeline.UicrFlashWrite: requires a page size that is a multiple of four, as the low-level writer's assertion demands. Wrap-around of `offset + count` in the size check is not modelled.
- Pipeline.EraseRange: page indices are ghost parameters. The range properties are stated for page-aligned offsets in the contiguous code layout, the only layout probing builds.
- Loader.LlFlashWrite: requires the buffer length to be a multiple of four, as the source asserts.
- Pipeline.CodeFlashWriteReadBack: programming is modelled as overwriting, so the last chunk covering an address wins (`DebugLink.ByteAt`). Real NOR programming can only clear bits, so the stated read-back is the target's contents only when the page was erased first. The erase cache can go stale: nrf52.c:313 and :467 mark a sector erased, only probing (nrf52.c:114, :132) resets the mark, and programming leaves it set. A second write to the same page then skips the erase, and the model does not claim what the chip would read back. The same holds for Pipeline.CodeDataReadBack and Pipeline.PaddedWriteReadBack.
- Pipeline.UicrReadBack: the same overwrite reading of programming and the same stale erase cache (nrf52.c:556) apply, and so for Pipeline.UicrDataReadBack.
- Erasure.ErasePage: the source returns every status as one `int`, where a transport failure can carry any code, `ERROR_FAIL` included. The model keeps `Transport(code)` apart from `Fail`, so "Fail exactly when protected" here and the Fail clause of the range erase hold only in the model's status space. A `Nak(0)` reply is also allowed, though 0 is `ERROR_OK` in the source.
- Erasure.MassErase: the two `get_flash_bank_by_addr` lookups (nrf52.c:635, :660) are inputs, found or not. Their auto-probe of the bank and its debug traffic are not modelled.
- Behaviours of the code worth noting, all modelled as written:
  - mass erase returns early when ERASEALL fails, or when the UICR bank cannot be found, leaving the UICR flag alone;
  - the FIFO negotiation never tries 256 bytes;
  - a failed erase-trigger write is logged but not returned;
  - a failed upload of the loader leaks its working area;
  - the sector lookup tests against the page size rather than the sector size;
  - an oversize UICR write returns `ERROR_FAIL`;
  - the slow path writes at `offset`, which is the absolute address because the code bank's base is 0;
  - `nrf52_erase` ignores the erase cache.
