/**
  The non-volatile memory controller (NVMC) of the nRF52: the readiness
  poll, the three mode setters and the generic erase sequence
  (src/flash/nor/nrf52.c:157-254).
*/
module Nvmc {
  import opened DebugLink

  // Register addresses and values (src/flash/nor/nrf52.c:41-58)
  const ReadyAddr: nat := 0x4001_E400
  const ConfigAddr: nat := 0x4001_E504
  const ErasePageAddr: nat := 0x4001_E508
  const EraseAllAddr: nat := 0x4001_E50C
  const EraseUicrAddr: nat := 0x4001_E514

  /** The value of the READY register once the NVMC is idle. */
  const Ready: nat := 0x01

  /** The poll counter starts here and counts down to zero, so the poll reads
      READY at most `PollRetries + 1` times. */
  const PollRetries: nat := 100

  datatype Mode = ReadOnly | WriteEnable | EraseEnable

  /** The CONFIG register encoding of each mode. */
  function ConfigValue(m: Mode): nat
  {
    match m
    case ReadOnly => 0x0
    case WriteEnable => 0x01
    case EraseEnable => 0x02
  }

  datatype Out = Out(status: Status, link: Link)

  /** The `n` replies from index `from` are all successful reads of a value other than READY. */
  ghost predicate NotReadyRun(replies: nat -> Reply, from: nat, n: nat)
  {
    forall k :: from <= k < from + n ==> replies(k).Ack? && replies(k).word != Ready
  }

  /** The readiness poll with `timeout` retries left: read READY; a failed read
      aborts with its error, READY ends the poll, otherwise retry while the
      counter lasts and report FlashBusy when it runs out. It only reads. */
  function Poll(l: Link, timeout: nat): (r: Out)
    decreases timeout
    ensures l.next < r.link.next <= l.next + timeout + 1
    ensures Extends(l, r.link)
    ensures r.link.fx == l.fx
  {
    var x := Call(l, ReadU32(ReadyAddr));
    if x.reply.Nak? then Out(x.reply.AsStatus(), x.link)
    else if x.reply.word == Ready then Out(Ok, x.link)
    else if timeout == 0 then Out(Err(FlashBusy), x.link)
    else Poll(x.link, timeout - 1)
  }

  /** The poll stops at the first read that fails or returns READY; every read
      before it returned something else; it reports FlashBusy exactly when all
      `timeout + 1` reads returned something else. */
  lemma {:induction false} PollOutcome(l: Link, timeout: nat)
    decreases timeout
    ensures var r := Poll(l, timeout);
      && NotReadyRun(l.replies, l.next, r.link.next - l.next - 1)
      && (r.status == Ok <==> l.replies(r.link.next - 1) == Ack(Ready))
      && (r.status == Ok || r.status == Err(FlashBusy) || l.replies(r.link.next - 1).Nak?)
      && (l.replies(r.link.next - 1).Nak? ==> r.status == Err(Transport(l.replies(r.link.next - 1).code)))
      && (r.status == Err(FlashBusy) <==> NotReadyRun(l.replies, l.next, timeout + 1))
      && (r.status == Err(FlashBusy) ==> r.link.next == l.next + timeout + 1)
  {
    var x := Call(l, ReadU32(ReadyAddr));
    if x.reply.Ack? && x.reply.word != Ready && timeout > 0 {
      PollOutcome(x.link, timeout - 1);
      var r := Poll(x.link, timeout - 1);
      assert Poll(l, timeout) == r;
      assert NotReadyRun(l.replies, l.next, r.link.next - l.next - 1) by {
        forall k | l.next <= k < r.link.next - 1
          ensures l.replies(k).Ack? && l.replies(k).word != Ready
        {
          if k > l.next {
            assert x.link.next <= k < x.link.next + (r.link.next - x.link.next - 1);
          }
        }
      }
      if NotReadyRun(l.replies, l.next, timeout + 1) {
        assert NotReadyRun(x.link.replies, x.link.next, timeout) by {
          forall k | x.link.next <= k < x.link.next + timeout
            ensures x.link.replies(k).Ack? && x.link.replies(k).word != Ready
          {
            assert l.next <= k < l.next + timeout + 1;
          }
        }
      }
      if r.status == Err(FlashBusy) {
        assert NotReadyRun(l.replies, l.next, timeout + 1) by {
          forall k | l.next <= k < l.next + timeout + 1
            ensures l.replies(k).Ack? && l.replies(k).word != Ready
          {
            if k > l.next {
              assert x.link.next <= k < x.link.next + timeout;
            }
          }
        }
      }
    } else if !(x.reply.Ack? && x.reply.word != Ready) {
      assert !NotReadyRun(l.replies, l.next, timeout + 1) by {
        assert l.next <= l.next < l.next + timeout + 1;
      }
    }
  }

  /** Wait for the NVMC (src/flash/nor/nrf52.c:157-178): at most 101 reads
      of READY, and no writes. */
  function WaitForNvmc(l: Link): (r: Out)
    ensures l.next < r.link.next <= l.next + PollRetries + 1
    ensures Extends(l, r.link)
    ensures r.link.fx == l.fx
  {
    Poll(l, PollRetries)
  }

  /** The wait succeeds exactly when one of the first 101 reads returns READY
      and every earlier read succeeded with another value; it fails with the
      read's own error exactly when such a run ends in a failed read; and it
      reports FlashBusy exactly when all 101 reads succeed without READY. */
  lemma WaitForNvmcOutcome(l: Link)
    ensures var r := WaitForNvmc(l);
      && (r.status == Ok <==>
            exists k :: 0 <= k <= PollRetries && NotReadyRun(l.replies, l.next, k) && l.replies(l.next + k) == Ack(Ready))
      && (r.status.Err? && r.status.error.Transport? <==>
            exists k :: 0 <= k <= PollRetries && NotReadyRun(l.replies, l.next, k) && l.replies(l.next + k).Nak?)
      && (r.status == Err(FlashBusy) <==> NotReadyRun(l.replies, l.next, PollRetries + 1))
  {
    PollStops(l, PollRetries);
    PollOutcome(l, PollRetries);
  }

  lemma PollStops(l: Link, timeout: nat)
    ensures var r := Poll(l, timeout);
      && (r.status == Ok <==>
            exists k :: 0 <= k <= timeout && NotReadyRun(l.replies, l.next, k) && l.replies(l.next + k) == Ack(Ready))
      && (r.status.Err? && r.status.error.Transport? <==>
            exists k :: 0 <= k <= timeout && NotReadyRun(l.replies, l.next, k) && l.replies(l.next + k).Nak?)
  {
    PollOutcome(l, timeout);
    var r := Poll(l, timeout);
    var last := r.link.next - l.next - 1;
    var stop := l.replies(r.link.next - 1);
    assert l.replies(l.next + last) == stop;
    if r.status == Ok {
      assert NotReadyRun(l.replies, l.next, last);
    }
    if r.status.Err? && r.status.error.Transport? {
      assert NotReadyRun(l.replies, l.next, last);
    }
  }

  /** Set the CONFIG register to `mode` after waiting for the NVMC
      (src/flash/nor/nrf52.c:180-235). The only write it issues is CONFIG :=
      mode, and only once the NVMC was seen ready. */
  function SetConfig(l: Link, mode: Mode): (r: Out)
    ensures Extends(l, r.link)
    ensures r.link.fx ==
              if WaitForNvmc(l).status.Ok? then Record(l.fx, WriteU32(ConfigAddr, ConfigValue(mode)))
              else l.fx
  {
    var w := WaitForNvmc(l);
    if w.status.Err? then w
    else
      var x := Call(w.link, WriteU32(ConfigAddr, ConfigValue(mode)));
      Out(x.reply.AsStatus(), x.link)
  }

  /** A failed wait is reported as is; otherwise the outcome is that of the CONFIG write. */
  lemma SetConfigOutcome(l: Link, mode: Mode)
    ensures var w := WaitForNvmc(l); var r := SetConfig(l, mode);
      && (w.status.Err? ==> r.status == w.status && r.link == w.link)
      && (w.status.Ok? ==> r.link.next == w.link.next + 1 && r.status == l.replies(w.link.next).AsStatus())
  {
  }

  /** Enter erase mode, write `value` to the erase register `reg`, and return
      to read-only mode (src/flash/nor/nrf52.c:237-254). The trigger is written
      only once erase mode was entered; on success the three register writes
      are exactly erase-enable, trigger, read-only. */
  function GenericErase(l: Link, reg: nat, value: nat): (r: Out)
    ensures Extends(l, r.link) && RegistersOnly(l, r.link)
    ensures r.status == Ok ==>
              r.link.fx.writes ==
              l.fx.writes + [(ConfigAddr, ConfigValue(EraseEnable)), (reg, value), (ConfigAddr, ConfigValue(ReadOnly))]
    ensures var en := SetConfig(l, EraseEnable);
      en.status == Ok ==> r == SetConfig(Call(en.link, WriteU32(reg, value)).link, ReadOnly)
  {
    var en := SetConfig(l, EraseEnable);
    if en.status.Err? then en
    else
      var x := Call(en.link, WriteU32(reg, value));
      var ro := SetConfig(x.link, ReadOnly);
      SetConfigOutcome(x.link, ReadOnly);
      SetConfigOutcome(l, EraseEnable);
      ro
  }

  /** A failed erase-enable is reported as is and no trigger is written.
      Once erase mode is entered the trigger is written, whatever happens
      next, and the status is that of the read-only restore: a failed wait
      before it, or else the reply to its CONFIG write. */
  lemma GenericEraseOutcome(l: Link, reg: nat, value: nat)
    ensures var en := SetConfig(l, EraseEnable); var r := GenericErase(l, reg, value);
      && (en.status.Err? ==> r.status == en.status && r.link == en.link)
      && (en.status.Ok? ==>
            r.link.fx.writes[..|l.fx.writes| + 2] ==
            l.fx.writes + [(ConfigAddr, ConfigValue(EraseEnable)), (reg, value)])
      && (en.status.Ok? ==>
            var w := WaitForNvmc(Call(en.link, WriteU32(reg, value)).link);
            && (w.status.Err? ==> r.status == w.status)
            && (w.status.Ok? ==> r.status == l.replies(w.link.next).AsStatus()))
  {
    var en := SetConfig(l, EraseEnable);
    SetConfigOutcome(l, EraseEnable);
    if en.status.Ok? {
      var x := Call(en.link, WriteU32(reg, value));
      var w0 := l.fx.writes;
      var w1 := x.link.fx.writes;
      assert w1 == w0 + [(ConfigAddr, ConfigValue(EraseEnable)), (reg, value)];
      var w2 := SetConfig(x.link, ReadOnly).link.fx.writes;
      assert w2[..|w0| + 2] == w1;
      SetConfigOutcome(x.link, ReadOnly);
    }
  }

  /** The statuses an NVMC operation can report: success, the poll running
      out, or a failed debug-link call. */
  predicate NvmcStatus(s: Status)
  {
    s == Ok || s == Err(FlashBusy) || (s.Err? && s.error.Transport?)
  }

  /** No NVMC operation reports Fail, SectorInvalid or ResourceNotAvailable. */
  lemma GenericEraseStatus(l: Link, reg: nat, value: nat)
    ensures NvmcStatus(WaitForNvmc(l).status)
    ensures NvmcStatus(SetConfig(l, EraseEnable).status)
    ensures NvmcStatus(GenericErase(l, reg, value).status)
  {
    PollOutcome(l, PollRetries);
    SetConfigOutcome(l, EraseEnable);
    var en := SetConfig(l, EraseEnable);
    if en.status.Ok? {
      var x := Call(en.link, WriteU32(reg, value));
      SetConfigOutcome(x.link, ReadOnly);
      PollOutcome(x.link, PollRetries);
    }
  }

  // ---------------------------------------------------------------------
  // Frame: an NVMC operation only looks at the replies it consumes

  /** Sessions `a` and `b` are at the same point and agree on the replies in `[a.next, upto)`. */
  ghost predicate AgreeUpTo(a: Link, b: Link, upto: nat)
  {
    && a.next == b.next
    && a.trace == b.trace
    && a.fx == b.fx
    && a.flash == b.flash
    && forall k :: a.next <= k < upto ==> a.replies(k) == b.replies(k)
  }

  lemma {:induction false} PollFrame(a: Link, b: Link, timeout: nat)
    requires AgreeUpTo(a, b, Poll(a, timeout).link.next)
    ensures Poll(b, timeout).status == Poll(a, timeout).status
    ensures AgreeUpTo(Poll(a, timeout).link, Poll(b, timeout).link, 0)
    decreases timeout
  {
    var x := Call(a, ReadU32(ReadyAddr));
    var y := Call(b, ReadU32(ReadyAddr));
    assert a.next < Poll(a, timeout).link.next;
    assert x.reply == y.reply;
    if x.reply.Ack? && x.reply.word != Ready && timeout > 0 {
      assert Poll(a, timeout) == Poll(x.link, timeout - 1);
      assert Poll(b, timeout) == Poll(y.link, timeout - 1);
      PollFrame(x.link, y.link, timeout - 1);
    }
  }

  lemma SetConfigFrame(a: Link, b: Link, mode: Mode)
    requires AgreeUpTo(a, b, SetConfig(a, mode).link.next)
    ensures SetConfig(b, mode).status == SetConfig(a, mode).status
    ensures AgreeUpTo(SetConfig(a, mode).link, SetConfig(b, mode).link, 0)
  {
    PollFrame(a, b, PollRetries);
    var w := WaitForNvmc(a);
    if w.status.Ok? {
      assert a.replies(w.link.next) == b.replies(w.link.next);
    }
  }

  /** `replies` with the answer at index `i` replaced by `x`. */
  function Patch(replies: nat -> Reply, i: nat, x: Reply): nat -> Reply
  {
    (k: nat) => if k == i then x else replies(k)
  }

  /** Whatever the target answers to the erase trigger write, the generic
      erase reports the same status (src/flash/nor/nrf52.c:247-253). */
  lemma GenericEraseIgnoresTrigger(l: Link, reg: nat, value: nat, x: Reply)
    requires SetConfig(l, EraseEnable).status == Ok
    ensures var i := SetConfig(l, EraseEnable).link.next;
      GenericErase(l.(replies := Patch(l.replies, i, x)), reg, value).status == GenericErase(l, reg, value).status
  {
    var en := SetConfig(l, EraseEnable);
    var i := en.link.next;
    var l' := l.(replies := Patch(l.replies, i, x));
    SetConfigFrame(l, l', EraseEnable);
    var en' := SetConfig(l', EraseEnable);
    var t := Call(en.link, WriteU32(reg, value)).link;
    var t' := Call(en'.link, WriteU32(reg, value)).link;
    assert t'.replies == Patch(l.replies, i, x);
    SetConfigFrame(t, t', ReadOnly);
  }
}
