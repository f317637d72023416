/** Per-QP ACK-timeout bookkeeping and one round of the retransmit worker:
    drain the pending tasks into a fixed table of timers, then scan the
    table and hand a retry-marked copy of the stored chunk of every timed
    out QP to the send queue scheduler. */
module TimeoutRetransmit {
  import opened MachineInt
  import opened Wrappers
  import opened Send

  const DEFAULT_INIT_RETRY_COUNT: nat := 5
  const DEFAULT_TIMEOUT_CHECK_DURATION: u8 := 8
  const DEFAULT_LOCAL_ACK_TIMEOUT: u8 := 4

  /** Exponents of the check interval and of the local ACK timeout, each in
      units of 4.096 us * 2^exp, and the initial retry count. */
  datatype AckTimeoutConfig = AckTimeoutConfig(checkDurationExp: u8, localAckTimeoutExp: u8, initRetryCount: nat)

  /** `AckTimeoutConfig::default` */
  function DefaultConfig(): (c: AckTimeoutConfig)
    ensures c.checkDurationExp == 8 && c.localAckTimeoutExp == 4 && c.initRetryCount == 5
  {
    AckTimeoutConfig(DEFAULT_TIMEOUT_CHECK_DURATION, DEFAULT_LOCAL_ACK_TIMEOUT, DEFAULT_INIT_RETRY_COUNT)
  }

  /** `AckTimeoutConfig::new` stores its arguments verbatim. */
  function NewConfig(checkDuration: u8, localAckTimeout: u8, initRetryCount: nat): (c: AckTimeoutConfig)
    ensures c.checkDurationExp == checkDuration && c.localAckTimeoutExp == localAckTimeout
    ensures c.initRetryCount == initRetryCount
  {
    AckTimeoutConfig(checkDuration, localAckTimeout, initRetryCount)
  }

  /** The interval between two rounds, `4096u64 << exp` nanoseconds: bits
      shifted past bit 63 are lost, and the shift amount is taken modulo 64
      as in a release build. */
  function CheckDurationNs(exp: u8): (r: u64)
  {
    (4096 * Pow2(exp % 64)) % 0x1_0000_0000_0000_0000
  }

  /** Up to an exponent of 51 no bit is lost: the interval is 4096 * 2^exp ns. */
  lemma CheckDurationExact(exp: u8)
    requires exp <= 51
    ensures CheckDurationNs(exp) == 4096 * Pow2(exp)
  {
    assert exp % 64 == exp;
    assert 4096 * Pow2(exp) < 0x1_0000_0000_0000_0000 by {
      Pow2Values();
      Pow2Monotone(exp, 51);
      Pow2Add(12, 51);
      assert 4096 * Pow2(exp) <= 4096 * Pow2(51) == Pow2(63);
    }
    DivModUnique(4096 * Pow2(exp), 0x1_0000_0000_0000_0000, 0, 4096 * Pow2(exp));
  }

  /** The default round interval is 1,048,576 ns. */
  lemma DefaultCheckDuration()
    ensures CheckDurationNs(DefaultConfig().checkDurationExp) == 1_048_576
  {
    CheckDurationExact(8);
    Pow2Values();
  }

  /** The per-QP state: its transport timer and the last chunk sent with the
      ACK-request bit set. */
  datatype Entry<T> = Entry(timer: T, lastPacketChunk: Option<WrChunk>)

  /** `Entry::new` */
  function NewEntry<T>(timer: T): (e: Entry<T>)
    ensures e.timer == timer && e.lastPacketChunk.None?
  {
    Entry(timer, None)
  }

  /** `Entry::set_last_packet` replaces the stored chunk and keeps the timer. */
  function SetLastPacket<T>(e: Entry<T>, packet: WrChunk): (r: Entry<T>)
    ensures r.lastPacketChunk == Some(packet) && r.timer == e.timer
  {
    e.(lastPacketChunk := Some(packet))
  }

  datatype RetransmitTask =
    | NewAckReq(qpn: u32, lastPacketChunk: WrChunk)
    | ReceiveAck(qpn: u32)

  /** `RetransmitTask::qpn`: the QP number of either kind of task. */
  function TaskQpn(task: RetransmitTask): (r: u32)
    ensures task.NewAckReq? ==> exists c :: task == NewAckReq(r, c)
    ensures task.ReceiveAck? ==> task == ReceiveAck(r)
  {
    match task
    case NewAckReq(qpn, _) => qpn
    case ReceiveAck(qpn) => qpn
  }

  /** What `TransportTimer::check_timeout` returns, with the timer it leaves. */
  datatype TimerCheck<T> = TimerCheck(result: Result<bool, IoErrorKind>, timer: T)

  /** The QP table: a boxed slice of `MAX_QP_CNT` entries, indexed through `qpn_index`. */
  class TransportTimerTable<T> {
    const inner: array<Entry<T>>
    /** `qpn_index`, whose definition is not part of this model. */
    const qpnIndex: u32 -> nat

    /** `TransportTimerTable::new`: `maxQpCnt` entries, each with a clone of
        `timer` (the timer `TransportTimer::new` built) and no stored chunk. */
    constructor (timer: T, maxQpCnt: nat, qpnIndex: u32 -> nat)
      ensures fresh(inner) && inner.Length == maxQpCnt
      ensures forall i :: 0 <= i < maxQpCnt ==> inner[i] == NewEntry(timer)
      ensures this.qpnIndex == qpnIndex
    {
      inner := new Entry<T>[maxQpCnt](_ => NewEntry(timer));
      this.qpnIndex := qpnIndex;
    }

    /** `get_qp_mut`: the slot of `qpn`, if within the table. */
    function GetQpMut(qpn: u32): (r: Option<nat>)
      ensures r.Some? <==> qpnIndex(qpn) < inner.Length
      ensures r.Some? ==> r.value == qpnIndex(qpn)
    {
      if qpnIndex(qpn) < inner.Length then Some(qpnIndex(qpn)) else None
    }
  }

  /** The effect of one task on the entries: a `NewAckReq` for a slot inside
      the table resets its timer and replaces its stored chunk; anything else
      changes nothing. */
  function ApplyTask<T>(es: seq<Entry<T>>, task: RetransmitTask, qpnIndex: u32 -> nat, reset: T -> T): seq<Entry<T>>
  {
    var i := qpnIndex(TaskQpn(task));
    if i < |es| && task.NewAckReq? then
      es[i := SetLastPacket(es[i].(timer := reset(es[i].timer)), task.lastPacketChunk)]
    else es
  }

  /** The entries after the tasks are applied in queue order. */
  function Drain<T>(es: seq<Entry<T>>, tasks: seq<RetransmitTask>, qpnIndex: u32 -> nat, reset: T -> T): seq<Entry<T>>
    decreases |tasks|
  {
    if tasks == [] then es
    else ApplyTask(Drain(es, tasks[..|tasks| - 1], qpnIndex, reset), tasks[|tasks| - 1], qpnIndex, reset)
  }

  /** Task `t` is a `NewAckReq` for slot `j`. */
  predicate IsAckReqFor(t: RetransmitTask, j: nat, qpnIndex: u32 -> nat) {
    t.NewAckReq? && qpnIndex(t.qpn) == j
  }

  /** A reference definition of what the tasks do to the single entry `e` in
      slot `j`, consuming the tasks front to back. */
  function SlotAfter<T>(e: Entry<T>, j: nat, tasks: seq<RetransmitTask>, qpnIndex: u32 -> nat, reset: T -> T): Entry<T>
    decreases |tasks|
  {
    if tasks == [] then e
    else
      var e' := if IsAckReqFor(tasks[0], j, qpnIndex) then Entry(reset(e.timer), Some(tasks[0].lastPacketChunk)) else e;
      SlotAfter(e', j, tasks[1..], qpnIndex, reset)
  }

  lemma {:induction false} SlotAfterSnoc<T>(e: Entry<T>, j: nat, tasks: seq<RetransmitTask>, t: RetransmitTask, qpnIndex: u32 -> nat, reset: T -> T)
    ensures SlotAfter(e, j, tasks + [t], qpnIndex, reset)
         == (var s := SlotAfter(e, j, tasks, qpnIndex, reset);
             if IsAckReqFor(t, j, qpnIndex) then Entry(reset(s.timer), Some(t.lastPacketChunk)) else s)
    decreases |tasks|
  {
    if tasks == [] {
      assert [t][1..] == [];
    } else {
      var e' := if IsAckReqFor(tasks[0], j, qpnIndex) then Entry(reset(e.timer), Some(tasks[0].lastPacketChunk)) else e;
      assert (tasks + [t])[1..] == tasks[1..] + [t];
      SlotAfterSnoc(e', j, tasks[1..], t, qpnIndex, reset);
    }
  }

  /** Draining keeps the table size, and each slot ends up as the reference
      definition says: slots are independent of one another. */
  lemma {:induction false} DrainBySlot<T>(es: seq<Entry<T>>, tasks: seq<RetransmitTask>, qpnIndex: u32 -> nat, reset: T -> T, j: nat)
    requires j < |es|
    ensures |Drain(es, tasks, qpnIndex, reset)| == |es|
    ensures Drain(es, tasks, qpnIndex, reset)[j] == SlotAfter(es[j], j, tasks, qpnIndex, reset)
    decreases |tasks|
  {
    if tasks != [] {
      var init := tasks[..|tasks| - 1];
      var t := tasks[|tasks| - 1];
      DrainBySlot(es, init, qpnIndex, reset, j);
      SlotAfterSnoc(es[j], j, init, t, qpnIndex, reset);
      assert init + [t] == tasks;
    }
  }

  /** A `ReceiveAck` changes nothing, and neither does a task for a slot outside the table. */
  lemma NoOpTasks<T>(es: seq<Entry<T>>, task: RetransmitTask, qpnIndex: u32 -> nat, reset: T -> T)
    requires task.ReceiveAck? || qpnIndex(task.qpn) >= |es|
    ensures ApplyTask(es, task, qpnIndex, reset) == es
  {
  }

  /** A slot that no `NewAckReq` addresses keeps its entry. */
  lemma {:induction false} UntouchedSlot<T>(e: Entry<T>, j: nat, tasks: seq<RetransmitTask>, qpnIndex: u32 -> nat, reset: T -> T)
    requires forall k :: 0 <= k < |tasks| ==> !IsAckReqFor(tasks[k], j, qpnIndex)
    ensures SlotAfter(e, j, tasks, qpnIndex, reset) == e
    decreases |tasks|
  {
    if tasks != [] {
      assert !IsAckReqFor(tasks[0], j, qpnIndex);
      UntouchedSlot(e, j, tasks[1..], qpnIndex, reset);
    }
  }

  /** The last `NewAckReq` of a slot wins: its chunk is the one stored. */
  lemma {:induction false} LastAckReqWins<T>(e: Entry<T>, j: nat, tasks: seq<RetransmitTask>, k: nat, qpnIndex: u32 -> nat, reset: T -> T)
    requires k < |tasks| && IsAckReqFor(tasks[k], j, qpnIndex)
    requires forall m :: k < m < |tasks| ==> !IsAckReqFor(tasks[m], j, qpnIndex)
    ensures SlotAfter(e, j, tasks, qpnIndex, reset).lastPacketChunk == Some(tasks[k].lastPacketChunk)
    decreases |tasks|
  {
    if k == 0 {
      var e' := Entry(reset(e.timer), Some(tasks[0].lastPacketChunk));
      forall m | 0 <= m < |tasks[1..]|
        ensures !IsAckReqFor(tasks[1..][m], j, qpnIndex)
      {
        assert tasks[1..][m] == tasks[m + 1];
      }
      UntouchedSlot(e', j, tasks[1..], qpnIndex, reset);
    } else {
      var e' := if IsAckReqFor(tasks[0], j, qpnIndex) then Entry(reset(e.timer), Some(tasks[0].lastPacketChunk)) else e;
      forall m | k - 1 < m < |tasks[1..]|
        ensures !IsAckReqFor(tasks[1..][m], j, qpnIndex)
      {
        assert tasks[1..][m] == tasks[m + 1];
      }
      LastAckReqWins(e', j, tasks[1..], k - 1, qpnIndex, reset);
    }
  }

  /** The scan of the entries in index order: each timer is checked once;
      a timed-out entry with a stored chunk sends a retry-marked copy of it;
      an error from `check_timeout` aborts the round (the source's `todo!`)
      at that index. A failed send is only logged, so only the attempts are
      recorded. */
  datatype ScanOutcome<T> = Scanned(entries: seq<Entry<T>>, sent: seq<WrChunk>) | Aborted(index: nat)

  /** What the scan does with one entry, given its timer's check. */
  function Retry<T>(e: Entry<T>, c: TimerCheck<T>): seq<WrChunk>
    requires c.result.Ok?
  {
    if c.result.value && e.lastPacketChunk.Some? then [SetIsRetry(e.lastPacketChunk.value)] else []
  }

  function Scan<T>(es: seq<Entry<T>>, check: T -> TimerCheck<T>): ScanOutcome<T>
    decreases |es|
  {
    if es == [] then Scanned([], [])
    else
      var prev := Scan(es[..|es| - 1], check);
      var e := es[|es| - 1];
      if prev.Aborted? then prev
      else if check(e.timer).result.Err? then Aborted(|es| - 1)
      else Scanned(prev.entries + [e.(timer := check(e.timer).timer)], prev.sent + Retry(e, check(e.timer)))
  }

  /** A reference definition of the chunks a scan sends, front to back. */
  function Retries<T>(es: seq<Entry<T>>, check: T -> TimerCheck<T>): seq<WrChunk>
    decreases |es|
  {
    if es == [] || check(es[0].timer).result.Err? then []
    else Retry(es[0], check(es[0].timer)) + Retries(es[1..], check)
  }

  predicate NoCheckFails<T>(es: seq<Entry<T>>, check: T -> TimerCheck<T>) {
    forall i :: 0 <= i < |es| ==> check(es[i].timer).result.Ok?
  }

  lemma {:induction false} RetriesSnoc<T>(es: seq<Entry<T>>, e: Entry<T>, check: T -> TimerCheck<T>)
    requires NoCheckFails(es, check) && check(e.timer).result.Ok?
    ensures Retries(es + [e], check) == Retries(es, check) + Retry(e, check(e.timer))
    decreases |es|
  {
    if es == [] {
      assert [e][1..] == [];
    } else {
      assert (es + [e])[1..] == es[1..] + [e];
      assert NoCheckFails(es[1..], check) by {
        forall i | 0 <= i < |es[1..]| ensures check(es[1..][i].timer).result.Ok? {
          assert es[1..][i] == es[i + 1];
        }
      }
      assert check(es[0].timer).result.Ok?;
      RetriesSnoc(es[1..], e, check);
    }
  }

  /** The scan completes exactly when no timer check fails; then every entry
      keeps its stored chunk and takes the timer its check left, and the
      chunks sent are, in index order, the retry-marked copies of the stored
      chunks of the timed-out entries. */
  lemma {:induction false} ScanSpec<T>(es: seq<Entry<T>>, check: T -> TimerCheck<T>)
    ensures Scan(es, check).Scanned? <==> NoCheckFails(es, check)
    ensures Scan(es, check).Scanned? ==>
      && |Scan(es, check).entries| == |es|
      && (forall i :: 0 <= i < |es| ==>
            Scan(es, check).entries[i] == Entry(check(es[i].timer).timer, es[i].lastPacketChunk))
      && Scan(es, check).sent == Retries(es, check)
    decreases |es|
  {
    if es != [] {
      var init := es[..|es| - 1];
      var e := es[|es| - 1];
      assert es == init + [e];
      ScanSpec(init, check);
      if NoCheckFails(init, check) {
        if check(e.timer).result.Ok? {
          RetriesSnoc(init, e, check);
        }
      } else {
        var i :| 0 <= i < |init| && check(init[i].timer).result.Err?;
        assert es[i] == init[i];
      }
    }
  }

  /** Once a prefix of the entries aborts the scan, so do the entries. */
  lemma {:induction false} ScanAbortPersists<T>(es: seq<Entry<T>>, n: nat, check: T -> TimerCheck<T>)
    requires n <= |es| && Scan(es[..n], check).Aborted?
    ensures Scan(es, check) == Scan(es[..n], check)
    decreases |es| - n
  {
    if n < |es| {
      assert es[..|es| - 1][..n] == es[..n];
      ScanAbortPersists(es[..|es| - 1], n, check);
    } else {
      assert es[..n] == es;
    }
  }

  /** An aborted scan stops at the first entry whose check fails. */
  lemma {:induction false} ScanAbortsAtFirstFailure<T>(es: seq<Entry<T>>, check: T -> TimerCheck<T>)
    requires Scan(es, check).Aborted?
    ensures Scan(es, check).index < |es|
    ensures check(es[Scan(es, check).index].timer).result.Err?
    ensures NoCheckFails(es[..Scan(es, check).index], check)
    decreases |es|
  {
    var init := es[..|es| - 1];
    ScanSpec(init, check);
    if Scan(init, check).Aborted? {
      ScanAbortsAtFirstFailure(init, check);
      assert es[..Scan(es, check).index] == init[..Scan(init, check).index];
    } else {
      assert es[..|es| - 1] == init;
    }
  }

  /** Every chunk a scan sends is marked as a retransmission. */
  lemma {:induction false} RetriesAreRetries<T>(es: seq<Entry<T>>, check: T -> TimerCheck<T>, k: nat)
    requires k < |Retries(es, check)|
    ensures Retries(es, check)[k].isRetry
    decreases |es|
  {
    var head := Retry(es[0], check(es[0].timer));
    if k >= |head| {
      RetriesAreRetries(es[1..], check, k - |head|);
    }
  }

  /** The timeout/retransmit worker, its table and the collaborators it calls. */
  class TimeoutRetransmitWorker<T> {
    const table: TransportTimerTable<T>
    const config: AckTimeoutConfig
    /** `TransportTimer::reset` and `TransportTimer::check_timeout`, whose
        definitions are not part of this model. */
    const reset: T -> T
    const check: T -> TimerCheck<T>

    /** `TimeoutRetransmitWorker::new`: the table is built from the timer
        `TransportTimer::new(local_ack_timeout_exp, init_retry_count)`, given
        here as `newTimer`. */
    constructor (config: AckTimeoutConfig, newTimer: (u8, nat) -> T, maxQpCnt: nat, qpnIndex: u32 -> nat,
                 reset: T -> T, check: T -> TimerCheck<T>)
      ensures fresh(table) && fresh(table.inner) && table.inner.Length == maxQpCnt
      ensures forall i :: 0 <= i < maxQpCnt ==>
        table.inner[i] == NewEntry(newTimer(config.localAckTimeoutExp, config.initRetryCount))
      ensures table.qpnIndex == qpnIndex && this.config == config
      ensures this.reset == reset && this.check == check
    {
      table := new TransportTimerTable(newTimer(config.localAckTimeoutExp, config.initRetryCount), maxQpCnt, qpnIndex);
      this.config := config;
      this.reset := reset;
      this.check := check;
    }

    /** One iteration of `run` after its sleep: drain `tasks` into the table,
        then scan it. Returns the chunks handed to the scheduler, and whether
        the round aborted on a failed timer check. */
    method RunRound(tasks: seq<RetransmitTask>) returns (sent: seq<WrChunk>, aborted: bool)
      modifies table.inner
      ensures var scan := Scan(Drain(old(table.inner[..]), tasks, table.qpnIndex, reset), check);
        && aborted == scan.Aborted?
        && (!aborted ==> table.inner[..] == scan.entries && sent == scan.sent)
    {
      var inner := table.inner;
      ghost var start := inner[..];
      for k := 0 to |tasks|
        invariant inner[..] == Drain(start, tasks[..k], table.qpnIndex, reset)
      {
        assert tasks[..k + 1][..k] == tasks[..k];
        var slot := table.GetQpMut(TaskQpn(tasks[k]));
        if slot.None? {
          continue;
        }
        if tasks[k].NewAckReq? {
          var i := slot.value;
          var entry := inner[i];
          inner[i] := SetLastPacket(entry.(timer := reset(entry.timer)), tasks[k].lastPacketChunk);
        }
      }
      assert tasks[..|tasks|] == tasks;
      ghost var drained := inner[..];
      sent := [];
      for i := 0 to inner.Length
        invariant Scan(drained[..i], check) == Scanned(inner[..i], sent)
        invariant inner[i..] == drained[i..]
      {
        assert drained[..i + 1][..i] == drained[..i];
        var entry := inner[i];
        var c := check(entry.timer);
        if c.result.Err? {
          assert drained[..i + 1] == drained[..i] + [entry];
          ScanAbortPersists(drained, i + 1, check);
          return sent, true;
        }
        inner[i] := entry.(timer := c.timer);
        if c.result.value && entry.lastPacketChunk.Some? {
          sent := sent + [SetIsRetry(entry.lastPacketChunk.value)];
        }
        assert inner[..i + 1] == inner[..i] + [entry.(timer := c.timer)];
      }
      assert drained[..inner.Length] == drained;
      assert inner[..inner.Length] == inner[..];
      return sent, false;
    }
  }
}
