/**
 * The message harvester of sqs_gui/app/receiver.py (`SQSMessageIterator`),
 * with its threads replaced by explicit steps: a worker step handles one poll,
 * the checker's wait and shutdown are separate methods, and the consumer takes
 * items off the output queue one `Next` at a time.
 */
module Receiver {
  import opened Wrappers
  import opened Messages

  /** `ReceiveConditions`. */
  datatype ReceiveConditions = ReceiveConditions(all: bool, count: int, timeout: int)

  /**
   * The worker count `__init__` settles on: `num_workers` when given, else
   * `os.cpu_count() or 2`; a count that is not positive raises ValueError.
   */
  function WorkerCount(requested: Option<int>, cpuCount: Option<nat>): (r: Result<nat>)
    ensures r.Ok? ==> r.value > 0
    ensures r.Err? ==> r.error == ValueError
    ensures requested.Some? ==> (r.Ok? <==> requested.value > 0)
    ensures requested.Some? && r.Ok? ==> r.value == requested.value
    ensures requested.None? && cpuCount.Some? && cpuCount.value > 0 ==> r == Ok(cpuCount.value)
    ensures requested.None? && (cpuCount.None? || cpuCount == Some(0)) ==> r == Ok(2)
  {
    var n := match requested
      case Some(k) => k
      case None => if cpuCount.None? || cpuCount.value == 0 then 2 else cpuCount.value;
    if n <= 0 then Err(ValueError) else Ok(n)
  }

  // ---------------------------------------------------------------------------
  // Deduplication, as a function of the id set and the batch

  /** The harvester's shared state: the id set and the messages published so far. */
  datatype Harvest = Harvest(seen: set<Id>, out: seq<Message>)

  /** The handling of one message under the lock: a known id is skipped, a new one recorded and published. */
  function Deliver(h: Harvest, m: Message): Harvest {
    if m.id in h.seen then h else Harvest(h.seen + {m.id}, h.out + [m])
  }

  /** The handling of a whole batch, message by message in batch order. */
  function DeliverBatch(h: Harvest, batch: seq<Message>): Harvest
    decreases |batch|
  {
    if batch == [] then h else DeliverBatch(Deliver(h, batch[0]), batch[1..])
  }

  /** What one batch publishes when `seen` holds the ids known beforehand. */
  function Published(seen: set<Id>, batch: seq<Message>): seq<Message> {
    DeliverBatch(Harvest(seen, []), batch).out
  }

  /**
   * Reference definition of the published messages: the message at a batch
   * position is published iff its id is neither known beforehand nor carried by
   * an earlier message of the batch; published messages keep batch order.
   */
  function FirstSeen(seen: set<Id>, batch: seq<Message>): seq<Message>
    decreases |batch|
  {
    if batch == [] then []
    else
      var n := |batch| - 1;
      FirstSeen(seen, batch[..n]) + (if batch[n].id in seen + IdsOf(batch[..n]) then [] else [batch[n]])
  }

  /** A batch adds its ids to the set and appends what it publishes to the output. */
  lemma {:induction false} DeliverBatchEffect(h: Harvest, batch: seq<Message>)
    ensures DeliverBatch(h, batch).seen == h.seen + IdsOf(batch)
    ensures DeliverBatch(h, batch).out == h.out + Published(h.seen, batch)
    decreases |batch|
  {
    if batch != [] {
      var m, rest := batch[0], batch[1..];
      var h1 := Deliver(h, m);
      var e1 := Deliver(Harvest(h.seen, []), m);
      DeliverBatchEffect(h1, rest);
      DeliverBatchEffect(e1, rest);
      assert e1.seen == h1.seen;
      assert batch == [m] + rest;
      IdsOfConcat([m], rest);
    }
  }

  /** Handling two batches one after the other is handling their concatenation. */
  lemma {:induction false} DeliverBatchConcat(h: Harvest, a: seq<Message>, b: seq<Message>)
    ensures DeliverBatch(h, a + b) == DeliverBatch(DeliverBatch(h, a), b)
    decreases |a|
  {
    if a == [] {
      assert a + b == b;
    } else {
      assert (a + b)[0] == a[0] && (a + b)[1..] == a[1..] + b;
      DeliverBatchConcat(Deliver(h, a[0]), a[1..], b);
    }
  }

  /** Publishing `a + b` publishes `a`, then what of `b` is new after `a`. */
  lemma PublishedConcat(seen: set<Id>, a: seq<Message>, b: seq<Message>)
    ensures Published(seen, a + b) == Published(seen, a) + Published(seen + IdsOf(a), b)
  {
    var h := Harvest(seen, []);
    DeliverBatchConcat(h, a, b);
    DeliverBatchEffect(h, a);
    DeliverBatchEffect(DeliverBatch(h, a), b);
  }

  /**
   * The shared set and queue after `before` and then `added` were handled are
   * those after `before + added`.
   */
  lemma AccumulateStep(ids: set<Id>, queue: seq<Option<Message>>, before: seq<Message>, added: seq<Message>)
    ensures ids + IdsOf(before) + IdsOf(added) == ids + IdsOf(before + added)
    ensures queue + Wrap(Published(ids, before)) + Wrap(Published(ids + IdsOf(before), added))
      == queue + Wrap(Published(ids, before + added))
  {
    IdsOfConcat(before, added);
    PublishedConcat(ids, before, added);
    var p, p' := Published(ids, before), Published(ids + IdsOf(before), added);
    WrapConcat(p, p');
    assert queue + Wrap(p) + Wrap(p') == queue + (Wrap(p) + Wrap(p'));
  }

  /** Appending a message to the batch publishes it iff its id is new to the set and the batch. */
  lemma PublishedSnoc(seen: set<Id>, batch: seq<Message>, m: Message)
    ensures Published(seen, batch + [m]) ==
      Published(seen, batch) + (if m.id in seen + IdsOf(batch) then [] else [m])
  {
    var h := Harvest(seen, []);
    DeliverBatchConcat(h, batch, [m]);
    DeliverBatchEffect(h, batch);
  }

  /** One more message of a batch, as the worker's loop sees it. */
  lemma PublishStep(seen: set<Id>, prefix: seq<Message>, m: Message)
    ensures var isNew := m.id !in seen + IdsOf(prefix);
      && IdsOf(prefix + [m]) == IdsOf(prefix) + {m.id}
      && Published(seen, prefix + [m]) == Published(seen, prefix) + (if isNew then [m] else [])
      && Wrap(Published(seen, prefix + [m])) == Wrap(Published(seen, prefix)) + (if isNew then [Some(m)] else [])
  {
    PublishedSnoc(seen, prefix, m);
    IdsOfConcat(prefix, [m]);
    IdsOfSingleton(m);
    WrapConcat(Published(seen, prefix), [m]);
  }

  /** The fold the worker performs publishes exactly the first-seen messages. */
  lemma {:induction false} PublishedIsFirstSeen(seen: set<Id>, batch: seq<Message>)
    ensures Published(seen, batch) == FirstSeen(seen, batch)
    decreases |batch|
  {
    if batch != [] {
      var n := |batch| - 1;
      PublishedIsFirstSeen(seen, batch[..n]);
      PublishedSnoc(seen, batch[..n], batch[n]);
      assert batch[..n] + [batch[n]] == batch;
    }
  }

  /** Every first-seen message is a message of the batch. */
  lemma {:induction false} FirstSeenFromBatch(seen: set<Id>, batch: seq<Message>)
    ensures forall m :: m in FirstSeen(seen, batch) ==> m in batch
    decreases |batch|
  {
    if batch != [] {
      var n := |batch| - 1;
      FirstSeenFromBatch(seen, batch[..n]);
      assert forall m :: m in batch[..n] ==> m in batch;
    }
  }

  /** The first-seen messages carry every new identifier of the batch and no known one. */
  lemma {:induction false} FirstSeenIds(seen: set<Id>, batch: seq<Message>)
    ensures IdsOf(FirstSeen(seen, batch)) == IdsOf(batch) - seen
    decreases |batch|
  {
    if batch != [] {
      var n := |batch| - 1;
      var init, m := batch[..n], batch[n];
      var p := FirstSeen(seen, init);
      FirstSeenIds(seen, init);
      assert init + [m] == batch;
      IdsOfConcat(init, [m]);
      assert IdsOf([m]) == {m.id};
      if m.id !in seen + IdsOf(init) {
        IdsOfConcat(p, [m]);
        assert IdsOf(FirstSeen(seen, batch)) == IdsOf(p) + {m.id};
      } else {
        assert FirstSeen(seen, batch) == p;
      }
    }
  }

  /** The first-seen messages carry no identifier twice. */
  lemma {:induction false} FirstSeenUnique(seen: set<Id>, batch: seq<Message>)
    ensures UniqueIds(FirstSeen(seen, batch))
    decreases |batch|
  {
    if batch != [] {
      var n := |batch| - 1;
      var init, m := batch[..n], batch[n];
      var p := FirstSeen(seen, init);
      FirstSeenUnique(seen, init);
      if m.id !in seen + IdsOf(init) {
        FirstSeenIds(seen, init);
        AppendFreshId(p, m);
      }
    }
  }

  /** Appending a message with a new id keeps the ids unique. */
  lemma AppendFreshId(p: seq<Message>, m: Message)
    requires UniqueIds(p) && m.id !in IdsOf(p)
    ensures UniqueIds(p + [m])
  {
    var q := p + [m];
    forall i, j | 0 <= i < j < |q| ensures q[i].id != q[j].id {
      if j == |p| { assert q[i] == p[i]; }
      else { assert q[i] == p[i] && q[j] == p[j]; }
    }
  }

  /**
   * What a batch publishes: no duplicate, no id already in the set, every new id
   * of the batch, each message taken from the batch.
   */
  lemma PublishedUnique(seen: set<Id>, batch: seq<Message>)
    ensures UniqueIds(Published(seen, batch))
    ensures IdsOf(Published(seen, batch)) == IdsOf(batch) - seen
    ensures forall m :: m in Published(seen, batch) ==> m in batch
  {
    PublishedIsFirstSeen(seen, batch);
    FirstSeenUnique(seen, batch);
    FirstSeenIds(seen, batch);
    FirstSeenFromBatch(seen, batch);
  }

  /** A message whose id is already known is skipped: publishing it changes nothing. */
  lemma SeenIsSkipped(h: Harvest, m: Message)
    requires m.id in h.seen
    ensures DeliverBatch(h, [m]) == h
  {
  }

  // ---------------------------------------------------------------------------
  // The worker loop, as a function of the batches its polls return

  /** How a worker's loop ended. */
  datatype Exit = ShutdownSeen | EmptyBatch | CountReached

  /** The count condition, checked only once a whole batch has been handled. */
  predicate CountMet(cond: ReceiveConditions, size: nat) {
    !cond.all && size >= cond.count
  }

  /** The end of a worker's run: the shared state, how it exited (None: still polling), the polls it made. */
  datatype WorkerRun = WorkerRun(harvest: Harvest, exit: Option<Exit>, polled: nat)

  /** All the batches of a sequence of polls, in order. */
  function Flatten(polls: seq<seq<Message>>): seq<Message>
    decreases |polls|
  {
    if polls == [] then [] else polls[0] + Flatten(polls[1..])
  }

  /**
   * `worker_thread`'s `while True` loop fed with the batches its successive
   * `receive_messages` calls return; when the given polls run out before the
   * worker stops, it is still running (`exit` is None).
   */
  function Worker(cond: ReceiveConditions, shutdown: bool, h: Harvest, polls: seq<seq<Message>>): (r: WorkerRun)
    ensures r.polled <= |polls|
    decreases |polls|
  {
    if shutdown then WorkerRun(h, Some(ShutdownSeen), 0)
    else if polls == [] then WorkerRun(h, None, 0)
    else if polls[0] == [] then WorkerRun(h, Some(EmptyBatch), 1)
    else
      var h1 := DeliverBatch(h, polls[0]);
      if CountMet(cond, |h1.seen|) then WorkerRun(h1, Some(CountReached), 1)
      else
        var rest := Worker(cond, shutdown, h1, polls[1..]);
        WorkerRun(rest.harvest, rest.exit, rest.polled + 1)
  }

  lemma FlattenSnoc(polls: seq<seq<Message>>, b: seq<Message>)
    ensures Flatten(polls + [b]) == Flatten(polls) + b
  {
    if polls != [] {
      assert (polls + [b])[1..] == polls[1..] + [b];
    }
  }

  /** The shared state after the first `k` polls of a worker. */
  function HarvestAfter(h: Harvest, polls: seq<seq<Message>>, k: nat): Harvest
    requires k <= |polls|
  {
    DeliverBatch(h, Flatten(polls[..k]))
  }

  /** Dropping the first poll shifts the state after `k` polls by that poll's batch. */
  lemma HarvestAfterShift(h: Harvest, polls: seq<seq<Message>>, k: nat)
    requires 0 < k <= |polls|
    ensures HarvestAfter(h, polls, k) == HarvestAfter(DeliverBatch(h, polls[0]), polls[1..], k - 1)
  {
    assert polls[..k] == [polls[0]] + polls[1..][..k - 1];
    assert Flatten(polls[..k]) == polls[0] + Flatten(polls[1..][..k - 1]);
    DeliverBatchConcat(h, polls[0], Flatten(polls[1..][..k - 1]));
  }

  /**
   * How a worker's run ends: on the shutdown flag before polling, on an empty
   * batch, after a batch that meets the count condition, or still running when
   * every given poll was made, its last batch non-empty and the count
   * condition still unmet; its effect on the shared state is that of
   * handling all its polled batches in order.
   */
  lemma {:induction false} WorkerExit(cond: ReceiveConditions, shutdown: bool, h: Harvest, polls: seq<seq<Message>>)
    ensures var r := Worker(cond, shutdown, h, polls);
      && r.polled <= |polls|
      && (r.exit == Some(ShutdownSeen) <==> shutdown)
      && (shutdown ==> r.polled == 0 && r.harvest == h)
      && (r.exit == Some(EmptyBatch) ==> r.polled > 0 && polls[r.polled - 1] == [])
      && (r.exit == Some(CountReached) ==> r.polled > 0 && polls[r.polled - 1] != [] && CountMet(cond, |r.harvest.seen|))
      && (r.exit == None ==> r.polled == |polls|)
      && (r.exit == None && r.polled > 0 ==> polls[r.polled - 1] != [] && !CountMet(cond, |r.harvest.seen|))
      && r.harvest == HarvestAfter(h, polls, r.polled)
    decreases |polls|
  {
    var r := Worker(cond, shutdown, h, polls);
    if shutdown || polls == [] {
      assert polls[..0] == [];
    } else if polls[0] == [] {
      assert polls[..1] == [[]];
      assert Flatten(polls[..1]) == [];
    } else {
      var h1 := DeliverBatch(h, polls[0]);
      HarvestAfterShift(h, polls, 1);
      assert polls[1..][..0] == [];
      if !CountMet(cond, |h1.seen|) {
        WorkerExit(cond, shutdown, h1, polls[1..]);
        HarvestAfterShift(h, polls, r.polled);
      }
    }
  }

  /**
   * A worker stops at the first opportunity and not before: every batch before
   * its last poll was non-empty and left the count condition unmet.
   */
  lemma {:induction false} WorkerRunsUntilStop(cond: ReceiveConditions, shutdown: bool, h: Harvest, polls: seq<seq<Message>>)
    ensures var r := Worker(cond, shutdown, h, polls);
      forall j :: 0 <= j < r.polled - 1 ==> polls[j] != []
    ensures var r := Worker(cond, shutdown, h, polls);
      forall k :: 1 <= k < r.polled ==> !CountMet(cond, |HarvestAfter(h, polls, k).seen|)
    decreases |polls|
  {
    var r := Worker(cond, shutdown, h, polls);
    if !shutdown && polls != [] && polls[0] != [] {
      var h1 := DeliverBatch(h, polls[0]);
      if !CountMet(cond, |h1.seen|) {
        var tail := polls[1..];
        WorkerRunsUntilStop(cond, shutdown, h1, tail);
        assert r.polled == Worker(cond, shutdown, h1, tail).polled + 1;
        forall j | 0 <= j < r.polled - 1 ensures polls[j] != [] {
          if j > 0 { assert polls[j] == tail[j - 1]; }
        }
        forall k | 1 <= k < r.polled
          ensures !CountMet(cond, |HarvestAfter(h, polls, k).seen|)
        {
          HarvestAfterShift(h, polls, k);
          if k == 1 {
            assert tail[..0] == [];
            assert HarvestAfter(h1, tail, 0) == h1;
          }
        }
      }
    }
  }

  /** Under `all` a worker never stops on the count. */
  lemma AllIgnoresCount(cond: ReceiveConditions, shutdown: bool, h: Harvest, polls: seq<seq<Message>>)
    requires cond.all
    ensures Worker(cond, shutdown, h, polls).exit != Some(CountReached)
  {
    WorkerExit(cond, shutdown, h, polls);
  }

  /**
   * Excluded ids count toward `count`: when the set already holds `count` ids,
   * the first non-empty batch stops the worker, whatever it published.
   */
  lemma ExcludedCountTowardCount(cond: ReceiveConditions, h: Harvest, polls: seq<seq<Message>>)
    requires !cond.all && |h.seen| >= cond.count
    requires polls != [] && polls[0] != []
    ensures Worker(cond, false, h, polls).exit == Some(CountReached)
    ensures Worker(cond, false, h, polls).polled == 1
  {
    DeliverBatchEffect(h, polls[0]);
    SubsetSize(h.seen, DeliverBatch(h, polls[0]).seen);
  }

  lemma SubsetSize<T>(a: set<T>, b: set<T>)
    requires a <= b
    ensures |a| <= |b|
  {
    assert b == a + (b - a);
  }

  /**
   * A batch may overshoot `count`: the check runs after the whole batch, so
   * every new id of the batch is published even past the count.
   */
  lemma CountMayOvershoot(cond: ReceiveConditions, h: Harvest, batch: seq<Message>)
    requires !cond.all && batch != []
    ensures var r := Worker(cond, false, h, [batch]);
      r.harvest.out == h.out + Published(h.seen, batch)
  {
    DeliverBatchEffect(h, batch);
  }

  // ---------------------------------------------------------------------------
  // The output queue

  /** The messages waiting in the output queue, the end marker left out. */
  function Pending(q: seq<Option<Message>>): seq<Message>
    decreases |q|
  {
    if q == [] then []
    else (if q[0].Some? then [q[0].value] else []) + Pending(q[1..])
  }

  /** Messages as they are put on the output queue. */
  function Wrap(ms: seq<Message>): (r: seq<Option<Message>>)
    ensures |r| == |ms|
    ensures forall i :: 0 <= i < |ms| ==> r[i] == Some(ms[i])
  {
    seq(|ms|, i requires 0 <= i < |ms| => Some(ms[i]))
  }

  lemma WrapConcat(a: seq<Message>, b: seq<Message>)
    ensures Wrap(a + b) == Wrap(a) + Wrap(b)
  {
  }

  lemma {:induction false} PendingConcat(a: seq<Option<Message>>, b: seq<Option<Message>>)
    ensures Pending(a + b) == Pending(a) + Pending(b)
    decreases |a|
  {
    if a == [] {
      assert a + b == b;
    } else {
      var head := if a[0].Some? then [a[0].value] else [];
      assert (a + b)[0] == a[0] && (a + b)[1..] == a[1..] + b;
      assert Pending(a + b) == head + Pending(a[1..] + b);
      PendingConcat(a[1..], b);
      assert Pending(a) == head + Pending(a[1..]);
    }
  }

  /** Taking the queue's items back out of `Wrap` gives the messages that were put. */
  lemma {:induction false} PendingWrap(ms: seq<Message>)
    ensures Pending(Wrap(ms)) == ms
    decreases |ms|
  {
    if ms != [] {
      assert Wrap(ms)[1..] == Wrap(ms[1..]);
      PendingWrap(ms[1..]);
    }
  }

  /**
   * The dedup invariant: the id set holds the excluded ids and those of every
   * emitted message; no id is emitted twice, and no excluded id at all.
   */
  ghost predicate DedupInv(ids: set<Id>, excluded: set<Id>, emitted: seq<Message>) {
    ids == excluded + IdsOf(emitted) && UniqueIds(emitted) && excluded !! IdsOf(emitted)
  }

  /**
   * The queue invariant: what the consumer has taken followed by what waits in
   * the queue is everything emitted; the end marker, once pushed, is last.
   */
  ghost predicate QueueInv(q: seq<Option<Message>>, delivered: seq<Message>, emitted: seq<Message>, ended: bool) {
    && delivered + Pending(q) == emitted
    && forall i :: 0 <= i < |q| && q[i].None? ==> ended && i == |q| - 1
  }

  /** Two id-unique sequences with disjoint ids concatenate to an id-unique sequence. */
  lemma UniqueConcat(a: seq<Message>, b: seq<Message>)
    requires UniqueIds(a) && UniqueIds(b) && IdsOf(a) !! IdsOf(b)
    ensures UniqueIds(a + b)
  {
    var c := a + b;
    forall i, j | 0 <= i < j < |c| ensures c[i].id != c[j].id {
      if j < |a| {
        assert c[i] == a[i] && c[j] == a[j];
      } else if i >= |a| {
        assert c[i] == b[i - |a|] && c[j] == b[j - |a|];
      } else {
        assert c[i] == a[i] && c[j] == b[j - |a|];
        assert a[i].id in IdsOf(a) && b[j - |a|].id in IdsOf(b);
      }
    }
  }

  /** Recording what a batch brings that is new keeps the deduplication invariant. */
  lemma PublishKeepsDedup(ids: set<Id>, excluded: set<Id>, emitted: seq<Message>, batch: seq<Message>)
    requires DedupInv(ids, excluded, emitted)
    ensures DedupInv(ids + IdsOf(batch), excluded, emitted + Published(ids, batch))
  {
    var p := Published(ids, batch);
    PublishedUnique(ids, batch);
    assert IdsOf(emitted) !! IdsOf(p);
    UniqueConcat(emitted, p);
    IdsOfConcat(emitted, p);
  }

  /** Queueing what a batch brings that is new keeps the queue invariant. */
  lemma PublishKeepsQueue(q: seq<Option<Message>>, delivered: seq<Message>, emitted: seq<Message>, p: seq<Message>)
    requires QueueInv(q, delivered, emitted, false)
    ensures QueueInv(q + Wrap(p), delivered, emitted + p, false)
  {
    PendingConcat(q, Wrap(p));
    PendingWrap(p);
    assert delivered + Pending(q + Wrap(p)) == emitted + p;
  }

  /** A worker run that continues one begun `k` polls earlier. */
  function Resumed(k: nat, r: WorkerRun): WorkerRun {
    WorkerRun(r.harvest, r.exit, r.polled + k)
  }

  /**
   * The batches that running workers are handling when shutdown is set, in
   * worker order; None: the worker is about to test the flag.
   */
  function InFlight(workers: seq<WorkerState>, inFlight: seq<Option<seq<Message>>>): seq<Message>
    requires |workers| == |inFlight|
    decreases |workers|
  {
    if workers == [] then []
    else
      var n := |workers| - 1;
      InFlight(workers[..n], inFlight[..n]) + Carried(workers[n], inFlight[n])
  }

  /** The batch one worker is handling when shutdown is set: none unless it is running and has polled. */
  function Carried(state: WorkerState, inFlight: Option<seq<Message>>): seq<Message> {
    if state == Running && inFlight.Some? then inFlight.value else []
  }

  lemma InFlightSnoc(workers: seq<WorkerState>, inFlight: seq<Option<seq<Message>>>, w: nat)
    requires |workers| == |inFlight| && w < |workers|
    ensures InFlight(workers[..w + 1], inFlight[..w + 1])
      == InFlight(workers[..w], inFlight[..w]) + Carried(workers[w], inFlight[w])
  {
    assert workers[..w + 1][..w] == workers[..w] && inFlight[..w + 1][..w] == inFlight[..w];
    assert workers[..w + 1][w] == workers[w] && inFlight[..w + 1][w] == inFlight[w];
  }

  /** The checker's `iters`: `round(timeout / 0.5)` sleeps, none when that is not positive. */
  function CheckerBudget(timeout: int): nat {
    if timeout <= 0 then 0 else 2 * timeout
  }

  /** Whether the `k`-th test found every worker dead (tests past the given ones find them alive). */
  predicate AllDeadAt(observed: seq<bool>, k: nat) {
    k < |observed| && observed[k]
  }

  /**
   * What the consumer has taken is id-unique, disjoint from the exclude set
   * and a prefix of everything emitted.
   */
  lemma DeliveredUnique(ids: set<Id>, excluded: set<Id>, emitted: seq<Message>,
                        q: seq<Option<Message>>, delivered: seq<Message>, ended: bool)
    requires DedupInv(ids, excluded, emitted) && QueueInv(q, delivered, emitted, ended)
    ensures delivered <= emitted
    ensures UniqueIds(delivered) && excluded !! IdsOf(delivered)
  {
    assert emitted[..|delivered|] == delivered;
    forall i, j | 0 <= i < j < |delivered| ensures delivered[i].id != delivered[j].id {
      assert delivered[i] == emitted[i] && delivered[j] == emitted[j];
    }
    forall id | id in IdsOf(delivered) ensures id !in excluded {
      var i :| 0 <= i < |delivered| && delivered[i].id == id;
      assert emitted[i] == delivered[i];
      assert id in IdsOf(emitted);
    }
  }

  /**
   * How joining a worker after shutdown leaves it: every thread has exited;
   * one that had already exited is unchanged; a running one about to test the
   * flag exits on it; one whose in-flight poll came back empty exits on that;
   * one with a non-empty batch exits on the count condition when `countMet`
   * (the test after that batch succeeds) and otherwise on the flag at its next test.
   */
  predicate Joined(before: WorkerState, inFlight: Option<seq<Message>>, after: WorkerState, countMet: bool) {
    && after.Exited?
    && (before.Exited? ==> after == before)
    && (before == Running && inFlight.None? ==> after == Exited(ShutdownSeen))
    && (before == Running && inFlight == Some([]) ==> after == Exited(EmptyBatch))
    && (before == Running && inFlight.Some? && inFlight.value != [] ==>
          after == Exited(if countMet then CountReached else ShutdownSeen))
  }

  /** The id set once the workers up to and including `w` have completed their in-flight iterations. */
  function SeenAfterJoin(ids: set<Id>, workers: seq<WorkerState>, inFlight: seq<Option<seq<Message>>>, w: nat): set<Id>
    requires |workers| == |inFlight| && w < |workers|
  {
    ids + IdsOf(InFlight(workers[..w + 1], inFlight[..w + 1]))
  }

  /**
   * Worker `w`, joined in turn after the workers before it, ends as `after`:
   * its count test sees the ids known beforehand and those of every in-flight
   * batch up to its own.
   */
  predicate JoinedAt(cond: ReceiveConditions, ids: set<Id>, workers: seq<WorkerState>,
                     inFlight: seq<Option<seq<Message>>>, w: nat, after: WorkerState)
    requires |workers| == |inFlight| && w < |workers|
  {
    Joined(workers[w], inFlight[w], after, CountMet(cond, |SeenAfterJoin(ids, workers, inFlight, w)|))
  }

  /** Pushing the end marker onto a queue with none keeps the queue invariant, now ended. */
  lemma EndKeepsQueue(q: seq<Option<Message>>, delivered: seq<Message>, emitted: seq<Message>)
    requires QueueInv(q, delivered, emitted, false)
    ensures QueueInv(q + [None], delivered, emitted, true)
  {
    PendingConcat(q, [None]);
    assert Pending([None]) == [];
    assert delivered + Pending(q + [None]) == emitted;
  }

  /** Taking the head of a non-empty queue keeps the queue invariant. */
  lemma TakeKeepsQueue(q: seq<Option<Message>>, delivered: seq<Message>, emitted: seq<Message>, ended: bool)
    requires QueueInv(q, delivered, emitted, ended) && q != []
    ensures q[0].Some? ==> QueueInv(q[1..], delivered + [q[0].value], emitted, ended)
    ensures q[0].None? ==> q == [None] && ended && delivered == emitted && QueueInv([], delivered, emitted, ended)
  {
    assert Pending(q) == (if q[0].Some? then [q[0].value] else []) + Pending(q[1..]);
    if q[0].Some? {
      assert delivered + [q[0].value] + Pending(q[1..]) == delivered + ([q[0].value] + Pending(q[1..]));
    } else {
      assert |q| == 1;
      assert q == [None];
    }
  }

  /**
   * The caller's `msg_ids_exclude` set. The iterator keeps a reference to it
   * rather than a copy, so whatever the harvest adds is visible to the caller.
   */
  class IdSet {
    var ids: set<Id>

    constructor (initial: set<Id>)
      ensures ids == initial
    {
      ids := initial;
    }
  }

  /** A worker thread: not yet started, running, or returned. */
  datatype WorkerState = Created | Running | Exited(reason: Exit)

  /** `SQSMessageIterator`. */
  class MessageIterator {
    const conditions: ReceiveConditions
    /** `_unique_message_ids`: the caller's exclude set itself. */
    const uniqueIds: IdSet
    var shutdown: bool
    /** `_unique_messages`: the output queue; None is the end marker. */
    var uniqueMessages: seq<Option<Message>>
    /** `_worker_threads`. */
    var workers: seq<WorkerState>

    /** The exclude set's content at construction. */
    ghost var excluded: set<Id>
    /** Every message put on the output queue so far, in order. */
    ghost var emitted: seq<Message>
    /** The messages `Next` has returned so far. */
    ghost var delivered: seq<Message>
    /** Whether the checker has pushed the end marker. */
    ghost var ended: bool

    ghost predicate Started()
      reads this
    {
      forall w :: 0 <= w < |workers| ==> workers[w] != Created
    }

    ghost predicate Valid()
      reads this, uniqueIds
    {
      && |workers| > 0
      && DedupInv(uniqueIds.ids, excluded, emitted)
      && QueueInv(uniqueMessages, delivered, emitted, ended)
      && (ended ==> shutdown && forall w :: 0 <= w < |workers| ==> workers[w].Exited?)
    }

    /** The part of `__init__` after the worker count has been checked: one thread per worker. */
    constructor (conditions: ReceiveConditions, numWorkers: nat, exclude: IdSet)
      requires numWorkers > 0
      ensures Valid()
      ensures this.conditions == conditions && uniqueIds == exclude
      ensures |workers| == numWorkers && forall w :: 0 <= w < numWorkers ==> workers[w] == Created
      ensures !shutdown && uniqueMessages == []
      ensures excluded == exclude.ids && emitted == [] && delivered == [] && !ended
    {
      this.conditions := conditions;
      uniqueIds := exclude;
      shutdown := false;
      uniqueMessages := [];
      excluded := exclude.ids;
      emitted := [];
      delivered := [];
      ended := false;
      var threads: seq<WorkerState> := [];
      for i := 0 to numWorkers
        invariant |threads| == i
        invariant forall w :: 0 <= w < i ==> threads[w] == Created
      {
        threads := threads + [Created];
      }
      workers := threads;
    }

    /**
     * `__init__`: ValueError when the settled worker count is not positive,
     * otherwise an iterator with exactly that many worker threads.
     */
    static method Create(conditions: ReceiveConditions, numWorkers: Option<int>, cpuCount: Option<nat>, exclude: IdSet)
      returns (r: Result<MessageIterator>)
      ensures r.Err? <==> WorkerCount(numWorkers, cpuCount).Err?
      ensures r.Err? ==> r.error == ValueError
      ensures r.Ok? ==> fresh(r.value) && r.value.Valid() && !r.value.Started()
      ensures r.Ok? ==> |r.value.workers| == WorkerCount(numWorkers, cpuCount).value
      ensures r.Ok? ==> r.value.uniqueIds == exclude && r.value.excluded == exclude.ids
      ensures r.Ok? ==> r.value.emitted == [] && r.value.uniqueMessages == []
      ensures r.Ok? ==> r.value.conditions == conditions && !r.value.shutdown
      ensures r.Ok? ==> forall w :: 0 <= w < |r.value.workers| ==> r.value.workers[w] == Created
      ensures r.Ok? ==> r.value.delivered == [] && !r.value.ended
    {
      match WorkerCount(numWorkers, cpuCount)
      case Err(e) => r := Err(e);
      case Ok(n) =>
        var it := new MessageIterator(conditions, n, exclude);
        assert it.workers[0] == Created;
        r := Ok(it);
    }

    /**
     * `start_message_receiving`: starts the worker threads in order; starting
     * a thread a second time raises RuntimeError, leaving the threads before
     * it started and the rest as they were.
     */
    method Start() returns (r: Result<()>)
      requires Valid()
      modifies this
      ensures Valid()
      ensures r.Err? <==> exists i :: 0 <= i < |old(workers)| && old(workers)[i] != Created
      ensures r.Err? ==> r.error == RuntimeError
      ensures |workers| == |old(workers)|
      ensures r.Ok? ==> forall i :: 0 <= i < |workers| ==> workers[i] == Running
      ensures r.Err? ==> exists k :: (0 <= k < |workers| && old(workers)[k] != Created
        && (forall i :: 0 <= i < k ==> old(workers)[i] == Created && workers[i] == Running)
        && (forall i :: k <= i < |workers| ==> workers[i] == old(workers[i])))
      ensures shutdown == old(shutdown) && uniqueMessages == old(uniqueMessages)
      ensures emitted == old(emitted) && delivered == old(delivered) && ended == old(ended)
    {
      for i := 0 to |workers|
        invariant Valid() && |workers| == |old(workers)|
        invariant forall j :: 0 <= j < i ==> old(workers[j]) == Created && workers[j] == Running
        invariant forall j :: i <= j < |workers| ==> workers[j] == old(workers[j])
        invariant shutdown == old(shutdown) && uniqueMessages == old(uniqueMessages)
        invariant emitted == old(emitted) && delivered == old(delivered) && ended == old(ended)
      {
        if workers[i] != Created {
          return Err(RuntimeError);
        }
        workers := workers[i := Running];
      }
      r := Ok(());
    }

    /**
     * The loop over one batch, under the lock: every message whose id is not
     * yet in `ids` is added to it and put on `queue`; the others are skipped.
     */
    static method DedupBatch(ids: set<Id>, queue: seq<Option<Message>>, batch: seq<Message>)
      returns (ids': set<Id>, queue': seq<Option<Message>>)
      ensures ids' == ids + IdsOf(batch)
      ensures queue' == queue + Wrap(Published(ids, batch))
    {
      ids', queue' := ids, queue;
      ghost var start := Harvest(ids, []);
      ghost var pub: seq<Message> := [];
      for i := 0 to |batch|
        invariant Harvest(ids', pub) == DeliverBatch(start, batch[..i])
        invariant queue' == queue + Wrap(pub)
      {
        var message := batch[i];
        assert batch[..i + 1] == batch[..i] + [message];
        DeliverBatchConcat(start, batch[..i], [message]);
        if message.id !in ids' {
          WrapConcat(pub, [message]);
          ids' := ids' + {message.id};
          queue' := queue' + [Some(message)];
          pub := pub + [message];
        }
      }
      assert batch[..|batch|] == batch;
      DeliverBatchEffect(start, batch);
    }

    /**
     * `worker_thread`'s `while True` loop over the shared id set and output
     * queue, fed with the batches its successive polls return; it behaves as
     * `Worker` says. `shutdown` is the flag as the worker sees it.
     */
    static method WorkerLoop(conditions: ReceiveConditions, shutdown: bool, ids: set<Id>,
                             queue: seq<Option<Message>>, polls: seq<seq<Message>>)
      returns (ids': set<Id>, queue': seq<Option<Message>>, exit: Option<Exit>, polled: nat)
      ensures var r := Worker(conditions, shutdown, Harvest(ids, []), polls);
        && polled == r.polled && exit == r.exit
        && ids' == r.harvest.seen && queue' == queue + Wrap(r.harvest.out)
    {
      ghost var final := Worker(conditions, shutdown, Harvest(ids, []), polls);
      ghost var pub: seq<Message> := [];
      ids', queue', exit, polled := ids, queue, None, 0;
      while exit.None? && (shutdown || polled < |polls|)
        invariant polled <= |polls|
        invariant queue' == queue + Wrap(pub)
        invariant exit.None? ==>
          final == Resumed(polled, Worker(conditions, shutdown, Harvest(ids', pub), polls[polled..]))
        invariant exit.Some? ==> final == WorkerRun(Harvest(ids', pub), exit, polled)
        decreases |polls| - polled + (if exit.None? then 1 else 0)
      {
        if shutdown {
          exit := Some(ShutdownSeen);
        } else {
          var messages := polls[polled];
          assert polls[polled..][0] == messages && polls[polled..][1..] == polls[polled + 1..];
          ghost var h := Harvest(ids', pub);
          polled := polled + 1;
          if messages == [] {
            exit := Some(EmptyBatch);
          } else {
            ghost var p := Published(h.seen, messages);
            ids', queue' := DedupBatch(ids', queue', messages);
            assert queue' == queue + Wrap(pub + p) by {
              WrapConcat(pub, p);
              assert queue + Wrap(pub) + Wrap(p) == queue + (Wrap(pub) + Wrap(p));
            }
            assert DeliverBatch(h, messages) == Harvest(ids', pub + p) by {
              DeliverBatchEffect(h, messages);
            }
            pub := pub + p;
            if !conditions.all && |ids'| >= conditions.count {
              exit := Some(CountReached);
            }
          }
        }
      }
      if exit.None? {
        assert polls[polled..] == [];
      }
    }

    /**
     * A started worker thread run to its end on the batches its polls return;
     * the shared set and queue grow as `Worker` says and the thread is marked
     * with its exit reason, if it exited.
     */
    method RunWorker(w: nat, polls: seq<seq<Message>>) returns (polled: nat)
      requires Valid() && !ended && w < |workers| && workers[w] == Running
      modifies this, uniqueIds
      ensures Valid() && !ended
      ensures var r := Worker(conditions, old(shutdown), Harvest(old(uniqueIds.ids), []), polls);
        && polled == r.polled
        && uniqueIds.ids == r.harvest.seen
        && emitted == old(emitted) + r.harvest.out
        && uniqueMessages == old(uniqueMessages) + Wrap(r.harvest.out)
        && workers == old(workers)[w := if r.exit.Some? then Exited(r.exit.value) else Running]
      ensures shutdown == old(shutdown) && excluded == old(excluded) && delivered == old(delivered)
    {
      ghost var start := Harvest(uniqueIds.ids, []);
      ghost var r := Worker(conditions, shutdown, start, polls);
      var ids, queue, exit;
      ids, queue, exit, polled := WorkerLoop(conditions, shutdown, uniqueIds.ids, uniqueMessages, polls);
      ghost var batch := Flatten(polls[..r.polled]);
      assert r.harvest == Harvest(start.seen + IdsOf(batch), Published(start.seen, batch)) by {
        WorkerExit(conditions, shutdown, start, polls);
        DeliverBatchEffect(start, batch);
      }
      assert DedupInv(ids, excluded, emitted + r.harvest.out) by {
        PublishKeepsDedup(start.seen, excluded, emitted, batch);
      }
      assert QueueInv(queue, delivered, emitted + r.harvest.out, false) by {
        PublishKeepsQueue(uniqueMessages, delivered, emitted, r.harvest.out);
      }
      emitted := emitted + r.harvest.out;
      uniqueIds.ids, uniqueMessages := ids, queue;
      if exit.Some? {
        workers := workers[w := Exited(exit.value)];
      }
    }

    /**
     * One worker completing, after shutdown, the iteration it is in and then
     * exiting: with a batch in hand it publishes it and tests the count
     * condition; otherwise it stops on the empty batch or on the flag.
     */
    static method CompleteIteration(conditions: ReceiveConditions, ids: set<Id>, queue: seq<Option<Message>>,
                                    state: WorkerState, inFlight: Option<seq<Message>>)
      returns (ids': set<Id>, queue': seq<Option<Message>>, after: WorkerState)
      requires state != Created
      ensures ids' == ids + IdsOf(Carried(state, inFlight))
      ensures queue' == queue + Wrap(Published(ids, Carried(state, inFlight)))
      ensures Joined(state, inFlight, after, CountMet(conditions, |ids'|))
    {
      ids', queue', after := ids, queue, state;
      if state == Running {
        var exit: Option<Exit> := None;
        if inFlight.Some? {
          var messages := inFlight.value;
          if messages == [] {
            exit := Some(EmptyBatch);
          } else {
            ids', queue' := DedupBatch(ids', queue', messages);
            if !conditions.all && |ids'| >= conditions.count {
              exit := Some(CountReached);
            }
          }
        }
        after := Exited(if exit.Some? then exit.value else ShutdownSeen);
      }
      if Carried(state, inFlight) == [] {
        assert IdsOf([]) == {} && Published(ids, []) == [];
      }
    }

    /**
     * The `thread.join()` calls after shutdown is set: each running worker
     * completes the iteration it is in (`inFlight`), the batches being handled
     * one after another in worker order, and then exits.
     */
    static method JoinWorkers(conditions: ReceiveConditions, ids: set<Id>, queue: seq<Option<Message>>,
                              workers: seq<WorkerState>, inFlight: seq<Option<seq<Message>>>)
      returns (ids': set<Id>, queue': seq<Option<Message>>, workers': seq<WorkerState>)
      requires |inFlight| == |workers| && forall w :: 0 <= w < |workers| ==> workers[w] != Created
      ensures ids' == ids + IdsOf(InFlight(workers, inFlight))
      ensures queue' == queue + Wrap(Published(ids, InFlight(workers, inFlight)))
      ensures |workers'| == |workers|
      ensures forall w :: 0 <= w < |workers| ==> JoinedAt(conditions, ids, workers, inFlight, w, workers'[w])
    {
      ids', queue', workers' := ids, queue, [];
      ghost var carried: seq<Message> := [];
      for w := 0 to |workers|
        invariant |workers'| == w
        invariant forall v :: 0 <= v < w ==> JoinedAt(conditions, ids, workers, inFlight, v, workers'[v])
        invariant carried == InFlight(workers[..w], inFlight[..w])
        invariant ids' == ids + IdsOf(carried) && queue' == queue + Wrap(Published(ids, carried))
      {
        ids', queue', workers', carried := JoinOne(conditions, ids, queue, workers, inFlight, w, ids', queue', workers', carried);
      }
      assert workers[..|workers|] == workers && inFlight[..|inFlight|] == inFlight;
    }

    /** One turn of that loop: worker `w` finishes its iteration and is recorded as joined. */
    static method JoinOne(conditions: ReceiveConditions, ghost ids: set<Id>, ghost queue: seq<Option<Message>>,
                          workers: seq<WorkerState>, inFlight: seq<Option<seq<Message>>>, w: nat,
                          ids': set<Id>, queue': seq<Option<Message>>, workers': seq<WorkerState>, ghost carried: seq<Message>)
      returns (ids'': set<Id>, queue'': seq<Option<Message>>, workers'': seq<WorkerState>, ghost carried': seq<Message>)
      requires |inFlight| == |workers| && w < |workers| && workers[w] != Created && |workers'| == w
      requires carried == InFlight(workers[..w], inFlight[..w])
      requires ids' == ids + IdsOf(carried) && queue' == queue + Wrap(Published(ids, carried))
      requires forall v :: 0 <= v < w ==> JoinedAt(conditions, ids, workers, inFlight, v, workers'[v])
      ensures |workers''| == w + 1 && workers''[..w] == workers'
      ensures forall v :: 0 <= v < w + 1 ==> JoinedAt(conditions, ids, workers, inFlight, v, workers''[v])
      ensures carried' == InFlight(workers[..w + 1], inFlight[..w + 1])
      ensures ids'' == ids + IdsOf(carried') && queue'' == queue + Wrap(Published(ids, carried'))
    {
      ghost var added := Carried(workers[w], inFlight[w]);
      var after;
      ids'', queue'', after := CompleteIteration(conditions, ids', queue', workers[w], inFlight[w]);
      workers'' := workers' + [after];
      AccumulateStep(ids, queue, carried, added);
      InFlightSnoc(workers, inFlight, w);
      carried' := carried + added;
      assert SeenAfterJoin(ids, workers, inFlight, w) == ids'';
      assert JoinedAt(conditions, ids, workers, inFlight, w, after);
      forall v | 0 <= v < w + 1
        ensures JoinedAt(conditions, ids, workers, inFlight, v, workers''[v])
      {
        if v < w {
          assert workers''[v] == workers'[v];
        }
      }
    }

    /**
     * The end of `checker_thread`: sets the shutdown flag, joins every worker
     * (each finishing the iteration it is in) and pushes the single end marker.
     */
    method Finish(inFlight: seq<Option<seq<Message>>>)
      requires Valid() && !ended && Started() && |inFlight| == |workers|
      modifies this, uniqueIds
      ensures Valid() && ended && shutdown
      ensures uniqueIds.ids == old(uniqueIds.ids) + IdsOf(InFlight(old(workers), inFlight))
      ensures emitted == old(emitted) + Published(old(uniqueIds.ids), InFlight(old(workers), inFlight))
      ensures uniqueMessages == old(uniqueMessages) + Wrap(emitted[|old(emitted)|..]) + [None]
      ensures |workers| == |old(workers)|
      ensures forall w :: 0 <= w < |workers| ==> JoinedAt(conditions, old(uniqueIds.ids), old(workers), inFlight, w, workers[w])
      ensures excluded == old(excluded) && delivered == old(delivered)
    {
      shutdown := true;
      ghost var batch := InFlight(workers, inFlight);
      ghost var p := Published(uniqueIds.ids, batch);
      var ids, queue, ws := JoinWorkers(conditions, uniqueIds.ids, uniqueMessages, workers, inFlight);
      assert DedupInv(ids, excluded, emitted + p) by {
        PublishKeepsDedup(uniqueIds.ids, excluded, emitted, batch);
      }
      assert QueueInv(queue + [None], delivered, emitted + p, true) by {
        PublishKeepsQueue(uniqueMessages, delivered, emitted, p);
        EndKeepsQueue(queue, delivered, emitted + p);
      }
      assert (emitted + p)[|emitted|..] == p;
      emitted := emitted + p;
      uniqueIds.ids, workers := ids, ws;
      uniqueMessages := queue + [None];
      ended := true;
    }

    /**
     * `__next__`: takes the head of the output queue; a message is returned,
     * the end marker (None here) stands for StopIteration. A blocking `get`
     * is modelled as taking an item already there.
     */
    method Next() returns (r: Option<Message>)
      requires Valid() && uniqueMessages != []
      modifies this
      ensures Valid()
      ensures uniqueMessages == old(uniqueMessages)[1..]
      ensures r.Some? ==> old(uniqueMessages)[0] == Some(r.value) && delivered == old(delivered) + [r.value]
      ensures r.None? ==> old(uniqueMessages) == [None] && ended && delivered == emitted
      ensures emitted == old(emitted) && ended == old(ended) && workers == old(workers) && shutdown == old(shutdown)
    {
      var item := uniqueMessages[0];
      TakeKeepsQueue(uniqueMessages, delivered, emitted, ended);
      uniqueMessages := uniqueMessages[1..];
      if item.Some? {
        delivered := delivered + [item.value];
        r := Some(item.value);
      } else {
        r := None;
      }
    }

    /**
     * The checker's wait: up to `round(timeout / 0.5)` sleeps, each followed
     * by a test that ends the wait early once every worker is dead.
     */
    static method CheckerWait(timeout: int, observed: seq<bool>) returns (slept: nat)
      ensures slept <= CheckerBudget(timeout)
      ensures forall k :: 0 <= k < slept - 1 ==> !AllDeadAt(observed, k)
      ensures slept < CheckerBudget(timeout) ==> slept > 0 && AllDeadAt(observed, slept - 1)
    {
      slept := 0;
      var iters := CheckerBudget(timeout);
      for i := 0 to iters
        invariant slept == i
        invariant forall k :: 0 <= k < i ==> !AllDeadAt(observed, k)
      {
        slept := slept + 1;
        if i < |observed| && observed[i] {
          return;
        }
      }
    }
  }

  /**
   * `receiveMessages`: an iterator over the caller's exclude set, or, when the
   * argument is omitted, over the default `set()`. That default is one object,
   * made once with the function, and `defaultExclude` stands for it.
   */
  method ReceiveMessages(conditions: ReceiveConditions, numWorkers: Option<int>, cpuCount: Option<nat>,
                         exclude: Option<IdSet>, defaultExclude: IdSet)
    returns (r: Result<MessageIterator>)
    ensures r.Err? <==> WorkerCount(numWorkers, cpuCount).Err?
    ensures r.Ok? ==> fresh(r.value) && r.value.Valid() && !r.value.Started() && r.value.conditions == conditions
    ensures r.Ok? ==> r.value.uniqueIds == (if exclude.Some? then exclude.value else defaultExclude)
    ensures r.Ok? ==> r.value.excluded == r.value.uniqueIds.ids && r.value.emitted == [] && !r.value.shutdown
    ensures r.Ok? ==> forall w :: 0 <= w < |r.value.workers| ==> r.value.workers[w] == Created
  {
    r := MessageIterator.Create(conditions, numWorkers, cpuCount, if exclude.Some? then exclude.value else defaultExclude);
  }

  /**
   * `iter()` called twice on one iterator: the first call starts every worker,
   * and the second raises RuntimeError at the first worker, leaving every
   * worker as the first call left it.
   */
  method IterTwice(it: MessageIterator) returns (first: Result<()>, second: Result<()>)
    requires it.Valid() && |it.workers| > 0
    modifies it
    ensures first.Ok? <==> forall i :: 0 <= i < |old(it.workers)| ==> old(it.workers)[i] == Created
    ensures first.Ok? ==> second == Err(RuntimeError)
    ensures first.Ok? ==> |it.workers| == |old(it.workers)| && forall i :: 0 <= i < |it.workers| ==> it.workers[i] == Running
  {
    first := it.Start();
    ghost var started := it.workers;
    second := it.Start();
    if first.Ok? {
      assert started[0] == Running;
      assert it.workers == started;
    }
  }

  /**
   * Two harvests that both omit the exclude set share the default: whatever
   * the first one's worker emitted is excluded from the second.
   */
  method DefaultExcludeShared(conditions: ReceiveConditions, numWorkers: Option<int>, cpuCount: Option<nat>,
                              defaultExclude: IdSet, polls: seq<seq<Message>>)
    returns (first: Result<MessageIterator>, second: Result<MessageIterator>)
    modifies defaultExclude
    ensures first.Ok? <==> second.Ok?
    ensures first.Ok? ==> first.value.uniqueIds == defaultExclude && second.value.uniqueIds == defaultExclude
    ensures first.Ok? ==> second.value.excluded == old(defaultExclude.ids) + IdsOf(first.value.emitted)
    ensures first.Ok? ==> first.value.emitted == Worker(conditions, false, Harvest(old(defaultExclude.ids), []), polls).harvest.out
  {
    first := ReceiveMessages(conditions, numWorkers, cpuCount, None, defaultExclude);
    if first.Err? {
      second := ReceiveMessages(conditions, numWorkers, cpuCount, None, defaultExclude);
      return;
    }
    var it := first.value;
    var started := it.Start();
    assert started.Ok? && it.workers[0] == Running;
    var _ := it.RunWorker(0, polls);
    second := ReceiveMessages(conditions, numWorkers, cpuCount, None, defaultExclude);
  }
}
