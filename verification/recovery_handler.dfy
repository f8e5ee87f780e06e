/**
 * The pending-replication queue and its replay
 * (src/backend/replication/recovery_handler.py). Failed fragment writes wait
 * in an in-memory FIFO; `recover_node(n)` drains the FIFO, replays the
 * entries addressed to `n` against `n`, and puts back, in their original
 * order, the other nodes' entries and the replays that failed again.
 */
module Recovery {
  import opened Wrappers
  import opened Environment
  import opened TransactionLog

  /** A queued replication: target node, operation name, the statement and
      its parameters, and the affected title's key. The enqueue timestamp is
      never read and is not modelled. */
  datatype Entry = Entry(nodeName: string, operation: string, query: string, params: seq<Value>, tconst: Value)

  /** The entries of `q` addressed to node `n`, in queue order. */
  function Addressed(q: seq<Entry>, n: string): (a: seq<Entry>)
    ensures |a| <= |q|
  {
    if q == [] then []
    else
      var e := q[|q| - 1];
      Addressed(q[..|q| - 1], n) + (if e.nodeName == n then [e] else [])
  }

  /** The entries of `q` addressed to any other node, in queue order. */
  function Others(q: seq<Entry>, n: string): (o: seq<Entry>)
    ensures |o| <= |q|
  {
    if q == [] then []
    else
      var e := q[|q| - 1];
      Others(q[..|q| - 1], n) + (if e.nodeName != n then [e] else [])
  }

  /** How many answers in `rs` report success. */
  function Successes(rs: seq<QueryResult>): (k: nat)
    ensures k <= |rs|
  {
    if rs == [] then 0
    else Successes(rs[..|rs| - 1]) + (if rs[|rs| - 1].Success() then 1 else 0)
  }

  /** The queue after a recovery of node `n` in which the replays of the
      entries addressed to `n` got the answers `rs`, in order: `q` with every
      successfully replayed entry removed and nothing else changed. */
  function Kept(q: seq<Entry>, n: string, rs: seq<QueryResult>): seq<Entry>
    requires |rs| == |Addressed(q, n)|
  {
    if q == [] then []
    else
      var e := q[|q| - 1];
      if e.nodeName == n then
        Kept(q[..|q| - 1], n, rs[..|rs| - 1]) + (if rs[|rs| - 1].Success() then [] else [e])
      else
        Kept(q[..|q| - 1], n, rs) + [e]
  }

  /** The entries of `es` whose replay failed (answer in `rs`), in order. */
  function FailedOnes(es: seq<Entry>, rs: seq<QueryResult>): (f: seq<Entry>)
    requires |es| == |rs|
    ensures |f| == |rs| - Successes(rs)
  {
    if es == [] then []
    else
      FailedOnes(es[..|es| - 1], rs[..|rs| - 1]) + (if rs[|rs| - 1].Success() then [] else [es[|es| - 1]])
  }

  /** The replays `recover_node(n)` sends: each entry's own statement and
      parameters, to node `n`, with the answer it got. */
  function ReplayCalls(n: string, es: seq<Entry>, rs: seq<QueryResult>): (cs: seq<Call>)
    requires |es| == |rs|
    ensures |cs| == |es|
  {
    if es == [] then []
    else
      var e := es[|es| - 1];
      ReplayCalls(n, es[..|es| - 1], rs[..|rs| - 1]) + [ReplayCall(Entry(n, e.operation, e.query, e.params, e.tconst), rs[|rs| - 1])]
  }

  /** The call replaying `e` against its node, answered `r`. */
  function ReplayCall(e: Entry, r: QueryResult): Call
  {
    Call(Request(e.nodeName, e.query, e.params, DEFAULT_ISOLATION), r, false)
  }

  /** The audit row a successful replay of `e` on node `n` writes. */
  function RecoveryRow(n: string, e: Entry): LogRow
  {
    LogRow(n, "RECOVERY_" + e.operation, "titles", e.tconst, "SUCCESS", Null)
  }

  /** The audit inserts of a recovery: one per successful replay, none for a
      failed one. */
  function RecoveryLogRequests(n: string, es: seq<Entry>, rs: seq<QueryResult>): (ls: seq<Request>)
    requires |es| == |rs|
    ensures |ls| == Successes(rs)
  {
    if es == [] then []
    else
      RecoveryLogRequests(n, es[..|es| - 1], rs[..|rs| - 1])
        + (if rs[|rs| - 1].Success() then [LogRequest(RecoveryRow(n, es[|es| - 1]))] else [])
  }

  // ---------------------------------------------------------------------
  // What a recovery does to the queue

  /** Pending count after = pending count before - recovered. */
  lemma {:induction false} KeptLength(q: seq<Entry>, n: string, rs: seq<QueryResult>)
    requires |rs| == |Addressed(q, n)|
    ensures |Kept(q, n, rs)| == |q| - Successes(rs)
  {
    if q != [] {
      var e := q[|q| - 1];
      if e.nodeName == n {
        KeptLength(q[..|q| - 1], n, rs[..|rs| - 1]);
      } else {
        KeptLength(q[..|q| - 1], n, rs);
      }
    }
  }

  /** The other nodes' entries are all retained, unchanged and in order. */
  lemma {:induction false} KeptOthers(q: seq<Entry>, n: string, rs: seq<QueryResult>)
    requires |rs| == |Addressed(q, n)|
    ensures Others(Kept(q, n, rs), n) == Others(q, n)
  {
    if q != [] {
      var e := q[|q| - 1];
      var init := q[..|q| - 1];
      if e.nodeName == n {
        KeptOthers(init, n, rs[..|rs| - 1]);
        OthersSnoc(Kept(init, n, rs[..|rs| - 1]), n, if rs[|rs| - 1].Success() then [] else [e]);
      } else {
        KeptOthers(init, n, rs);
        OthersSnoc(Kept(init, n, rs), n, [e]);
      }
    }
  }

  /** Of the entries addressed to `n`, exactly the failed replays stay, in order. */
  lemma {:induction false} KeptAddressed(q: seq<Entry>, n: string, rs: seq<QueryResult>)
    requires |rs| == |Addressed(q, n)|
    ensures Addressed(Kept(q, n, rs), n) == FailedOnes(Addressed(q, n), rs)
  {
    if q != [] {
      var e := q[|q| - 1];
      var init := q[..|q| - 1];
      assert q == init + [e];
      if e.nodeName == n {
        var rs' := rs[..|rs| - 1];
        var r := rs[|rs| - 1];
        assert rs == rs' + [r];
        var tail := if r.Success() then [] else [e];
        var kept := Kept(init, n, rs');
        assert Addressed(Kept(q, n, rs), n) == Addressed(kept, n) + tail by {
          SnocAddressed(init, e, n, rs', r);
          AddressedSnoc(kept, n, tail);
          AddressedSingle(e, n);
        }
        assert FailedOnes(Addressed(q, n), rs) == FailedOnes(Addressed(init, n), rs') + tail by {
          SnocAddressed(init, e, n, rs', r);
          FailedOnesSnoc(Addressed(init, n), e, rs', r);
        }
        KeptAddressed(init, n, rs');
      } else {
        assert Addressed(Kept(q, n, rs), n) == Addressed(Kept(init, n, rs), n) by {
          SnocOther(init, e, n, rs);
          AddressedSnoc(Kept(init, n, rs), n, [e]);
          AddressedSingle(e, n);
        }
        assert Addressed(q, n) == Addressed(init, n) by {
          SnocOther(init, e, n, rs);
        }
        KeptAddressed(init, n, rs);
      }
    }
  }

  /** Recovery is idempotent: when no replay failed, the queue holds nothing
      more for `n`, so an immediate second recovery replays nothing. */
  lemma RecoveryIdempotent(q: seq<Entry>, n: string, rs: seq<QueryResult>)
    requires |rs| == |Addressed(q, n)|
    requires Successes(rs) == |rs|
    ensures Addressed(Kept(q, n, rs), n) == []
  {
    KeptAddressed(q, n, rs);
  }

  /** Recovery only removes entries: everything left was queued before. */
  lemma {:induction false} KeptSubset(q: seq<Entry>, n: string, rs: seq<QueryResult>)
    requires |rs| == |Addressed(q, n)|
    ensures forall e | e in Kept(q, n, rs) :: e in q
  {
    if q != [] {
      var e := q[|q| - 1];
      var init := q[..|q| - 1];
      assert q == init + [e];
      if e.nodeName == n {
        KeptSubset(init, n, rs[..|rs| - 1]);
      } else {
        KeptSubset(init, n, rs);
      }
    }
  }

  /** Recovering a node nothing is queued for leaves the queue as it was. */
  lemma {:induction false} KeptUntouched(q: seq<Entry>, n: string)
    requires Addressed(q, n) == []
    ensures Kept(q, n, []) == q
  {
    if q != [] {
      var init := q[..|q| - 1];
      AddressedEmpty(q, n);
      AddressedEmpty(init, n);
      assert q[|q| - 1] in q;
      KeptUntouched(init, n);
      assert q == init + [q[|q| - 1]];
    }
  }

  /** A queue holds nothing for `n` exactly when none of its entries names `n`. */
  lemma {:induction false} AddressedEmpty(q: seq<Entry>, n: string)
    ensures Addressed(q, n) == [] <==> forall e | e in q :: e.nodeName != n
  {
    if q != [] {
      AddressedEmpty(q[..|q| - 1], n);
      assert forall e | e in q :: e in q[..|q| - 1] || e == q[|q| - 1];
    }
  }

  lemma OthersSnoc(a: seq<Entry>, n: string, b: seq<Entry>)
    requires |b| <= 1
    ensures Others(a + b, n) == Others(a, n) + Others(b, n)
  {
    if b != [] {
      assert (a + b)[..|a + b| - 1] == a;
      assert b[..0] == [];
    } else {
      assert a + b == a;
    }
  }

  lemma AddressedSnoc(a: seq<Entry>, n: string, b: seq<Entry>)
    requires |b| <= 1
    ensures Addressed(a + b, n) == Addressed(a, n) + Addressed(b, n)
  {
    if b != [] {
      assert (a + b)[..|a + b| - 1] == a;
      assert b[..0] == [];
    } else {
      assert a + b == a;
    }
  }

  lemma AddressedSingle(e: Entry, n: string)
    ensures Addressed([e], n) == if e.nodeName == n then [e] else []
    ensures Others([e], n) == if e.nodeName == n then [] else [e]
  {
    assert [e][..0] == [];
  }

  lemma FailedOnesSnoc(es: seq<Entry>, e: Entry, rs: seq<QueryResult>, r: QueryResult)
    requires |es| == |rs|
    ensures FailedOnes(es + [e], rs + [r]) == FailedOnes(es, rs) + (if r.Success() then [] else [e])
  {
    assert (es + [e])[..|es|] == es;
    assert (rs + [r])[..|rs|] == rs;
  }

  /** One more queued entry, addressed to the recovered node, with answer `r`. */
  lemma SnocAddressed(q: seq<Entry>, e: Entry, n: string, rs: seq<QueryResult>, r: QueryResult)
    requires |rs| == |Addressed(q, n)| && e.nodeName == n
    ensures Addressed(q + [e], n) == Addressed(q, n) + [e]
    ensures Kept(q + [e], n, rs + [r]) == Kept(q, n, rs) + (if r.Success() then [] else [e])
    ensures Successes(rs + [r]) == Successes(rs) + (if r.Success() then 1 else 0)
    ensures ReplayCalls(n, Addressed(q + [e], n), rs + [r]) ==
      ReplayCalls(n, Addressed(q, n), rs) + [ReplayCall(e, r)]
    ensures RecoveryLogRequests(n, Addressed(q + [e], n), rs + [r]) ==
      RecoveryLogRequests(n, Addressed(q, n), rs) + (if r.Success() then [LogRequest(RecoveryRow(n, e))] else [])
  {
    assert (q + [e])[..|q|] == q;
    assert (rs + [r])[..|rs|] == rs;
    assert (Addressed(q, n) + [e])[..|Addressed(q, n)|] == Addressed(q, n);
  }

  /** One more queued entry, addressed to another node. */
  lemma SnocOther(q: seq<Entry>, e: Entry, n: string, rs: seq<QueryResult>)
    requires |rs| == |Addressed(q, n)| && e.nodeName != n
    ensures Addressed(q + [e], n) == Addressed(q, n)
    ensures Kept(q + [e], n, rs) == Kept(q, n, rs) + [e]
  {
    assert (q + [e])[..|q|] == q;
  }

  // ---------------------------------------------------------------------
  // The handler

  /** Counts returned by `recover_node` (the message text is not modelled). */
  datatype RecoveryReport = RecoveryReport(node: string, recovered: nat, failed: nat)

  class RecoveryHandler {
    const db: Database
    const logger: TransactionLogger
    /** `failed_transactions_queue`: head first. */
    var queue: seq<Entry>

    /** The handler logs through a logger writing to the same database. */
    ghost predicate Valid()
    {
      logger.db == db
    }

    constructor (db: Database, logger: TransactionLogger)
      requires logger.db == db
      ensures Valid() && this.db == db && this.logger == logger && queue == []
    {
      this.db := db;
      this.logger := logger;
      queue := [];
    }

    /** `queue_failed_replication`: one entry at the tail, the rest untouched. */
    method QueueFailedReplication(nodeName: string, operation: string, query: string, params: seq<Value>, tconst: Value)
      modifies this
      ensures queue == old(queue) + [Entry(nodeName, operation, query, params, tconst)]
    {
      queue := queue + [Entry(nodeName, operation, query, params, tconst)];
    }

    /** `recover_node(n)`. `replies` are the answers node `n` gave to the
        replays, in queue order: one per entry addressed to `n`. */
    method RecoverNode(n: string) returns (report: RecoveryReport, ghost replies: seq<QueryResult>)
      requires Valid()
      modifies this, db
      ensures Valid()
      ensures |replies| == |Addressed(old(queue), n)|
      ensures report == RecoveryReport(n, Successes(replies), |replies| - Successes(replies))
      ensures queue == Kept(old(queue), n, replies)
      ensures Writes(db.calls) == Writes(old(db.calls)) + ReplayCalls(n, Addressed(old(queue), n), replies)
      ensures AuditRequests(db.calls) ==
        AuditRequests(old(db.calls)) + RecoveryLogRequests(n, Addressed(old(queue), n), replies)
    {
      var temp, recovered, failed;
      temp, recovered, failed, replies := Drain(n);
      Refill(temp);
      report := RecoveryReport(n, recovered, failed);
    }

    /** The refill loop of `recover_node`: the held-back entries go back on
        the queue, in order, after whatever it holds. */
    method Refill(temp: seq<Entry>)
      modifies this
      ensures queue == old(queue) + temp
    {
      var rest := temp;
      while rest != []
        invariant queue + rest == old(queue) + temp
        decreases |rest|
      {
        assert rest == [rest[0]] + rest[1..];
        SeqAssoc(queue, [rest[0]], rest[1..]);
        queue := queue + [rest[0]];
        rest := rest[1..];
      }
    }

    /** The drain loop of `recover_node`: every entry leaves the queue in
        order; those addressed to `n` are replayed, and `temp` collects, in
        order, the other entries and the replays that failed. */
    method Drain(n: string) returns (temp: seq<Entry>, recovered: nat, failed: nat, ghost replies: seq<QueryResult>)
      requires Valid()
      modifies this, db
      ensures queue == []
      ensures |replies| == |Addressed(old(queue), n)| && temp == Kept(old(queue), n, replies)
      ensures recovered == Successes(replies) && failed == |replies| - recovered
      ensures Writes(db.calls) == Writes(old(db.calls)) + ReplayCalls(n, Addressed(old(queue), n), replies)
      ensures AuditRequests(db.calls) ==
        AuditRequests(old(db.calls)) + RecoveryLogRequests(n, Addressed(old(queue), n), replies)
    {
      ghost var q0 := queue;
      ghost var w0 := Writes(db.calls);
      ghost var a0 := AuditRequests(db.calls);
      recovered, failed := 0, 0;
      temp := [];
      replies := [];
      ghost var done: seq<Entry> := [];
      while queue != []
        invariant q0 == done + queue
        invariant |replies| == |Addressed(done, n)|
        invariant temp == Kept(done, n, replies)
        invariant recovered == Successes(replies) && failed == |replies| - recovered
        invariant Writes(db.calls) == w0 + ReplayCalls(n, Addressed(done, n), replies)
        invariant AuditRequests(db.calls) == a0 + RecoveryLogRequests(n, Addressed(done, n), replies)
        decreases |queue|
      {
        var transaction := queue[0];
        assert queue == [transaction] + queue[1..];
        SeqAssoc(done, [transaction], queue[1..]);
        queue := queue[1..];
        temp, recovered, failed, replies :=
          RecoverEntry(n, transaction, done, temp, recovered, failed, replies, w0, a0);
        done := done + [transaction];
      }
      assert done == q0;
    }

    /** One turn of `recover_node`'s drain loop, for the entry `transaction`
        taken after the entries `done`: an entry addressed to `n` is replayed
        and, if the replay fails, kept; any other entry is kept untouched. */
    method RecoverEntry(n: string, transaction: Entry, ghost done: seq<Entry>, temp: seq<Entry>,
                        recovered: nat, failed: nat, ghost replies: seq<QueryResult>,
                        ghost w0: seq<Call>, ghost a0: seq<Request>)
      returns (temp': seq<Entry>, recovered': nat, failed': nat, ghost replies': seq<QueryResult>)
      requires Valid()
      requires |replies| == |Addressed(done, n)| && temp == Kept(done, n, replies)
      requires recovered == Successes(replies) && failed == |replies| - recovered
      requires Writes(db.calls) == w0 + ReplayCalls(n, Addressed(done, n), replies)
      requires AuditRequests(db.calls) == a0 + RecoveryLogRequests(n, Addressed(done, n), replies)
      modifies db
      ensures |replies'| == |Addressed(done + [transaction], n)|
      ensures temp' == Kept(done + [transaction], n, replies')
      ensures recovered' == Successes(replies') && failed' == |replies'| - recovered'
      ensures Writes(db.calls) == w0 + ReplayCalls(n, Addressed(done + [transaction], n), replies')
      ensures AuditRequests(db.calls) == a0 + RecoveryLogRequests(n, Addressed(done + [transaction], n), replies')
    {
      if transaction.nodeName == n {
        var result := Replay(transaction);
        SnocAddressed(done, transaction, n, replies, result);
        replies' := replies + [result];
        if result.Success() {
          recovered', failed', temp' := recovered + 1, failed, temp;
        } else {
          recovered', failed', temp' := recovered, failed + 1, temp + [transaction];
        }
        SeqAssoc(w0, ReplayCalls(n, Addressed(done, n), replies), [ReplayCall(transaction, result)]);
        SeqAssoc(a0, RecoveryLogRequests(n, Addressed(done, n), replies),
                 if result.Success() then [LogRequest(RecoveryRow(n, transaction))] else []);
      } else {
        SnocOther(done, transaction, n, replies);
        temp', recovered', failed', replies' := temp + [transaction], recovered, failed, replies;
      }
    }

    /** One replay of `recover_node`: the entry's statement sent to its node
        and, when the node accepts it, one audit row `RECOVERY_<operation>`
        with status SUCCESS. A refused replay writes no audit row. */
    method Replay(transaction: Entry) returns (result: QueryResult)
      requires Valid()
      modifies db
      ensures Writes(db.calls) == Writes(old(db.calls)) + [ReplayCall(transaction, result)]
      ensures AuditRequests(db.calls) == AuditRequests(old(db.calls))
        + (if result.Success() then [LogRequest(RecoveryRow(transaction.nodeName, transaction))] else [])
    {
      result := db.ExecuteQuery(transaction.nodeName, transaction.query, transaction.params, DEFAULT_ISOLATION, false);
      if result.Success() {
        var _ := logger.LogTransaction(transaction.nodeName, "RECOVERY_" + transaction.operation, transaction.tconst, "SUCCESS");
      }
    }

    /** `get_pending_count`: the queue's length. */
    method GetPendingCount() returns (count: nat)
      ensures count == |queue|
    {
      count := |queue|;
    }
  }

  /** Two recoveries of the same node in a row: when the first one left no
      failure behind, the second recovers nothing and fails nothing, and the
      queue is the same after both. */
  method RecoverTwice(h: RecoveryHandler, n: string) returns (first: RecoveryReport, second: RecoveryReport)
    requires h.Valid()
    modifies h, h.db
    ensures first.failed == 0 ==> second.recovered == 0 && second.failed == 0
    ensures |h.queue| == |old(h.queue)| - first.recovered - second.recovered
  {
    ghost var q0 := h.queue;
    ghost var rs1, rs2;
    first, rs1 := h.RecoverNode(n);
    KeptLength(q0, n, rs1);
    if first.failed == 0 {
      RecoveryIdempotent(q0, n, rs1);
    }
    ghost var q1 := h.queue;
    second, rs2 := h.RecoverNode(n);
    KeptLength(q1, n, rs2);
  }
}
