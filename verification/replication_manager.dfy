/**
 * The central-first write protocol (src/backend/replication/replication_manager.py),
 * the one the Flask application uses. A write goes to node1 first; only if
 * node1 accepts it is it sent to the title's fragment (node2 for movies,
 * node3 otherwise). A refused fragment write is logged FAILED and queued for
 * recovery; the caller's `success` is node1's answer.
 *
 * The source calls `self.log_transaction` and `self._queue_failed_replication`,
 * which this class does not define. The model takes them to be
 * `TransactionLogger.log_transaction` and
 * `RecoveryHandler.queue_failed_replication`, whose parameter lists match the
 * calls exactly; what the code does as written is modelled by
 * `InsertTitleAsWritten`.
 */
module Replication {
  import opened Wrappers
  import opened Environment
  import opened Titles
  import opened TransactionLog
  import opened Recovery

  /** What `insert_title`, `update_title` and `delete_title` return: the
      per-node answers (`results`), or `{'success': False, 'error': 'Title not found'}`. */
  datatype WriteResult =
    | Written(success: bool, replicatedToFragment: bool, results: map<string, QueryResult>)
    | TitleNotFound

  /** The exception Python raises for a missing method. */
  datatype PyError = AttributeError(attribute: string)

  /** The effect of one central-first write of `query`/`params` for the
      title `tconst` whose fragment is `target`, from data writes `w0`, audit
      inserts `a0` and queue `q0` to `w1`, `a1`, `q1`:
      - node1 is written first, and the fragment only if node1 succeeded;
      - each write is logged with its own status, node1's first;
      - a refused fragment write queues exactly one entry carrying the same
        target, statement, parameters and key;
      - `success` is node1's answer, and `replicatedToFragment` holds exactly
        when the fragment was written and accepted it. */
  ghost predicate CentralFirst(op: string, target: string, query: string, params: seq<Value>, isolation: string,
                               tconst: Value, r: WriteResult,
                               w0: seq<Call>, w1: seq<Call>, a0: seq<Request>, a1: seq<Request>,
                               q0: seq<Entry>, q1: seq<Entry>)
  {
    && r.Written?
    && NODE1 in r.results
    && var central := r.results[NODE1];
    && var centralCall := Call(Request(NODE1, query, params, isolation), central, false);
    && r.success == central.Success()
    && if !central.Success() then
         && r.results.Keys == {NODE1}
         && !r.replicatedToFragment
         && w1 == w0 + [centralCall]
         && a1 == a0 + [LogRequest(LogRow(NODE1, op, "titles", tconst, "FAILED", ErrorOf(central)))]
         && q1 == q0
       else
         && target in r.results
         && r.results.Keys == {NODE1, target}
         && var fragment := r.results[target];
         && r.replicatedToFragment == fragment.Success()
         && w1 == w0 + [centralCall, Call(Request(target, query, params, isolation), fragment, false)]
         && a1 == a0 + [LogRequest(LogRow(NODE1, op, "titles", tconst, "SUCCESS", Null)),
                        LogRequest(LogRow(target, op, "titles", tconst, StatusOf(fragment), ErrorOf(fragment)))]
         && q1 == q0 + (if fragment.Success() then [] else [Entry(target, op, query, params, tconst)])
  }

  /** The outcome when node1 refuses the write. */
  lemma CentralRefused(op: string, target: string, query: string, params: seq<Value>, isolation: string,
                       tconst: Value, central: QueryResult,
                       w0: seq<Call>, w1: seq<Call>, a0: seq<Request>, a1: seq<Request>, q0: seq<Entry>)
    requires !central.Success()
    requires w1 == w0 + [Call(Request(NODE1, query, params, isolation), central, false)]
    requires a1 == a0 + [LogRequest(LogRow(NODE1, op, "titles", tconst, "FAILED", ErrorOf(central)))]
    ensures CentralFirst(op, target, query, params, isolation, tconst, Written(false, false, map[NODE1 := central]),
                         w0, w1, a0, a1, q0, q0)
  {
    assert map[NODE1 := central].Keys == {NODE1};
  }

  /** The outcome when node1 accepts the write and the fragment answers `fragment`. */
  lemma CentralAccepted(op: string, target: string, query: string, params: seq<Value>, isolation: string,
                        tconst: Value, central: QueryResult, fragment: QueryResult,
                        w0: seq<Call>, w1: seq<Call>, a0: seq<Request>, a1: seq<Request>, q0: seq<Entry>, q1: seq<Entry>)
    requires central.Success() && target != NODE1
    requires w1 == w0 + [Call(Request(NODE1, query, params, isolation), central, false)]
                         + [Call(Request(target, query, params, isolation), fragment, false)]
    requires a1 == a0 + [LogRequest(LogRow(NODE1, op, "titles", tconst, "SUCCESS", Null))]
                         + [LogRequest(LogRow(target, op, "titles", tconst, StatusOf(fragment), ErrorOf(fragment)))]
    requires q1 == q0 + (if fragment.Success() then [] else [Entry(target, op, query, params, tconst)])
    ensures CentralFirst(op, target, query, params, isolation, tconst,
                         Written(true, fragment.Success(), map[NODE1 := central, target := fragment]),
                         w0, w1, a0, a1, q0, q1)
  {
    assert map[NODE1 := central, target := fragment].Keys == {NODE1, target};
    SeqAssoc(w0, [Call(Request(NODE1, query, params, isolation), central, false)],
             [Call(Request(target, query, params, isolation), fragment, false)]);
    SeqAssoc(a0, [LogRequest(LogRow(NODE1, op, "titles", tconst, "SUCCESS", Null))],
             [LogRequest(LogRow(target, op, "titles", tconst, StatusOf(fragment), ErrorOf(fragment)))]);
  }

  class ReplicationManager {
    const db: Database
    const logger: TransactionLogger
    const recovery: RecoveryHandler

    /** The logger and the recovery handler share the manager's database,
        and the protocol never queues anything for node1. */
    ghost predicate Valid()
      reads recovery
    {
      && logger.db == db
      && recovery.db == db
      && recovery.logger == logger
      && forall e | e in recovery.queue :: e.nodeName != NODE1
    }

    constructor (db: Database)
      ensures Valid() && this.db == db && recovery.queue == []
      ensures fresh(logger) && fresh(recovery)
    {
      var lg := new TransactionLogger(db);
      var rh := new RecoveryHandler(db, lg);
      this.db := db;
      logger := lg;
      recovery := rh;
    }

    /** The central-first steps shared by insert, update and delete. */
    method Replicate(op: string, target: string, query: string, params: seq<Value>, isolation: string, tconst: Value)
      returns (r: WriteResult)
      requires Valid() && target != NODE1
      modifies db, recovery
      ensures Valid()
      ensures CentralFirst(op, target, query, params, isolation, tconst, r,
                           old(Writes(db.calls)), Writes(db.calls),
                           old(AuditRequests(db.calls)), AuditRequests(db.calls),
                           old(recovery.queue), recovery.queue)
    {
      ghost var w0, a0, q0 := Writes(db.calls), AuditRequests(db.calls), recovery.queue;
      var central := db.ExecuteQuery(NODE1, query, params, isolation, false);
      if central.Success() {
        var fragment := ReplicateToFragment(op, target, query, params, isolation, tconst);
        CentralAccepted(op, target, query, params, isolation, tconst, central, fragment,
                        w0, Writes(db.calls), a0, AuditRequests(db.calls), q0, recovery.queue);
        r := Written(true, fragment.Success(), map[NODE1 := central, target := fragment]);
      } else {
        var _ := logger.LogTransaction(NODE1, op, tconst, "FAILED", ErrorOf(central));
        CentralRefused(op, target, query, params, isolation, tconst, central,
                       w0, Writes(db.calls), a0, AuditRequests(db.calls), q0);
        r := Written(false, false, map[NODE1 := central]);
      }
    }

    /** The second half of a central-first write, once node1 has accepted it:
        node1's success is logged, the fragment is written and its outcome
        logged, and a refusal queued. */
    method ReplicateToFragment(op: string, target: string, query: string, params: seq<Value>, isolation: string,
                               tconst: Value)
      returns (fragment: QueryResult)
      requires Valid() && target != NODE1
      modifies db, recovery
      ensures Valid()
      ensures Writes(db.calls) == old(Writes(db.calls)) + [Call(Request(target, query, params, isolation), fragment, false)]
      ensures AuditRequests(db.calls) ==
        old(AuditRequests(db.calls)) + [LogRequest(LogRow(NODE1, op, "titles", tconst, "SUCCESS", Null))]
          + [LogRequest(LogRow(target, op, "titles", tconst, StatusOf(fragment), ErrorOf(fragment)))]
      ensures recovery.queue == old(recovery.queue) + (if fragment.Success() then [] else [Entry(target, op, query, params, tconst)])
    {
      ghost var a1 := AuditRequests(db.calls) + [LogRequest(LogRow(NODE1, op, "titles", tconst, "SUCCESS", Null))];
      var _ := logger.LogTransaction(NODE1, op, tconst, "SUCCESS", Null);
      assert AuditRequests(db.calls) == a1;
      fragment := db.ExecuteQuery(target, query, params, isolation, false);
      assert AuditRequests(db.calls) == a1;
      ghost var w2 := Writes(db.calls);
      var _ := logger.LogTransaction(target, op, tconst, StatusOf(fragment), ErrorOf(fragment));
      assert Writes(db.calls) == w2;
      if !fragment.Success() {
        recovery.QueueFailedReplication(target, op, query, params, tconst);
      }
    }

    /** `insert_title(data)`: the six columns from the payload, routed by the
        payload's own `title_type`. */
    method InsertTitle(data: Payload) returns (r: WriteResult)
      requires Valid()
      modifies db, recovery
      ensures Valid()
      ensures CentralFirst("INSERT", TargetNode(Get(data, "title_type")), INSERT_SQL, InsertParams(data),
                           DEFAULT_ISOLATION, Get(data, "tconst"), r,
                           old(Writes(db.calls)), Writes(db.calls),
                           old(AuditRequests(db.calls)), AuditRequests(db.calls),
                           old(recovery.queue), recovery.queue)
    {
      var tconst := Get(data, "tconst");
      var titleType := Get(data, "title_type");
      var target := TargetNode(titleType);
      r := Replicate("INSERT", target, INSERT_SQL, InsertParams(data), DEFAULT_ISOLATION, tconst);
    }

    /** `update_title(tconst, data, isolation_level)`: routed by the stored
        row's title type; a failed lookup ends the call with nothing written,
        logged or queued. */
    method UpdateTitle(tconst: string, data: Payload, isolation: string := "READ COMMITTED")
      returns (r: WriteResult, ghost lookup: Lookup)
      requires Valid()
      modifies db, recovery
      ensures Valid()
      ensures lookup.LookupError? ==>
        && r == TitleNotFound
        && db.calls == old(db.calls)
        && recovery.queue == old(recovery.queue)
      ensures lookup.Found? ==>
        CentralFirst("UPDATE", TargetNode(lookup.titleType),
                     UpdateSql(SetList(Assignments(data))), ValuesOf(Assignments(data)) + [Str(tconst)],
                     isolation, Str(tconst), r,
                     old(Writes(db.calls)), Writes(db.calls),
                     old(AuditRequests(db.calls)), AuditRequests(db.calls),
                     old(recovery.queue), recovery.queue)
    {
      var title := db.GetTitleById(tconst);
      lookup := title;
      if title.LookupError? {
        return TitleNotFound, lookup;
      }
      var target := TargetNode(title.titleType);
      var setClauses, params := BuildUpdate(data, tconst);
      var query := UpdateSql(setClauses);
      r := Replicate("UPDATE", target, query, params, isolation, Str(tconst));
    }

    /** `delete_title(tconst)`: the key is the only parameter, on both nodes. */
    method DeleteTitle(tconst: string) returns (r: WriteResult, ghost lookup: Lookup)
      requires Valid()
      modifies db, recovery
      ensures Valid()
      ensures lookup.LookupError? ==>
        && r == TitleNotFound
        && db.calls == old(db.calls)
        && recovery.queue == old(recovery.queue)
      ensures lookup.Found? ==>
        CentralFirst("DELETE", TargetNode(lookup.titleType), DELETE_SQL, [Str(tconst)],
                     DEFAULT_ISOLATION, Str(tconst), r,
                     old(Writes(db.calls)), Writes(db.calls),
                     old(AuditRequests(db.calls)), AuditRequests(db.calls),
                     old(recovery.queue), recovery.queue)
    {
      var title := db.GetTitleById(tconst);
      lookup := title;
      if title.LookupError? {
        return TitleNotFound, lookup;
      }
      var target := TargetNode(title.titleType);
      r := Replicate("DELETE", target, DELETE_SQL, [Str(tconst)], DEFAULT_ISOLATION, Str(tconst));
    }

    /** `recover_node(node_name)`, delegated to the recovery handler. Since
        the protocol queues only fragment writes, recovering node1 never
        replays anything. */
    method RecoverNode(n: string) returns (report: RecoveryReport, ghost replies: seq<QueryResult>)
      requires Valid()
      modifies db, recovery
      ensures Valid()
      ensures |replies| == |Addressed(old(recovery.queue), n)|
      ensures report == RecoveryReport(n, Successes(replies), |replies| - Successes(replies))
      ensures recovery.queue == Kept(old(recovery.queue), n, replies)
      ensures Writes(db.calls) == Writes(old(db.calls)) + ReplayCalls(n, Addressed(old(recovery.queue), n), replies)
      ensures AuditRequests(db.calls) ==
        AuditRequests(old(db.calls)) + RecoveryLogRequests(n, Addressed(old(recovery.queue), n), replies)
      ensures n == NODE1 ==> report.recovered == 0 && report.failed == 0 && recovery.queue == old(recovery.queue)
    {
      ghost var q0 := recovery.queue;
      report, replies := recovery.RecoverNode(n);
      KeptSubset(q0, n, replies);
      if n == NODE1 {
        AddressedEmpty(q0, NODE1);
        assert replies == [];
        KeptUntouched(q0, NODE1);
      }
    }

    /** `get_pending_replications`: the number of queued entries. */
    method GetPendingReplications() returns (pendingCount: nat)
      requires Valid()
      ensures pendingCount == |recovery.queue|
    {
      pendingCount := recovery.GetPendingCount();
    }

    /** `insert_title` as the code stands: node1 is written, then the call to
        the undefined `self.log_transaction` raises, whatever node1 answered.
        The fragment is never written and nothing is logged or queued. */
    method InsertTitleAsWritten(data: Payload) returns (raised: PyError)
      requires Valid()
      modifies db
      ensures raised == AttributeError("log_transaction")
      ensures |Writes(db.calls)| == |old(Writes(db.calls))| + 1
      ensures Writes(db.calls)[..|old(Writes(db.calls))|] == old(Writes(db.calls))
      ensures Writes(db.calls)[|old(Writes(db.calls))|].request == Request(NODE1, INSERT_SQL, InsertParams(data), DEFAULT_ISOLATION)
      ensures AuditRequests(db.calls) == old(AuditRequests(db.calls))
    {
      var central := db.ExecuteQuery(NODE1, INSERT_SQL, InsertParams(data), DEFAULT_ISOLATION, false);
      raised := AttributeError("log_transaction");
    }
  }
}
