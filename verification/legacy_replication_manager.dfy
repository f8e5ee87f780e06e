/**
 * The earlier write-both protocol (src/backend/replication_manager.py). Every
 * write goes to node1 and then to the title's fragment, whatever node1
 * answered; each write is followed by its own audit row in node1's
 * `transaction_log`, and the caller's `success` is the conjunction of the two
 * answers. Nothing is queued for recovery.
 */
module LegacyReplication {
  import opened Wrappers
  import opened Environment
  import opened Titles
  import opened TransactionLog

  /** This manager's own log statement, with the older five-column layout. */
  const LEGACY_LOG_SQL: string :=
    "INSERT INTO transaction_log (node_id, operation, tconst, status, error_message) VALUES (%s, %s, %s, %s, %s)"

  /** The request `log_transaction(node_id, operation, tconst, status, error_message)` sends. */
  function LegacyLogRequest(nodeId: string, operation: string, tconst: Value, status: string, errorMessage: Value): (r: Request)
    ensures r.node == NODE1 && r.query == LEGACY_LOG_SQL
    ensures r.params == [Str(nodeId), Str(operation), tconst, Str(status), errorMessage]
  {
    Request(NODE1, LEGACY_LOG_SQL, [Str(nodeId), Str(operation), tconst, Str(status), errorMessage], DEFAULT_ISOLATION)
  }

  /** What the write methods return: both answers, or `Title not found`. */
  datatype Outcome =
    | Done(success: bool, results: map<string, QueryResult>)
    | NotFound

  /** The effect of one write-both call for the title `tconst` whose fragment
      is `target`: node1 and then the fragment are written with the same
      statement, each answer is logged in that order with its own status and
      error, and `success` holds exactly when both writes succeeded. */
  ghost predicate WriteBoth(op: string, target: string, query: string, params: seq<Value>, isolation: string,
                            tconst: Value, r: Outcome,
                            w0: seq<Call>, w1: seq<Call>, a0: seq<Request>, a1: seq<Request>)
  {
    && r.Done?
    && NODE1 in r.results && target in r.results
    && r.results.Keys == {NODE1, target}
    && var central := r.results[NODE1];
    && var fragment := r.results[target];
    && r.success == (central.Success() && fragment.Success())
    && w1 == w0 + [Call(Request(NODE1, query, params, isolation), central, false),
                   Call(Request(target, query, params, isolation), fragment, false)]
    && a1 == a0 + [LegacyLogRequest(NODE1, op, tconst, StatusOf(central), ErrorOf(central)),
                   LegacyLogRequest(target, op, tconst, StatusOf(fragment), ErrorOf(fragment))]
  }

  /** Collects the answers of one write-both call into its outcome. */
  lemma WriteBothIntro(op: string, target: string, query: string, params: seq<Value>, isolation: string,
                       tconst: Value, central: QueryResult, fragment: QueryResult,
                       w0: seq<Call>, w1: seq<Call>, a0: seq<Request>, a1: seq<Request>)
    requires target != NODE1
    requires w1 == w0 + [Call(Request(NODE1, query, params, isolation), central, false),
                         Call(Request(target, query, params, isolation), fragment, false)]
    requires a1 == a0 + [LegacyLogRequest(NODE1, op, tconst, StatusOf(central), ErrorOf(central)),
                         LegacyLogRequest(target, op, tconst, StatusOf(fragment), ErrorOf(fragment))]
    ensures WriteBoth(op, target, query, params, isolation, tconst,
                      Done(central.Success() && fragment.Success(), map[NODE1 := central, target := fragment]),
                      w0, w1, a0, a1)
  {
    assert map[NODE1 := central, target := fragment].Keys == {NODE1, target};
  }

  class LegacyReplicationManager {
    const db: Database

    constructor (db: Database)
      ensures this.db == db
    {
      this.db := db;
    }

    /** `log_transaction`: one audit insert, always sent to node1; its answer
        is ignored. */
    method LogTransaction(nodeId: string, operation: string, tconst: Value, status: string, errorMessage: Value := Null)
      modifies db
      ensures Writes(db.calls) == Writes(old(db.calls))
      ensures AuditRequests(db.calls) == AuditRequests(old(db.calls)) + [LegacyLogRequest(nodeId, operation, tconst, status, errorMessage)]
    {
      var _ := db.ExecuteQuery(NODE1, LEGACY_LOG_SQL, [Str(nodeId), Str(operation), tconst, Str(status), errorMessage],
                               DEFAULT_ISOLATION, true);
    }

    /** The write-both steps shared by insert, update and delete. */
    method Replicate(op: string, target: string, query: string, params: seq<Value>, isolation: string, tconst: Value)
      returns (r: Outcome)
      requires target != NODE1
      modifies db
      ensures WriteBoth(op, target, query, params, isolation, tconst, r,
                        old(Writes(db.calls)), Writes(db.calls), old(AuditRequests(db.calls)), AuditRequests(db.calls))
    {
      ghost var w0, a0 := Writes(db.calls), AuditRequests(db.calls);
      var central := db.ExecuteQuery(NODE1, query, params, isolation, false);
      LogTransaction(NODE1, op, tconst, StatusOf(central), ErrorOf(central));
      var fragment := db.ExecuteQuery(target, query, params, isolation, false);
      LogTransaction(target, op, tconst, StatusOf(fragment), ErrorOf(fragment));
      SeqAssoc(w0, [Call(Request(NODE1, query, params, isolation), central, false)],
               [Call(Request(target, query, params, isolation), fragment, false)]);
      SeqAssoc(a0, [LegacyLogRequest(NODE1, op, tconst, StatusOf(central), ErrorOf(central))],
               [LegacyLogRequest(target, op, tconst, StatusOf(fragment), ErrorOf(fragment))]);
      WriteBothIntro(op, target, query, params, isolation, tconst, central, fragment,
                     w0, Writes(db.calls), a0, AuditRequests(db.calls));
      r := Done(central.Success() && fragment.Success(), map[NODE1 := central, target := fragment]);
    }

    /** `insert_title(data)`: routed by the payload's own `title_type`. */
    method InsertTitle(data: Payload) returns (r: Outcome)
      modifies db
      ensures WriteBoth("INSERT", TargetNode(Get(data, "title_type")), INSERT_SQL, InsertParams(data),
                        DEFAULT_ISOLATION, Get(data, "tconst"), r,
                        old(Writes(db.calls)), Writes(db.calls), old(AuditRequests(db.calls)), AuditRequests(db.calls))
    {
      var tconst := Get(data, "tconst");
      var titleType := Get(data, "title_type");
      var target := TargetNode(titleType);
      r := Replicate("INSERT", target, INSERT_SQL, InsertParams(data), DEFAULT_ISOLATION, tconst);
    }

    /** `update_title(tconst, data, isolation_level='READ-COMMITTED')`: routed
        by the stored row; a failed lookup writes and logs nothing. */
    method UpdateTitle(tconst: string, data: Payload, isolation: string := DEFAULT_ISOLATION)
      returns (r: Outcome, ghost lookup: Lookup)
      modifies db
      ensures lookup.LookupError? ==> r == NotFound && db.calls == old(db.calls)
      ensures lookup.Found? ==>
        WriteBoth("UPDATE", TargetNode(lookup.titleType),
                  UpdateSql(SetList(Assignments(data))), ValuesOf(Assignments(data)) + [Str(tconst)],
                  isolation, Str(tconst), r,
                  old(Writes(db.calls)), Writes(db.calls), old(AuditRequests(db.calls)), AuditRequests(db.calls))
    {
      var title := db.GetTitleById(tconst);
      lookup := title;
      if title.LookupError? {
        return NotFound, lookup;
      }
      var target := TargetNode(title.titleType);
      var setClauses, params := BuildUpdate(data, tconst);
      var query := UpdateSql(setClauses);
      r := Replicate("UPDATE", target, query, params, isolation, Str(tconst));
    }

    /** `delete_title(tconst)`: the key is the only parameter, on both nodes. */
    method DeleteTitle(tconst: string) returns (r: Outcome, ghost lookup: Lookup)
      modifies db
      ensures lookup.LookupError? ==> r == NotFound && db.calls == old(db.calls)
      ensures lookup.Found? ==>
        WriteBoth("DELETE", TargetNode(lookup.titleType), DELETE_SQL, [Str(tconst)],
                  DEFAULT_ISOLATION, Str(tconst), r,
                  old(Writes(db.calls)), Writes(db.calls), old(AuditRequests(db.calls)), AuditRequests(db.calls))
    {
      var title := db.GetTitleById(tconst);
      lookup := title;
      if title.LookupError? {
        return NotFound, lookup;
      }
      var target := TargetNode(title.titleType);
      r := Replicate("DELETE", target, DELETE_SQL, [Str(tconst)], DEFAULT_ISOLATION, Str(tconst));
    }
  }
}
