/**
 * The storage nodes as the replication code sees them, through the database
 * manager (src/backend/db_manager.py). Nothing of SQL is modelled: a statement
 * sent to a node is recorded in a ghost call history, and the node's answer is
 * chosen by the environment (an arbitrary success or failure per call).
 */
module Environment {

  /** The three MySQL nodes: node1 is the central full replica, node2 holds
      movies and node3 holds every other title type. */
  const NODE1: string := "node1"
  const NODE2: string := "node2"
  const NODE3: string := "node3"

  /** The isolation level `execute_query` uses when its caller passes none. */
  const DEFAULT_ISOLATION: string := "READ-COMMITTED"

  /** A statement parameter or a JSON payload value (JSON floats, lists and
      objects are not modelled). `Null` is Python's `None` / SQL NULL. */
  datatype Value = Null | Str(s: string) | Int(i: int)

  /** What `execute_query` returns: `{success: True, rows_affected}` or
      `{success: False, error}`. */
  datatype QueryResult = Executed(rowsAffected: nat) | Failed(error: string)
  {
    predicate Success() { Executed? }
  }

  /** `result.get('error')`: the error text of a failed call, `None` otherwise. */
  function ErrorOf(r: QueryResult): (v: Value)
    ensures v == Null <==> r.Success()
  {
    if r.Failed? then Str(r.error) else Null
  }

  /** What a caller sends to `execute_query`. */
  datatype Request = Request(node: string, query: string, params: seq<Value>, isolation: string)

  /** One call of `execute_query` with its answer. `audit` marks the inserts
      into the transaction log; it is bookkeeping of the model only. */
  datatype Call = Call(request: Request, result: QueryResult, audit: bool)

  /** The answer `get_title_by_id` gives: the stored row's title type, or an
      error (node1 unreachable, or no row with that key). */
  datatype Lookup = Found(titleType: Value) | LookupError(message: string)

  /** The data statements of a call history, in order (audit inserts left out). */
  function Writes(calls: seq<Call>): (w: seq<Call>)
    ensures |w| <= |calls|
  {
    if calls == [] then []
    else
      var last := calls[|calls| - 1];
      Writes(calls[..|calls| - 1]) + (if last.audit then [] else [last])
  }

  /** The transaction-log inserts of a call history, in order, as requested
      (whether or not node1 accepted them). */
  function AuditRequests(calls: seq<Call>): (a: seq<Request>)
    ensures |a| <= |calls|
  {
    if calls == [] then []
    else
      var last := calls[|calls| - 1];
      AuditRequests(calls[..|calls| - 1]) + (if last.audit then [last.request] else [])
  }

  /** A data write and an audit insert are never both counted: together the
      two views account for every call exactly once. */
  lemma {:induction false} ViewsPartition(calls: seq<Call>)
    ensures |Writes(calls)| + |AuditRequests(calls)| == |calls|
  {
    if calls != [] {
      ViewsPartition(calls[..|calls| - 1]);
    }
  }

  /** The database manager, reduced to the two calls the replication code makes. */
  class Database {
    /** Every `execute_query` call made so far, with its answer. */
    ghost var calls: seq<Call>

    constructor ()
      ensures calls == []
    {
      calls := [];
    }

    /** `execute_query(node_name, query, params, isolation_level)`: the node
        either executes and commits the statement or reports an error; which
        one is up to the environment. */
    method ExecuteQuery(node: string, query: string, params: seq<Value>, isolation: string, ghost audit: bool)
      returns (r: QueryResult)
      modifies this
      ensures calls == old(calls) + [Call(Request(node, query, params, isolation), r, audit)]
      ensures Writes(calls) == Writes(old(calls)) + (if audit then [] else [Call(Request(node, query, params, isolation), r, false)])
      ensures AuditRequests(calls) == AuditRequests(old(calls)) + (if audit then [Request(node, query, params, isolation)] else [])
    {
      r := *;
      calls := calls + [Call(Request(node, query, params, isolation), r, audit)];
      assert calls[..|calls| - 1] == old(calls);
    }

    /** `get_title_by_id(tconst)`: a read of node1 only. */
    method GetTitleById(tconst: string) returns (r: Lookup)
      ensures calls == old(calls)
    {
      r := *;
    }
  }
}
