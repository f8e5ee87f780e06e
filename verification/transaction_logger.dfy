/**
 * The transaction audit logger (src/backend/replication/transaction_logger.py):
 * one row per call, always inserted into node1's `transaction_log` table; a
 * failed insert is reported and swallowed.
 */
module TransactionLog {
  import opened Wrappers
  import opened Environment

  const LOG_SQL: string :=
    "INSERT INTO transaction_log (transaction_id, node_id, operation_type, table_name, record_id, status, error_message) VALUES (UUID(), %s, %s, %s, %s, %s, %s)"

  /** One audit row; `transaction_id` (a server-side UUID) and the timestamp
      are filled in by MySQL and are not modelled. */
  datatype LogRow = LogRow(nodeId: string, operationType: string, tableName: string,
                           recordId: Value, status: string, errorMessage: Value)

  /** The statement parameters of a row, in the placeholder order of LOG_SQL. */
  function LogParams(row: LogRow): (p: seq<Value>)
    ensures |p| == 6
  {
    [Str(row.nodeId), Str(row.operationType), Str(row.tableName), row.recordId, Str(row.status), row.errorMessage]
  }

  /** Reads a row back from statement parameters: the column each placeholder fills. */
  function LogRowOf(p: seq<Value>): (row: Option<LogRow>)
    ensures row.Some? ==> |p| == 6 && row.value.recordId == p[3] && row.value.errorMessage == p[5]
  {
    if |p| == 6 && p[0].Str? && p[1].Str? && p[2].Str? && p[4].Str? then
      Some(LogRow(p[0].s, p[1].s, p[2].s, p[3], p[4].s, p[5]))
    else None
  }

  /** The parameters carry exactly the row: reading them back gives it again,
      so node_id, operation_type, table_name, record_id, status and
      error_message each land in their own column. */
  lemma LogParamsRoundTrip(row: LogRow)
    ensures LogRowOf(LogParams(row)) == Some(row)
  {
  }

  /** The status the write protocols log for a node's answer. */
  function StatusOf(r: QueryResult): (status: string)
    ensures status == "SUCCESS" <==> r.Success()
  {
    if r.Success() then "SUCCESS" else "FAILED"
  }

  /** The request `log_transaction` sends for a row: always to node1. */
  function LogRequest(row: LogRow): (r: Request)
    ensures r.node == NODE1 && r.query == LOG_SQL && LogRowOf(r.params) == Some(row)
  {
    LogParamsRoundTrip(row);
    Request(NODE1, LOG_SQL, LogParams(row), DEFAULT_ISOLATION)
  }

  /** The rows of node1's `transaction_log` table written through this logger:
      the audit inserts node1 accepted, in order. */
  function LoggedRows(calls: seq<Call>): (rows: seq<LogRow>)
    ensures |rows| <= |AuditRequests(calls)|
  {
    if calls == [] then []
    else
      var c := calls[|calls| - 1];
      var row := LogRowOf(c.request.params);
      LoggedRows(calls[..|calls| - 1])
        + (if c.audit && c.request.node == NODE1 && c.request.query == LOG_SQL && c.result.Success() && row.Some?
           then [row.value] else [])
  }

  class TransactionLogger {
    const db: Database

    constructor (db: Database)
      ensures this.db == db
    {
      this.db := db;
    }

    /** `log_transaction(node_id, operation_type, record_id, status='SUCCESS',
        error_msg=None, table_name='titles')`. Whatever `nodeId` names, the row
        goes to node1; it is appended to the table exactly when node1 accepts
        the insert (`stored`), and a refusal is not passed on to the caller. */
    method LogTransaction(nodeId: string, operationType: string, recordId: Value,
                          status: string := "SUCCESS", errorMsg: Value := Null, tableName: string := "titles")
      returns (ghost stored: bool)
      modifies db
      ensures Writes(db.calls) == Writes(old(db.calls))
      ensures AuditRequests(db.calls) ==
        AuditRequests(old(db.calls)) + [LogRequest(LogRow(nodeId, operationType, tableName, recordId, status, errorMsg))]
      ensures |db.calls| == |old(db.calls)| + 1 && db.calls[..|old(db.calls)|] == old(db.calls)
      ensures db.calls[|db.calls| - 1].request.node == NODE1
      ensures stored == db.calls[|db.calls| - 1].result.Success()
      ensures LoggedRows(db.calls) ==
        LoggedRows(old(db.calls)) + (if stored then [LogRow(nodeId, operationType, tableName, recordId, status, errorMsg)] else [])
    {
      var row := LogRow(nodeId, operationType, tableName, recordId, status, errorMsg);
      var result := db.ExecuteQuery(NODE1, LOG_SQL, LogParams(row), DEFAULT_ISOLATION, true);
      LogParamsRoundTrip(row);
      assert db.calls[..|db.calls| - 1] == old(db.calls);
      stored := result.Success();
    }
  }
}
