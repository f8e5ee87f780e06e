/**
 * What both replication managers share: the partitioning rule that picks a
 * title's fragment node, the request payload, and the three SQL statements
 * they send (insert, update, delete on the `titles` table).
 */
module Titles {
  import opened Environment

  /** Key-value pairs, in order. */
  type Entries = seq<(string, Value)>

  /** No key occurs twice. */
  predicate DistinctKeys(d: Entries)
  {
    forall i, j | 0 <= i < j < |d| :: d[i].0 != d[j].0
  }

  /** A JSON request body, a Python dict: distinct keys in insertion order,
      each with its value. */
  type Payload = d: Entries | DistinctKeys(d)

  /** `data.get(key)`: the value stored under `key`, `None` when absent. */
  function Get(data: Payload, key: string): (v: Value)
    ensures v != Null ==> exists k | 0 <= k < |data| :: data[k] == (key, v)
    ensures (forall k | 0 <= k < |data| :: data[k].0 != key) ==> v == Null
    ensures forall k | 0 <= k < |data| && data[k].0 == key :: v == data[k].1
  {
    if data == [] then Null
    else if data[0].0 == key then data[0].1
    else Get(data[1..], key)
  }

  /** The fragment owning a title: node2 for movies, node3 for everything
      else, including a missing or NULL title type. */
  function TargetNode(titleType: Value): (n: string)
    ensures n != NODE1
    ensures n == NODE2 <==> titleType == Str("movie")
    ensures n == NODE3 <==> titleType != Str("movie")
  {
    if titleType == Str("movie") then NODE2 else NODE3
  }

  const INSERT_SQL: string :=
    "INSERT INTO titles (tconst, title_type, primary_title, start_year, runtime_minutes, genres) VALUES (%s, %s, %s, %s, %s, %s)"

  const DELETE_SQL: string := "DELETE FROM titles WHERE tconst = %s"

  /** The six insert parameters, in the column order of INSERT_SQL. */
  function InsertParams(data: Payload): (p: seq<Value>)
    ensures |p| == 6
    ensures p[0] == Get(data, "tconst") && p[1] == Get(data, "title_type")
    ensures p[2] == Get(data, "primary_title") && p[3] == Get(data, "start_year")
    ensures p[4] == Get(data, "runtime_minutes") && p[5] == Get(data, "genres")
  {
    [Get(data, "tconst"), Get(data, "title_type"), Get(data, "primary_title"),
     Get(data, "start_year"), Get(data, "runtime_minutes"), Get(data, "genres")]
  }

  /** The payload entries an UPDATE assigns: every one except the key column. */
  function Assignments(data: Entries): (a: Entries)
    ensures |a| <= |data|
  {
    if data == [] then []
    else if data[0].0 == "tconst" then Assignments(data[1..])
    else [data[0]] + Assignments(data[1..])
  }

  /** The key column is never assigned, and every other entry is, in order. */
  lemma {:induction false} AssignmentsSkipKeyOnly(data: Entries)
    ensures forall k | 0 <= k < |Assignments(data)| :: Assignments(data)[k].0 != "tconst"
    ensures (forall k | 0 <= k < |data| :: data[k].0 != "tconst") ==> Assignments(data) == data
  {
    if data != [] {
      AssignmentsSkipKeyOnly(data[1..]);
      if forall k | 0 <= k < |data| :: data[k].0 != "tconst" {
        assert forall k | 0 <= k < |data[1..]| :: data[1..][k].0 != "tconst" by {
          forall k | 0 <= k < |data[1..]| ensures data[1..][k].0 != "tconst" {
            assert data[1..][k] == data[k + 1];
          }
        }
      }
    }
  }

  /** Each column is assigned at most once, and only with an entry of the
      payload. */
  lemma {:induction false} AssignmentsDistinct(data: Entries)
    requires DistinctKeys(data)
    ensures DistinctKeys(Assignments(data))
    ensures forall e | e in Assignments(data) :: e in data
  {
    if data != [] {
      var rest := data[1..];
      DistinctRest(data);
      AssignmentsDistinct(rest);
      assert forall e | e in rest :: e in data;
      if data[0].0 != "tconst" {
        DistinctCons(data[0], Assignments(rest));
      }
    }
  }

  lemma DistinctRest(data: Entries)
    requires DistinctKeys(data) && data != []
    ensures DistinctKeys(data[1..])
    ensures forall e | e in data[1..] :: e.0 != data[0].0
  {
    var rest := data[1..];
    forall i, j | 0 <= i < j < |rest| ensures rest[i].0 != rest[j].0 {
      assert rest[i] == data[i + 1] && rest[j] == data[j + 1];
    }
    forall e | e in rest ensures e.0 != data[0].0 {
      var m :| 0 <= m < |rest| && rest[m] == e;
      assert data[m + 1] == e;
    }
  }

  lemma DistinctCons(x: (string, Value), a: Entries)
    requires DistinctKeys(a) && forall e | e in a :: e.0 != x.0
    ensures DistinctKeys([x] + a)
  {
    var b := [x] + a;
    forall i, j | 0 <= i < j < |b| ensures b[i].0 != b[j].0 {
      assert b[j] == a[j - 1];
      if i > 0 {
        assert b[i] == a[i - 1];
      }
    }
  }

  /** `key = %s`, one assignment of the SET list. */
  function SetClause(key: string): string { key + " = %s" }

  /** The SET list of some assignments: `key = %s` for each, in order. */
  function SetList(a: Entries): (s: seq<string>)
    ensures |s| == |a|
  {
    seq(|a|, k requires 0 <= k < |a| => SetClause(a[k].0))
  }

  /** The values of some assignments, in order. */
  function ValuesOf(a: Entries): (v: seq<Value>)
    ensures |v| == |a|
  {
    seq(|a|, k requires 0 <= k < |a| => a[k].1)
  }

  /** `s.endswith(suffix)`. */
  predicate EndsWith(s: string, suffix: string)
  {
    |suffix| <= |s| && s[|s| - |suffix|..] == suffix
  }

  /** `', '.join(parts)`. */
  function Join(parts: seq<string>, sep: string): string
  {
    if parts == [] then ""
    else if |parts| == 1 then parts[0]
    else parts[0] + sep + Join(parts[1..], sep)
  }

  /** The first part opens the joined text and the last part closes it. */
  lemma {:induction false} JoinEnds(parts: seq<string>, sep: string)
    requires parts != []
    ensures parts[0] <= Join(parts, sep)
    ensures EndsWith(Join(parts, sep), parts[|parts| - 1])
  {
    if |parts| > 1 {
      var tail := Join(parts[1..], sep);
      var r := parts[0] + sep + tail;
      JoinEnds(parts[1..], sep);
      assert r[|r| - |tail|..] == tail;
      assert parts[1..][|parts[1..]| - 1] == parts[|parts| - 1];
    }
  }

  /** Joining two non-empty lists is joining each and putting one separator
      between them: together with `Join([p], sep) == p` this fixes every
      part, in order, with a separator between each two neighbours. */
  lemma {:induction false} JoinAppend(a: seq<string>, b: seq<string>, sep: string)
    requires a != [] && b != []
    ensures Join(a + b, sep) == Join(a, sep) + sep + Join(b, sep)
    decreases |a|
  {
    var ab := a + b;
    if |a| == 1 {
      assert ab[1..] == b;
    } else {
      assert ab[1..] == a[1..] + b;
      JoinAppend(a[1..], b, sep);
      calc {
        Join(ab, sep);
        a[0] + sep + Join(a[1..] + b, sep);
        a[0] + sep + (Join(a[1..], sep) + sep + Join(b, sep));
        (a[0] + sep + Join(a[1..], sep)) + sep + Join(b, sep);
      }
    }
  }

  /** A single part is joined to itself. */
  lemma JoinSingle(p: string, sep: string)
    ensures Join([p], sep) == p
  {
  }

  const UPDATE_HEAD: string := "UPDATE titles SET "
  const UPDATE_TAIL: string := " WHERE tconst = %s"

  /** The UPDATE statement for a SET list: `UPDATE titles SET `, then
      exactly the joined clauses, then the WHERE clause on the key. */
  function UpdateSql(setClauses: seq<string>): (r: string)
    ensures |UPDATE_HEAD| + |UPDATE_TAIL| <= |r|
    ensures UPDATE_HEAD <= r && EndsWith(r, UPDATE_TAIL)
    ensures r[|UPDATE_HEAD|..|r| - |UPDATE_TAIL|] == Join(setClauses, ", ")
  {
    var list := Join(setClauses, ", ");
    var front := UPDATE_HEAD + list;
    var r := front + UPDATE_TAIL;
    assert r[..|front|] == front;
    assert front[|UPDATE_HEAD|..] == list;
    r
  }

  /** The first SET clause comes right after `SET`, and the last one right
      before the WHERE clause. */
  lemma UpdateSqlClauses(setClauses: seq<string>)
    requires setClauses != []
    ensures UPDATE_HEAD + setClauses[0] <= UpdateSql(setClauses)
    ensures EndsWith(UpdateSql(setClauses), setClauses[|setClauses| - 1] + UPDATE_TAIL)
  {
    JoinEnds(setClauses, ", ");
    Framed(UPDATE_HEAD, Join(setClauses, ", "), UPDATE_TAIL, setClauses[0], setClauses[|setClauses| - 1]);
  }

  /** Text that opens and closes a middle piece still opens and closes it,
      next to the head and the tail, once they are put around it. */
  lemma Framed(head: string, middle: string, tail: string, first: string, last: string)
    requires first <= middle && EndsWith(middle, last)
    ensures head + first <= head + middle + tail
    ensures EndsWith(head + middle + tail, last + tail)
  {
    var r := head + middle + tail;
    assert r[..|head| + |first|] == head + middle[..|first|];
    assert r[|r| - |last + tail|..] == middle[|middle| - |last|..] + tail;
  }

  /** The loop that builds the SET list and the parameters of an UPDATE:
      every payload entry except `tconst` contributes `key = %s` and its
      value, in payload order, and the key value comes last (for WHERE). */
  method BuildUpdate(data: Payload, tconst: string) returns (setClauses: seq<string>, params: seq<Value>)
    ensures |params| == |setClauses| + 1 == |Assignments(data)| + 1
    ensures params[|setClauses|] == Str(tconst)
    ensures forall k | 0 <= k < |setClauses| ::
      setClauses[k] == SetClause(Assignments(data)[k].0) && params[k] == Assignments(data)[k].1
    ensures setClauses == SetList(Assignments(data)) && params == ValuesOf(Assignments(data)) + [Str(tconst)]
  {
    setClauses, params := [], [];
    var i := 0;
    while i < |data|
      invariant 0 <= i <= |data|
      invariant Assignments(data) == Assignments(data[..i]) + Assignments(data[i..])
      invariant |params| == |setClauses| == |Assignments(data[..i])|
      invariant forall k | 0 <= k < |setClauses| ::
        setClauses[k] == SetClause(Assignments(data[..i])[k].0) && params[k] == Assignments(data[..i])[k].1
    {
      var (key, value) := data[i];
      AssignmentsSnoc(data[..i], data[i]);
      assert data[..i + 1] == data[..i] + [data[i]];
      if key != "tconst" {
        setClauses := setClauses + [SetClause(key)];
        params := params + [value];
      }
      AssignmentsSplit(data, i + 1);
      i := i + 1;
    }
    assert data[..i] == data;
    params := params + [Str(tconst)];
  }

  /** Extending the payload by one entry extends its assignments by that
      entry unless it is the key column. */
  lemma {:induction false} AssignmentsSnoc(data: Entries, entry: (string, Value))
    ensures Assignments(data + [entry]) == Assignments(data) + (if entry.0 == "tconst" then [] else [entry])
  {
    if data == [] {
      assert [entry][1..] == [];
    } else {
      assert (data + [entry])[1..] == data[1..] + [entry];
      AssignmentsSnoc(data[1..], entry);
    }
  }

  /** Assignments distribute over a split of the payload. */
  lemma {:induction false} AssignmentsSplit(data: Entries, i: nat)
    requires i <= |data|
    ensures Assignments(data) == Assignments(data[..i]) + Assignments(data[i..])
  {
    if i > 0 {
      assert data[1..][..i - 1] == data[..i][1..];
      assert data[1..][i - 1..] == data[i..];
      AssignmentsSplit(data[1..], i - 1);
    } else {
      assert data[..0] == [];
      assert data[0..] == data;
    }
  }
}
