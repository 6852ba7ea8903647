/**
  The record API of backend/index.js: list, update and delete over the
  `nurdd` table.

  The managed store is modelled as a sequence of rows in the order the store
  keeps them. Whether the store reports an error is not known in advance, so
  each handler takes it as a parameter (`fault`, the error's message when
  there is one); a query that reports an error is taken to change nothing.
  The `timestamp` column is a point in time and is ordered chronologically;
  the model represents it by an integer.
*/
module RecordApi {
  import opened Wrappers
  import opened Lists

  /** A row of the `nurdd` table. */
  datatype Row = Row(id: string, url: string, brandname: string, description: string, timestamp: int)

  /** The JSON body of a response. */
  datatype Body = RowList(rows: seq<Row>) | OneRow(row: Row) | Confirmation(message: string) | ErrorBody(error: string)

  datatype Response = Response(status: int, body: Body)

  const StatusOk := 200
  const StatusNotFound := 404
  const StatusServerError := 500
  const NotFoundMessage := "Website not found"
  const DeletedMessage := "Data deleted"

  /** Some row of the table has the id. */
  predicate HasRow(rows: seq<Row>, id: string) {
    exists i :: 0 <= i < |rows| && rows[i].id == id
  }

  // ---------------------------------------------------------------------------
  // `select("*").order("timestamp", { ascending: false })`

  /** Newest first: timestamps never increase along the list. */
  predicate NewestFirst(rows: seq<Row>) {
    forall i, j :: 0 <= i < j < |rows| ==> rows[i].timestamp >= rows[j].timestamp
  }

  /** No row of the list is newer than `t`. */
  predicate NoneNewerThan(rows: seq<Row>, t: int) {
    forall k :: 0 <= k < |rows| ==> rows[k].timestamp <= t
  }

  lemma NewestFirstCons(x: Row, rows: seq<Row>)
    requires NewestFirst(rows) && NoneNewerThan(rows, x.timestamp)
    ensures NewestFirst([x] + rows)
  {
    var s := [x] + rows;
    forall i, j | 0 <= i < j < |s| ensures s[i].timestamp >= s[j].timestamp {
      if i > 0 {
        assert s[i] == rows[i - 1] && s[j] == rows[j - 1];
      }
    }
  }

  /** Puts one row into a newest-first list at its place. */
  function InsertByTimestamp(r: Row, rows: seq<Row>): (s: seq<Row>)
    requires NewestFirst(rows)
    ensures NewestFirst(s)
    ensures multiset(s) == multiset(rows) + multiset{r}
    ensures forall t :: NoneNewerThan(rows, t) && r.timestamp <= t ==> NoneNewerThan(s, t)
  {
    if rows == [] || r.timestamp >= rows[0].timestamp then
      NewestFirstCons(r, rows);
      [r] + rows
    else
      assert rows == [rows[0]] + rows[1..];
      var rest := InsertByTimestamp(r, rows[1..]);
      assert NoneNewerThan(rows[1..], rows[0].timestamp);
      NewestFirstCons(rows[0], rest);
      [rows[0]] + rest
  }

  /** The rows of the table, newest first. */
  function OrderByTimestampDesc(rows: seq<Row>): (s: seq<Row>)
    ensures NewestFirst(s)
    ensures multiset(s) == multiset(rows)
  {
    if rows == [] then []
    else
      assert rows == [rows[0]] + rows[1..];
      InsertByTimestamp(rows[0], OrderByTimestampDesc(rows[1..]))
  }

  /** The response of GET /api/data for a table and the store's error, if any. */
  function ListReply(rows: seq<Row>, fault: Option<string>): (resp: Response)
    ensures fault.Some? ==> resp == Response(StatusServerError, ErrorBody(fault.value))
    ensures fault.None? ==>
              resp.status == StatusOk && resp.body.RowList? &&
              NewestFirst(resp.body.rows) && multiset(resp.body.rows) == multiset(rows)
  {
    match fault
    case Some(message) => Response(StatusServerError, ErrorBody(message))
    case None => Response(StatusOk, RowList(OrderByTimestampDesc(rows)))
  }

  /** Of two rows with timestamps T1 < T2, the list shows T2's row before T1's. */
  lemma ListNewerFirst(rows: seq<Row>, a: Row, b: Row)
    requires a in rows && b in rows && a.timestamp < b.timestamp
    ensures var l := ListReply(rows, None).body.rows;
            exists i, j :: 0 <= i < j < |l| && l[i] == b && l[j] == a
  {
    var l := ListReply(rows, None).body.rows;
    assert a in multiset(l) && b in multiset(l);
    var i :| 0 <= i < |l| && l[i] == b;
    var j :| 0 <= j < |l| && l[j] == a;
    assert i < j;
  }

  // ---------------------------------------------------------------------------
  // `.eq("id", id)` with `update` and `delete`

  /** The rows with the id, in table order: what `.eq("id", id).select()` returns. */
  function Matching(rows: seq<Row>, id: string): (s: seq<Row>)
    ensures IsSubsequence(s, rows)
    ensures forall k :: 0 <= k < |s| ==> s[k].id == id
    ensures forall x :: multiset(s)[x] == if x.id == id then multiset(rows)[x] else 0
    ensures s == [] <==> !HasRow(rows, id)
  {
    if rows == [] then []
    else
      assert rows == [rows[0]] + rows[1..];
      var rest := Matching(rows[1..], id);
      if rows[0].id == id then
        assert ([rows[0]] + rest)[1..] == rest;
        [rows[0]] + rest
      else
        assert HasRow(rows, id) ==> HasRow(rows[1..], id) by {
          if HasRow(rows, id) {
            var i :| 0 <= i < |rows| && rows[i].id == id;
            assert rows[1..][i - 1].id == id;
          }
        }
        rest
  }

  /** `update({ description }).eq("id", id)`: the description of every row with the id becomes `d`. */
  function UpdateDescription(rows: seq<Row>, id: string, d: string): (s: seq<Row>)
    ensures |s| == |rows|
    ensures forall k :: 0 <= k < |rows| ==>
              s[k].id == rows[k].id && s[k].url == rows[k].url &&
              s[k].brandname == rows[k].brandname && s[k].timestamp == rows[k].timestamp
    ensures forall k :: 0 <= k < |rows| && rows[k].id == id ==> s[k].description == d
    ensures forall k :: 0 <= k < |rows| && rows[k].id != id ==> s[k] == rows[k]
  {
    if rows == [] then []
    else [if rows[0].id == id then rows[0].(description := d) else rows[0]] + UpdateDescription(rows[1..], id, d)
  }

  /** `delete().eq("id", id)`: the table without the rows that have the id. */
  function DeleteById(rows: seq<Row>, id: string): (s: seq<Row>)
    ensures IsSubsequence(s, rows)
    ensures !HasRow(s, id)
    ensures forall x :: multiset(s)[x] == if x.id == id then 0 else multiset(rows)[x]
  {
    if rows == [] then []
    else
      assert rows == [rows[0]] + rows[1..];
      var rest := DeleteById(rows[1..], id);
      if rows[0].id != id then
        assert ([rows[0]] + rest)[1..] == rest;
        [rows[0]] + rest
      else rest
  }

  /** The response of PUT /api/nurdd/:id for the store's error, if any, and the updated rows it returned. */
  function UpdateReply(fault: Option<string>, updated: seq<Row>): (resp: Response)
    ensures resp.status == StatusServerError <==> fault.Some?
    ensures resp.status == StatusNotFound <==> fault.None? && updated == []
    ensures resp.status == StatusOk <==> fault.None? && updated != []
    ensures resp.status != StatusOk ==> resp.body.ErrorBody?
    ensures resp.status == StatusOk ==> resp.body.OneRow? && resp.body.row in updated
  {
    if fault.Some? then Response(StatusServerError, ErrorBody(fault.value))
    else if |updated| == 0 then Response(StatusNotFound, ErrorBody(NotFoundMessage))
    else Response(StatusOk, OneRow(updated[0]))
  }

  /** The response of DELETE /api/nurdd/:id for the store's error, if any, and the deleted rows it returned. */
  function DeleteReply(fault: Option<string>, deleted: seq<Row>): (resp: Response)
    ensures resp.status == StatusServerError <==> fault.Some?
    ensures resp.status == StatusNotFound <==> fault.None? && deleted == []
    ensures resp.status == StatusOk <==> fault.None? && deleted != []
    ensures resp.status != StatusOk ==> resp.body.ErrorBody?
    ensures resp.status == StatusOk ==> resp.body == Confirmation(DeletedMessage)
  {
    if fault.Some? then Response(StatusServerError, ErrorBody(fault.value))
    else if |deleted| == 0 then Response(StatusNotFound, ErrorBody(NotFoundMessage))
    else Response(StatusOk, Confirmation(DeletedMessage))
  }

  /** The index of the first row with the id. */
  function FirstIndex(rows: seq<Row>, id: string): (i: nat)
    requires HasRow(rows, id)
    ensures i < |rows| && rows[i].id == id
    ensures forall j :: 0 <= j < i ==> rows[j].id != id
  {
    if rows[0].id == id then 0
    else
      assert HasRow(rows[1..], id) by {
        var i :| 0 <= i < |rows| && rows[i].id == id;
        assert rows[1..][i - 1].id == id;
      }
      1 + FirstIndex(rows[1..], id)
  }

  /** `data[0]` of a selection is the first row of the table with the id. */
  lemma {:induction false} MatchingHead(rows: seq<Row>, id: string, i: nat)
    requires i < |rows| && rows[i].id == id
    requires forall j :: 0 <= j < i ==> rows[j].id != id
    ensures Matching(rows, id) != [] && Matching(rows, id)[0] == rows[i]
  {
    if i > 0 {
      MatchingHead(rows[1..], id, i - 1);
    }
  }

  /** The row an update responds with: the first row with the id, with its new description. */
  lemma FirstUpdated(rows: seq<Row>, id: string, d: string)
    requires HasRow(rows, id)
    ensures var i := FirstIndex(rows, id);
            Matching(UpdateDescription(rows, id, d), id) != [] &&
            Matching(UpdateDescription(rows, id, d), id)[0] == rows[i].(description := d)
  {
    var i := FirstIndex(rows, id);
    var u := UpdateDescription(rows, id, d);
    MatchingHead(u, id, i);
  }

  /** The decision of the update handler against the table it ran on. */
  lemma UpdateOutcome(rows: seq<Row>, id: string, d: string, fault: Option<string>)
    ensures var resp := UpdateReply(fault, Matching(UpdateDescription(rows, id, d), id));
            (fault.Some? ==> resp == Response(StatusServerError, ErrorBody(fault.value))) &&
            (fault.None? && !HasRow(rows, id) ==> resp == Response(StatusNotFound, ErrorBody(NotFoundMessage))) &&
            (fault.None? && HasRow(rows, id) ==>
               resp.status == StatusOk && resp.body.OneRow? &&
               resp.body.row.id == id && resp.body.row.description == d &&
               resp.body.row == rows[FirstIndex(rows, id)].(description := d))
  {
    var u := UpdateDescription(rows, id, d);
    if HasRow(rows, id) {
      FirstUpdated(rows, id, d);
    } else {
      assert !HasRow(u, id);
    }
  }

  /** An update of an id no row has leaves the table as it was. */
  lemma UpdateAbsent(rows: seq<Row>, id: string, d: string)
    requires !HasRow(rows, id)
    ensures UpdateDescription(rows, id, d) == rows
  {
  }

  /** The decision of the delete handler against the table it ran on. */
  lemma DeleteOutcome(rows: seq<Row>, id: string, fault: Option<string>)
    ensures var resp := DeleteReply(fault, Matching(rows, id));
            (fault.Some? ==> resp == Response(StatusServerError, ErrorBody(fault.value))) &&
            (fault.None? && !HasRow(rows, id) ==> resp == Response(StatusNotFound, ErrorBody(NotFoundMessage))) &&
            (fault.None? && HasRow(rows, id) ==> resp == Response(StatusOk, Confirmation(DeletedMessage)))
  {
  }

  /** A delete of an id no row has leaves the table as it was. */
  lemma {:induction false} DeleteAbsent(rows: seq<Row>, id: string)
    requires !HasRow(rows, id)
    ensures DeleteById(rows, id) == rows
  {
    if rows != [] {
      DeleteAbsent(rows[1..], id);
      assert rows == [rows[0]] + rows[1..];
    }
  }

  /** After a successful delete, deleting the same id again answers 404 and the list no longer shows the id. */
  lemma DeleteThenAgain(rows: seq<Row>, id: string)
    ensures var after := DeleteById(rows, id);
            DeleteReply(None, Matching(after, id)) == Response(StatusNotFound, ErrorBody(NotFoundMessage)) &&
            DeleteById(after, id) == after &&
            forall k :: 0 <= k < |ListReply(after, None).body.rows| ==> ListReply(after, None).body.rows[k].id != id
  {
    var after := DeleteById(rows, id);
    DeleteAbsent(after, id);
    var l := ListReply(after, None).body.rows;
    forall k | 0 <= k < |l| ensures l[k].id != id {
      assert l[k] in multiset(after);
    }
  }

  // ---------------------------------------------------------------------------
  // The handlers over the table

  /** The `nurdd` table and the three record handlers. */
  class RecordTable {
    var rows: seq<Row>

    constructor (initial: seq<Row>)
      ensures rows == initial
    {
      rows := initial;
    }

    /** GET /api/data: every row, newest first, or 500 with the store's message. */
    method List(fault: Option<string>) returns (resp: Response)
      ensures fault.Some? ==> resp == Response(StatusServerError, ErrorBody(fault.value))
      ensures fault.None? ==>
                resp.status == StatusOk && resp.body.RowList? &&
                NewestFirst(resp.body.rows) && multiset(resp.body.rows) == multiset(rows)
    {
      resp := ListReply(rows, fault);
    }

    /** PUT /api/nurdd/:id with body `{ description }`. */
    method Update(id: string, description: string, fault: Option<string>) returns (resp: Response)
      modifies this
      ensures fault.Some? ==> rows == old(rows)
      ensures fault.None? ==> rows == UpdateDescription(old(rows), id, description)
      ensures !HasRow(old(rows), id) ==> rows == old(rows)
      ensures resp == UpdateReply(fault, Matching(UpdateDescription(old(rows), id, description), id))
    {
      var updated: seq<Row> := [];
      if fault.None? {
        rows := UpdateDescription(rows, id, description);
        updated := Matching(rows, id);
      }
      if !HasRow(old(rows), id) {
        UpdateAbsent(old(rows), id, description);
      }
      resp := UpdateReply(fault, updated);
    }

    /** DELETE /api/nurdd/:id. */
    method Delete(id: string, fault: Option<string>) returns (resp: Response)
      modifies this
      ensures fault.Some? ==> rows == old(rows)
      ensures fault.None? ==> rows == DeleteById(old(rows), id)
      ensures !HasRow(old(rows), id) ==> rows == old(rows)
      ensures resp == DeleteReply(fault, Matching(old(rows), id))
    {
      var deleted: seq<Row> := [];
      if fault.None? {
        deleted := Matching(rows, id);
        rows := DeleteById(rows, id);
      }
      if !HasRow(old(rows), id) {
        DeleteAbsent(old(rows), id);
      }
      resp := DeleteReply(fault, deleted);
    }
  }
}
