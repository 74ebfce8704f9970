/** Submission rows as the dashboard holds them in its per-vaccine log, the
    heuristic that tells a stored row from a purely local one, and the
    filter-by-id that removes a row from a log. */
module Rows {

  /** The two log/tile keys of the page (`covid`, `flu`). */
  datatype Vaccine = Covid | Flu

  /** A row's `id` as JavaScript sees it: a string (the store's UUID), some
      other value (a number), or missing. Datatype equality is the `!==`
      test used when filtering. */
  datatype RowId = NoId | TextId(text: string) | NumId(num: int)

  /** One log entry. A missing or null text field is the empty string and a
      null count is 0: JavaScript treats each as falsy, and a null count
      divides to 0 as well. Every row the store delivers has both count
      columns, so a missing count (which would divide to NaN) is not a case. */
  datatype Row = Row(
    id: RowId,
    staffCount: int,
    residentCount: int,
    note: string,
    dateSubmitted: string,
    createdAt: string)

  /** `isDbRow`: a row counts as stored when it carries a store-shaped id
      (a string of at least 32 characters) together with a creation stamp,
      or a submission date, or a non-zero count. */
  function IsDbRow(row: Row): (stored: bool)
    ensures row.dateSubmitted != "" ==> stored
    ensures row.staffCount != 0 || row.residentCount != 0 ==> stored
    ensures !stored ==> row.staffCount == 0 && row.residentCount == 0 && row.dateSubmitted == ""
    ensures !stored && row.id.TextId? && |row.id.text| >= 32 ==> row.createdAt == ""
    ensures (&& row.dateSubmitted == "" && row.staffCount == 0 && row.residentCount == 0
             && (row.id.TextId? ==> |row.id.text| < 32 || row.createdAt == "")) ==> !stored
  {
    || (row.id.TextId? && |row.id.text| >= 32 && row.createdAt != "")
    || row.dateSubmitted != ""
    || row.staffCount != 0
    || row.residentCount != 0
  }

  /** `list.filter((x) => x.id !== id)`: every entry sharing the id goes,
      every other entry stays, in its original order. */
  function RemoveId(rows: seq<Row>, id: RowId): (r: seq<Row>)
    ensures |r| <= |rows|
    ensures forall i :: 0 <= i < |r| ==> r[i].id != id
    ensures forall x :: x in r <==> x in rows && x.id != id
  {
    if rows == [] then []
    else if rows[0].id == id then RemoveId(rows[1..], id)
    else [rows[0]] + RemoveId(rows[1..], id)
  }

  /** Filtering distributes over concatenation, so the survivors keep the
      relative order they had in the log. */
  lemma {:induction false} RemoveIdAppend(a: seq<Row>, b: seq<Row>, id: RowId)
    ensures RemoveId(a + b, id) == RemoveId(a, id) + RemoveId(b, id)
  {
    if a == [] {
      assert a + b == b;
    } else {
      assert (a + b)[1..] == a[1..] + b;
      RemoveIdAppend(a[1..], b, id);
    }
  }

  /** A log in which no entry has the id is left exactly as it was. */
  lemma {:induction false} RemoveIdAbsent(rows: seq<Row>, id: RowId)
    requires forall i :: 0 <= i < |rows| ==> rows[i].id != id
    ensures RemoveId(rows, id) == rows
  {
    if rows != [] {
      RemoveIdAbsent(rows[1..], id);
      assert [rows[0]] + rows[1..] == rows;
    }
  }

  /** Removing the same id twice removes nothing more. */
  lemma RemoveIdIdempotent(rows: seq<Row>, id: RowId)
    ensures RemoveId(RemoveId(rows, id), id) == RemoveId(rows, id)
  {
    RemoveIdAbsent(RemoveId(rows, id), id);
  }

  /** The log loses at least one entry exactly when some entry had the id. */
  lemma {:induction false} RemoveIdShrinks(rows: seq<Row>, id: RowId)
    ensures |RemoveId(rows, id)| < |rows| <==> exists i :: 0 <= i < |rows| && rows[i].id == id
  {
    if rows != [] {
      RemoveIdShrinks(rows[1..], id);
      if rows[0].id != id {
        assert forall i :: 1 <= i < |rows| ==> rows[i] == rows[1..][i - 1];
      }
    }
  }

  /** When the head of the log does not carry the id, it is still the head
      afterwards. */
  lemma RemoveIdKeepsHead(rows: seq<Row>, id: RowId)
    requires rows != [] && rows[0].id != id
    ensures RemoveId(rows, id) != [] && RemoveId(rows, id)[0] == rows[0]
  {
  }
}
