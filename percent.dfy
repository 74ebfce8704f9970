/** Coverage percentages of the dashboard tiles, computed exactly over the
    reals (the page computes them in floating point). */
module Percent {
  import opened Options
  import opened Rows

  /** `TOTAL`: the population denominators. */
  const StaffTotal: nat := 292
  const ResidentTotal: nat := 192

  /** The two percentages of one vaccine tile pair. */
  datatype Tile = Tile(staff: real, resident: real)

  const ZeroTile := Tile(0.0, 0.0)

  /** `pct(num, denom)`: 0 for a zero denominator, otherwise the ratio as a
      percentage clamped into [0, 100]. */
  function Pct(num: real, denom: real): (r: real)
    ensures denom == 0.0 ==> r == 0.0
    ensures 0.0 <= r <= 100.0
    ensures denom > 0.0 && num <= 0.0 ==> r == 0.0
    ensures denom > 0.0 && num >= denom ==> r == 100.0
    ensures denom > 0.0 && 0.0 <= num <= denom ==> r * denom == num * 100.0
  {
    if denom == 0.0 then 0.0
    else
      var p := num / denom * 100.0;
      var lo := if p > 0.0 then p else 0.0;
      if lo < 100.0 then lo else 100.0
  }

  /** `Math.min(100, count / total * 100)`: capped above, not below. */
  function Capped(count: int, total: nat): (r: real)
    requires total > 0
    ensures r <= 100.0
    ensures count >= 0 ==> r >= 0.0
    ensures count < 0 ==> r < 0.0
    ensures count >= total ==> r == 100.0
    ensures count <= total ==> r * total as real == count as real * 100.0
  {
    var p := count as real / total as real * 100.0;
    if p < 100.0 then p else 100.0
  }

  /** The tile pair a single row yields (the body of `latestToPct` for a
      present head, and what a successful submit sets). */
  function RowTile(row: Row): (t: Tile)
    ensures t.staff <= 100.0 && t.resident <= 100.0
    ensures row.staffCount >= 0 && row.residentCount >= 0 ==> t.staff >= 0.0 && t.resident >= 0.0
  {
    Tile(Capped(row.staffCount, StaffTotal), Capped(row.residentCount, ResidentTotal))
  }

  /** `latestToPct(rows)`: the tile pair of the head of a log, or zeros for
      an empty log. */
  function LatestToPct(rows: seq<Row>): (t: Tile)
    ensures rows == [] ==> t == ZeroTile
    ensures t.staff <= 100.0 && t.resident <= 100.0
  {
    if rows == [] then ZeroTile else RowTile(rows[0])
  }

  /** A row of 10 staff and 5 residents shows 1000/292 % (about 3.4 %) and
      500/192 % (about 2.6 %). */
  lemma TileOfTenAndFive()
    ensures RowTile(Row(NoId, 10, 5, "", "", "")) == Tile(1000.0 / 292.0, 500.0 / 192.0)
  {
  }

  /** Only the head of the log matters. */
  lemma LatestToPctHeadOnly(rows: seq<Row>, rest: seq<Row>)
    requires rows != []
    ensures LatestToPct(rows + rest) == LatestToPct(rows) == LatestToPct([rows[0]])
  {
  }

  /** For counts the page can submit (never negative) the capped formula of
      `latestToPct` and the clamped `pct` agree. */
  lemma CappedIsPct(count: int, total: nat)
    requires count >= 0 && total > 0
    ensures Capped(count, total) == Pct(count as real, total as real)
  {
  }

  /** A head row with non-negative counts gives a tile pair inside
      [0, 100] that equals `pct` of its counts. */
  lemma LatestToPctIsPct(rows: seq<Row>)
    requires rows != [] && rows[0].staffCount >= 0 && rows[0].residentCount >= 0
    ensures LatestToPct(rows)
         == Tile(Pct(rows[0].staffCount as real, StaffTotal as real),
                 Pct(rows[0].residentCount as real, ResidentTotal as real))
    ensures 0.0 <= LatestToPct(rows).staff <= 100.0
    ensures 0.0 <= LatestToPct(rows).resident <= 100.0
  {
    CappedIsPct(rows[0].staffCount, StaffTotal);
    CappedIsPct(rows[0].residentCount, ResidentTotal);
  }

  /** The tile the initial load shows for a fetched latest row: the raw
      ratio, with no cap at all. */
  function LoadedTile(latest: Option<Row>): (t: Tile)
    ensures latest.None? ==> t == ZeroTile
    ensures latest.Some? ==> t.staff * StaffTotal as real == latest.value.staffCount as real * 100.0
    ensures latest.Some? ==> t.resident * ResidentTotal as real == latest.value.residentCount as real * 100.0
  {
    match latest
    case None => ZeroTile
    case Some(row) =>
      Tile(row.staffCount as real / StaffTotal as real * 100.0,
           row.residentCount as real / ResidentTotal as real * 100.0)
  }

  /** Within the totals, the load path and `latestToPct` agree on the same
      head row. */
  lemma LoadedTileWithinTotals(row: Row, rest: seq<Row>)
    requires row.staffCount <= StaffTotal && row.residentCount <= ResidentTotal
    ensures LoadedTile(Some(row)) == LatestToPct([row] + rest)
  {
  }

  /** Above a total they do not: a load shows more than 100%, where a
      submit or a delete of the same head would show 100%. */
  lemma LoadedTileExceedsCap()
    ensures var row := Row(NoId, 300, 0, "", "2024-01-01", "");
            LoadedTile(Some(row)).staff > 100.0 && LatestToPct([row]).staff == 100.0
  {
  }
}
