/** The state of the Dashboard page and its event handlers. Each handler
    runs to completion; a call to the submission store is not modelled as
    code but as the outcome it delivers, passed in as a parameter. */
module Page {
  import opened Options
  import opened Rows
  import opened Percent
  import Bump
  import Draft
  import Text

  /** The four keys of the `bump` state. */
  datatype Key = CovidStaff | CovidResident | FluStaff | FluResident

  function StaffKey(v: Vaccine): (k: Key)
  {
    if v == Covid then CovidStaff else FluStaff
  }

  function ResidentKey(v: Vaccine): (k: Key)
  {
    if v == Covid then CovidResident else FluResident
  }

  function Other(v: Vaccine): (w: Vaccine)
  {
    if v == Covid then Flu else Covid
  }

  /** `totalStats`: the bases the four counters add their bumps to. */
  datatype Stats = Stats(active: nat, closed: nat, lostTime: nat, outbreak: nat)

  const ZeroStats := Stats(0, 0, 0, 0)

  /** The record `insertSubmission` is given. */
  datatype Submission = Submission(vaccine: Vaccine, staffCount: int, residentCount: int, note: string)

  /** What `insertSubmission` delivers: the stored row, or a thrown error. */
  datatype InsertOutcome = Inserted(row: Row) | InsertFailed

  /** What `deleteSubmission` delivers: true, false, or a thrown error. */
  datatype DeleteOutcome = Deleted | NothingDeleted | DeleteFailed

  /** What the mount effect's fetches deliver: the two logs failed; the
      logs arrived but the latest rows failed; or everything arrived. */
  datatype LoadOutcome =
    | LogsFailed
    | LatestFailed(covidLogs: seq<Row>, fluLogs: seq<Row>)
    | Loaded(covidLogs: seq<Row>, fluLogs: seq<Row>, covidLatest: Option<Row>, fluLatest: Option<Row>)

  /** The alert a handler raises, if any. */
  datatype Notice = NoNotice | CouldNotSave | RowNotFound | CouldNotDelete

  class Dashboard {
    /** `totalStats`; the page never calls its setter. */
    const stats: Stats
    var bump: map<Key, int>
    var log: map<Vaccine, seq<Row>>
    var tilePct: map<Vaccine, Tile>
    var covidNote: string
    var fluNote: string

    /** Every bump key is present and no bump is ever negative, and both
        vaccines have a log and a tile pair. */
    ghost predicate Valid()
      reads this
    {
      && (forall k: Key :: k in bump)
      && (forall k :: k in bump ==> bump[k] >= 0)
      && Covid in log && Flu in log
      && Covid in tilePct && Flu in tilePct
    }

    /** The tile pair of `v` is the one its log's head gives. */
    ghost predicate Consistent(v: Vaccine)
      reads this
    {
      v in log && v in tilePct && tilePct[v] == LatestToPct(log[v])
    }

    constructor (stats: Stats)
      ensures Valid() && this.stats == stats
      ensures bump == map[CovidStaff := 0, CovidResident := 0, FluStaff := 0, FluResident := 0]
      ensures log == map[Covid := [], Flu := []]
      ensures tilePct == map[Covid := ZeroTile, Flu := ZeroTile]
      ensures covidNote == "" && fluNote == ""
      ensures Consistent(Covid) && Consistent(Flu)
    {
      var zero := map[CovidStaff := 0, CovidResident := 0, FluStaff := 0, FluResident := 0];
      forall k: Key
        ensures k in zero
      {
        match k
        case CovidStaff =>
        case CovidResident =>
        case FluStaff =>
        case FluResident =>
      }
      this.stats := stats;
      bump := zero;
      log := map[Covid := [], Flu := []];
      tilePct := map[Covid := ZeroTile, Flu := ZeroTile];
      covidNote, fluNote := "", "";
    }

    /** The base a counter's bump is added to: the COVID counters read
        `active` and `closed`, the influenza counters `lostTime` and
        `outbreak`. With the all-zero `totalStats` every base is 0. */
    function Base(k: Key): (n: nat)
      ensures k == StaffKey(Covid) ==> n == stats.active
      ensures k == ResidentKey(Covid) ==> n == stats.closed
      ensures k == StaffKey(Flu) ==> n == stats.lostTime
      ensures k == ResidentKey(Flu) ==> n == stats.outbreak
      ensures stats == ZeroStats ==> n == 0
    {
      match k
      case CovidStaff => stats.active
      case CovidResident => stats.closed
      case FluStaff => stats.lostTime
      case FluResident => stats.outbreak
    }

    /** The value a counter shows, `base + bump`; never below its base. */
    function Effective(k: Key): (n: int)
      reads this
      requires Valid()
      ensures n >= Base(k) && n >= 0
    {
      Base(k) + bump[k]
    }

    /** The note field of a vaccine. */
    function NoteOf(v: Vaccine): (note: string)
      reads this
    {
      if v == Covid then covidNote else fluNote
    }

    /** The record a submit of `v` sends: the shown counts, which are never
        negative, and the note without surrounding white space. */
    function Payload(v: Vaccine): (p: Submission)
      reads this
      requires Valid()
      ensures p.vaccine == v
      ensures p.staffCount == Effective(StaffKey(v)) && p.residentCount == Effective(ResidentKey(v))
      ensures p.staffCount >= Base(StaffKey(v)) && p.residentCount >= Base(ResidentKey(v))
      ensures p.note == Text.Trim(NoteOf(v))
      ensures p.note == [] || (!Text.IsSpace(p.note[0]) && !Text.IsSpace(p.note[|p.note| - 1]))
    {
      Submission(v, Effective(StaffKey(v)), Effective(ResidentKey(v)), Text.Trim(NoteOf(v)))
    }

    /** `inc(key)`: the bump goes up by exactly one. */
    method Inc(k: Key)
      requires Valid()
      modifies this`bump
      ensures Valid()
      ensures bump == old(bump)[k := old(bump[k]) + 1]
      ensures Effective(k) == old(Effective(k)) + 1
    {
      bump := bump[k := Bump.Step(bump[k], Bump.Up)];
    }

    /** `dec(key)`: the bump goes down by one but not below 0, so the shown
        value never drops below the base. */
    method Dec(k: Key)
      requires Valid()
      modifies this`bump
      ensures Valid()
      ensures bump == old(bump)[k := if old(bump[k]) >= 1 then old(bump[k]) - 1 else 0]
      ensures old(bump[k]) >= 1 ==> Effective(k) == old(Effective(k)) - 1
      ensures old(bump[k]) == 0 ==> Effective(k) == Base(k)
    {
      bump := bump[k := Bump.Step(bump[k], Bump.Down)];
    }

    /** `setAbs(k, base)(val)`: the bump becomes `max(0, val - base)`; with
        the counter's own base the shown value becomes `max(base, val)`. */
    method SetAbs(k: Key, base: int, val: int)
      requires Valid()
      modifies this`bump
      ensures Valid()
      ensures bump == old(bump)[k := Bump.AbsBump(base, val)]
      ensures base == Base(k) ==> Effective(k) == if val > base then val else base
    {
      bump := bump[k := Bump.AbsBump(base, val)];
    }

    /** A counter's input losing focus: `commit` parses the draft and hands
        the result to `setAbs(k, base)` with the counter's own base.
        Committing the unedited draft, `String(value)`, changes nothing. */
    method CommitDraft(k: Key, draft: string)
      requires Valid()
      modifies this`bump
      ensures Valid()
      ensures bump == old(bump)[k := Bump.AbsBump(Base(k), Draft.Commit(draft))]
      ensures Effective(k) == if Draft.Commit(draft) > Base(k) then Draft.Commit(draft) else Base(k)
      ensures stats == ZeroStats ==> Effective(k) == Draft.Commit(draft)
      ensures draft == Draft.ShowNat(old(Effective(k))) ==> bump == old(bump)
    {
      ghost var shown := Effective(k);
      ghost var b := bump[k];
      var v := Draft.Commit(draft);
      SetAbs(k, Base(k), v);
      if draft == Draft.ShowNat(shown) {
        Draft.CommitShown(shown);
        Bump.AbsBumpOfShown(Base(k), b);
        assert bump == old(bump)[k := b];
      }
    }

    /** Typing into a note field. */
    method SetNote(v: Vaccine, text: string)
      requires Valid()
      modifies this`covidNote, this`fluNote
      ensures Valid()
      ensures NoteOf(v) == text && NoteOf(Other(v)) == old(NoteOf(Other(v)))
    {
      if v == Covid {
        covidNote := text;
      } else {
        fluNote := text;
      }
    }

    /** `submitCovid` / `submitFlu`. The payload is read from the current
        state; on success the stored row is prepended to the log, the tile
        pair is set from that row with a cap at 100 and the note is cleared.
        On failure nothing changes. The bumps are never touched. */
    method Submit(v: Vaccine, outcome: InsertOutcome) returns (sent: Submission, notice: Notice)
      requires Valid()
      modifies this`log, this`tilePct, this`covidNote, this`fluNote
      ensures Valid()
      ensures sent == old(Payload(v))
      ensures outcome.Inserted? ==>
        && log == old(log)[v := [outcome.row] + old(log[v])]
        && tilePct == old(tilePct)[v := RowTile(outcome.row)]
        && NoteOf(v) == "" && NoteOf(Other(v)) == old(NoteOf(Other(v)))
        && Consistent(v)
        && notice == NoNotice
      ensures outcome.Inserted? && outcome.row.staffCount == sent.staffCount
                && outcome.row.residentCount == sent.residentCount ==>
        tilePct[v] == Tile(Pct(sent.staffCount as real, StaffTotal as real),
                           Pct(sent.residentCount as real, ResidentTotal as real))
      ensures outcome.InsertFailed? ==>
        && log == old(log) && tilePct == old(tilePct)
        && covidNote == old(covidNote) && fluNote == old(fluNote)
        && notice == CouldNotSave
    {
      sent := Payload(v);
      match outcome {
        case InsertFailed =>
          notice := CouldNotSave;
        case Inserted(row) =>
          log := log[v := [row] + log[v]];
          tilePct := tilePct[v := RowTile(row)];
          if v == Covid {
            covidNote := "";
          } else {
            fluNote := "";
          }
          notice := NoNotice;
          if row.staffCount == sent.staffCount && row.residentCount == sent.residentCount {
            LatestToPctIsPct(log[v]);
          }
      }
    }

    /** `handleDelete(vaccine, row)`. A row `isDbRow` rejects is dropped
        locally with no call to the store; otherwise the store is asked and
        the row is dropped only if it reports a deletion. Dropping removes
        every entry with the row's id and recomputes the tile pair from the
        new head. The other vaccine is never touched. */
    method HandleDelete(v: Vaccine, row: Row, outcome: DeleteOutcome) returns (called: bool, notice: Notice)
      requires Valid()
      modifies this`log, this`tilePct
      ensures Valid()
      ensures called == IsDbRow(row)
      ensures !called || outcome.Deleted? ==>
        && log == old(log)[v := RemoveId(old(log[v]), row.id)]
        && tilePct == old(tilePct)[v := LatestToPct(log[v])]
        && Consistent(v)
        && notice == NoNotice
      ensures called && !outcome.Deleted? ==> log == old(log) && tilePct == old(tilePct)
      ensures called && outcome.NothingDeleted? ==> notice == RowNotFound
      ensures called && outcome.DeleteFailed? ==> notice == CouldNotDelete
      ensures (!called || outcome.Deleted?) && old(log[v]) != [] && old(log[v])[0].id != row.id ==>
        tilePct[v] == LatestToPct(old(log[v]))
    {
      called := IsDbRow(row);
      if called && !outcome.Deleted? {
        notice := if outcome.NothingDeleted? then RowNotFound else CouldNotDelete;
        return;
      }
      var before := log[v];
      var nextList := RemoveId(before, row.id);
      tilePct := tilePct[v := LatestToPct(nextList)];
      log := log[v := nextList];
      notice := NoNotice;
      if before != [] && before[0].id != row.id {
        RemoveIdKeepsHead(before, row.id);
      }
    }

    /** The mount effect: the two logs are fetched first and stored, then
        the two latest rows, from which the tile pairs are set without any
        cap. A failure in either step stops there, logged and swallowed. */
    method Load(outcome: LoadOutcome)
      requires Valid()
      modifies this`log, this`tilePct
      ensures Valid()
      ensures outcome.LogsFailed? ==> log == old(log) && tilePct == old(tilePct)
      ensures outcome.LatestFailed? ==>
        log == map[Covid := outcome.covidLogs, Flu := outcome.fluLogs] && tilePct == old(tilePct)
      ensures outcome.Loaded? ==>
        && log == map[Covid := outcome.covidLogs, Flu := outcome.fluLogs]
        && tilePct == map[Covid := LoadedTile(outcome.covidLatest), Flu := LoadedTile(outcome.fluLatest)]
      ensures outcome.Loaded? && outcome.covidLogs == [] && outcome.covidLatest.None? ==>
        tilePct[Covid] == ZeroTile
      ensures outcome.Loaded? && outcome.covidLogs != []
                && outcome.covidLatest == Some(outcome.covidLogs[0])
                && outcome.covidLogs[0].staffCount <= StaffTotal
                && outcome.covidLogs[0].residentCount <= ResidentTotal ==>
        Consistent(Covid)
      ensures outcome.Loaded? && outcome.fluLogs != []
                && outcome.fluLatest == Some(outcome.fluLogs[0])
                && outcome.fluLogs[0].staffCount <= StaffTotal
                && outcome.fluLogs[0].residentCount <= ResidentTotal ==>
        Consistent(Flu)
    {
      match outcome {
        case LogsFailed =>
        case LatestFailed(covidLogs, fluLogs) =>
          log := map[Covid := covidLogs, Flu := fluLogs];
        case Loaded(covidLogs, fluLogs, covidLatest, fluLatest) =>
          log := map[Covid := covidLogs, Flu := fluLogs];
          tilePct := map[Covid := LoadedTile(covidLatest), Flu := LoadedTile(fluLatest)];
          if covidLogs != [] && covidLogs[0].staffCount <= StaffTotal && covidLogs[0].residentCount <= ResidentTotal {
            LoadedTileWithinTotals(covidLogs[0], covidLogs[1..]);
            assert [covidLogs[0]] + covidLogs[1..] == covidLogs;
          }
          if fluLogs != [] && fluLogs[0].staffCount <= StaffTotal && fluLogs[0].residentCount <= ResidentTotal {
            LoadedTileWithinTotals(fluLogs[0], fluLogs[1..]);
            assert [fluLogs[0]] + fluLogs[1..] == fluLogs;
          }
      }
    }
  }
}
