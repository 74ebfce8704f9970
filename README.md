# Vaccination dashboard: client-side state, modelled in Dafny

The Dashboard page of the VaccinationTracker app shows two pairs of coverage
tiles (COVID and influenza, each for staff and residents). It also shows four
stepper counters, a note field per vaccine, and a deletable submission log per
vaccine. Everything else in the page is markup; this project models the state
logic behind it:

- **Counters.** `inc`, `dec` and `setAbs` update a map of four "bumps". A
  counter shows `base + bump`, where the bases come from `totalStats`. Module
  `Bump` holds the arithmetic; the methods are on class `Page.Dashboard`.
- **Draft commit.** `MiniCounter.commit` turns the typed text into the value
  given to `setAbs`. It keeps only digits and `-`, applies `Number(...)`, and
  floors the result at 0; NaN gives 0. This is module `Draft`.
- **Percentages.** `TOTAL`, `pct` and `latestToPct` are module `Percent`.
  Percentages are exact `real`s.
- **Log and tiles.** `submitCovid`/`submitFlu`, `isDbRow`, `handleDelete` and
  the mount effect work on the per-vaccine log and tile pairs. They are the
  methods `Submit`, `HandleDelete` and `Load` of `Page.Dashboard`. Row shapes
  and the filter by id are in module `Rows`.
- **Note trim.** The note is trimmed before it is sent (`String.prototype.trim`).
  This is module `Text`.

The calls to the submission store (`insertSubmission`, `deleteSubmission`,
`fetchSubmissions`, `fetchLatest`) are not code here. Each handler takes the
outcome the call delivers as a parameter (`InsertOutcome`, `DeleteOutcome`,
`LoadOutcome`). The alerts a handler raises are returned as a `Notice`.

The class keeps one invariant, `Valid()`: all four bump keys are present, no
bump is ever negative, and both vaccines have a log and a tile pair. Every method preserves it, and the constructor
establishes it from the all-zero start. `Consistent(v)` says that the tile pair
of `v` is the one `latestToPct` gives for the head of `v`'s log. A successful
submit and every delete that changes the log establish it.

Some behaviours of the code are easy to misread; the model keeps them as
written:

- `dec` floors the bump at 0, not the shown value.
- `setAbs` stores `max(0, val - base)`, so the shown value becomes
  `max(base, val)`, not `max(0, val)`. The two agree because the bases are
  always 0: `setTotalStats` is never called.
- A successful submit does not reset the bumps.
- `latestToPct` caps at 100 but has no lower clamp. The mount effect computes
  the tiles with no clamp at all, so a stored count above its total shows more
  than 100% after a reload. `Percent.LoadedTileExceedsCap` exhibits this.
- The mount effect stores the fetched logs before it fetches the latest rows.
  If only that second fetch fails, the logs are updated and the tiles are not.
- `isDbRow` treats a row as stored when it has a date, a non-zero count, or a
  long string id together with a creation stamp. So a row without those is
  deleted locally with no store call, whatever its origin.

## Model

| member | source | states |
|---|---|---|
| `Rows.IsDbRow` | src/Pages/Dashboard.jsx:284-288 | a row is stored if and only if it has a submission date, a non-zero count, or a string id of at least 32 characters with a creation stamp; a row it rejects has zero counts and no date |
| `Rows.RemoveId` | src/Pages/Dashboard.jsx:294 | filtering by id keeps exactly the entries with a different id (membership both ways), never grows the list, and leaves no entry with that id |
| `Rows.RemoveIdAppend` | src/Pages/Dashboard.jsx:309 | the filter distributes over concatenation, so survivors keep their relative order |
| `Rows.RemoveIdAbsent` | src/Pages/Dashboard.jsx:294 | a list with no entry carrying the id is returned unchanged |
| `Rows.RemoveIdIdempotent` | src/Pages/Dashboard.jsx:309 | filtering the same id twice equals filtering once |
| `Rows.RemoveIdShrinks` | src/Pages/Dashboard.jsx:294 | the list gets shorter if and only if some entry carried the id |
| `Rows.RemoveIdKeepsHead` | src/Pages/Dashboard.jsx:309-310 | when the head does not carry the id it stays the head, so the recomputed tile comes from the same row |
| `Percent.Pct` | src/Pages/Dashboard.jsx:21-22 | 0 for a zero denominator; always in [0, 100]; 0 for a non-positive numerator, 100 from the denominator up, and the exact ratio times 100 in between |
| `Percent.Capped` | src/Pages/Dashboard.jsx:276-279 | `min(100, count/total*100)`: never above 100, 100 from the total up, the exact ratio below it, negative for a negative count (no lower clamp) |
| `Percent.RowTile` | src/Pages/Dashboard.jsx:233-239 | the tile pair set from a submitted row is at most 100 in each field, and non-negative for non-negative counts |
| `Percent.LatestToPct` | src/Pages/Dashboard.jsx:273-281 | zeros for an empty log; each field at most 100 |
| `Percent.TileOfTenAndFive` | src/Pages/Dashboard.jsx:236-237 | a row of 10 staff and 5 residents gives 1000/292 % and 500/192 % |
| `Percent.LatestToPctHeadOnly` | src/Pages/Dashboard.jsx:273-281 | the result depends only on the first row |
| `Percent.CappedIsPct` | src/Pages/Dashboard.jsx:20-22 | for non-negative counts the capped formula equals `pct` |
| `Percent.LatestToPctIsPct` | src/Pages/Dashboard.jsx:273-281 | a head with non-negative counts gives `pct` of its counts, each field in [0, 100] |
| `Percent.LoadedTile` | src/Pages/Dashboard.jsx:195-210 | the loaded tile is zeros for no latest row and otherwise exactly count*100/total, with no cap |
| `Percent.LoadedTileWithinTotals` | src/Pages/Dashboard.jsx:195-210 | within the totals, the loaded tile equals `latestToPct` of a log headed by the same row |
| `Percent.LoadedTileExceedsCap` | src/Pages/Dashboard.jsx:197-199 | a stored staff count of 300 loads as more than 100% but gives 100% through `latestToPct` |
| `Bump.Step` | src/Pages/Dashboard.jsx:39-41 | a plus press adds exactly 1; a minus press subtracts 1 from a bump of at least 1 and otherwise gives 0 |
| `Bump.Presses` | src/Pages/Dashboard.jsx:39-41 | a run of `inc`/`dec` presses applied in order; from a non-negative bump each press moves it by at most one, so it ends at most the start plus the number of presses |
| `Bump.Net` | src/Pages/Dashboard.jsx:39-41 | plus presses minus minus presses, the change without the floor, lies between minus and plus the run length |
| `Bump.PressesNonNegative` | src/Pages/Dashboard.jsx:39-41 | from a non-negative bump no run of presses makes it negative |
| `Bump.PressesAtLeastNet` | src/Pages/Dashboard.jsx:40-41 | after any run the bump is at least the start plus (plus presses minus minus presses) |
| `Bump.PressesUp` | src/Pages/Dashboard.jsx:39 | n plus presses add exactly n |
| `Bump.PressesDown` | src/Pages/Dashboard.jsx:40-41 | n minus presses from b >= 0 leave max(0, b - n) |
| `Bump.AbsBump` | src/Pages/Dashboard.jsx:42-43 | the stored bump is non-negative and base plus bump is max(base, val) |
| `Bump.AbsBumpOfShown` | src/Pages/Dashboard.jsx:42-43 | setting the value a counter already shows leaves its bump unchanged |
| `Text.TrimStart` | src/Pages/Dashboard.jsx:225 | the result is a suffix of the input, only white space was dropped, and it does not start with white space |
| `Text.TrimEnd` | src/Pages/Dashboard.jsx:253 | the result is a prefix of the input, only white space was dropped, and it does not end with white space |
| `Text.Trim` | src/Pages/Dashboard.jsx:225 | the trimmed note is no longer than the input and has no white space at either end |
| `Text.TrimSlice` | src/Pages/Dashboard.jsx:225 | the trimmed note is a contiguous piece `s[i..j]` of the note, and everything before `i` and from `j` on is white space |
| `Text.TrimTrimmed` | src/Pages/Dashboard.jsx:253 | a string without white space at its ends is its own trim |
| `Text.TrimIdempotent` | src/Pages/Dashboard.jsx:225 | trimming twice equals trimming once |
| `Draft.Sanitise` | src/Pages/Dashboard.jsx:78 | the sanitised draft holds only digits and `-`; a character is in it if and only if it was in the draft and is a digit or `-`; an already clean draft is unchanged |
| `Draft.SanitiseAppend` | src/Pages/Dashboard.jsx:78 | sanitising distributes over concatenation |
| `Draft.ShowNat` | src/Pages/Dashboard.jsx:70 | `String(value)` of a non-negative value is a non-empty string of digits |
| `Draft.DigitsValueShowNat` | src/Pages/Dashboard.jsx:70 | reading the digits of `String(n)` back gives n |
| `Draft.ShowInt` | src/Pages/Dashboard.jsx:70 | `String(n)` is non-empty, starts with `-` exactly when n is negative, and is all digits otherwise |
| `Draft.ParseSanitised` | src/Pages/Dashboard.jsx:78 | `Number` of a clean draft is NaN if and only if it is a lone `-` or has a `-` after its first character; the result is non-negative without a leading `-` and non-positive with one |
| `Draft.ParseShowInt` | src/Pages/Dashboard.jsx:70-78 | printing any integer and parsing it back gives the integer |
| `Draft.FromSanitised` | src/Pages/Dashboard.jsx:79-80 | a positive committed value needs a non-zero digit in the clean draft |
| `Draft.Commit` | src/Pages/Dashboard.jsx:77-81 | the committed value is a natural number, positive only if the draft holds a non-zero digit |
| `Draft.CommitShown` | src/Pages/Dashboard.jsx:70-81 | committing the unedited draft `String(value)` gives value |
| `Draft.CommitNegative` | src/Pages/Dashboard.jsx:79 | committing a negative number gives 0 |
| `Draft.CommitShownInt` | src/Pages/Dashboard.jsx:77-81 | committing any printed integer n gives max(0, n) |
| `Draft.CommitIgnoresNoise` | src/Pages/Dashboard.jsx:78 | inserting a character other than a digit or `-` anywhere does not change the committed value |
| `Draft.CommitInnerMinus` | src/Pages/Dashboard.jsx:78-80 | a `-` after the first digit or `-` makes the draft NaN, so it commits as 0 |
| `Draft.CommitEdgeCases` | src/Pages/Dashboard.jsx:77-81 | "" commits as 0, "-" as 0 and "5-3" as 0 |
| `Draft.Zeros` | src/Pages/Dashboard.jsx:70 | a string of n zero digits, as a user gets by typing after the initial draft "0" |
| `Draft.LeadingZero` | src/Pages/Dashboard.jsx:78 | one leading zero leaves a digit string's value unchanged |
| `Draft.LeadingZeros` | src/Pages/Dashboard.jsx:78 | any number of leading zeros leave a digit string's value unchanged |
| `Draft.DigitsSanitised` | src/Pages/Dashboard.jsx:78 | a digit string, with or without a leading `-`, passes the sanitiser unchanged |
| `Draft.ZeroPadded` | src/Pages/Dashboard.jsx:70-78 | `String(n)` with zeros in front is still a digit string of value n |
| `Draft.CommitLeadingZeros` | src/Pages/Dashboard.jsx:77-81 | a draft of zeros followed by `String(n)` commits as n |
| `Draft.ParseMinusDigits` | src/Pages/Dashboard.jsx:78-80 | `Number` of a `-` followed by a non-empty digit string is minus the digits' value |
| `Draft.CommitMinus` | src/Pages/Dashboard.jsx:78-80 | a clean draft that starts with `-` commits as 0, whatever follows |
| `Draft.CommitMinusLeadingZeros` | src/Pages/Dashboard.jsx:77-81 | a `-` followed by zeros and `String(n)` is a clean draft that commits as 0 (that it parses as -n is `ParseMinusDigits` with `ZeroPadded`) |
| `Draft.CommitTypedExamples` | src/Pages/Dashboard.jsx:77-81 | "05" commits as 5 and "-05" as 0 |
| `Page.Dashboard.constructor` | src/Pages/Dashboard.jsx:26-165 | the initial state: the given `totalStats` (:26-31), all bumps 0 (:33-38), both tile pairs zero (:45-48), both logs empty and both notes empty (:163-165); `Valid` and `Consistent` hold |
| `Page.Dashboard.Base` | src/Pages/Dashboard.jsx:51-54 | the COVID staff and resident counters add to `active` and `closed`, the influenza ones to `lostTime` and `outbreak`; with the all-zero `totalStats` every base is 0 |
| `Page.Dashboard.Effective` | src/Pages/Dashboard.jsx:57-60 | the shown value is never below its base and never negative |
| `Page.Dashboard.Payload` | src/Pages/Dashboard.jsx:221-227 | the submitted record is for the right vaccine, its counts are the values the two counters show (so at least their bases), and its note is the trimmed note, with no white space at its ends |
| `Page.Dashboard.Inc` | src/Pages/Dashboard.jsx:39 | only `bump[k]` changes, by exactly +1; the shown value rises by 1; the invariant holds |
| `Page.Dashboard.Dec` | src/Pages/Dashboard.jsx:40-41 | only `bump[k]` changes, to max(0, bump[k] - 1); the shown value drops by 1 or stays at the base |
| `Page.Dashboard.SetAbs` | src/Pages/Dashboard.jsx:42-43 | only `bump[k]` changes, to max(0, val - base); with the counter's own base the shown value becomes max(base, val) |
| `Page.Dashboard.CommitDraft` | src/Pages/Dashboard.jsx:354-367 | blur sets the shown value to max(base, commit(draft)), which is commit(draft) with zero bases; an unedited draft changes nothing |
| `Page.Dashboard.SetNote` | src/Pages/Dashboard.jsx:372-377 | the note of v becomes the typed text, the other note is unchanged, and the invariant holds |
| `Page.Dashboard.Submit` | src/Pages/Dashboard.jsx:218-270 | sends the current payload; on success it prepends the row, sets the tile pair from it (equal to `latestToPct` of the new log, and to `pct` of the sent counts when the store echoes them), clears v's note and leaves the other vaccine alone; on failure nothing changes; bumps never change |
| `Page.Dashboard.HandleDelete` | src/Pages/Dashboard.jsx:290-317 | calls the store exactly when `isDbRow` holds; a local row, or a stored one the store reports deleted, is filtered out by id and v's tile pair recomputed from the new head; false or an error changes nothing and gives the matching notice; the other vaccine is never touched |
| `Page.Dashboard.Load` | src/Pages/Dashboard.jsx:180-215 | failed logs change nothing; logs without latest rows replace the logs only; a full load replaces logs and tiles with the uncapped ratios, zeros for no data, consistent with the log head within the totals |

## Left out

- `src/lib/vaxDB.js` is not part of this model. Its four functions wrap a hosted-table client and do network I/O. The model keeps only their outcomes: an inserted row or an error, true/false/an error for delete, and the fetched lists and latest rows for the mount effect.
- The stored `date_submitted` default (the client's local date) is set inside `vaxDB.js` and is left out for the same reason.
- Concurrency: `Promise.all`, and user actions taken while a call is pending, are not modelled. Each handler runs to completion, and the mount effect takes what both fetches delivered.
- React's updater functions (`setBump((b) => …)`, the `setTilePct` call nested in the `setLog` updater) are modelled as plain sequential assignments.
- `alert`, `confirm` and `console.error` are side effects. The alerts are returned as a `Notice`. The `confirm` dialog before a delete is outside `handleDelete` and left out.
- Floating point: percentages are exact reals. `fmtPct` (rounding to one decimal and `toFixed`) is presentation and left out.
- `Draft.ParseSanitised` models `Number(...)` only on sanitised strings, the only strings `commit` gives it. Digit strings long enough to parse to `Infinity` (which commits as 0) or to lose precision are not modelled, so `Math.round` is the identity here.
- Draft.CommitShown: holds in JavaScript only for values below 1e21. `String(n)` prints larger values in exponent form (`"1e+21"`), which the sanitiser turns into other digits (`"121"`), whereas `Draft.ShowNat` always prints plain digits.
- The draft's own state in `MiniCounter` (`useState` and the effect that re-syncs it with the value) is not a field. `CommitDraft` takes the draft text as a parameter.
- `Rows.IsDbRow` counts string length in characters, where JavaScript counts UTF-16 code units. Row ids are modelled as a string, an integer, or missing, and counts and text fields as integers and strings, with 0 and "" standing for null or missing. That is exact for `isDbRow`, where all of them are falsy, and for a null count in the percentages, which divides to 0. A missing count would divide to NaN in `latestToPct`; the model gives 0 there. Every row the store delivers has both count columns, so this case does not arise.
- Presentation: JSX markup, `useCountUp` (animation on `requestAnimationFrame`), `fmtDateOnly` (locale dates), the `drill` selection, the unused chart imports and `PALETTE` have no state logic and are left out.
- Text.Trim: its own contract states only that the result has no white space at its ends. That it is the note with only outer white space removed is the lemma `Text.TrimSlice`, kept apart because the slice reasoning is costly inside the function's contract.
