# pairtache — a verified model of the matcher, the ledger and the client logic

pairtache pairs interns ("workers") with tasks proposed by department chiefs.
A Flask server (`server.py`) keeps workers, chiefs, availability periods,
proposed tasks and task assignments in SQLite. It exposes create/list/delete
endpoints, a task update, the assignment confirm/cancel endpoints and one
matching endpoint. The matching endpoint scores every worker against every
pending task and proposes the best three. A browser client (`app.js`) parses
the forms, normalises the matching response, and filters the worker
directory.

The model describes:

- The database as an immutable value (`Store`). It has five tables. Each
  table is a sequence of rows in rowid order plus an `AUTOINCREMENT`-style
  counter. Row order is kept rather than an id-keyed map, because the
  matcher's tie order is the order in which it reads the workers table.
- The comma-joined skills column and its round trip (`SkillsCodec`, built on
  `Text`).
- Every write handler as a transition on the database (`Ledger`), and every
  endpoint as one request/response step (`Api`).
- `match_tasks`: scoring, the availability and booking tests, stable
  ranking and the top-three cut (`Matcher`, `Ranking`). Its promises are
  restated directly over the tables (`MatchProperties`).
- How the unguarded handlers combine (`LedgerProperties`).
- The client's skills parser, directory filter and drop-down options
  (`Client`).
- The client's normalisation of the matching response (`Wire`).

Dates are day numbers. The server compares ISO `YYYY-MM-DD` strings, which
order the same way as the days they name. Scores are exact `real`s.

The server's rules, which the model follows:

- skills are worth 30 points times the fraction of the required skills the
  worker has (server.py:434-437);
- a task with no required skills gives 0 skill points (server.py:435);
- department points (30) need a non-empty required department equal to the
  worker's (server.py:440-441);
- availability is a flat 40 points for the first covering period, when no
  `assigned` booking of the worker conflicts with the task (server.py:443-460);
- only workers who earn the availability points become candidates, and a
  proposal keeps the top 3 of them (server.py:462-482);
- confirming checks neither the task's status nor the worker's bookings
  (server.py:327-349);
- cancelling an unknown assignment changes nothing and reports success
  (server.py:351-375);
- no delete cascades: the connection never switches SQLite's foreign keys
  on (server.py:97-101), so the schema's `ON DELETE CASCADE` clauses do
  nothing.

## Model

| member | source | states |
|---|---|---|
| SkillsCodec.EncodeDecode | server.py:121 | storing the list read back from any column reproduces that column exactly |
| SkillsCodec.DecodeEncode | server.py:133 | a skill list survives `','.join` and the `split(',')` read-back exactly when no element holds a comma and it is not `[""]` (both directions) |
| SkillsCodec.EmptyListRoundTrip | server.py:263 | the empty list is stored as the empty string, which reads back as the empty list |
| SkillsCodec.BlankSkillIsLost | server.py:251 | the list `[""]` is stored as the empty string and reads back as `[]` |
| SkillsCodec.Decode | server.py:251 | an empty column reads as no skills; otherwise as one more piece than it has commas, no piece holding a comma |
| Text.Split | server.py:121 | `split(',')` gives one more piece than there are separators, none containing the separator |
| Text.JoinSplit | server.py:133 | joining the pieces of a split restores the string |
| Text.SplitJoin | server.py:121 | splitting a join of separator-free pieces restores the list |
| Text.Trim | app.js:249 | the result of `trim` has no white space at either end |
| Text.TrimSlice | app.js:249 | `trim` returns a contiguous piece of its input |
| Text.TrimCutsSpace | app.js:249 | everything `trim` cuts off either end is white space |
| Text.TrimUntouched | app.js:429 | a string with no white space at either end is its own trim |
| Text.TrimIdempotent | app.js:258 | trimming twice is trimming once |
| Text.TrimKeepsCount | app.js:258 | trimming the input keeps every comma |
| Text.TrimAllTrimmed | app.js:258 | every trimmed piece is its own trim, and pieces without a comma stay without one |
| Text.TrimInside | app.js:258 | trimming never introduces a character the string did not hold |
| Store.Insert | server.py:133-139 | an `INSERT` appends the record under the next id, which a valid table does not yet hold; every other id looks up as before |
| Store.DeleteId | server.py:284 | a `DELETE ... WHERE id = ?` removes exactly the rows with that id; other ids look up as before |
| Store.DeleteWhere | server.py:152 | a `DELETE ... WHERE` keeps exactly the rows satisfying the condition, in order |
| Store.UpdateId | server.py:298-299 | an `UPDATE ... WHERE id = ?` rewrites only the row with that id; order and ids stay |
| Store.LookupUnique | server.py:358-359 | in a valid table the row carrying an id is the one `fetchone` finds |
| Store.LookupMember | server.py:358-359 | in a valid table every stored row is what a lookup of its id finds |
| Store.EmptyDb | server.py:14-95 | the freshly initialised database is well formed |
| Ledger.WorkerRecord | server.py:133-137 | name and phone number are stored as sent; a sent department or email is stored as sent, an absent one as the empty string; the skills column is always the sent list (or the empty list) joined with commas, so storable skills read back unchanged |
| Ledger.CreateWorker | server.py:126-143 | one new worker row under the table's next id, which no row holds yet, and the counter moves on; no other table changes |
| Ledger.DeleteWorker | server.py:145-158 | removes the worker and exactly that worker's periods; both counters stay; assignments and tasks stay |
| Ledger.CreateChief | server.py:171-187 | one new chief row under the table's next id, with the documented defaults, and the counter moves on |
| Ledger.DeleteChief | server.py:189-198 | removes only the chief row, and the counter stays; the chief's tasks stay |
| Ledger.CreateAvailability | server.py:211-227 | one new period row under the table's next id, and the counter moves on; the worker id is not checked |
| Ledger.DeleteAvailability | server.py:229-238 | removes only the period row, and the counter stays |
| Ledger.TaskRecord | server.py:263-271 | a new task is pending with no matched worker; chief, chief name, title and dates are stored as sent; description, department, priority and estimated days are stored as sent, or take their defaults when absent; the required-skills column is always the sent list (or the empty list) joined with commas |
| Ledger.CreateTask | server.py:256-277 | one new pending task row under the table's next id, and the counter moves on |
| Ledger.DeleteTask | server.py:279-288 | removes only the task row, and the counter stays; its assignments stay |
| Ledger.UpdateTask | server.py:290-308 | a `status` key sets the status; a `matched_worker_id` key sets the worker and forces `matched`, overriding the status; an unknown id changes nothing; the counter stays |
| Ledger.AssignmentRecord | server.py:333-338 | the stored assignment is `assigned`, with the given score or 0 when none is sent |
| Ledger.MarkAssigned | server.py:341-343 | a confirmed task is `assigned` to the worker and otherwise unchanged |
| Ledger.MarkPending | server.py:367-369 | a cancelled task is `pending` with no matched worker and otherwise unchanged |
| Ledger.Confirm | server.py:327-349 | appends exactly one `assigned` assignment under the next id, and the counter moves on; marks the task assigned to the worker, whatever its status; an unknown task gets its assignment anyway |
| Ledger.Cancel | server.py:351-375 | an existing assignment is removed alone and its task reset to pending; an unknown id changes nothing; no counter moves |
| Ledger.CancelIdempotent | server.py:351-375 | a second cancel of the same id changes nothing |
| Api.ViewWorker | server.py:111-124 | a listed worker shows its id, name, department, phone number and email as stored, and the stored skill column decoded |
| Api.ViewTask | server.py:241-254 | a listed task shows its id and stored columns, and the stored required-skills column decoded |
| Api.JoinAssignments | server.py:311-325 | an assignment is listed exactly when both its task and its worker exist, with the task's title, description and priority and the worker's name |
| Api.Apply | server.py:105-486 | the matching run and the listings change no table; no endpoint breaks id uniqueness or order, or moves a counter back |
| Api.Write | server.py:126-399 | no writing endpoint breaks id uniqueness or order, or moves a counter back |
| Api.Create | server.py:126-399 | no creating endpoint breaks id uniqueness or order, or moves a counter back |
| Api.Change | server.py:145-375 | no deleting or updating endpoint breaks id uniqueness or order, or moves a counter back |
| Api.Run | server.py:105-486 | any sequence of requests keeps the database well formed and never moves a counter back |
| Api.WorkerCreatedAtNext | server.py:126-143 | a new worker is reported under the workers table's next id |
| Api.NoWorkerIdReused | server.py:126-143 | whatever requests ran in between, a new worker never gets the id of a worker held earlier, deleted or not |
| Api.CreatedSkillsListBack | server.py:121 | a worker created with a storable skill list is listed with exactly that list |
| Matcher.SkillPoints | server.py:434-437 | skill points lie in [0, 30]; they are 0 exactly when no required skill is held (or none is required), and 30 exactly when all of a non-empty requirement is held |
| Matcher.Fraction | server.py:436 | the share of required skills held lies in [0, 1], and is 0 or 1 exactly when none or all are held |
| Matcher.SkillPointsMonotonic | server.py:436 | more worker skills never lower the skill points |
| Matcher.SkillPointsGainRequired | server.py:435-437 | with n required skills, each required skill the worker gains adds exactly 30/n points, so the points are 30 times the share of required skills held |
| Matcher.SkillPointsIgnoreOther | server.py:436 | a skill that is not required leaves the skill points unchanged |
| Matcher.DepartmentPoints | server.py:440-441 | 30 points exactly when the task names a department and the worker is in it, otherwise 0 |
| Matcher.Conflicts | server.py:454 | windows sharing a day conflict, touching end dates included; for windows that are not back to front a conflict means a shared day |
| Matcher.TakeSnapshot | server.py:409-421 | the matcher reads exactly the pending tasks in order, all workers, all periods and the `assigned` assignments |
| Matcher.FirstCovering | server.py:444-448 | finds a covering period of the worker exactly when one exists |
| Matcher.Free | server.py:450-456 | a worker is free exactly when none of their booked assignments conflicts with the task |
| Matcher.HasAvailability | server.py:443-460 | the availability points are earned exactly when some period covers the task and no booking conflicts |
| Matcher.Score | server.py:434-458 | an available worker scores between 40 and 100 |
| Matcher.MakeCandidate | server.py:462-471 | a candidate carries the task id and title and the worker's id, name, department and skills, with a score in [40, 100] |
| Matcher.CandidateSource | server.py:462-471 | every candidate comes from a worker who earns the availability points |
| Matcher.CandidateComplete | server.py:443-471 | every worker who earns the availability points is a candidate |
| Matcher.CandidatesInWorkerOrder | server.py:430-471 | candidates come in the workers' order: a split worker list gives the first part's candidates before the second part's |
| Matcher.CandidatesOfOne | server.py:462-471 | one worker contributes its candidate exactly when it earns the availability points, and nothing otherwise |
| Matcher.Proposal | server.py:475-482 | a proposal has at most three candidates, and all of them when there are fewer |
| Matcher.MatchSource | server.py:478-482 | each match pairs an input task with its non-empty proposal |
| Matcher.MatchComplete | server.py:478-482 | a task appears among the matches exactly when its proposal is non-empty |
| Matcher.MatchTasks | server.py:486 | `count` is the number of matches |
| MatchProperties.BookableIsEligible | server.py:443-460 | the matcher's availability test is the direct statement over the tables |
| MatchProperties.MatchesArePending | server.py:409 | every match is a pending task of the database, and `count` is the number of matches |
| MatchProperties.MatchedIffSomeoneEligible | server.py:462-482 | a pending task is matched exactly when some worker has a covering period and no conflicting booking |
| MatchProperties.ProposalNonEmpty | server.py:478-482 | a proposal is non-empty exactly when some worker is eligible |
| MatchProperties.ProposalFromAll | server.py:475-482 | every proposed candidate is one of the task's candidates |
| MatchProperties.CandidateGuarantees | server.py:428-471 | a proposed candidate is an existing worker with a covering period and no conflicting `assigned` booking; its score is skill plus department plus 40 points, in [40, 100] |
| MatchProperties.ProposalRanked | server.py:475-482 | a proposal holds one to three candidates sorted by non-increasing score, as many as three allows; an eligible worker left out scores no more than the last one kept; ties keep worker order |
| Ranking.Insert | server.py:475 | insertion adds exactly one element |
| Ranking.InsertSorted | server.py:475 | inserting into a descending list keeps it descending |
| Ranking.Sort | server.py:475 | the sort is a permutation of its input |
| Ranking.SortSorted | server.py:475 | the sort orders by non-increasing key |
| Ranking.InsertWithKey | server.py:475 | insertion puts the new element first among the elements with its key |
| Ranking.InsertBounded | server.py:475 | insertion keeps every key below a bound the inputs respect |
| Ranking.SortIsStable | server.py:475 | the sort is stable: for each key value its elements keep their input order |
| Ranking.WithKeyAppend | server.py:475 | the elements with a given key in a concatenation are those of each part, in order |
| Ranking.WithKeyPrefix | server.py:478-482 | the top-three cut keeps, for each score, a prefix of the candidates with that score |
| Ranking.TopOfSorted | server.py:478-482 | an element outside the first k of a descending sort has a key no larger than the k-th |
| Ranking.StableSortUnique | server.py:475 | two stable descending sorts of the same list are equal, so the model's sort is Python's |
| Ranking.WithKeyHead | server.py:475 | the head of a list is the first element with its key |
| Ranking.WithKeyMember | server.py:475 | an element with a given key exists when the elements with that key are not empty |
| Ranking.MaxKey | server.py:475 | two stable descending sorts of the same list start with the same key |
| Seqs.Filter | server.py:409 | a selection keeps exactly the satisfying elements |
| Seqs.FilterSpec | server.py:409 | a selection is an order-preserving subsequence as long as the number of satisfying elements |
| Seqs.FilterUnique | app.js:571 | a subsequence of satisfying elements as long as their count is the selection |
| Seqs.SubsequenceLength | app.js:571 | a subsequence of satisfying elements has at most that many elements |
| Seqs.FilterAll | app.js:571 | a condition every element meets keeps the whole list |
| Seqs.CountPositive | app.js:579 | some element satisfies the condition exactly when the count is positive |
| Seqs.Map | server.py:119-122 | a listing has one entry per row, in row order |
| Seqs.FilterAppend | server.py:365 | selecting from a concatenation selects from each part |
| Seqs.FilterMapSource | server.py:462-471 | every entry the loop appends comes from an input element that produced it |
| Seqs.FilterMapFound | server.py:462-471 | every input element that produces an entry has it appended |
| Seqs.FilterMapAppend | server.py:430-471 | the entries of a concatenation are the first part's entries followed by the second part's, so entries keep their elements' order |
| LedgerProperties.ConfirmCancelRoundTrip | server.py:327-375 | confirming a pending unmatched task and cancelling the new assignment restores every table except the assignment counter, and the next matching run proposes the same |
| LedgerProperties.InsertThenDelete | server.py:333-365 | deleting the row an `INSERT` just added restores the table except for its counter |
| LedgerProperties.AssignThenRelease | server.py:341-369 | marking a pending unmatched task assigned and then pending again restores the tasks table |
| LedgerProperties.DoubleConfirm | server.py:327-375 | confirming one task twice keeps two `assigned` assignments; cancelling the first makes the task pending while the second still stands |
| LedgerProperties.ConfirmBlocksWorker | server.py:450-456 | after a confirmation the worker is never proposed for a task whose window shares a day with the confirmed one |
| LedgerProperties.DeletedTaskLeavesOrphan | server.py:279-325 | after `delete_task` the task's assignment stays stored, is missing from the assignments listing, and still keeps its worker out of overlapping proposals |
| LedgerProperties.OrphanStored | server.py:279-288 | `delete_task` leaves the task's confirmed assignment stored under its id |
| LedgerProperties.OrphanUnlisted | server.py:311-325 | that assignment is missing from the assignments listing |
| LedgerProperties.UnlistedWithoutTask | server.py:311-325 | an assignment whose task is gone is missing from the listing |
| LedgerProperties.OrphanBlocks | server.py:450-456 | that assignment still keeps its worker out of every overlapping proposal |
| Client.ParseSkillInput | app.js:249-258 | blank input gives no skills; otherwise commas + 1 entries, each comma-free and its own trim |
| Client.ParsePieces | app.js:258 | a non-blank input parses to the trims of its comma-separated pieces: comma-free pieces whose comma-join is the trimmed input |
| Client.ParsedSkillsSurviveStorage | app.js:362 | every parsed skill list survives the server's comma-joined storage unchanged |
| Client.TypedSkillsListBack | app.js:258 | a worker added from the form is listed with exactly the parsed skills |
| Client.PeriodsOf | app.js:578 | a worker's periods are exactly the listed periods with that worker id |
| Client.FilterWorkers | app.js:563-583 | the shown workers are the order-preserving subsequence of the directory that passes the search, skill, department and availability tests |
| Client.ContainsEmpty | app.js:572 | every name contains the empty search term |
| Client.ClearedFiltersShowAll | app.js:572-580 | with every control cleared every worker is shown, in order |
| Client.AvailableMeansSomePeriod | app.js:576-580 | the `available` option keeps exactly the workers with at least one listed period |
| Client.PrefixStep | app.js:530-537 | each worker adds its skills and its non-empty department to the options |
| Client.FilterOptions | app.js:526-537 | the options list each skill of some worker and each non-empty department exactly once |
| Wire.ToWire | server.py:462-486 | the reply carries both skill columns as the stored strings, one match per match |
| Wire.NormaliseSkills | app.js:426-430 | an array is kept; a falsy value becomes empty; a non-empty string becomes commas + 1 comma-free strings; only another truthy value throws |
| Wire.NormaliseCandidates | app.js:424-431 | candidates are normalised one for one, failing exactly when some `worker_skills` throws |
| Wire.NormaliseMatch | app.js:424-433 | a `candidates` value that is not an array becomes empty |
| Wire.NormaliseAll | app.js:417-434 | matches are normalised one for one; a failure comes from some match |
| Wire.RequiredAsWritten | app.js:419-421 | a `required_skills` array is kept, any other value becomes empty |
| Wire.NormaliseAsWritten | app.js:415-434 | a `matches` field that is not an array becomes empty |
| Wire.Normalise | app.js:415-434 | a `matches` field that is not an array becomes empty |
| Wire.StoredSkillsNormalise | app.js:426-430 | a stored skill string normalises to its decoded, trimmed pieces |
| Wire.RequiredSkillsNeverShown | app.js:419-421 | as written, the server's reply normalises and no match shows a required skill |
| Wire.PythonShown | app.js:429 | the stored column `Python` shows as the one skill `Python` |
| Wire.RequiredSkillsLostExample | app.js:419-421 | a match of a task requiring `Python`, with one candidate, is drawn with that candidate and no required skill |
| Wire.OneMatchSent | server.py:478-486 | a one-match, one-candidate report goes out with both skill columns as stored strings |
| Wire.OneCandidateShown | app.js:424-431 | one candidate normalises to its worker's decoded, trimmed skills |
| Wire.OneMatchNormalised | app.js:417-434 | a one-match list normalises to that match's normalisation |
| Wire.NormaliseShowsStoredSkills | app.js:417-434 | corrected, each match shows its task's stored skills and each candidate its worker's, decoded and trimmed, with matches and candidates kept in order |
| Wire.NormaliseOneMatch | app.js:417-434 | corrected, one match of the reply shows its task's stored skills and each candidate's, one for one |
| Wire.RequiredSkillsShownIffStored | app.js:873-876 | corrected, a task shows required skills exactly when its stored column is non-empty |

## Left out

- Flask routing, the JSON (de)serialisation, SQLite connections and static file serving are plumbing. A request is its decoded body, and a reply is its payload.
- `lastrowid` is modelled as the id the `INSERT` received. The confirm handlers read it after their `UPDATE`, which does not change it.
- Every listing is returned in rowid order. The `ORDER BY created_at DESC` of the worker, chief and task listings, the `ORDER BY start_date` of the availability listing and the `ORDER BY a.start_date` of the assignment listing are not modelled. Timestamps are clock values, which the model does not have.
- The assignments listing shows the joined task and worker fields, not every assignment column.
- Dates are day numbers, so malformed or missing dates are not modelled. Neither is the client's date arithmetic (`formatDateEU`, `formatDate`, `calculateDaysBetween`), which uses JavaScript `Date` and time zones.
- `toLowerCase` is a parameter of `Client.Keep`, not a model of Unicode case mapping.
- JSON `null` and a missing key are one case (`None`) in the forms. The default an absent key takes is modelled; a key sent as `null` is not.
- A request missing a required key (`name`, `task_id`, …) makes the server answer 500. This is not modelled: such forms cannot be built.
- Python's floating-point arithmetic for scores is modelled as exact rationals. JavaScript's `NaN` is not a value of `Wire.Js`.
- When the client's normalisation throws, the model returns the error. The partial in-place mutation JavaScript leaves behind is not modelled, nor is the `alert`.
- The compatibility endpoint `POST /api/assignments` runs the same statements as the confirm endpoint, so `Api.Apply` maps both to `Ledger.Confirm`; only the reply message differs.
- Client.FilterOptions: the order of the options is not stated; the contract gives only which options appear, each once.
- Concurrency is not modelled: handlers run one at a time.
- The schema's `ON DELETE CASCADE` clauses are left out, since foreign keys are never enabled. The DDL itself is left out.
- DOM rendering, modals, tabs, `fetch`, connection status and the hard-coded login are UI and network code.
- `init_db.py` is not part of this model.
- Matcher.Conflicts: for a window with its end before its start, the server's test can report a conflict for windows that share no day. The contract states the shared-day reading only for windows that are not back to front.

## Findings

| source | as written | input that shows it | evidently intended | confidence | as-written member | corrected member |
|---|---|---|---|---|---|---|
| app.js:419-421 | the matching response carries `task.required_skills` as the stored comma-joined string (server.py:462-482), and the client replaces every non-array value with `[]`, so the required-skills tags of the matching view (app.js:873-876) are never drawn | a reply with one match, of a task stored with `required_skills = "Python"`, and one candidate | split the string on commas and trim, as is done for `worker_skills` | not executed | Wire.RequiredSkillsLostExample | Wire.NormaliseShowsStoredSkills |
