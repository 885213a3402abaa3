# Class Representative Online Voting System — a Dafny model

This project models the core of a small Flask/SQLite election site for choosing class representatives.

Students log in with a registration number ("regno") and password. They see the ballot form, one list of candidates per position, and submit one choice per position. Afterwards they see a summary of their ballots and the live results.

The administrator, whose account has the regno `admin`, can do the following:
- see how many students have voted;
- add, rename and delete positions and candidates;
- change the election's title and dates;
- remove a single ballot, with a mandatory remark that goes into the audit log.

`create_schema` seeds a fresh database with a sample election, two positions, three candidates, three students and the admin.

## How the model is built

- **Database.** It is an immutable `Schema.Store`. Each `INTEGER PRIMARY KEY AUTOINCREMENT` table is a `Sql.Table<T>`: rows in rowid order plus the `sqlite_sequence` value. The exception is `elections`: its only row ever read or written is id 1, so it is modelled as `Option<Election>`. Modelled behaviour:
  - a new id is one more than the largest id the table has ever held;
  - `INSERT OR IGNORE` with an explicit id keeps an existing row;
  - `UPDATE … WHERE id = ?` and `DELETE … WHERE id = ?` select rows through a key.
- **INTEGER column affinity.** Form text is stored, and compared with `id = ?`, as an integer when it is a decimal numeral (`Sql.IntegerAffinity`). Any other text stays text and never equals an id. So a ballot or candidate may hold a `position_id` or `candidate_id` that names nothing, and the joins skip it. Foreign keys are declared but not enforced (SQLite's default), so nothing stops such rows.
- **Python semantics** written out in Dafny:
  - `str.strip`, `str.split('_')` and `str.startswith` (module `Text`);
  - dicts as insertion-ordered association lists (module `PyDict`);
  - a posted form as its raw field list, where `request.form.items()` yields the first value of each field name in first-occurrence order (`Voting.FormItems`);
  - a form field is "truthy" when present and non-empty (`Common.Truthy`).
- **Sessions.** The session cookie is `Auth.Session`. Password hashing and checking, the clock and the request method are parameters.

What the model shows about the code, as written:

- Submitting a vote checks neither the voted flag nor earlier ballots. The `/vote` page's guard reads the flag cached in the session, so a second submission adds a second full set of ballots, the results count it, and the ballot summary shows every choice twice (`Voting.DoubleSubmissionDuplicates`, `Tally.DoubleSubmissionCountsTwice`, `Voting.DuplicatedSummaryRepeats`, `Voting.StaleSessionStillShowsForm`).
- A ballot whose `position_id` differs from its candidate's own position is counted nowhere in the results (`Tally.MismatchedBallotIgnored`). The ballot summary still lists it, under the candidate's position (`Voting.BallotSummarySpec`).
- The ballot form is keyed by position NAME, so two positions with the same name show only the candidates of the later one. The results dict appends, so it merges them (`Voting.GroupCandidates`, `Tally.GroupByPositionSpec`).
- Deleting a position leaves its candidates in the table. They drop out of the candidate listing, the ballot form and the results, because all of those join through `positions` (`Admin.DeletedPositionHidesCandidates` for the listing; `Voting.GroupCandidates` and `Tally.TallySound` for the form and the results, whose rows all come from positions still in the table).
- A ballot whose candidate row is gone cannot be deleted by the administrator: `get_vote_by_id` joins through `candidates` (`Admin.OrphanBallotNotFound`).

## Model

| member | source | states |
|---|---|---|
| Text.StripSpec | app.py:331 | `strip()` returns a contiguous piece of the remark that neither starts nor ends with whitespace, and drops only whitespace |
| Text.StripEmptyIff | app.py:331-334 | a stripped remark is empty exactly when the remark is all whitespace, which is when deletion is refused |
| Text.IndexOfSpec | app.py:169 | the search stops at the first occurrence of the separator, or at the end when it is absent |
| Text.SplitFieldsFree | app.py:169 | no field of `split('_')` contains the separator |
| Text.JoinSplit | app.py:169 | joining the fields of a split with the separator gives back the key |
| Text.SplitJoin | app.py:169 | splitting a join of separator-free fields gives back the fields |
| Text.PositionKeyField | app.py:168-169 | for a key starting with `position_`, field 1 of the split is the text after the prefix up to the next underscore |
| Text.DecimalString | app.py:340 | the decimal spelling of a vote id is a digit string without leading zeros |
| Text.DecimalRoundTrip | app.py:340 | reading a decimal spelling back gives the number |
| Text.CanonicalDigitsRoundTrip | app.py:169-170 | a digit string without leading zeros is the spelling of its value |
| PyDict.Put | app.py:154-156 | assigning a dict key replaces the value in place when present, or appends the key; keys stay distinct |
| PyDict.AppendTo | app.py:305-310 | appending to a dict-of-lists entry creates the list on first use and otherwise extends only that key's list |
| PyDict.Dedup | app.py:167 | the distinct elements, each once, none lost |
| Sql.IntegerAffinity | schema.py:54-55 | text is stored as an integer exactly when it is a decimal numeral; otherwise it stays the same text |
| Sql.AffinityOfDecimal | app.py:227 | an id written out in decimal is read back by an INTEGER column as that id |
| Sql.AffinityRoundTrip | schema.py:54-55 | a canonical numeral stored as an integer reads back as the same text |
| Sql.Find | app.py:44-50 | a primary-key lookup finds a row exactly when one has the id, and returns that row's data |
| Sql.NextId | schema.py:33-35 | an AUTOINCREMENT id exceeds every present id and the table's `sqlite_sequence` value |
| Sql.NextIdOfWellFormed | schema.py:33-35 | in a well-formed table the new id is the `sqlite_sequence` value plus one |
| Sql.Insert | app.py:225 | an insert keeps every row and appends one with the data under a fresh id; the table stays well-formed |
| Sql.InsertOrIgnore | schema.py:92-97 | an `INSERT OR IGNORE` on a taken id changes nothing; otherwise it adds exactly that row; ids stay unique |
| Sql.Update | app.py:227 | an UPDATE by key changes the data of exactly the selected rows, in place and under the same ids |
| Sql.Delete | app.py:229 | a DELETE by key keeps exactly the unselected rows; the table stays well-formed |
| Sql.DeleteOne | app.py:58 | in a well-formed table, deleting an existing id removes exactly that one row |
| Schema.CandidatesOf | app.py:156 | a candidate is listed for a position exactly when its `position_id` equals the position's id; scan order kept |
| Schema.SeedStudent | schema.py:105-106 | seeding a student never overwrites an existing regno; a new one starts not voted |
| Schema.SeedStudents | schema.py:100-112 | seeding the roster adds exactly the sample regnos and the admin, and leaves existing students alone |
| Schema.SeedStudentsRecords | schema.py:100-112 | a sample whose regno is new, and first among the samples, gets its own name, course, batch, hashed password and `voted` 0 |
| Schema.SeedAddsSampleStudents | schema.py:100-112 | after seeding, every sample student whose regno was free has exactly the sample's record |
| Schema.SeedPositions | schema.py:92 | positions 1 and 2 exist afterwards, existing rows are kept, and nothing else is added |
| Schema.SeedCandidates | schema.py:95-97 | candidates 1, 2 and 3 exist afterwards, existing rows are kept, and nothing but the three sample rows is added |
| Schema.Seed | schema.py:82-112 | seeding creates the election only when missing, adds only the sample positions, candidates and students, touches no ballot or audit row, and every candidate it adds names a position of the seeded table |
| Schema.SeedIdempotent | schema.py:82-112 | seeding twice is the same as seeding once, whatever the clock and hasher |
| Schema.SeedFresh | schema.py:82-112 | seeding an empty database gives exactly the sample positions, candidates and election, exactly the four sample students with their records, and no ballots |
| Schema.SeedFreshCandidatesHavePositions | schema.py:92-97 | every sample candidate names an existing sample position |
| Auth.Login | app.py:78-101 | a POST missing `regno` or `password` is refused with 400 and keeps the session; otherwise login succeeds exactly when the student exists and the password checks; success copies the student's fields and sets the role from the regno, failure leaves the session unchanged |
| Auth.MissingFieldRefusedBeforeLookup | app.py:80-81 | a missing field is refused before the students table is read: the answer does not depend on the store |
| Auth.LoginThenAdminGuard | app.py:28-35 | after a successful login the admin guard admits the session exactly when the regno was `admin` |
| Auth.LoginFailureIndistinguishable | app.py:100-101 | an unknown regno and a wrong password give the same result |
| Voting.FormItems | app.py:167 | the form's field names, each once, in order of first occurrence |
| Voting.FormItemsFirst | app.py:167 | each item carries the first value posted under its field name |
| Voting.Selections | app.py:167-168 | exactly the items whose field name starts with `position_` |
| Voting.BallotOf | app.py:169-172 | the ballot's position and candidate are the affinity-converted id text after `position_` and the posted value |
| Voting.AppendBallots | app.py:167-172 | one ballot per selection is appended after all existing rows, in form order |
| Voting.SubmitVote | app.py:160-183 | a logged-in submission appends the ballots and one "Vote Cast" audit row, and sets the voted flag in the store and the session; nothing else changes |
| Voting.OneBallotPerPositionKey | app.py:167-172 | one submission makes one ballot per distinct `position_` field name |
| Voting.DoubleSubmissionDuplicates | app.py:160-183 | submitting the same form twice leaves two ballots with the same student, position and candidate per selection |
| Voting.GroupCandidates | app.py:153-156 | the ballot form has one entry per distinct position name, holding the candidates of the last position with that name |
| Voting.VotePage | app.py:142-158 | the vote page redirects on the session's voted flag, else lists every position name |
| Voting.BallotFormListsOwnCandidates | app.py:154-156 | with distinct names, each position's entry is exactly its own candidates |
| Voting.StaleSessionStillShowsForm | app.py:145 | a second session of a student who has voted still gets the ballot form |
| Voting.PositionsOfSpec | app.py:195 | a candidate's summary rows are its position's name with its own name |
| Voting.SummaryOfBallotSpec | app.py:194-195 | a ballot's summary rows come from a candidate with its id and that candidate's position |
| Voting.BallotSummarySpec | app.py:185-200 | a summary row appears exactly when a ballot of the student names an existing candidate whose position exists |
| Voting.BallotSummaryConcat | app.py:185-200 | the summary has one group of rows per ballot, so the summary of two runs of ballots is the two summaries in turn |
| Voting.DuplicatedSummaryRepeats | app.py:160-200 | after a repeated submission the summary shows the rows of every choice twice |
| Tally.Votes | app.py:298 | the count for a group never exceeds the number of ballots |
| Tally.SortByVotes | app.py:300 | the rows of a position come ordered by votes, largest first, and as a permutation of the group rows |
| Tally.Tally | app.py:294-301 | the query returns a permutation of the grouped outer join |
| Tally.TallyComplete | app.py:294-301 | every candidate of every position has a row with its vote count; a position without candidates has a NULL row with 0 votes |
| Tally.TallySound | app.py:294-301 | every returned row is such a candidate row or NULL row |
| Tally.TallyOrdered | app.py:300 | with increasing position ids the rows are ordered by position id, then votes descending |
| Tally.TallyOneRowPerCandidate | app.py:299 | in a valid store each candidate of each position has exactly one row |
| Tally.GroupedComplete | app.py:297-299 | every candidate row and empty-position row is a group of the join |
| Tally.GroupedSound | app.py:297-299 | every group of the join is a candidate row or an empty-position row |
| Tally.GroupedDistinct | app.py:299 | with unique ids the groups are pairwise distinct |
| Tally.MismatchedBallotIgnored | app.py:298 | a ballot that names no candidate together with that candidate's position leaves the results unchanged |
| Tally.VotesConcat | app.py:295 | counts over two runs of ballots add up |
| Tally.VotesWithout | app.py:295 | removing one ballot removes exactly its own contribution from every count |
| Tally.DuplicatedCountsTwice | app.py:298 | ballots repeated with the same choices add their counts twice |
| Tally.DoubleSubmissionCountsTwice | app.py:160-183 | after two identical submissions every count grows by twice what one submission contributes |
| Tally.GroupByPosition | app.py:305-310 | the grouping dict has distinct position names |
| Tally.GroupByPositionSpec | app.py:305-310 | one key per position name in order of first appearance, and under each name exactly its rows' (candidate, votes), in row order |
| Tally.GroupByPositionKeepsRows | app.py:305-310 | the grouped lists together hold one entry per returned row |
| Tally.ResultsRoute | app.py:290-312 | a logged-in user gets every position name, with each name's rows in query order and no row lost |
| Admin.AdminDashboard | app.py:204-213 | the admin sees the number of students and the number with the voted flag, never more than the total |
| Admin.SubmitVoteMovesDashboard | app.py:174 | a student's first submission raises the dashboard's voted count by one; a repeat leaves it |
| Admin.ManagePositions | app.py:215-233 | each branch adds, renames or deletes positions; without a matching branch nothing changes; only positions change |
| Admin.AddThenDeletePosition | app.py:224-229 | deleting a just-added position through its page id restores the position rows |
| Admin.NonNumericIdEditsNothing | app.py:226-227 | an edit whose id is not a decimal numeral changes nothing |
| Admin.ManageCandidates | app.py:239-258 | each branch adds, edits or deletes candidates, storing the position id with affinity; only candidates change |
| Admin.ListedWith | app.py:262-263 | a candidate is listed with each position whose id equals its `position_id`; position ids being unique, that is once when its position exists and not at all otherwise |
| Admin.CandidateListing | app.py:260-264 | a listing row exists exactly when some candidate's `position_id` names an existing position; no more rows than candidates |
| Admin.DeletedPositionHidesCandidates | app.py:229 | deleting a position keeps its candidates but drops them from the listing |
| Admin.ElectionSettings | app.py:268-288 | with all three fields the election row 1 is overwritten if it exists, and never created; otherwise nothing changes |
| Admin.ElectionSettingsIdempotent | app.py:277-279 | saving the same settings twice is the same as once |
| Admin.VoteById | app.py:43-54 | a vote is found exactly when a ballot has the id and its candidate id names an existing candidate |
| Admin.DeleteVote | app.py:56-60 | deletion keeps exactly the ballots with other ids; only ballots change |
| Admin.LogAuditEntry | app.py:62-69 | one audit row is appended under a fresh id; nothing else changes |
| Admin.AdminDeleteVote | app.py:322-346 | the removal is refused for non-admins, unknown votes, GETs and all-whitespace remarks; otherwise it removes the ballot and logs the stripped remark |
| Admin.DeletedVoteUncounted | app.py:336 | a deleted vote is exactly one ballot gone; counts drop by its contribution and no voted flag changes |
| Admin.OrphanBallotNotFound | app.py:46-49 | a ballot without an existing candidate cannot be deleted |
| Admin.DeleteDetailsDetermines | app.py:340 | the audit text of a deletion gives back the vote id and the remark: two deletions write the same text exactly when both agree |
| Admin.SignedOutRefused | app.py:20-26 | without a signed-in user the vote, submit and results routes answer with the login page and change nothing |
| Admin.StudentRefusedByAdminRoutes | app.py:28-35 | a student's session passes the login guard but every admin route refuses it and changes nothing |
| Admin.FalsyFieldsChangeNothing | app.py:220-279 | a missing field and an empty one are both false: forms lacking a required field change nothing, while a name of one space is added |

The tally query is written twice in `app.py`: at lines 125-132 for the student dashboard's leaders and at 294-301 for the results page. The join condition is the same in both, so `Tally.Tally` models both.

## Left out

- Flask itself is not modelled: routing, templates, `flash` messages and redirects beyond the outcome a route reports. `logout` and the index redirect are also left out.
- Connection handling (`get_db`, `close`) and transactions are left out. Every route is modelled as one atomic step. The crash window between the two commits of `submit_vote` is not modelled.
- Password hashing (`generate_password_hash`, `check_password_hash`) is a function parameter. Salting and the hash format are not modelled.
- Clocks are parameters. `datetime.now()` becomes a timestamp string chosen by the caller, and its formatting is not modelled.
- The student dashboard's date parsing and the remaining-time arithmetic (app.py:118-123) are left out. They use floating point and crash when the election row is missing.
- The audit-log page (app.py:314-320) is left out. It is a read sorted by timestamp text.
- The `settings` table (schema.py:75-80, 89) is left out. Nothing reads it.
- The table creation statements are left out. The model starts from existing, empty tables. The final `print` and the `__main__` blocks are left out.
- Sql.IntegerAffinity: signed, real and whitespace-padded numerals stay text in the model, though SQLite converts them. A digit string above 2^63-1 becomes REAL in SQLite but stays an unbounded `Int` in the model.
- Sql.NextId: ids grow without bound. SQLite's AUTOINCREMENT fails with SQLITE_FULL once rowid 2^63-1 has been used; no modelled route inserts an explicit id that large.
- Tally.SortByVotes: SQL leaves the order of equal counts within a position unspecified. The model breaks ties in join order. The properties proved state only the order SQL guarantees, plus membership.
- Voting.BallotSummary: the summary's row order follows the ballot-then-candidate nested loop. SQL leaves it unspecified.
- Voting.GroupCandidates: the form's key order, and the order of each position's candidates (`Schema.CandidatesOf`), follow rowid order. That is the order `SELECT * FROM positions` and `SELECT * FROM candidates` return in practice; SQL leaves it unspecified.
- Admin.CandidateListing: the listing's row order follows the candidates-then-positions nested loop. SQL leaves it unspecified.
- Student registration, regno generation and the student edit and reset routes are not part of this model. They are not in the files modelled.
- The GET forms of `manage_positions`, `manage_candidates` and `election_settings` are left out. They only read a table.
