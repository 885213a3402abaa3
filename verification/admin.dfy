/** The administrator's routes: the dashboard counts, the position, candidate and election forms,
    and the removal of a single ballot with its audit-log entry. Every route first applies
    `admin_required`; a refused request changes nothing. */
module Admin {
  import opened Common
  import opened Text
  import opened Sql
  import opened Schema
  import opened Auth
  import Voting
  import Tally

  // ---------------------------------------------------------------------------------------------
  // Table effects shared by the forms

  /** `after` is `before` with one row appended under an id no row had, carrying `d`. */
  ghost predicate Added<T>(before: seq<Row<T>>, after: seq<Row<T>>, d: T)
  {
    && |after| == |before| + 1
    && after[..|before|] == before
    && after[|before|].data == d
    && !HasId(before, after[|before|].id)
  }

  /** `after` is `before` with the rows `key` selects carrying `d` instead, in place and under the same ids. */
  ghost predicate Changed<T>(before: seq<Row<T>>, after: seq<Row<T>>, key: Value, d: T)
  {
    && |after| == |before|
    && (forall i :: 0 <= i < |before| ==> after[i].id == before[i].id)
    && (forall i :: 0 <= i < |before| && KeyMatches(before[i], key) ==> after[i].data == d)
    && (forall i :: 0 <= i < |before| && !KeyMatches(before[i], key) ==> after[i] == before[i])
  }

  /** `after` holds exactly the rows of `before` that `key` does not select. */
  ghost predicate Removed<T(!new)>(before: seq<Row<T>>, after: seq<Row<T>>, key: Value)
  {
    forall x :: x in after <==> x in before && !KeyMatches(x, key)
  }

  /** The page an admin-only route answers with. */
  datatype Reply = ToLogin | BackToPage

  // ---------------------------------------------------------------------------------------------
  // `admin_dashboard`

  /** The regnos whose `voted` flag is set. */
  function VotedRegnos(students: map<string, Student>): set<string>
  {
    set r | r in students && students[r].voted
  }

  datatype DashboardView = DashboardToLogin | Dashboard(total: nat, voted: nat, election: Option<Election>)

  lemma SubsetCard<X>(a: set<X>, b: set<X>)
    requires a <= b
    ensures |a| <= |b|
  {
    assert b == a + (b - a);
  }

  /** GET `/admin_dashboard`: every student row counts toward the total, those with the flag set toward `voted`. */
  function AdminDashboard(store: Store, session: Session): (v: DashboardView)
    ensures !AdminRequired(session) ==> v == DashboardToLogin
    ensures AdminRequired(session) ==>
      && v.Dashboard?
      && v.total == |store.students.Keys|
      && v.voted == |VotedRegnos(store.students)|
      && v.voted <= v.total
      && v.election == store.election
  {
    if !AdminRequired(session) then DashboardToLogin
    else
      var voted := VotedRegnos(store.students);
      SubsetCard(voted, store.students.Keys);
      Dashboard(|store.students.Keys|, |voted|, store.election)
  }

  /** A student's first submission moves the dashboard's `voted` count up by one and leaves the total
      alone; a later submission by the same student moves neither. */
  lemma SubmitVoteMovesDashboard(store: Store, student: Session, admin: Session, form: Voting.Form, now: string)
    requires LoginRequired(student) && student.user in store.students
    requires AdminRequired(admin)
    ensures var before := AdminDashboard(store, admin);
      var after := AdminDashboard(Voting.SubmitVote(store, student, form, now).0, admin);
      && after.total == before.total
      && after.voted == before.voted + (if store.students[student.user].voted then 0 else 1)
  {
    var s := Voting.SubmitVote(store, student, form, now).0;
    var regno := student.user;
    var v0, v1 := VotedRegnos(store.students), VotedRegnos(s.students);
    if store.students[regno].voted {
      assert v1 == v0;
    } else {
      assert v1 == v0 + {regno};
    }
  }

  // ---------------------------------------------------------------------------------------------
  // `manage_positions`

  /** POST `/manage_positions`. `action`, `name` and `id` are the form fields, absent ones `None`;
      the id text is matched against the INTEGER key with column affinity. */
  function ManagePositions(store: Store, session: Session, action: Option<string>, name: Option<string>,
                           id: Option<string>): (r: (Store, Reply))
    ensures !AdminRequired(session) ==> r == (store, ToLogin)
    ensures AdminRequired(session) ==> r.1 == BackToPage && r.0 == store.(positions := r.0.positions)
    ensures AdminRequired(session) && action == Some("add") && Truthy(name) ==>
              Added(store.positions.rows, r.0.positions.rows, name.value)
    ensures AdminRequired(session) && action == Some("edit") && Truthy(name) && Truthy(id) ==>
              Changed(store.positions.rows, r.0.positions.rows, IntegerAffinity(id.value), name.value)
    ensures AdminRequired(session) && action == Some("delete") && Truthy(id) ==>
              Removed(store.positions.rows, r.0.positions.rows, IntegerAffinity(id.value))
    ensures (AdminRequired(session) &&
             !(action == Some("add") && Truthy(name)) &&
             !(action == Some("edit") && Truthy(name) && Truthy(id)) &&
             !(action == Some("delete") && Truthy(id))) ==> r.0 == store
    ensures Valid(store) ==> Valid(r.0)
  {
    if !AdminRequired(session) then (store, ToLogin)
    else if action == Some("add") && Truthy(name) then
      (store.(positions := Insert(store.positions, name.value)), BackToPage)
    else if action == Some("edit") && Truthy(name) && Truthy(id) then
      (store.(positions := Update(store.positions, IntegerAffinity(id.value), name.value)), BackToPage)
    else if action == Some("delete") && Truthy(id) then
      (store.(positions := Delete(store.positions, IntegerAffinity(id.value))), BackToPage)
    else (store, BackToPage)
  }

  /** Deleting a just-added position through the id its page shows restores the position rows. */
  lemma AddThenDeletePosition(store: Store, session: Session, name: string)
    requires Valid(store) && AdminRequired(session) && name != ""
    ensures var s1 := ManagePositions(store, session, Some("add"), Some(name), None).0;
      var newId := s1.positions.rows[|store.positions.rows|].id;
      && newId > 0
      && ManagePositions(s1, session, Some("delete"), None, Some(DecimalString(newId))).0.positions.rows == store.positions.rows
  {
    var s1 := ManagePositions(store, session, Some("add"), Some(name), None).0;
    var rows := s1.positions.rows;
    var k := |store.positions.rows|;
    var newId := rows[k].id;
    assert newId == s1.positions.lastId > store.positions.lastId >= 0;
    AffinityOfDecimal(newId);
    DeleteOne(rows, k);
    assert rows[..k] + rows[k + 1..] == store.positions.rows;
  }

  /** An id that is not a decimal numeral selects no row, so editing with it changes nothing. */
  lemma NonNumericIdEditsNothing(store: Store, session: Session, name: string, id: string)
    requires AdminRequired(session) && name != "" && id != "" && !IsDigits(id)
    ensures ManagePositions(store, session, Some("edit"), Some(name), Some(id)).0 == store
  {
    var r := ManagePositions(store, session, Some("edit"), Some(name), Some(id)).0;
    assert r.positions.rows == store.positions.rows;
  }

  // ---------------------------------------------------------------------------------------------
  // `manage_candidates`

  /** POST `/manage_candidates`. `positionId` is stored with INTEGER affinity, unchecked against `positions`. */
  function ManageCandidates(store: Store, session: Session, action: Option<string>, name: Option<string>,
                            positionId: Option<string>, id: Option<string>): (r: (Store, Reply))
    ensures !AdminRequired(session) ==> r == (store, ToLogin)
    ensures AdminRequired(session) ==> r.1 == BackToPage && r.0 == store.(candidates := r.0.candidates)
    ensures AdminRequired(session) && action == Some("add") && Truthy(name) && Truthy(positionId) ==>
              Added(store.candidates.rows, r.0.candidates.rows, Candidate(name.value, IntegerAffinity(positionId.value)))
    ensures AdminRequired(session) && action == Some("edit") && Truthy(name) && Truthy(positionId) && Truthy(id) ==>
              Changed(store.candidates.rows, r.0.candidates.rows, IntegerAffinity(id.value),
                      Candidate(name.value, IntegerAffinity(positionId.value)))
    ensures AdminRequired(session) && action == Some("delete") && Truthy(id) ==>
              Removed(store.candidates.rows, r.0.candidates.rows, IntegerAffinity(id.value))
    ensures (AdminRequired(session) &&
             !(action == Some("add") && Truthy(name) && Truthy(positionId)) &&
             !(action == Some("edit") && Truthy(name) && Truthy(positionId) && Truthy(id)) &&
             !(action == Some("delete") && Truthy(id))) ==> r.0 == store
    ensures Valid(store) ==> Valid(r.0)
  {
    if !AdminRequired(session) then (store, ToLogin)
    else if action == Some("add") && Truthy(name) && Truthy(positionId) then
      var c := Candidate(name.value, IntegerAffinity(positionId.value));
      (store.(candidates := Insert(store.candidates, c)), BackToPage)
    else if action == Some("edit") && Truthy(name) && Truthy(positionId) && Truthy(id) then
      var c := Candidate(name.value, IntegerAffinity(positionId.value));
      (store.(candidates := Update(store.candidates, IntegerAffinity(id.value), c)), BackToPage)
    else if action == Some("delete") && Truthy(id) then
      (store.(candidates := Delete(store.candidates, IntegerAffinity(id.value))), BackToPage)
    else (store, BackToPage)
  }

  /** A row of the GET listing: the candidate's columns plus its position's name. */
  datatype Listed = Listed(id: int, name: string, positionId: Value, position: string)

  /** The join rows of one candidate: one per position whose id its `position_id` holds. Position ids
      are unique, so a candidate is listed once when its position exists and not at all otherwise. */
  function ListedWith(c: Row<Candidate>, positions: seq<Row<string>>): (r: seq<Listed>)
    ensures forall x :: x in r <==> exists p :: p in positions && c.data.positionId == Int(p.id) &&
                                                x == Listed(c.id, c.data.name, c.data.positionId, p.data)
    ensures Increasing(positions) ==> |r| <= 1
  {
    if |positions| == 0 then []
    else
      var p := positions[0];
      var tail := ListedWith(c, positions[1..]);
      assert forall q :: q in positions <==> q == p || q in positions[1..];
      TailAbove(positions);
      if c.data.positionId == Int(p.id) then
        assert |tail| > 0 ==> tail[0] in tail;
        [Listed(c.id, c.data.name, c.data.positionId, p.data)] + tail
      else tail
  }

  /** GET `/manage_candidates`: `candidates JOIN positions ON c.position_id = p.id`, candidate by candidate. */
  function CandidateListing(cands: seq<Row<Candidate>>, positions: seq<Row<string>>): (r: seq<Listed>)
    ensures forall x :: x in r <==> exists c, p :: c in cands && p in positions && c.data.positionId == Int(p.id) &&
                                                   x == Listed(c.id, c.data.name, c.data.positionId, p.data)
    ensures Increasing(positions) ==> |r| <= |cands|
  {
    if |cands| == 0 then []
    else
      var tail := CandidateListing(cands[1..], positions);
      assert forall c :: c in cands <==> c == cands[0] || c in cands[1..];
      ListedWith(cands[0], positions) + tail
  }

  /** Deleting a position leaves its candidates in the table, but drops them from the listing: the
      listing's inner join no longer finds their position. */
  lemma DeletedPositionHidesCandidates(store: Store, session: Session, p: Row<string>)
    requires Valid(store) && AdminRequired(session) && p in store.positions.rows && p.id >= 0
    ensures var s := ManagePositions(store, session, Some("delete"), None, Some(DecimalString(p.id))).0;
      && s.candidates == store.candidates
      && forall x :: x in CandidateListing(s.candidates.rows, s.positions.rows) ==> x.positionId != Int(p.id)
  {
    var s := ManagePositions(store, session, Some("delete"), None, Some(DecimalString(p.id))).0;
    AffinityOfDecimal(p.id);
    forall x | x in CandidateListing(s.candidates.rows, s.positions.rows)
      ensures x.positionId != Int(p.id)
    {
      var c, q :| c in s.candidates.rows && q in s.positions.rows && c.data.positionId == Int(q.id) &&
                  x == Listed(c.id, c.data.name, c.data.positionId, q.data);
      assert !KeyMatches(q, Int(p.id));
    }
  }

  // ---------------------------------------------------------------------------------------------
  // `election_settings`

  datatype SettingsReply = SettingsToLogin | SettingsSaved | FillAllFields

  /** POST `/election_settings`: all three fields or nothing; the UPDATE targets row 1 only, so it
      cannot create the election when that row is missing. */
  function ElectionSettings(store: Store, session: Session, title: Option<string>, start: Option<string>,
                            deadline: Option<string>): (r: (Store, SettingsReply))
    ensures !AdminRequired(session) ==> r == (store, SettingsToLogin)
    ensures AdminRequired(session) && Truthy(title) && Truthy(start) && Truthy(deadline) ==>
      && r.1 == SettingsSaved
      && r.0 == store.(election := r.0.election)
      && (store.election.Some? ==> r.0.election == Some(Election(title.value, start.value, deadline.value)))
      && (store.election.None? ==> r.0.election == None)
    ensures AdminRequired(session) && !(Truthy(title) && Truthy(start) && Truthy(deadline)) ==>
              r == (store, FillAllFields)
    ensures Valid(store) ==> Valid(r.0)
  {
    if !AdminRequired(session) then (store, SettingsToLogin)
    else if Truthy(title) && Truthy(start) && Truthy(deadline) then
      var e := if store.election.Some? then Some(Election(title.value, start.value, deadline.value)) else None;
      (store.(election := e), SettingsSaved)
    else (store, FillAllFields)
  }

  /** Saving the same settings twice is the same as saving them once. */
  lemma ElectionSettingsIdempotent(store: Store, session: Session, title: Option<string>, start: Option<string>,
                                   deadline: Option<string>)
    ensures var s1 := ElectionSettings(store, session, title, start, deadline);
      ElectionSettings(s1.0, session, title, start, deadline) == s1
  {
  }

  // ---------------------------------------------------------------------------------------------
  // `admin_delete_vote`, `get_vote_by_id`, `delete_vote`, `log_audit_entry`

  /** What `get_vote_by_id` returns: the ballot's id and student, and its candidate's name. */
  datatype VoteRecord = VoteRecord(id: int, regno: string, candidateName: string)

  /** `ballots v JOIN candidates c ON v.candidate_id = c.id WHERE v.id = ?`: a ballot whose candidate
      row is gone, or whose candidate id is not an integer, is not found. */
  function VoteById(ballots: seq<Row<Ballot>>, cands: seq<Row<Candidate>>, voteId: int): (r: Option<VoteRecord>)
    ensures r.Some? ==> exists b, c :: b in ballots && c in cands && b.id == voteId && b.data.candidateId == Int(c.id) &&
                                       r.value == VoteRecord(voteId, b.data.regno, c.data.name)
    ensures Increasing(ballots) && Increasing(cands) ==>
              (r.Some? <==> exists b, c :: b in ballots && c in cands && b.id == voteId && b.data.candidateId == Int(c.id))
  {
    match Find(ballots, voteId)
    case None => None
    case Some(b) =>
      if b.candidateId.Txt? then None
      else
        match Find(cands, b.candidateId.i)
        case None => None
        case Some(c) =>
          assert Row(voteId, b) in ballots && Row(b.candidateId.i, c) in cands;
          Some(VoteRecord(voteId, b.regno, c.name))
  }

  /** `delete_vote`: `DELETE FROM ballots WHERE id = ?`. */
  function DeleteVote(store: Store, voteId: int): (r: Store)
    ensures r == store.(ballots := r.ballots)
    ensures Removed(store.ballots.rows, r.ballots.rows, Int(voteId))
    ensures Valid(store) ==> Valid(r)
  {
    store.(ballots := Delete(store.ballots, Int(voteId)))
  }

  /** `log_audit_entry`: one row appended to `audit_log`. */
  function LogAuditEntry(store: Store, action: string, user: string, details: string, timestamp: string): (r: Store)
    ensures r == store.(auditLog := r.auditLog)
    ensures Added(store.auditLog.rows, r.auditLog.rows, AuditEntry(user, action, details, timestamp))
    ensures Valid(store) ==> Valid(r)
  {
    store.(auditLog := Insert(store.auditLog, AuditEntry(user, action, details, timestamp)))
  }

  datatype DeleteReply = DeleteToLogin | VoteNotFound | ConfirmPage(vote: VoteRecord) | RemarkRequired | VoteDeleted

  const DeleteVoteAction := "Delete Vote"

  /** The `details` text of the audit row: the vote id in decimal, then the stripped remark. */
  function DeleteDetails(voteId: nat, remark: string): string
  {
    "Deleted vote ID " + DecimalString(voteId) + ". Remark: " + remark
  }

  /** The audit text identifies the deletion: two deletions write the same text exactly when they
      removed the same vote id with the same remark. */
  lemma DeleteDetailsDetermines(id1: nat, remark1: string, id2: nat, remark2: string)
    ensures DeleteDetails(id1, remark1) == DeleteDetails(id2, remark2) <==> id1 == id2 && remark1 == remark2
  {
    if DeleteDetails(id1, remark1) == DeleteDetails(id2, remark2) {
      var pre, mid := "Deleted vote ID ", ". Remark: ";
      var a, b := DecimalString(id1), DecimalString(id2);
      var x, y := a + (mid + remark1), b + (mid + remark2);
      assert DeleteDetails(id1, remark1) == pre + x;
      assert DeleteDetails(id2, remark2) == pre + y;
      assert x == (pre + x)[|pre|..];
      assert y == (pre + y)[|pre|..];
      DigitsThenOther(a, mid + remark1, b, mid + remark2);
      assert remark1 == (mid + remark1)[|mid|..];
      assert remark2 == (mid + remark2)[|mid|..];
      DecimalRoundTrip(id1);
      DecimalRoundTrip(id2);
    }
  }

  /** `/admin/delete_vote/<int:vote_id>`. `isPost` tells a POST from a GET, `remark` is the form field
      and `now` the timestamp the audit row records. */
  function AdminDeleteVote(store: Store, session: Session, voteId: nat, isPost: bool, remark: Option<string>,
                           now: string): (r: (Store, DeleteReply))
    ensures !AdminRequired(session) ==> r == (store, DeleteToLogin)
    ensures AdminRequired(session) && VoteById(store.ballots.rows, store.candidates.rows, voteId).None? ==>
              r == (store, VoteNotFound)
    ensures AdminRequired(session) && VoteById(store.ballots.rows, store.candidates.rows, voteId).Some? && !isPost ==>
              r == (store, ConfirmPage(VoteById(store.ballots.rows, store.candidates.rows, voteId).value))
    ensures AdminRequired(session) && VoteById(store.ballots.rows, store.candidates.rows, voteId).Some? && isPost ==>
      var text := if remark.Some? then remark.value else "";
      && (AllSpace(text) ==> r == (store, RemarkRequired))
      && (!AllSpace(text) ==>
            && r.1 == VoteDeleted
            && r.0 == store.(ballots := r.0.ballots, auditLog := r.0.auditLog)
            && Removed(store.ballots.rows, r.0.ballots.rows, Int(voteId))
            && Added(store.auditLog.rows, r.0.auditLog.rows,
                     AuditEntry(session.user, DeleteVoteAction, DeleteDetails(voteId, Strip(text)), now)))
    ensures Valid(store) ==> Valid(r.0)
  {
    if !AdminRequired(session) then (store, DeleteToLogin)
    else
      var vote := VoteById(store.ballots.rows, store.candidates.rows, voteId);
      if vote.None? then (store, VoteNotFound)
      else if !isPost then (store, ConfirmPage(vote.value))
      else
        var text := if remark.Some? then remark.value else "";
        var stripped := Strip(text);
        StripEmptyIff(text);
        if stripped == "" then (store, RemarkRequired)
        else
          var s := DeleteVote(store, voteId);
          (LogAuditEntry(s, DeleteVoteAction, session.user, DeleteDetails(voteId, stripped), now), VoteDeleted)
  }

  /** In a valid store a deleted vote is exactly one ballot row gone: every count of the results query
      drops by one if that ballot counted toward it, and no student's voted flag changes. */
  lemma DeletedVoteUncounted(store: Store, session: Session, k: nat, remark: Option<string>, now: string,
                             pid: int, cid: int)
    requires Valid(store) && k < |store.ballots.rows| && store.ballots.rows[k].id >= 0
    ensures var rows := store.ballots.rows;
      var r := AdminDeleteVote(store, session, rows[k].id, true, remark, now);
      r.1 == VoteDeleted ==>
        && r.0.ballots.rows == rows[..k] + rows[k + 1..]
        && r.0.students == store.students
        && Tally.Votes(rows, pid, cid) == Tally.Votes(r.0.ballots.rows, pid, cid) + (if Tally.CountsFor(rows[k].data, pid, cid) then 1 else 0)
  {
    var rows := store.ballots.rows;
    var r := AdminDeleteVote(store, session, rows[k].id, true, remark, now);
    if r.1 == VoteDeleted {
      assert r.0.ballots.rows == DeleteRows(rows, Int(rows[k].id));
      DeleteOne(rows, k);
      Tally.VotesWithout(rows, k, pid, cid);
    }
  }

  /** A ballot whose candidate is gone, or whose candidate id is not an integer, cannot be deleted. */
  lemma OrphanBallotNotFound(store: Store, session: Session, k: nat, isPost: bool, remark: Option<string>, now: string)
    requires Valid(store) && AdminRequired(session)
    requires k < |store.ballots.rows| && store.ballots.rows[k].id >= 0
    requires forall c :: c in store.candidates.rows ==> store.ballots.rows[k].data.candidateId != Int(c.id)
    ensures AdminDeleteVote(store, session, store.ballots.rows[k].id, isPost, remark, now) == (store, VoteNotFound)
  {
    var rows := store.ballots.rows;
    if VoteById(rows, store.candidates.rows, rows[k].id).Some? {
      var b, c :| b in rows && c in store.candidates.rows && b.id == rows[k].id && b.data.candidateId == Int(c.id);
      Tally.SameIdSameRow(rows, b, rows[k]);
    }
  }

  // ---------------------------------------------------------------------------------------------
  // The guards and the form-field tests, across routes

  /** `login_required` turns a session without `user` away before any query: the student routes answer
      with the login page and the store is untouched. */
  lemma SignedOutRefused(store: Store, form: Voting.Form, now: string)
    ensures Voting.SubmitVote(store, Anonymous, form, now) == (store, Anonymous, Voting.SubmitToLogin)
    ensures Voting.VotePage(store, Anonymous) == Voting.VoteToLogin
    ensures Tally.ResultsRoute(store, Anonymous) == Tally.ResultsToLogin
  {
  }

  /** `admin_required` looks at the role alone: a signed-in student passes `login_required` but every
      admin route sends it to the login page and leaves the store as it was. */
  lemma StudentRefusedByAdminRoutes(store: Store, session: Session, action: Option<string>, name: Option<string>,
                                    positionId: Option<string>, id: Option<string>, voteId: nat, isPost: bool,
                                    remark: Option<string>, now: string)
    requires session.SignedIn? && session.role == StudentRole
    ensures LoginRequired(session) && !AdminRequired(session)
    ensures AdminDashboard(store, session) == DashboardToLogin
    ensures ManagePositions(store, session, action, name, id) == (store, ToLogin)
    ensures ManageCandidates(store, session, action, name, positionId, id) == (store, ToLogin)
    ensures ElectionSettings(store, session, name, positionId, id) == (store, SettingsToLogin)
    ensures AdminDeleteVote(store, session, voteId, isPost, remark, now) == (store, DeleteToLogin)
  {
  }

  /** `request.form.get` yields `None` for a missing field and `""` for an empty one, and Python treats
      both as false: a form whose required field is `blank` changes nothing, and the settings form
      asks for all fields. Whitespace is not blank: a name of one space is added like any other. */
  lemma FalsyFieldsChangeNothing(store: Store, session: Session, action: Option<string>, blank: Option<string>,
                                 field: Option<string>)
    requires blank == None || blank == Some("")
    ensures ManagePositions(store, session, action, blank, blank).0 == store
    ensures ManagePositions(store, session, Some("add"), blank, field).0 == store
    ensures ManageCandidates(store, session, action, blank, blank, blank).0 == store
    ensures ManageCandidates(store, session, Some("add"), field, blank, field).0 == store
    ensures AdminRequired(session) ==>
      && ElectionSettings(store, session, blank, field, field) == (store, FillAllFields)
      && ElectionSettings(store, session, field, blank, field) == (store, FillAllFields)
      && ElectionSettings(store, session, field, field, blank) == (store, FillAllFields)
    ensures AdminRequired(session) ==>
      |ManagePositions(store, session, Some("add"), Some(" "), field).0.positions.rows| == |store.positions.rows| + 1
  {
  }
}
