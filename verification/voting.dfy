/** The student's side: the ballot form (`vote`), casting a ballot (`submit_vote`) and reading it
    back (`ballot_summary`). */
module Voting {
  import opened Common
  import opened Text
  import opened PyDict
  import opened Sql
  import opened Schema
  import opened Auth

  /** A posted form: (field name, value) pairs in the order the browser sent them. */
  type Form = seq<(string, string)>

  /** `(k, v)` is the first pair of the form with field name `k`. */
  ghost predicate IsFirst(form: Form, item: (string, string))
  {
    exists j :: 0 <= j < |form| && form[j] == item && forall l :: 0 <= l < j ==> form[l].0 != item.0
  }

  /** `request.form.items()`: every field name once, with its first value, in order of first appearance. */
  function FormItems(form: Form): (items: Form)
    ensures Keys(items) == Dedup(Keys(form))
  {
    if |form| == 0 then []
    else
      var init := form[..|form| - 1];
      var last := form[|form| - 1];
      var items := FormItems(init);
      assert Keys(init) == Keys(form)[..|form| - 1];
      if last.0 in Keys(items) then items else items + [last]
  }

  /** Each item `request.form.items()` yields carries the first value posted under its name. */
  lemma {:induction false} FormItemsFirst(form: Form)
    ensures forall i :: 0 <= i < |FormItems(form)| ==> IsFirst(form, FormItems(form)[i])
  {
    if |form| > 0 {
      var init := form[..|form| - 1];
      var last := form[|form| - 1];
      var items := FormItems(init);
      FormItemsFirst(init);
      forall i | 0 <= i < |items|
        ensures IsFirst(form, items[i])
      {
        var j :| 0 <= j < |init| && init[j] == items[i] && forall l :: 0 <= l < j ==> init[l].0 != items[i].0;
        assert form[j] == items[i];
      }
      if last.0 !in Keys(items) {
        LastIsFirst(form, items);
      }
    }
  }

  lemma LastIsFirst(form: Form, items: Form)
    requires |form| > 0
    requires Keys(items) == Dedup(Keys(form[..|form| - 1]))
    requires form[|form| - 1].0 !in Keys(items)
    ensures IsFirst(form, form[|form| - 1])
  {
    var init := form[..|form| - 1];
    var last := form[|form| - 1];
    assert last.0 !in Keys(init);
    forall l | 0 <= l < |form| - 1
      ensures form[l].0 != last.0
    {
      assert Keys(init)[l] == form[l].0;
    }
  }

  /** A field named `position_<id>`: the form's selection for one position. */
  predicate IsPositionKey(key: string)
  {
    StartsWith(key, PositionPrefix)
  }

  /** The fields `submit_vote` turns into ballots, in form order. */
  function Selections(items: Form): (sel: Form)
    ensures forall x :: x in sel <==> x in items && IsPositionKey(x.0)
    ensures forall k :: 0 <= k < |sel| ==> IsPositionKey(sel[k].0)
    ensures |sel| <= |items|
  {
    if |items| == 0 then []
    else
      var init := items[..|items| - 1];
      var last := items[|items| - 1];
      assert forall x :: x in items <==> x in init || x == last;
      Selections(init) + (if IsPositionKey(last.0) then [last] else [])
  }

  /** The ballot row `submit_vote` writes for one selection: the position id is the text after
      `position_` up to the next underscore, and both ids go through INTEGER affinity. */
  function BallotOf(regno: string, item: (string, string), now: string): (b: Ballot)
    requires IsPositionKey(item.0)
    ensures var rest := item.0[|PositionPrefix|..];
      b.positionId == IntegerAffinity(rest[..IndexOf(rest, '_')])
    ensures b.candidateId == IntegerAffinity(item.1)
    ensures b.regno == regno && b.timestamp == now
  {
    PositionKeyField(item.0);
    Ballot(regno, IntegerAffinity(Split(item.0, '_')[1]), IntegerAffinity(item.1), now)
  }

  /** `after` is `before` followed by one ballot of `regno` per selection, in selection order. */
  predicate Appended(before: seq<Row<Ballot>>, after: seq<Row<Ballot>>, regno: string, sel: Form, now: string)
    requires forall k :: 0 <= k < |sel| ==> IsPositionKey(sel[k].0)
  {
    && |after| == |before| + |sel|
    && after[..|before|] == before
    && forall k :: 0 <= k < |sel| ==> after[|before| + k].data == BallotOf(regno, sel[k], now)
  }

  /** The `INSERT INTO ballots` loop: one new row per selection, after all existing rows. */
  function AppendBallots(t: Table<Ballot>, regno: string, items: Form, now: string): (r: Table<Ballot>)
    ensures Appended(t.rows, r.rows, regno, Selections(items), now)
    ensures WellFormed(t) ==> WellFormed(r)
  {
    if |items| == 0 then t
    else
      var init := items[..|items| - 1];
      var last := items[|items| - 1];
      var t0 := AppendBallots(t, regno, init, now);
      assert t0.rows[..|t.rows|] == t.rows;
      if IsPositionKey(last.0) then
        var r := Insert(t0, BallotOf(regno, last, now));
        assert r.rows[..|t0.rows|] == t0.rows;
        assert r.rows[..|t.rows|] == t0.rows[..|t.rows|];
        r
      else t0
  }

  datatype SubmitOutcome = SubmitToLogin | SubmitToSummary

  const VoteCastAction := "Vote Cast"
  const VoteCastDetails := "Ballot submitted"

  /** POST `/submit_vote`. Nothing is checked: not the voted flag, not earlier ballots, not that the
      candidate stands for the position. `now` is the request's timestamp text. */
  function SubmitVote(store: Store, session: Session, form: Form, now: string): (r: (Store, Session, SubmitOutcome))
    ensures !LoginRequired(session) ==> r == (store, session, SubmitToLogin)
    ensures LoginRequired(session) ==>
      var regno := session.user;
      var sel := Selections(FormItems(form));
      var s := r.0;
      && r.2 == SubmitToSummary
      && Appended(store.ballots.rows, s.ballots.rows, regno, sel, now)
      && s.students.Keys == store.students.Keys
      && (forall x :: x in store.students && x != regno ==> s.students[x] == store.students[x])
      && (regno in store.students ==> s.students[regno] == store.students[regno].(voted := true))
      && |s.auditLog.rows| == |store.auditLog.rows| + 1
      && s.auditLog.rows[..|store.auditLog.rows|] == store.auditLog.rows
      && s.auditLog.rows[|store.auditLog.rows|].data == AuditEntry(regno, VoteCastAction, VoteCastDetails, now)
      && s.positions == store.positions && s.candidates == store.candidates && s.election == store.election
      && r.1 == session.(voted := true)
    ensures Valid(store) ==> Valid(r.0)
  {
    if !LoginRequired(session) then (store, session, SubmitToLogin)
    else
      var regno := session.user;
      var ballots := AppendBallots(store.ballots, regno, FormItems(form), now);
      var students := if regno in store.students then store.students[regno := store.students[regno].(voted := true)]
                      else store.students;
      var log := Insert(store.auditLog, AuditEntry(regno, VoteCastAction, VoteCastDetails, now));
      (store.(ballots := ballots, students := students, auditLog := log), session.(voted := true), SubmitToSummary)
  }

  /** The field names of a form that start with `position_`, in order. */
  function PositionKeys(keys: seq<string>): (r: seq<string>)
    ensures forall x :: x in r <==> x in keys && IsPositionKey(x)
  {
    if |keys| == 0 then []
    else
      var init := keys[..|keys| - 1];
      assert forall x :: x in keys <==> x in init || x == keys[|keys| - 1];
      PositionKeys(init) + (if IsPositionKey(keys[|keys| - 1]) then [keys[|keys| - 1]] else [])
  }

  lemma {:induction false} SelectionKeys(items: Form)
    ensures Keys(Selections(items)) == PositionKeys(Keys(items))
  {
    if |items| > 0 {
      var init := items[..|items| - 1];
      SelectionKeys(init);
      assert Keys(items) == Keys(init) + [items[|items| - 1].0];
      assert Keys(items)[..|items| - 1] == Keys(init);
    }
  }

  lemma PositionKeysSnoc(keys: seq<string>, x: string)
    ensures IsPositionKey(x) ==> PositionKeys(keys + [x]) == PositionKeys(keys) + [x]
    ensures !IsPositionKey(x) ==> PositionKeys(keys + [x]) == PositionKeys(keys)
  {
    assert (keys + [x])[..|keys|] == keys;
  }

  lemma {:induction false} DedupPositionKeys(keys: seq<string>)
    ensures PositionKeys(Dedup(keys)) == Dedup(PositionKeys(keys))
  {
    if |keys| > 0 {
      var init := keys[..|keys| - 1];
      var last := keys[|keys| - 1];
      var d := Dedup(init);
      var pk := PositionKeys(init);
      DedupPositionKeys(init);
      assert keys == init + [last];
      DedupSnoc(init, last);
      PositionKeysSnoc(init, last);
      if IsPositionKey(last) {
        DedupSnoc(pk, last);
        if last in d {
          assert last in init;
          assert last in Dedup(pk);
        } else {
          PositionKeysSnoc(d, last);
          assert last !in pk;
        }
      } else if last !in d {
        PositionKeysSnoc(d, last);
      }
    }
  }

  /** `submit_vote` writes exactly one ballot per distinct field name starting with `position_`,
      in the order those names first appear; other fields add nothing. */
  lemma OneBallotPerPositionKey(form: Form)
    ensures Keys(Selections(FormItems(form))) == Dedup(PositionKeys(Keys(form)))
  {
    SelectionKeys(FormItems(form));
    DedupPositionKeys(Keys(form));
  }

  /** Same student, position and candidate: what a uniqueness constraint on ballots would compare. */
  predicate SameChoice(a: Ballot, b: Ballot)
  {
    a.regno == b.regno && a.positionId == b.positionId && a.candidateId == b.candidateId
  }

  /** `after` is `before` followed by the ballots of `sel` twice over: each pair agrees on student,
      position and candidate, and only the timestamps differ. */
  predicate Duplicated(before: seq<Row<Ballot>>, after: seq<Row<Ballot>>, regno: string, sel: Form,
                       now1: string, now2: string)
    requires forall k :: 0 <= k < |sel| ==> IsPositionKey(sel[k].0)
  {
    && |after| == |before| + 2 * |sel|
    && after[..|before|] == before
    && forall k :: 0 <= k < |sel| ==>
         && after[|before| + k].data == BallotOf(regno, sel[k], now1)
         && after[|before| + |sel| + k].data == BallotOf(regno, sel[k], now2)
         && SameChoice(after[|before| + k].data, after[|before| + |sel| + k].data)
  }

  /** Two submissions of the same form leave two ballots with the same student, position and
      candidate for every selection: nothing deduplicates them. */
  lemma DoubleSubmissionDuplicates(store: Store, session: Session, form: Form, now1: string, now2: string)
    requires LoginRequired(session)
    ensures var s1 := SubmitVote(store, session, form, now1);
      var s2 := SubmitVote(s1.0, s1.1, form, now2);
      Duplicated(store.ballots.rows, s2.0.ballots.rows, session.user, Selections(FormItems(form)), now1, now2)
  {
    var s1 := SubmitVote(store, session, form, now1);
    var s2 := SubmitVote(s1.0, s1.1, form, now2);
    var sel := Selections(FormItems(form));
    AppendedTwice(store.ballots.rows, s1.0.ballots.rows, s2.0.ballots.rows, session.user, sel, now1, now2);
  }

  lemma AppendedTwice(b0: seq<Row<Ballot>>, b1: seq<Row<Ballot>>, b2: seq<Row<Ballot>>, regno: string, sel: Form,
                      now1: string, now2: string)
    requires forall k :: 0 <= k < |sel| ==> IsPositionKey(sel[k].0)
    requires Appended(b0, b1, regno, sel, now1) && Appended(b1, b2, regno, sel, now2)
    ensures Duplicated(b0, b2, regno, sel, now1, now2)
  {
    var n := |b0|;
    assert b2[..n] == b1[..n] by {
      assert b2[..|b1|] == b1;
    }
    forall k | 0 <= k < |sel|
      ensures b2[n + k].data == BallotOf(regno, sel[k], now1)
      ensures b2[n + |sel| + k].data == BallotOf(regno, sel[k], now2)
      ensures SameChoice(b2[n + k].data, b2[n + |sel| + k].data)
    {
      assert b2[n + k] == b1[n + k] by {
        assert b2[..|b1|] == b1;
      }
      assert |b1| == n + |sel|;
      assert b2[n + |sel| + k] == b2[|b1| + k];
      assert SameChoice(BallotOf(regno, sel[k], now1), BallotOf(regno, sel[k], now2));
    }
  }

  datatype VoteView = VoteToLogin | VoteToSummary | BallotForm(grouped: seq<(string, seq<Row<Candidate>>)>)

  function Names(positions: seq<Row<string>>): (names: seq<string>)
    ensures |names| == |positions|
    ensures forall i :: 0 <= i < |positions| ==> names[i] == positions[i].data
  {
    seq(|positions|, i requires 0 <= i < |positions| => positions[i].data)
  }

  /** Position `j` is the last one in scan order carrying name `n`. */
  predicate IsLastNamed(positions: seq<Row<string>>, j: int, n: string)
  {
    0 <= j < |positions| && positions[j].data == n && forall l :: j < l < |positions| ==> positions[l].data != n
  }

  /** Entry `e` of the ballot form is the name of some position that is the last with that name,
      paired with that position's candidates. */
  ghost predicate LastNamedEntry(positions: seq<Row<string>>, cands: seq<Row<Candidate>>, e: (string, seq<Row<Candidate>>))
  {
    exists j :: IsLastNamed(positions, j, e.0) && e.1 == CandidatesOf(cands, positions[j].id)
  }

  /** The `grouped` dict of `vote`: keyed by position NAME, so when two positions share a name the
      later one's candidates replace the earlier one's. */
  function GroupCandidates(positions: seq<Row<string>>, cands: seq<Row<Candidate>>): (g: seq<(string, seq<Row<Candidate>>)>)
    ensures Keys(g) == Dedup(Names(positions))
    ensures forall i :: 0 <= i < |g| ==> LastNamedEntry(positions, cands, g[i])
  {
    if |positions| == 0 then []
    else
      var init := positions[..|positions| - 1];
      var last := positions[|positions| - 1];
      var g0 := GroupCandidates(init, cands);
      var g := Put(g0, last.data, CandidatesOf(cands, last.id));
      DedupNamesSnoc(positions);
      GroupStep(positions, cands, g0, g);
      g
  }

  lemma DedupNamesSnoc(positions: seq<Row<string>>)
    requires |positions| > 0
    ensures var d := Dedup(Names(positions[..|positions| - 1]));
      var x := positions[|positions| - 1].data;
      Dedup(Names(positions)) == if x in d then d else d + [x]
  {
    var init := positions[..|positions| - 1];
    assert Names(positions) == Names(init) + [positions[|positions| - 1].data];
    DedupSnoc(Names(init), positions[|positions| - 1].data);
  }

  /** Assigning the last position's candidates under its name keeps every entry a last-named one. */
  lemma GroupStep(positions: seq<Row<string>>, cands: seq<Row<Candidate>>, g0: seq<(string, seq<Row<Candidate>>)>,
                  g: seq<(string, seq<Row<Candidate>>)>)
    requires |positions| > 0
    requires forall i :: 0 <= i < |g0| ==> LastNamedEntry(positions[..|positions| - 1], cands, g0[i])
    requires g == Put(g0, positions[|positions| - 1].data, CandidatesOf(cands, positions[|positions| - 1].id))
    ensures forall i :: 0 <= i < |g| ==> LastNamedEntry(positions, cands, g[i])
  {
    var last := positions[|positions| - 1];
    forall i | 0 <= i < |g|
      ensures LastNamedEntry(positions, cands, g[i])
    {
      PutAt(g0, last.data, CandidatesOf(cands, last.id), i);
      if g[i].0 == last.data {
        LastEntryNamed(positions, cands, g[i]);
      } else {
        EarlierEntryNamed(positions, cands, g0[i]);
      }
    }
  }

  lemma LastEntryNamed(positions: seq<Row<string>>, cands: seq<Row<Candidate>>, e: (string, seq<Row<Candidate>>))
    requires |positions| > 0
    requires e == (positions[|positions| - 1].data, CandidatesOf(cands, positions[|positions| - 1].id))
    ensures LastNamedEntry(positions, cands, e)
  {
    assert IsLastNamed(positions, |positions| - 1, e.0);
  }

  lemma EarlierEntryNamed(positions: seq<Row<string>>, cands: seq<Row<Candidate>>, e: (string, seq<Row<Candidate>>))
    requires |positions| > 0 && e.0 != positions[|positions| - 1].data
    requires LastNamedEntry(positions[..|positions| - 1], cands, e)
    ensures LastNamedEntry(positions, cands, e)
  {
    var init := positions[..|positions| - 1];
    var j :| IsLastNamed(init, j, e.0) && e.1 == CandidatesOf(cands, init[j].id);
    assert IsLastNamed(positions, j, e.0);
  }

  /** GET `/vote`: the guard reads the voted flag cached in the session, not the store. */
  function VotePage(store: Store, session: Session): (v: VoteView)
    ensures !LoginRequired(session) ==> v == VoteToLogin
    ensures LoginRequired(session) && session.voted ==> v == VoteToSummary
    ensures LoginRequired(session) && !session.voted ==>
              v.BallotForm? && Keys(v.grouped) == Dedup(Names(store.positions.rows))
  {
    if !LoginRequired(session) then VoteToLogin
    else if session.voted then VoteToSummary
    else BallotForm(GroupCandidates(store.positions.rows, store.candidates.rows))
  }

  /** With distinct position names, the form lists under each position's name exactly the candidates
      whose `position_id` is that position's id. */
  lemma BallotFormListsOwnCandidates(store: Store, i: nat)
    requires Distinct(Names(store.positions.rows))
    requires i < |store.positions.rows|
    ensures var g := GroupCandidates(store.positions.rows, store.candidates.rows);
      var p := store.positions.rows[i];
      p.data in Keys(g) && Get(g, p.data) == CandidatesOf(store.candidates.rows, p.id)
  {
    var ps := store.positions.rows;
    var g := GroupCandidates(ps, store.candidates.rows);
    var p := ps[i];
    assert Names(ps)[i] == p.data;
    assert p.data in Keys(g);
    var k := IndexOfKey(g, p.data);
    assert LastNamedEntry(ps, store.candidates.rows, g[k]);
    var j :| IsLastNamed(ps, j, g[k].0) && g[k].1 == CandidatesOf(store.candidates.rows, ps[j].id);
    LastNamedUnique(ps, i, j);
  }

  lemma LastNamedUnique(ps: seq<Row<string>>, i: nat, j: int)
    requires Distinct(Names(ps)) && i < |ps|
    requires IsLastNamed(ps, j, ps[i].data)
    ensures j == i
  {
    assert Names(ps)[j] == Names(ps)[i];
  }

  /** A second session of the same student, opened before the first one voted, still gets the form:
      the session flag is stale, while the stored flag is set. */
  lemma StaleSessionStillShowsForm(store: Store, first: Session, second: Session, form: Form, now: string)
    requires LoginRequired(first) && LoginRequired(second) && first.user == second.user && !second.voted
    requires first.user in store.students
    ensures var s1 := SubmitVote(store, first, form, now).0;
      s1.students[first.user].voted && VotePage(s1, second).BallotForm?
  {
  }

  /** `ballot_summary` for one ballot: the candidate it names, under the position that CANDIDATE stands
      for; the ballot's own `position_id` plays no part. */
  function SummaryOfBallot(b: Ballot, cands: seq<Row<Candidate>>, positions: seq<Row<string>>): seq<(string, string)>
  {
    if |cands| == 0 then []
    else
      var c := cands[0];
      (if b.candidateId == Int(c.id) then PositionsOf(c, positions) else []) + SummaryOfBallot(b, cands[1..], positions)
  }

  function PositionsOf(c: Row<Candidate>, positions: seq<Row<string>>): seq<(string, string)>
  {
    if |positions| == 0 then []
    else
      (if c.data.positionId == Int(positions[0].id) then [(positions[0].data, c.data.name)] else [])
      + PositionsOf(c, positions[1..])
  }

  /** GET `/ballot_summary`: (position name, candidate name) for each of the student's ballots whose
      candidate, and whose candidate's position, still exist. Rows are listed in ballot order. */
  function BallotSummary(ballots: seq<Row<Ballot>>, cands: seq<Row<Candidate>>, positions: seq<Row<string>>,
                         regno: string): seq<(string, string)>
  {
    if |ballots| == 0 then []
    else
      var b := ballots[0].data;
      (if b.regno == regno then SummaryOfBallot(b, cands, positions) else [])
      + BallotSummary(ballots[1..], cands, positions, regno)
  }

  /** The summary joins through the candidate: a row appears exactly when some ballot of the student
      names an existing candidate whose position exists. */
  ghost predicate Explains(ballots: seq<Row<Ballot>>, cands: seq<Row<Candidate>>, positions: seq<Row<string>>,
                           regno: string, row: (string, string))
  {
    exists b, c, p :: b in ballots && c in cands && p in positions &&
      b.data.regno == regno && b.data.candidateId == Int(c.id) && c.data.positionId == Int(p.id) &&
      row == (p.data, c.data.name)
  }

  lemma {:induction false} PositionsOfSpec(c: Row<Candidate>, positions: seq<Row<string>>, row: (string, string))
    ensures row in PositionsOf(c, positions) <==>
              exists p :: p in positions && c.data.positionId == Int(p.id) && row == (p.data, c.data.name)
  {
    if |positions| > 0 {
      PositionsOfSpec(c, positions[1..], row);
      assert forall p :: p in positions <==> p == positions[0] || p in positions[1..];
    }
  }

  lemma {:induction false} SummaryOfBallotSpec(b: Ballot, cands: seq<Row<Candidate>>, positions: seq<Row<string>>,
                                              row: (string, string))
    ensures row in SummaryOfBallot(b, cands, positions) <==>
              exists c, p :: c in cands && p in positions && b.candidateId == Int(c.id) &&
                c.data.positionId == Int(p.id) && row == (p.data, c.data.name)
  {
    if |cands| > 0 {
      SummaryOfBallotSpec(b, cands[1..], positions, row);
      PositionsOfSpec(cands[0], positions, row);
      assert forall c :: c in cands <==> c == cands[0] || c in cands[1..];
    }
  }

  lemma {:induction false} BallotSummarySpec(ballots: seq<Row<Ballot>>, cands: seq<Row<Candidate>>,
                                             positions: seq<Row<string>>, regno: string, row: (string, string))
    ensures row in BallotSummary(ballots, cands, positions, regno) <==> Explains(ballots, cands, positions, regno, row)
  {
    if |ballots| > 0 {
      BallotSummarySpec(ballots[1..], cands, positions, regno, row);
      SummaryOfBallotSpec(ballots[0].data, cands, positions, row);
      assert forall b :: b in ballots <==> b == ballots[0] || b in ballots[1..];
    }
  }

  /** The summary is a bag, not a set: each ballot contributes its own rows, so the rows of two runs of
      ballots are the rows of the first followed by the rows of the second. */
  lemma {:induction false} BallotSummaryConcat(a: seq<Row<Ballot>>, b: seq<Row<Ballot>>, cands: seq<Row<Candidate>>,
                                               positions: seq<Row<string>>, regno: string)
    ensures BallotSummary(a + b, cands, positions, regno) ==
              BallotSummary(a, cands, positions, regno) + BallotSummary(b, cands, positions, regno)
  {
    if |a| > 0 {
      BallotSummaryConcat(a[1..], b, cands, positions, regno);
      assert (a + b)[0] == a[0];
      assert (a + b)[1..] == a[1..] + b;
      var head := if a[0].data.regno == regno then SummaryOfBallot(a[0].data, cands, positions) else [];
      var x, y := BallotSummary(a[1..], cands, positions, regno), BallotSummary(b, cands, positions, regno);
      assert head + (x + y) == (head + x) + y;
    } else {
      assert a + b == b;
    }
  }

  /** Ballots that agree on student and candidate show the same summary rows, whatever their timestamps. */
  lemma {:induction false} BallotSummarySameChoices(a: seq<Row<Ballot>>, b: seq<Row<Ballot>>,
                                                    cands: seq<Row<Candidate>>, positions: seq<Row<string>>,
                                                    regno: string)
    requires |a| == |b|
    requires forall k :: 0 <= k < |a| ==> SameChoice(a[k].data, b[k].data)
    ensures BallotSummary(a, cands, positions, regno) == BallotSummary(b, cands, positions, regno)
  {
    if |a| > 0 {
      BallotSummarySameChoices(a[1..], b[1..], cands, positions, regno);
      SummaryOfBallotChoice(a[0].data, b[0].data, cands, positions);
    }
  }

  lemma {:induction false} SummaryOfBallotChoice(x: Ballot, y: Ballot, cands: seq<Row<Candidate>>,
                                                 positions: seq<Row<string>>)
    requires x.candidateId == y.candidateId
    ensures SummaryOfBallot(x, cands, positions) == SummaryOfBallot(y, cands, positions)
  {
    if |cands| > 0 {
      SummaryOfBallotChoice(x, y, cands[1..], positions);
    }
  }

  /** A submission repeated with the same choices shows in the student's summary twice: the rows of
      the earlier ballots, then the rows of the first submission, then the same rows again.
      `DoubleSubmissionDuplicates` shows that two `submit_vote` calls with one form leave such ballots. */
  lemma DuplicatedSummaryRepeats(before: seq<Row<Ballot>>, after: seq<Row<Ballot>>, regno: string, sel: Form,
                                 now1: string, now2: string, cs: seq<Row<Candidate>>, ps: seq<Row<string>>)
    requires forall k :: 0 <= k < |sel| ==> IsPositionKey(sel[k].0)
    requires Duplicated(before, after, regno, sel, now1, now2)
    ensures BallotSummary(after, cs, ps, regno) ==
              BallotSummary(before, cs, ps, regno) + BallotSummary(after[|before|..|before| + |sel|], cs, ps, regno)
              + BallotSummary(after[|before|..|before| + |sel|], cs, ps, regno)
  {
    var n, m := |before|, |sel|;
    var once, again := after[n..n + m], after[n + m..];
    assert after == before + once + again by {
      assert after[..n] == before;
    }
    forall k | 0 <= k < m
      ensures SameChoice(once[k].data, again[k].data)
    {
      assert once[k] == after[n + k] && again[k] == after[n + m + k];
      assert IsPositionKey(sel[k].0);
      assert SameChoice(after[n + k].data, after[n + m + k].data);
    }
    BallotSummarySameChoices(once, again, cs, ps, regno);
    BallotSummaryConcat(before + once, again, cs, ps, regno);
    BallotSummaryConcat(before, once, cs, ps, regno);
  }
}
