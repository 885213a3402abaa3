/** The results engine: the vote-count query of `results` (repeated in `student_dashboard`) and the
    grouping of its rows by position name. */
module Tally {
  import opened Common
  import opened PyDict
  import opened Sql
  import opened Schema
  import opened Auth
  import Voting

  /** One row of the query, with the `GROUP BY p.id, c.id` key it was aggregated under. */
  datatype TallyRow = TallyRow(positionId: int, position: string, candidateId: Option<int>,
                               candidate: Option<string>, votes: nat)

  /** The `LEFT JOIN ballots b ON c.id = b.candidate_id AND b.position_id = p.id` condition. */
  predicate CountsFor(b: Ballot, pid: int, cid: int)
  {
    b.candidateId == Int(cid) && b.positionId == Int(pid)
  }

  /** `COUNT(b.id)` for the group (p, c). */
  function Votes(ballots: seq<Row<Ballot>>, pid: int, cid: int): (n: nat)
    ensures n <= |ballots|
  {
    if |ballots| == 0 then 0
    else Votes(ballots[..|ballots| - 1], pid, cid) + (if CountsFor(ballots[|ballots| - 1].data, pid, cid) then 1 else 0)
  }

  function CandidateRow(p: Row<string>, c: Row<Candidate>, ballots: seq<Row<Ballot>>): TallyRow
  {
    TallyRow(p.id, p.data, Some(c.id), Some(c.data.name), Votes(ballots, p.id, c.id))
  }

  /** A position without candidates still yields one row: NULL candidate, zero votes. */
  function EmptyRow(p: Row<string>): TallyRow
  {
    TallyRow(p.id, p.data, None, None, 0)
  }

  /** One counted row per candidate of the position, in candidate order. */
  function CandidateRows(p: Row<string>, cs: seq<Row<Candidate>>, ballots: seq<Row<Ballot>>): seq<TallyRow>
  {
    seq(|cs|, k requires 0 <= k < |cs| => CandidateRow(p, cs[k], ballots))
  }

  /** The groups of one position, in candidate scan order. */
  function GroupRows(p: Row<string>, cands: seq<Row<Candidate>>, ballots: seq<Row<Ballot>>): seq<TallyRow>
  {
    var cs := CandidatesOf(cands, p.id);
    if |cs| == 0 then [EmptyRow(p)] else CandidateRows(p, cs, ballots)
  }

  /** The query before `ORDER BY`: every group of the outer joins, position by position. */
  function Grouped(ps: seq<Row<string>>, cands: seq<Row<Candidate>>, ballots: seq<Row<Ballot>>): seq<TallyRow>
  {
    if |ps| == 0 then [] else GroupRows(ps[0], cands, ballots) + Grouped(ps[1..], cands, ballots)
  }

  predicate SortedByVotes(rows: seq<TallyRow>)
  {
    forall i, j :: 0 <= i < j < |rows| ==> rows[i].votes >= rows[j].votes
  }

  /** `ORDER BY p.id, votes DESC`. */
  predicate Ordered(rows: seq<TallyRow>)
  {
    forall i, j :: 0 <= i < j < |rows| ==>
      rows[i].positionId < rows[j].positionId ||
      (rows[i].positionId == rows[j].positionId && rows[i].votes >= rows[j].votes)
  }

  function InsertByVotes(x: TallyRow, rows: seq<TallyRow>): (r: seq<TallyRow>)
    requires SortedByVotes(rows)
    ensures SortedByVotes(r)
    ensures multiset(r) == multiset(rows) + multiset{x}
  {
    if |rows| == 0 || x.votes >= rows[0].votes then
      SortedCons(x, rows);
      [x] + rows
    else
      var tail := InsertByVotes(x, rows[1..]);
      HeadBoundsInsert(x, rows, tail);
      SortedCons(rows[0], tail);
      assert rows == [rows[0]] + rows[1..];
      [rows[0]] + tail
  }

  /** A row with at least the votes of every row of a sorted list can go in front of it. */
  lemma SortedCons(h: TallyRow, t: seq<TallyRow>)
    requires SortedByVotes(t)
    requires forall k :: 0 <= k < |t| ==> h.votes >= t[k].votes
    ensures SortedByVotes([h] + t)
  {
    var r := [h] + t;
    forall i, j | 0 <= i < j < |r|
      ensures r[i].votes >= r[j].votes
    {
      assert r[j] == t[j - 1];
      if i > 0 {
        assert r[i] == t[i - 1];
      }
    }
  }

  /** The head of a sorted list still bounds the votes of its tail once a smaller row joins it. */
  lemma HeadBoundsInsert(x: TallyRow, rows: seq<TallyRow>, tail: seq<TallyRow>)
    requires SortedByVotes(rows) && |rows| > 0 && x.votes < rows[0].votes
    requires multiset(tail) == multiset(rows[1..]) + multiset{x}
    ensures forall k :: 0 <= k < |tail| ==> rows[0].votes >= tail[k].votes
  {
    forall k | 0 <= k < |tail|
      ensures rows[0].votes >= tail[k].votes
    {
      var y := tail[k];
      assert y in multiset(tail);
      if y != x {
        assert y in multiset(rows[1..]);
        assert y in rows[1..];
        var j :| 0 <= j < |rows[1..]| && rows[1..][j] == y;
        assert rows[j + 1] == y;
      }
    }
  }

  /** Insertion sort by votes, largest first; ties keep scan order (SQL leaves their order open). */
  function SortByVotes(rows: seq<TallyRow>): (r: seq<TallyRow>)
    ensures SortedByVotes(r)
    ensures multiset(r) == multiset(rows)
  {
    if |rows| == 0 then []
    else
      assert rows == [rows[0]] + rows[1..];
      InsertByVotes(rows[0], SortByVotes(rows[1..]))
  }

  /** The rows of the results query, in the order it returns them. */
  function Tally(ps: seq<Row<string>>, cands: seq<Row<Candidate>>, ballots: seq<Row<Ballot>>): (r: seq<TallyRow>)
    ensures multiset(r) == multiset(Grouped(ps, cands, ballots))
  {
    if |ps| == 0 then []
    else SortByVotes(GroupRows(ps[0], cands, ballots)) + Tally(ps[1..], cands, ballots)
  }

  /** `SELECT ... FROM positions p LEFT JOIN candidates c ... LEFT JOIN ballots b ... GROUP BY p.id, c.id
      ORDER BY p.id, votes DESC` over the store. */
  function Results(store: Store): seq<TallyRow>
  {
    Tally(store.positions.rows, store.candidates.rows, store.ballots.rows)
  }

  // ---------------------------------------------------------------------------------------------
  // Which rows the query returns

  lemma {:induction false} GroupedComplete(ps: seq<Row<string>>, cands: seq<Row<Candidate>>,
                                           ballots: seq<Row<Ballot>>, p: Row<string>)
    requires p in ps
    ensures CandidatesOf(cands, p.id) == [] ==> EmptyRow(p) in Grouped(ps, cands, ballots)
    ensures forall c :: c in cands && c.data.positionId == Int(p.id) ==> CandidateRow(p, c, ballots) in Grouped(ps, cands, ballots)
  {
    if ps[0] != p {
      GroupedComplete(ps[1..], cands, ballots, p);
    } else {
      var cs := CandidatesOf(cands, p.id);
      forall c | c in cands && c.data.positionId == Int(p.id)
        ensures CandidateRow(p, c, ballots) in GroupRows(p, cands, ballots)
      {
        assert c in cs;
        var k :| 0 <= k < |cs| && cs[k] == c;
        assert CandidateRows(p, cs, ballots)[k] == CandidateRow(p, c, ballots);
      }
    }
  }

  /** Row `r` is the group of position `p` with candidate `c`, or the NULL group of a position without candidates. */
  ghost predicate Justified(r: TallyRow, ps: seq<Row<string>>, cands: seq<Row<Candidate>>, ballots: seq<Row<Ballot>>)
  {
    exists p :: p in ps &&
      ((r == EmptyRow(p) && CandidatesOf(cands, p.id) == []) ||
       (exists c :: c in cands && c.data.positionId == Int(p.id) && r == CandidateRow(p, c, ballots)))
  }

  lemma {:induction false} GroupedSound(ps: seq<Row<string>>, cands: seq<Row<Candidate>>, ballots: seq<Row<Ballot>>,
                                        r: TallyRow)
    requires r in Grouped(ps, cands, ballots)
    ensures Justified(r, ps, cands, ballots)
  {
    var p := ps[0];
    if r in GroupRows(p, cands, ballots) {
      var cs := CandidatesOf(cands, p.id);
      if |cs| > 0 {
        var k :| 0 <= k < |cs| && CandidateRows(p, cs, ballots)[k] == r;
        assert cs[k] in cs;
      }
    } else {
      GroupedSound(ps[1..], cands, ballots, r);
      var q :| q in ps[1..] &&
        ((r == EmptyRow(q) && CandidatesOf(cands, q.id) == []) ||
         (exists c :: c in cands && c.data.positionId == Int(q.id) && r == CandidateRow(q, c, ballots)));
      assert q in ps;
    }
  }

  /** Every candidate of every position has a row counting exactly the ballots that name both that
      candidate and that position; a position without candidates has its NULL row with zero votes. */
  lemma TallyComplete(ps: seq<Row<string>>, cands: seq<Row<Candidate>>, ballots: seq<Row<Ballot>>, p: Row<string>)
    requires p in ps
    ensures CandidatesOf(cands, p.id) == [] ==> EmptyRow(p) in Tally(ps, cands, ballots)
    ensures forall c :: c in cands && c.data.positionId == Int(p.id) ==>
              TallyRow(p.id, p.data, Some(c.id), Some(c.data.name), Votes(ballots, p.id, c.id)) in Tally(ps, cands, ballots)
  {
    GroupedComplete(ps, cands, ballots, p);
    var t := Tally(ps, cands, ballots);
    var g := Grouped(ps, cands, ballots);
    assert forall x :: x in g ==> x in t by {
      forall x | x in g
        ensures x in t
      {
        assert multiset(g)[x] > 0;
      }
    }
  }

  /** Every row the query returns is one of those groups, and nothing else. */
  lemma TallySound(ps: seq<Row<string>>, cands: seq<Row<Candidate>>, ballots: seq<Row<Ballot>>, r: TallyRow)
    requires r in Tally(ps, cands, ballots)
    ensures Justified(r, ps, cands, ballots)
  {
    assert multiset(Tally(ps, cands, ballots))[r] > 0;
    GroupedSound(ps, cands, ballots, r);
  }

  // ---------------------------------------------------------------------------------------------
  // The order of the rows

  lemma OrderedConcat(a: seq<TallyRow>, b: seq<TallyRow>)
    requires Ordered(a) && Ordered(b)
    requires forall x, y :: x in a && y in b ==> x.positionId < y.positionId
    ensures Ordered(a + b)
  {
    forall i, j | 0 <= i < j < |a + b|
      ensures (a + b)[i].positionId < (a + b)[j].positionId ||
              ((a + b)[i].positionId == (a + b)[j].positionId && (a + b)[i].votes >= (a + b)[j].votes)
    {
      if i < |a| && j >= |a| {
        assert (a + b)[i] == a[i] && a[i] in a;
        assert (a + b)[j] == b[j - |a|] && b[j - |a|] in b;
      } else if j < |a| {
        assert (a + b)[i] == a[i] && (a + b)[j] == a[j];
      } else {
        assert (a + b)[i] == b[i - |a|] && (a + b)[j] == b[j - |a|];
      }
    }
  }

  lemma {:induction false} TallyPositions(ps: seq<Row<string>>, cands: seq<Row<Candidate>>, ballots: seq<Row<Ballot>>)
    ensures forall r :: r in Tally(ps, cands, ballots) ==> exists p :: p in ps && r.positionId == p.id
  {
    forall r | r in Tally(ps, cands, ballots)
      ensures exists p :: p in ps && r.positionId == p.id
    {
      TallySound(ps, cands, ballots, r);
    }
  }

  lemma BlockPositions(p: Row<string>, cands: seq<Row<Candidate>>, ballots: seq<Row<Ballot>>)
    ensures forall r :: r in SortByVotes(GroupRows(p, cands, ballots)) ==> r.positionId == p.id
  {
    var g := GroupRows(p, cands, ballots);
    forall r | r in SortByVotes(g)
      ensures r.positionId == p.id
    {
      assert multiset(SortByVotes(g))[r] > 0;
      assert r in g;
    }
  }

  /** With position ids increasing in scan order, the rows come ordered by position id and, within a
      position, by votes descending. */
  lemma {:induction false} TallyOrdered(ps: seq<Row<string>>, cands: seq<Row<Candidate>>, ballots: seq<Row<Ballot>>)
    requires Increasing(ps)
    ensures Ordered(Tally(ps, cands, ballots))
  {
    if |ps| > 0 {
      var p := ps[0];
      var block := SortByVotes(GroupRows(p, cands, ballots));
      var rest := Tally(ps[1..], cands, ballots);
      TailAbove(ps);
      TallyOrdered(ps[1..], cands, ballots);
      BlockPositions(p, cands, ballots);
      TallyPositions(ps[1..], cands, ballots);
      assert Ordered(block) by {
        forall i, j | 0 <= i < j < |block|
          ensures block[i].positionId == block[j].positionId && block[i].votes >= block[j].votes
        {
          assert block[i] in block && block[j] in block;
        }
      }
      forall x, y | x in block && y in rest
        ensures x.positionId < y.positionId
      {
        var q :| q in ps[1..] && y.positionId == q.id;
      }
      OrderedConcat(block, rest);
    }
  }

  // ---------------------------------------------------------------------------------------------
  // One row per group

  lemma DistinctConcat<X>(a: seq<X>, b: seq<X>)
    requires Distinct(a) && Distinct(b)
    requires forall x :: x in a ==> x !in b
    ensures Distinct(a + b)
  {
    forall i, j | 0 <= i < j < |a + b|
      ensures (a + b)[i] != (a + b)[j]
    {
      if i < |a| && j >= |a| {
        assert (a + b)[i] == a[i] && a[i] in a;
        assert (a + b)[j] == b[j - |a|] && b[j - |a|] in b;
      } else if j < |a| {
        assert (a + b)[i] == a[i] && (a + b)[j] == a[j];
      } else {
        assert (a + b)[i] == b[i - |a|] && (a + b)[j] == b[j - |a|];
      }
    }
  }

  lemma {:induction false} DistinctOnce<X>(s: seq<X>, x: X)
    requires Distinct(s)
    ensures multiset(s)[x] <= 1
  {
    if |s| > 0 {
      assert s == [s[0]] + s[1..];
      assert Distinct(s[1..]) by {
        forall i, j | 0 <= i < j < |s[1..]|
          ensures s[1..][i] != s[1..][j]
        {
          assert s[1..][i] == s[i + 1] && s[1..][j] == s[j + 1];
        }
      }
      DistinctOnce(s[1..], x);
      if x == s[0] {
        assert x !in s[1..];
      }
    }
  }

  lemma GroupRowsDistinct(p: Row<string>, cands: seq<Row<Candidate>>, ballots: seq<Row<Ballot>>)
    requires Increasing(cands)
    ensures Distinct(GroupRows(p, cands, ballots))
    ensures forall r :: r in GroupRows(p, cands, ballots) ==> r.positionId == p.id
  {
    var cs := CandidatesOf(cands, p.id);
    var g := GroupRows(p, cands, ballots);
    if |cs| > 0 {
      forall i, j | 0 <= i < j < |g|
        ensures g[i] != g[j]
      {
        assert g[i].candidateId == Some(cs[i].id) && g[j].candidateId == Some(cs[j].id);
      }
    }
  }

  lemma {:induction false} GroupedDistinct(ps: seq<Row<string>>, cands: seq<Row<Candidate>>, ballots: seq<Row<Ballot>>)
    requires Increasing(ps) && Increasing(cands)
    ensures Distinct(Grouped(ps, cands, ballots))
    ensures forall r :: r in Grouped(ps, cands, ballots) ==> exists p :: p in ps && r.positionId == p.id
  {
    if |ps| > 0 {
      var p := ps[0];
      TailAbove(ps);
      GroupedDistinct(ps[1..], cands, ballots);
      GroupRowsDistinct(p, cands, ballots);
      var rest := Grouped(ps[1..], cands, ballots);
      assert forall x :: x in GroupRows(p, cands, ballots) ==> x !in rest;
      DistinctConcat(GroupRows(p, cands, ballots), rest);
    }
  }

  lemma SameIdSameRow<T>(rows: seq<Row<T>>, x: Row<T>, y: Row<T>)
    requires Increasing(rows) && x in rows && y in rows && x.id == y.id
    ensures x == y
  {
    var i :| 0 <= i < |rows| && rows[i] == x;
    var j :| 0 <= j < |rows| && rows[j] == y;
    assert i == j;
  }

  /** In a valid store each candidate of each position has exactly one row: the row exists, occurs once,
      and any row with its (position id, candidate id) key is that row. */
  lemma TallyOneRowPerCandidate(store: Store, p: Row<string>, c: Row<Candidate>)
    requires Valid(store)
    requires p in store.positions.rows && c in store.candidates.rows && c.data.positionId == Int(p.id)
    ensures var t := Results(store);
      var row := CandidateRow(p, c, store.ballots.rows);
      && multiset(t)[row] == 1
      && forall i :: 0 <= i < |t| && t[i].positionId == p.id && t[i].candidateId == Some(c.id) ==> t[i] == row
  {
    var ps, cands, ballots := store.positions.rows, store.candidates.rows, store.ballots.rows;
    var t := Results(store);
    var row := CandidateRow(p, c, ballots);
    TallyComplete(ps, cands, ballots, p);
    GroupedDistinct(ps, cands, ballots);
    DistinctOnce(Grouped(ps, cands, ballots), row);
    forall i | 0 <= i < |t| && t[i].positionId == p.id && t[i].candidateId == Some(c.id)
      ensures t[i] == row
    {
      TallySound(ps, cands, ballots, t[i]);
      var q :| q in ps &&
        ((t[i] == EmptyRow(q) && CandidatesOf(cands, q.id) == []) ||
         (exists d :: d in cands && d.data.positionId == Int(q.id) && t[i] == CandidateRow(q, d, ballots)));
      SameIdSameRow(ps, p, q);
      var d :| d in cands && d.data.positionId == Int(q.id) && t[i] == CandidateRow(q, d, ballots);
      SameIdSameRow(cands, c, d);
    }
  }

  // ---------------------------------------------------------------------------------------------
  // How ballots move the counts

  lemma {:induction false} VotesConcat(a: seq<Row<Ballot>>, b: seq<Row<Ballot>>, pid: int, cid: int)
    ensures Votes(a + b, pid, cid) == Votes(a, pid, cid) + Votes(b, pid, cid)
  {
    if |b| > 0 {
      VotesConcat(a, b[..|b| - 1], pid, cid);
      assert (a + b)[..|a + b| - 1] == a + b[..|b| - 1];
    } else {
      assert a + b == a;
    }
  }

  /** Taking one ballot out removes its contribution, and only its, from every count. */
  lemma VotesWithout(rows: seq<Row<Ballot>>, k: nat, pid: int, cid: int)
    requires k < |rows|
    ensures Votes(rows, pid, cid) == Votes(rows[..k] + rows[k + 1..], pid, cid) + (if CountsFor(rows[k].data, pid, cid) then 1 else 0)
  {
    SplitAt(rows, k);
    VotesConcat(rows[..k], [rows[k]] + rows[k + 1..], pid, cid);
    VotesConcat([rows[k]], rows[k + 1..], pid, cid);
    VotesConcat(rows[..k], rows[k + 1..], pid, cid);
    assert [rows[k]][..0] == [];
  }

  /** Ballots agreeing on student, position and candidate count the same, whatever their timestamps. */
  lemma {:induction false} VotesSameChoices(a: seq<Row<Ballot>>, b: seq<Row<Ballot>>, pid: int, cid: int)
    requires |a| == |b|
    requires forall k :: 0 <= k < |a| ==> a[k].data.candidateId == b[k].data.candidateId && a[k].data.positionId == b[k].data.positionId
    ensures Votes(a, pid, cid) == Votes(b, pid, cid)
  {
    if |a| > 0 {
      VotesSameChoices(a[..|a| - 1], b[..|b| - 1], pid, cid);
    }
  }

  /** A ballot that names no candidate together with that candidate's own position is counted nowhere:
      appending it leaves the results unchanged. */
  lemma MismatchedBallotIgnored(ps: seq<Row<string>>, cands: seq<Row<Candidate>>, ballots: seq<Row<Ballot>>, b: Row<Ballot>)
    requires forall c :: c in cands && b.data.candidateId == Int(c.id) ==> b.data.positionId != c.data.positionId
    ensures Tally(ps, cands, ballots + [b]) == Tally(ps, cands, ballots)
  {
    TallyIgnores(ps, cands, ballots, b);
  }

  lemma {:induction false} TallyIgnores(ps: seq<Row<string>>, cands: seq<Row<Candidate>>, ballots: seq<Row<Ballot>>, b: Row<Ballot>)
    requires forall c :: c in cands && b.data.candidateId == Int(c.id) ==> b.data.positionId != c.data.positionId
    ensures Tally(ps, cands, ballots + [b]) == Tally(ps, cands, ballots)
  {
    if |ps| > 0 {
      var p := ps[0];
      TallyIgnores(ps[1..], cands, ballots, b);
      var cs := CandidatesOf(cands, p.id);
      assert (ballots + [b])[..|ballots|] == ballots;
      var before, after := CandidateRows(p, cs, ballots), CandidateRows(p, cs, ballots + [b]);
      forall k | 0 <= k < |cs|
        ensures after[k] == before[k]
      {
        assert cs[k] in cs;
        assert Votes(ballots + [b], p.id, cs[k].id) == Votes(ballots, p.id, cs[k].id);
      }
      assert |after| == |before| == |cs|;
      assert after == before;
    }
  }

  /** Two submissions of the same form add, to every count, twice what one submission adds. */
  lemma DuplicatedCountsTwice(before: seq<Row<Ballot>>, first: seq<Row<Ballot>>, second: seq<Row<Ballot>>, pid: int, cid: int)
    requires |first| == |second|
    requires forall k :: 0 <= k < |first| ==>
               first[k].data.candidateId == second[k].data.candidateId && first[k].data.positionId == second[k].data.positionId
    ensures Votes(before + first + second, pid, cid) == Votes(before, pid, cid) + 2 * Votes(first, pid, cid)
  {
    VotesConcat(before + first, second, pid, cid);
    VotesConcat(before, first, pid, cid);
    VotesSameChoices(first, second, pid, cid);
  }

  /** Submitting the same form twice counts every selection twice: each count grows by twice what the
      first submission's ballots contribute to it. */
  lemma DoubleSubmissionCountsTwice(store: Store, session: Session, form: Voting.Form, now1: string, now2: string,
                                    pid: int, cid: int)
    requires LoginRequired(session)
    ensures var b0 := store.ballots.rows;
      var s1 := Voting.SubmitVote(store, session, form, now1);
      var b2 := Voting.SubmitVote(s1.0, s1.1, form, now2).0.ballots.rows;
      var n := |Voting.Selections(Voting.FormItems(form))|;
      && |b2| == |b0| + 2 * n
      && Votes(b2, pid, cid) == Votes(b0, pid, cid) + 2 * Votes(b2[|b0|..|b0| + n], pid, cid)
  {
    var b0 := store.ballots.rows;
    var s1 := Voting.SubmitVote(store, session, form, now1);
    var b2 := Voting.SubmitVote(s1.0, s1.1, form, now2).0.ballots.rows;
    var sel := Voting.Selections(Voting.FormItems(form));
    var n := |sel|;
    Voting.DoubleSubmissionDuplicates(store, session, form, now1, now2);
    assert Voting.Duplicated(b0, b2, session.user, sel, now1, now2);
    var first, second := b2[|b0|..|b0| + n], b2[|b0| + n..];
    assert b2 == b0 + first + second by {
      assert b2[..|b0|] == b0;
    }
    forall k | 0 <= k < |first|
      ensures first[k].data.candidateId == second[k].data.candidateId && first[k].data.positionId == second[k].data.positionId
    {
      assert first[k] == b2[|b0| + k] && second[k] == b2[|b0| + n + k];
      assert Voting.IsPositionKey(sel[k].0);
      assert Voting.SameChoice(b2[|b0| + k].data, b2[|b0| + n + k].data);
    }
    DuplicatedCountsTwice(b0, first, second, pid, cid);
  }

  // ---------------------------------------------------------------------------------------------
  // `results_by_position`

  datatype Entry = Entry(candidate: Option<string>, votes: nat)

  function EntryOf(r: TallyRow): Entry
  {
    Entry(r.candidate, r.votes)
  }

  /** The loop of `results`: each row's (candidate, votes) goes at the end of the list under its position NAME. */
  function GroupByPosition(rows: seq<TallyRow>): (d: seq<(string, seq<Entry>)>)
    ensures Distinct(Keys(d))
  {
    if |rows| == 0 then []
    else
      var last := rows[|rows| - 1];
      AppendTo(GroupByPosition(rows[..|rows| - 1]), last.position, EntryOf(last))
  }

  function PositionNames(rows: seq<TallyRow>): (names: seq<string>)
    ensures |names| == |rows|
    ensures forall i :: 0 <= i < |rows| ==> names[i] == rows[i].position
  {
    seq(|rows|, i requires 0 <= i < |rows| => rows[i].position)
  }

  /** The entries of the rows named `name`, in row order. */
  function EntriesNamed(rows: seq<TallyRow>, name: string): seq<Entry>
  {
    if |rows| == 0 then []
    else
      var last := rows[|rows| - 1];
      EntriesNamed(rows[..|rows| - 1], name) + (if last.position == name then [EntryOf(last)] else [])
  }

  /** The dict has one key per position name, in order of first appearance, and under each name exactly
      the entries of the rows with that name, in row order. */
  lemma {:induction false} GroupByPositionSpec(rows: seq<TallyRow>)
    ensures Keys(GroupByPosition(rows)) == Dedup(PositionNames(rows))
    ensures forall i :: 0 <= i < |GroupByPosition(rows)| ==>
              GroupByPosition(rows)[i].1 == EntriesNamed(rows, GroupByPosition(rows)[i].0)
  {
    if |rows| > 0 {
      var init := rows[..|rows| - 1];
      var last := rows[|rows| - 1];
      GroupByPositionSpec(init);
      assert PositionNames(rows)[..|rows| - 1] == PositionNames(init);
      var d0 := GroupByPosition(init);
      var d := GroupByPosition(rows);
      forall i | 0 <= i < |d|
        ensures d[i].1 == EntriesNamed(rows, d[i].0)
      {
        if i < |d0| {
          assert Keys(d)[i] == Keys(d0)[i];
        } else {
          assert last.position !in Keys(d0);
          assert d[i].0 == last.position;
          EntriesNamedAbsent(init, last.position);
        }
      }
    }
  }

  lemma {:induction false} EntriesNamedAbsent(rows: seq<TallyRow>, name: string)
    requires name !in Dedup(PositionNames(rows))
    ensures EntriesNamed(rows, name) == []
  {
    if |rows| > 0 {
      assert PositionNames(rows)[|rows| - 1] == rows[|rows| - 1].position;
      assert PositionNames(rows)[..|rows| - 1] == PositionNames(rows[..|rows| - 1]);
      EntriesNamedAbsent(rows[..|rows| - 1], name);
    }
  }

  function TotalEntries(d: seq<(string, seq<Entry>)>): nat
  {
    if |d| == 0 then 0 else |d[0].1| + TotalEntries(d[1..])
  }

  lemma {:induction false} TotalSnoc(d: seq<(string, seq<Entry>)>, x: (string, seq<Entry>))
    ensures TotalEntries(d + [x]) == TotalEntries(d) + |x.1|
  {
    if |d| > 0 {
      TotalSnoc(d[1..], x);
      assert (d + [x])[1..] == d[1..] + [x];
    }
  }

  lemma {:induction false} TotalAppendTo(d: seq<(string, seq<Entry>)>, k: string, e: Entry)
    requires Distinct(Keys(d))
    ensures TotalEntries(AppendTo(d, k, e)) == TotalEntries(d) + 1
  {
    var r := AppendTo(d, k, e);
    if k !in Keys(d) {
      TotalSnoc(d, (k, [e]));
    } else {
      assert Distinct(Keys(d[1..])) by {
        forall i, j | 0 <= i < j < |d[1..]|
          ensures Keys(d[1..])[i] != Keys(d[1..])[j]
        {
          assert Keys(d)[i + 1] == d[i + 1].0;
          assert Keys(d)[j + 1] == d[j + 1].0;
        }
      }
      if d[0].0 == k {
        forall i | 1 <= i < |d|
          ensures d[i].0 != k
        {
          assert Keys(d)[i] != Keys(d)[0];
        }
        assert r[1..] == d[1..];
      } else {
        assert k in Keys(d[1..]) by {
          var i :| 0 <= i < |d| && Keys(d)[i] == k;
          assert Keys(d[1..])[i - 1] == k;
        }
        TotalAppendTo(d[1..], k, e);
        assert r[1..] == AppendTo(d[1..], k, e);
      }
    }
  }

  /** Grouping drops no row: the lists hold, together, exactly as many entries as the query returned rows. */
  lemma {:induction false} GroupByPositionKeepsRows(rows: seq<TallyRow>)
    ensures TotalEntries(GroupByPosition(rows)) == |rows|
  {
    if |rows| > 0 {
      var init := rows[..|rows| - 1];
      GroupByPositionKeepsRows(init);
      TotalAppendTo(GroupByPosition(init), rows[|rows| - 1].position, EntryOf(rows[|rows| - 1]));
    }
  }

  datatype ResultsView = ResultsToLogin | ResultsPage(byPosition: seq<(string, seq<Entry>)>)

  /** GET `/results`: the query's rows grouped under their position names. */
  function ResultsRoute(store: Store, session: Session): (v: ResultsView)
    ensures !LoginRequired(session) ==> v == ResultsToLogin
    ensures LoginRequired(session) ==>
      && v.ResultsPage?
      && Keys(v.byPosition) == Dedup(PositionNames(Results(store)))
      && (forall i :: 0 <= i < |v.byPosition| ==> v.byPosition[i].1 == EntriesNamed(Results(store), v.byPosition[i].0))
      && TotalEntries(v.byPosition) == |Results(store)|
  {
    if !LoginRequired(session) then ResultsToLogin
    else
      var rows := Results(store);
      GroupByPositionSpec(rows);
      GroupByPositionKeepsRows(rows);
      ResultsPage(GroupByPosition(rows))
  }
}
