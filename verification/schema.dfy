/** The database of `schema.py`: one record per table row, the store as a whole, and the
    seeding routine `create_schema`. */
module Schema {
  import opened Common
  import opened Sql

  /** `students`, keyed by `regno` (its PRIMARY KEY); `password` is the stored hash text. */
  datatype Student = Student(name: string, course: string, batch: string, password: string, voted: bool)

  /** The single `elections` row with id 1. */
  datatype Election = Election(title: string, startDate: string, deadline: string)

  /** `candidates`: `position_id` is an INTEGER column, so it holds whatever affinity made of the form text. */
  datatype Candidate = Candidate(name: string, positionId: Value)

  /** `ballots`: nothing makes (regno, position) unique, so one student may hold several ballots for one position. */
  datatype Ballot = Ballot(regno: string, positionId: Value, candidateId: Value, timestamp: string)

  datatype AuditEntry = AuditEntry(user: string, action: string, details: string, timestamp: string)

  datatype Store = Store(
    students: map<string, Student>,
    election: Option<Election>,
    positions: Table<string>,
    candidates: Table<Candidate>,
    ballots: Table<Ballot>,
    auditLog: Table<AuditEntry>)

  /** Every AUTOINCREMENT table has unique ids in scan order, all within its `sqlite_sequence`. */
  predicate Valid(s: Store)
  {
    && WellFormed(s.positions)
    && WellFormed(s.candidates)
    && WellFormed(s.ballots)
    && WellFormed(s.auditLog)
  }

  function EmptyStore(): (s: Store)
    ensures Valid(s)
  {
    Store(map[], None, EmptyTable(), EmptyTable(), EmptyTable(), EmptyTable())
  }

  /** `[c for c in candidates if c['position_id'] == pid]`: the candidates standing for position `pid`. */
  function CandidatesOf(cands: seq<Row<Candidate>>, pid: int): (r: seq<Row<Candidate>>)
    ensures forall c :: c in r <==> c in cands && c.data.positionId == Int(pid)
    ensures Increasing(cands) ==> Increasing(r)
    ensures |r| <= |cands|
  {
    if |cands| == 0 then []
    else
      var tail := CandidatesOf(cands[1..], pid);
      assert forall x :: x in cands <==> x == cands[0] || x in cands[1..];
      TailAbove(cands);
      ConsIncreasing(cands[0], tail);
      if cands[0].data.positionId == Int(pid) then [cands[0]] + tail else tail
  }

  const ElectionTitle := "Class Representative Election"
  const ElectionDeadline := "2025-12-31T23:59"
  const AdminRegno := "admin"

  /** `INSERT OR IGNORE INTO students (...)`: a regno already present keeps its row, voted flag and password. */
  function SeedStudent(m: map<string, Student>, regno: string, name: string, course: string, batch: string,
                       hashed: string): (r: map<string, Student>)
    ensures r.Keys == m.Keys + {regno}
    ensures forall k :: k in m ==> r[k] == m[k]
    ensures regno !in m ==> r[regno] == Student(name, course, batch, hashed, false)
  {
    if regno in m then m else m[regno := Student(name, course, batch, hashed, false)]
  }

  /** A row of the sample roster: regno, name, course, batch and the plain-text password to hash. */
  datatype SampleStudent = SampleStudent(regno: string, name: string, course: string, batch: string, password: string)

  /** The three sample students, then the admin account. */
  const SampleStudents: seq<SampleStudent> := [
    SampleStudent("S1001", "Alice Johnson", "Computer Science", "2023", "alice123"),
    SampleStudent("S1002", "Bob Smith", "IT", "2023", "bob123"),
    SampleStudent("S1003", "Charlie Lee", "ECE", "2022", "charlie123"),
    SampleStudent(AdminRegno, "Administrator", "", "", "admin")
  ]

  /** The row `INSERT OR IGNORE INTO students` writes for a sample: its password hashed, `voted` 0. */
  function SampleRecord(x: SampleStudent, hash: string -> string): Student
  {
    Student(x.name, x.course, x.batch, hash(x.password), false)
  }

  function Regnos(samples: seq<SampleStudent>): set<string>
  {
    set i | 0 <= i < |samples| :: samples[i].regno
  }

  /** One `INSERT OR IGNORE` per sample, in order. */
  function SeedStudents(m: map<string, Student>, samples: seq<SampleStudent>, hash: string -> string): (r: map<string, Student>)
    ensures r.Keys == m.Keys + Regnos(samples)
    ensures forall regno :: regno in m ==> r[regno] == m[regno]
    ensures forall regno :: regno in r && regno !in m ==> !r[regno].voted
    decreases |samples|
  {
    if |samples| == 0 then m
    else
      var x := samples[0];
      var m1 := SeedStudent(m, x.regno, x.name, x.course, x.batch, hash(x.password));
      assert Regnos(samples) == {x.regno} + Regnos(samples[1..]) by {
        assert forall i :: 1 <= i < |samples| ==> samples[i] == samples[1..][i - 1];
        assert forall i :: 0 <= i < |samples[1..]| ==> samples[1..][i] == samples[i + 1];
      }
      SeedStudents(m1, samples[1..], hash)
  }

  function SeedPositions(t: Table<string>): (r: Table<string>)
    ensures forall x :: x in t.rows ==> x in r.rows
    ensures forall x :: x in r.rows ==> x in t.rows || x == Row(1, "President") || x == Row(2, "Secretary")
    ensures HasId(r.rows, 1) && HasId(r.rows, 2)
    ensures WellFormed(t) ==> WellFormed(r)
  {
    InsertOrIgnore(InsertOrIgnore(t, 1, "President"), 2, "Secretary")
  }

  function SeedCandidates(t: Table<Candidate>): (r: Table<Candidate>)
    ensures forall x :: x in t.rows ==> x in r.rows
    ensures forall x :: x in r.rows ==> (x in t.rows || x == Row(1, Candidate("John Doe", Int(1)))
              || x == Row(2, Candidate("Jane Smith", Int(1))) || x == Row(3, Candidate("Emily Davis", Int(2))))
    ensures HasId(r.rows, 1) && HasId(r.rows, 2) && HasId(r.rows, 3)
    ensures WellFormed(t) ==> WellFormed(r)
  {
    var t1 := InsertOrIgnore(t, 1, Candidate("John Doe", Int(1)));
    var t2 := InsertOrIgnore(t1, 2, Candidate("Jane Smith", Int(1)));
    InsertOrIgnore(t2, 3, Candidate("Emily Davis", Int(2)))
  }

  /** `create_schema` on an existing database: the tables already exist, so only the seeding runs.
      `now` is the clock reading and `hash` the password hasher, both supplied by the caller.
      Seeding only adds: an existing election, position, candidate or student is never overwritten. */
  function Seed(s: Store, now: string, hash: string -> string): (r: Store)
    ensures s.election.Some? ==> r.election == s.election
    ensures s.election.None? ==> r.election == Some(Election(ElectionTitle, now, ElectionDeadline))
    ensures forall x :: x in s.positions.rows ==> x in r.positions.rows
    ensures forall x :: x in s.candidates.rows ==> x in r.candidates.rows
    ensures forall x :: x in r.positions.rows ==> x in s.positions.rows || x == Row(1, "President") || x == Row(2, "Secretary")
    ensures forall x :: x in r.candidates.rows ==> (x in s.candidates.rows || x == Row(1, Candidate("John Doe", Int(1)))
              || x == Row(2, Candidate("Jane Smith", Int(1))) || x == Row(3, Candidate("Emily Davis", Int(2))))
    ensures forall c :: c in r.candidates.rows && c !in s.candidates.rows ==>
              c.data.positionId.Int? && HasId(r.positions.rows, c.data.positionId.i)
    ensures forall regno :: regno in s.students ==> regno in r.students && r.students[regno] == s.students[regno]
    ensures forall regno :: regno in r.students && regno !in s.students ==> !r.students[regno].voted
    ensures r.ballots == s.ballots && r.auditLog == s.auditLog
    ensures HasId(r.positions.rows, 1) && HasId(r.positions.rows, 2)
    ensures HasId(r.candidates.rows, 1) && HasId(r.candidates.rows, 2) && HasId(r.candidates.rows, 3)
    ensures r.students.Keys == s.students.Keys + Regnos(SampleStudents)
    ensures Valid(s) ==> Valid(r)
  {
    var positions := SeedPositions(s.positions);
    var candidates := SeedCandidates(s.candidates);
    SampleCandidatesHavePositions(positions.rows, s.candidates.rows, candidates.rows);
    Store(
      SeedStudents(s.students, SampleStudents, hash),
      if s.election.Some? then s.election else Some(Election(ElectionTitle, now, ElectionDeadline)),
      positions,
      candidates,
      s.ballots,
      s.auditLog)
  }

  /** The sample candidates stand for positions 1 and 2, so once those exist every added candidate has its position. */
  lemma SampleCandidatesHavePositions(ps: seq<Row<string>>, before: seq<Row<Candidate>>, after: seq<Row<Candidate>>)
    requires HasId(ps, 1) && HasId(ps, 2)
    requires forall x :: x in after ==> (x in before || x == Row(1, Candidate("John Doe", Int(1)))
              || x == Row(2, Candidate("Jane Smith", Int(1))) || x == Row(3, Candidate("Emily Davis", Int(2))))
    ensures forall c :: c in after && c !in before ==> c.data.positionId.Int? && HasId(ps, c.data.positionId.i)
  {
  }

  /** Sample `i` gets its own record when its regno was free and no earlier sample carries it:
      among samples sharing a regno the first one wins, as `INSERT OR IGNORE` keeps the first insert. */
  lemma {:induction false} SeedStudentsRecords(m: map<string, Student>, samples: seq<SampleStudent>,
                                               hash: string -> string, i: int)
    requires 0 <= i < |samples| && samples[i].regno !in m
    requires forall j :: 0 <= j < i ==> samples[j].regno != samples[i].regno
    ensures SeedStudents(m, samples, hash)[samples[i].regno] == SampleRecord(samples[i], hash)
    decreases i
  {
    var x := samples[0];
    var m1 := SeedStudent(m, x.regno, x.name, x.course, x.batch, hash(x.password));
    if i > 0 {
      var rest := samples[1..];
      assert rest[i - 1] == samples[i];
      forall j | 0 <= j < i - 1
        ensures rest[j].regno != rest[i - 1].regno
      {
        assert rest[j] == samples[j + 1];
      }
      SeedStudentsRecords(m1, rest, hash, i - 1);
    }
  }

  /** The sample roster has no regno twice. */
  lemma SampleRegnosDistinct()
    ensures forall i, j :: 0 <= i < j < |SampleStudents| ==> SampleStudents[i].regno != SampleStudents[j].regno
  {
  }

  /** Seeding gives every sample student whose regno was free exactly the sample's record, hashed
      password and `voted` 0; a regno already present keeps its row (see `Seed`). */
  lemma SeedAddsSampleStudents(s: Store, now: string, hash: string -> string)
    ensures var r := Seed(s, now, hash);
      forall i :: 0 <= i < |SampleStudents| && SampleStudents[i].regno !in s.students ==>
        r.students[SampleStudents[i].regno] == SampleRecord(SampleStudents[i], hash)
  {
    SampleRegnosDistinct();
    forall i | 0 <= i < |SampleStudents| && SampleStudents[i].regno !in s.students
      ensures SeedStudents(s.students, SampleStudents, hash)[SampleStudents[i].regno] == SampleRecord(SampleStudents[i], hash)
    {
      SeedStudentsRecords(s.students, SampleStudents, hash, i);
    }
  }

  /** Running `create_schema` a second time changes nothing, whatever the clock and the hasher say. */
  lemma SeedIdempotent(s: Store, now1: string, now2: string, hash1: string -> string, hash2: string -> string)
    ensures Seed(Seed(s, now1, hash1), now2, hash2) == Seed(s, now1, hash1)
  {
    SeedStudentsTwice(s.students, SampleStudents, hash1, hash2);
    SeedPositionsTwice(s.positions);
    SeedCandidatesTwice(s.candidates);
  }

  lemma SeedStudentsTwice(m: map<string, Student>, samples: seq<SampleStudent>, hash1: string -> string,
                          hash2: string -> string)
    ensures var r := SeedStudents(m, samples, hash1);
      SeedStudents(r, samples, hash2) == r
  {
    var r := SeedStudents(m, samples, hash1);
    assert SeedStudents(r, samples, hash2).Keys == r.Keys;
  }

  lemma SeedPositionsTwice(t: Table<string>)
    ensures SeedPositions(SeedPositions(t)) == SeedPositions(t)
  {
    var p := SeedPositions(t);
    assert InsertOrIgnore(p, 1, "President") == p;
  }

  lemma SeedCandidatesTwice(t: Table<Candidate>)
    ensures SeedCandidates(SeedCandidates(t)) == SeedCandidates(t)
  {
    var c := SeedCandidates(t);
    assert InsertOrIgnore(c, 1, Candidate("John Doe", Int(1))) == c;
    assert InsertOrIgnore(c, 2, Candidate("Jane Smith", Int(1))) == c;
  }

  lemma SeedFreshPositions()
    ensures SeedPositions(EmptyTable()).rows == [Row(1, "President"), Row(2, "Secretary")]
  {
    InsertOrIgnoreFresh("President", "Secretary", "");
  }

  lemma SeedFreshCandidates()
    ensures SeedCandidates(EmptyTable()).rows ==
      [Row(1, Candidate("John Doe", Int(1))), Row(2, Candidate("Jane Smith", Int(1))), Row(3, Candidate("Emily Davis", Int(2)))]
  {
    InsertOrIgnoreFresh(Candidate("John Doe", Int(1)), Candidate("Jane Smith", Int(1)), Candidate("Emily Davis", Int(2)));
  }

  lemma SeedFreshStudents(now: string, hash: string -> string)
    ensures var r := Seed(EmptyStore(), now, hash);
      && r.students.Keys == Regnos(SampleStudents)
      && (forall regno :: regno in r.students ==> !r.students[regno].voted)
  {
    SeedStudentsFresh(SampleStudents, hash);
  }

  lemma SeedStudentsFresh(samples: seq<SampleStudent>, hash: string -> string)
    ensures var m := SeedStudents(map[], samples, hash);
      && m.Keys == Regnos(samples)
      && (forall regno :: regno in m ==> !m[regno].voted)
  {
    var m := SeedStudents(map[], samples, hash);
    assert m.Keys == {} + Regnos(samples);
  }

  lemma SeedFreshTables(now: string, hash: string -> string)
    ensures var r := Seed(EmptyStore(), now, hash);
      && r.positions.rows == [Row(1, "President"), Row(2, "Secretary")]
      && r.candidates.rows == [Row(1, Candidate("John Doe", Int(1))), Row(2, Candidate("Jane Smith", Int(1))),
                               Row(3, Candidate("Emily Davis", Int(2)))]
      && r.election == Some(Election(ElectionTitle, now, ElectionDeadline))
      && r.ballots.rows == [] && r.auditLog.rows == []
  {
    SeedFreshPositions();
    SeedFreshCandidates();
  }

  /** Seeding an empty database yields exactly the sample election: two positions, three candidates
      that each name an existing position, and four students (the admin among them) who have not voted. */
  lemma SeedFresh(now: string, hash: string -> string)
    ensures var r := Seed(EmptyStore(), now, hash);
      && r.positions.rows == [Row(1, "President"), Row(2, "Secretary")]
      && r.candidates.rows == [Row(1, Candidate("John Doe", Int(1))), Row(2, Candidate("Jane Smith", Int(1))),
                               Row(3, Candidate("Emily Davis", Int(2)))]
      && r.students.Keys == Regnos(SampleStudents)
      && (forall regno :: regno in r.students ==> !r.students[regno].voted)
      && (forall i :: 0 <= i < |SampleStudents| ==> r.students[SampleStudents[i].regno] == SampleRecord(SampleStudents[i], hash))
      && r.election == Some(Election(ElectionTitle, now, ElectionDeadline))
      && r.ballots.rows == [] && r.auditLog.rows == []
  {
    SeedFreshStudents(now, hash);
    SeedFreshTables(now, hash);
    SeedAddsSampleStudents(EmptyStore(), now, hash);
  }

  /** Each sample candidate names a sample position: candidates 1 and 2 stand for position 1, candidate 3 for position 2. */
  lemma SeedFreshCandidatesHavePositions()
    ensures var ps := SeedPositions(EmptyTable()).rows;
      var cs := SeedCandidates(EmptyTable()).rows;
      forall i :: 0 <= i < |cs| ==> cs[i].data.positionId.Int? && HasId(ps, cs[i].data.positionId.i)
  {
    SeedFreshPositions();
    SeedFreshCandidates();
    var ps := SeedPositions(EmptyTable()).rows;
    var cs := SeedCandidates(EmptyTable()).rows;
    ThreeCandidatesTwoPositions(ps, cs);
  }

  lemma ThreeCandidatesTwoPositions(ps: seq<Row<string>>, cs: seq<Row<Candidate>>)
    requires |ps| == 2 && ps[0].id == 1 && ps[1].id == 2
    requires |cs| == 3 && cs[0].data.positionId == Int(1) && cs[1].data.positionId == Int(1) && cs[2].data.positionId == Int(2)
    ensures forall i :: 0 <= i < |cs| ==> cs[i].data.positionId.Int? && HasId(ps, cs[i].data.positionId.i)
  {
    assert HasId(ps, 1) && HasId(ps, 2);
  }
}
