/** The stability checker (CheckAlloc.cpp:61-333): reads a candidate allocation,
    one tokenised line at a time, then decides VALID (true) or INVALID (false)
    from the line shapes, the legality of the derived counts and four stability
    rules. Every "print INVALID at the first violation" loop of the source is
    an existential predicate here. */
module Checker {
  import opened Records
  import opened Preferences

  /** A parsed "studentId projectId supervisorId" line. */
  datatype Entry = Entry(studentId: string, projectId: int, supervisorId: string)

  /** What one allocation line contributes (CheckAlloc.cpp:97-123). */
  datatype LineKind = Blank | ScoreLine | Triple(entry: Entry) | Malformed

  /** One student's slot in the candidate allocation (CheckAlloc.cpp:15-18). */
  datatype Assignment = Assignment(projectId: int, supervisorId: string)

  // ---------------------------------------------------------------------
  // Reading integers
  // ---------------------------------------------------------------------

  predicate IsDigit(c: char) { '0' <= c <= '9' }

  /** A non-empty token made of decimal digits only (CheckAlloc.cpp:114). */
  predicate AllDigits(t: string) {
    |t| > 0 && forall k :: 0 <= k < |t| ==> IsDigit(t[k])
  }

  function DigitsValue(t: string): nat
    requires forall k :: 0 <= k < |t| ==> IsDigit(t[k])
  {
    if |t| == 0 then 0
    else
      assert IsDigit(t[|t| - 1]);
      DigitsValue(t[..|t| - 1]) * 10 + (t[|t| - 1] as int - '0' as int)
  }

  /** Reading an int from a whole token: an optional sign, then one or more digits. */
  function ParseInt(t: string): Option<int> {
    if |t| > 0 && (t[0] == '-' || t[0] == '+') then
      if AllDigits(t[1..]) then
        var magnitude: int := DigitsValue(t[1..]);
        Some(if t[0] == '-' then -magnitude else magnitude)
      else None
    else if AllDigits(t) then Some(DigitsValue(t))
    else None
  }

  function DigitChar(d: nat): char
    requires d < 10
  {
    ('0' as int + d) as char
  }

  /** Decimal notation of a natural number, as operator<< writes it. */
  function NatToString(n: nat): (t: string)
    ensures AllDigits(t)
  {
    if n < 10 then [DigitChar(n)]
    else NatToString(n / 10) + [DigitChar(n % 10)]
  }

  /** Decimal notation of an int, as operator<< writes it (main.cpp:34). */
  function IntToString(n: int): string {
    if n < 0 then "-" + NatToString(-n) else NatToString(n)
  }

  lemma {:induction false} NatToStringValue(n: nat)
    ensures DigitsValue(NatToString(n)) == n
  {
    if n >= 10 {
      NatToStringValue(n / 10);
      var t := NatToString(n);
      assert t[..|t| - 1] == NatToString(n / 10);
    }
  }

  /** Reading back an int written in decimal gives the same int. */
  lemma ParseIntRoundTrip(n: int)
    ensures ParseInt(IntToString(n)) == Some(n)
  {
    if n < 0 {
      NatToStringValue(-n);
      assert IntToString(n)[1..] == NatToString(-n);
    } else {
      NatToStringValue(n);
    }
  }

  // ---------------------------------------------------------------------
  // Lines
  // ---------------------------------------------------------------------

  /** Classifies one line, given as its whitespace-separated tokens: blank lines
      are skipped, so is any line whose first token is all digits (whatever
      follows), and any other line must supply a student token, an int and a
      supervisor token; later tokens are ignored. */
  function ClassifyLine(tokens: seq<string>): (k: LineKind)
    ensures k == Blank <==> |tokens| == 0
    ensures k == ScoreLine <==> |tokens| > 0 && AllDigits(tokens[0])
    ensures k.Triple? <==> |tokens| >= 3 && !AllDigits(tokens[0]) && ParseInt(tokens[1]).Some?
    ensures k.Triple? ==> k.entry == Entry(tokens[0], ParseInt(tokens[1]).value, tokens[2])
  {
    if |tokens| == 0 then Blank
    else if AllDigits(tokens[0]) then ScoreLine
    else if |tokens| < 3 then Malformed
    else match ParseInt(tokens[1])
      case None => Malformed
      case Some(pid) => Triple(Entry(tokens[0], pid, tokens[2]))
  }

  /** A line "sid pid sup" with a student id that is not all digits reads back
      as that triple. */
  lemma TripleLineRoundTrip(e: Entry)
    requires !AllDigits(e.studentId)
    ensures ClassifyLine([e.studentId, IntToString(e.projectId), e.supervisorId]) == Triple(e)
  {
    ParseIntRoundTrip(e.projectId);
  }

  /** The line written for a student that ended up without a supervisor has
      only two tokens, and the checker rejects it. */
  lemma UnsupervisedLineIsMalformed(s: Student)
    requires !AllDigits(s.id) && !s.HasSupervisor()
    ensures ClassifyLine([s.id, IntToString(s.assignedProject)]) == Malformed
  {
  }

  /** The triples of the lines, in order. */
  function Entries(lines: seq<seq<string>>): seq<Entry> {
    if |lines| == 0 then []
    else
      (match ClassifyLine(lines[0]) case Triple(e) => [e] case _ => [])
      + Entries(lines[1..])
  }

  predicate NoMalformedLine(lines: seq<seq<string>>) {
    forall i :: 0 <= i < |lines| ==> ClassifyLine(lines[i]) != Malformed
  }

  predicate DistinctStudents(es: seq<Entry>) {
    forall i, j :: 0 <= i < j < |es| ==> es[i].studentId != es[j].studentId
  }

  function AssignmentOf(e: Entry): Assignment {
    Assignment(e.projectId, e.supervisorId)
  }

  /** The line loop (CheckAlloc.cpp:97-138), continuing from the map built so far. */
  function ReadFrom(lines: seq<seq<string>>, known: set<string>, acc: map<string, Assignment>): Option<map<string, Assignment>>
    decreases |lines|
  {
    if |lines| == 0 then Some(acc)
    else match ClassifyLine(lines[0])
      case Blank => ReadFrom(lines[1..], known, acc)
      case ScoreLine => ReadFrom(lines[1..], known, acc)
      case Malformed => None
      case Triple(e) =>
        if e.studentId !in known then None
        else if e.studentId in acc then None
        else ReadFrom(lines[1..], known, acc[e.studentId := AssignmentOf(e)])
  }

  /** The allocation read from the lines, or None when a line is malformed,
      names an unknown student or repeats a student. */
  function ReadAllocation(lines: seq<seq<string>>, known: set<string>): Option<map<string, Assignment>> {
    ReadFrom(lines, known, map[])
  }

  /** The student ids named by a list of triples. */
  function EntryIds(es: seq<Entry>): set<string> {
    set i | 0 <= i < |es| :: es[i].studentId
  }

  lemma EntryIdsCons(e: Entry, es: seq<Entry>)
    ensures EntryIds([e] + es) == {e.studentId} + EntryIds(es)
  {
    var all := [e] + es;
    assert all[0].studentId == e.studentId;
    forall x | x in EntryIds(all)
      ensures x in {e.studentId} + EntryIds(es)
    {
      var i :| 0 <= i < |all| && all[i].studentId == x;
      if i > 0 { assert es[i - 1].studentId == x; }
    }
    forall x | x in EntryIds(es)
      ensures x in EntryIds(all)
    {
      var i :| 0 <= i < |es| && es[i].studentId == x;
      assert all[i + 1].studentId == x;
    }
  }

  /** The conditions under which reading from acc on succeeds. */
  ghost predicate ReadableFrom(lines: seq<seq<string>>, known: set<string>, acc: map<string, Assignment>) {
    var es := Entries(lines);
    && NoMalformedLine(lines)
    && (forall i :: 0 <= i < |es| ==> es[i].studentId in known && es[i].studentId !in acc)
    && DistinctStudents(es)
  }

  /** What a successful read from acc on returns. */
  ghost predicate ReadResult(lines: seq<seq<string>>, acc: map<string, Assignment>, r: map<string, Assignment>) {
    var es := Entries(lines);
    && r.Keys == acc.Keys + EntryIds(es)
    && (forall k :: k in acc ==> r[k] == acc[k])
    && (forall i :: 0 <= i < |es| ==> r[es[i].studentId] == AssignmentOf(es[i]))
  }

  lemma NoMalformedLineCons(lines: seq<seq<string>>)
    requires |lines| > 0
    ensures NoMalformedLine(lines) <==> ClassifyLine(lines[0]) != Malformed && NoMalformedLine(lines[1..])
  {
    var rest := lines[1..];
    if ClassifyLine(lines[0]) != Malformed && NoMalformedLine(rest) {
      forall i | 0 <= i < |lines| ensures ClassifyLine(lines[i]) != Malformed {
        if i > 0 { assert lines[i] == rest[i - 1]; }
      }
    }
    if NoMalformedLine(lines) {
      forall i | 0 <= i < |rest| ensures ClassifyLine(rest[i]) != Malformed {
        assert rest[i] == lines[i + 1];
      }
    }
  }

  /** One step of the read for a triple line that is accepted. */
  lemma ReadableTripleStep(lines: seq<seq<string>>, known: set<string>, acc: map<string, Assignment>, e: Entry)
    requires |lines| > 0 && ClassifyLine(lines[0]) == Triple(e)
    requires e.studentId in known && e.studentId !in acc
    ensures ReadableFrom(lines, known, acc) <==>
              ReadableFrom(lines[1..], known, acc[e.studentId := AssignmentOf(e)])
  {
    var rest := lines[1..];
    var acc' := acc[e.studentId := AssignmentOf(e)];
    var es := Entries(lines);
    var es' := Entries(rest);
    assert es == [e] + es';
    NoMalformedLineCons(lines);
    if ReadableFrom(lines, known, acc) {
      forall i | 0 <= i < |es'|
        ensures es'[i].studentId in known && es'[i].studentId !in acc'
      {
        assert es'[i] == es[i + 1];
        assert es[0].studentId != es[i + 1].studentId;
      }
      forall i, j | 0 <= i < j < |es'|
        ensures es'[i].studentId != es'[j].studentId
      {
        assert es'[i] == es[i + 1] && es'[j] == es[j + 1];
      }
    }
    if ReadableFrom(rest, known, acc') {
      forall i | 0 <= i < |es|
        ensures es[i].studentId in known && es[i].studentId !in acc
      {
        if i > 0 { assert es[i] == es'[i - 1]; }
      }
      forall i, j | 0 <= i < j < |es|
        ensures es[i].studentId != es[j].studentId
      {
        assert es[j] == es'[j - 1];
        if i > 0 { assert es[i] == es'[i - 1]; }
      }
    }
  }

  /** The result of the read after an accepted triple line. */
  lemma ReadResultTripleStep(lines: seq<seq<string>>, known: set<string>, acc: map<string, Assignment>, e: Entry, r: map<string, Assignment>)
    requires |lines| > 0 && ClassifyLine(lines[0]) == Triple(e)
    requires e.studentId !in acc
    requires ReadResult(lines[1..], acc[e.studentId := AssignmentOf(e)], r)
    ensures ReadResult(lines, acc, r)
  {
    var es := Entries(lines);
    var es' := Entries(lines[1..]);
    var acc' := acc[e.studentId := AssignmentOf(e)];
    assert es == [e] + es';
    EntryIdsCons(e, es');
    forall k | k in acc ensures r[k] == acc[k] {
      assert k != e.studentId && acc'[k] == acc[k];
    }
    forall i | 0 <= i < |es|
      ensures r[es[i].studentId] == AssignmentOf(es[i])
    {
      if i > 0 { assert es[i] == es'[i - 1]; } else { assert r[e.studentId] == acc'[e.studentId]; }
    }
  }

  lemma {:induction false} ReadFromMeaning(lines: seq<seq<string>>, known: set<string>, acc: map<string, Assignment>)
    ensures ReadFrom(lines, known, acc).Some? <==> ReadableFrom(lines, known, acc)
    ensures ReadFrom(lines, known, acc).Some? ==> ReadResult(lines, acc, ReadFrom(lines, known, acc).value)
    decreases |lines|
  {
    if |lines| > 0 {
      var rest := lines[1..];
      NoMalformedLineCons(lines);
      match ClassifyLine(lines[0])
      case Blank =>
        ReadFromMeaning(rest, known, acc);
        assert Entries(lines) == Entries(rest);
      case ScoreLine =>
        ReadFromMeaning(rest, known, acc);
        assert Entries(lines) == Entries(rest);
      case Malformed =>
      case Triple(e) =>
        var es := Entries(lines);
        assert es == [e] + Entries(rest);
        if e.studentId in known && e.studentId !in acc {
          var acc' := acc[e.studentId := AssignmentOf(e)];
          ReadFromMeaning(rest, known, acc');
          ReadableTripleStep(lines, known, acc, e);
          if ReadFrom(lines, known, acc).Some? {
            ReadResultTripleStep(lines, known, acc, e, ReadFrom(lines, known, acc).value);
          }
        } else {
          assert es[0] == e;
        }
    }
  }

  /** Reading succeeds exactly when no line is malformed and the triples name
      known, pairwise distinct students; the result maps each of them to its
      line's project and supervisor, and nothing else. */
  lemma ReadAllocationMeaning(lines: seq<seq<string>>, known: set<string>)
    ensures var es := Entries(lines);
            ReadAllocation(lines, known).Some? <==>
              && NoMalformedLine(lines)
              && (forall i :: 0 <= i < |es| ==> es[i].studentId in known)
              && DistinctStudents(es)
    ensures var es := Entries(lines);
            ReadAllocation(lines, known).Some? ==>
              var r := ReadAllocation(lines, known).value;
              && r.Keys == EntryIds(es)
              && (forall i :: 0 <= i < |es| ==> r[es[i].studentId] == AssignmentOf(es[i]))
  {
    ReadFromMeaning(lines, known, map[]);
  }

  // ---------------------------------------------------------------------
  // Students
  // ---------------------------------------------------------------------

  /** The ids of the known students (CheckAlloc.cpp:76-81). */
  function StudentIds(students: seq<Student>): set<string> {
    set i | 0 <= i < |students| :: students[i].id
  }

  predicate DistinctIds(students: seq<Student>) {
    forall i, j :: 0 <= i < j < |students| ==> students[i].id != students[j].id
  }

  /** The ids of students with one more appended are those of the others
      plus its own. */
  lemma StudentIdsSnoc(students: seq<Student>)
    requires |students| > 0
    ensures StudentIds(students) == StudentIds(students[..|students| - 1]) + {students[|students| - 1].id}
  {
    var n := |students|;
    var init := students[..n - 1];
    forall x | x in StudentIds(students)
      ensures x in StudentIds(init) + {students[n - 1].id}
    {
      var i :| 0 <= i < n && students[i].id == x;
      if i < n - 1 { assert init[i].id == x; }
    }
    forall x | x in StudentIds(init)
      ensures x in StudentIds(students)
    {
      var i :| 0 <= i < n - 1 && init[i].id == x;
      assert students[i].id == x;
    }
  }

  /** Ids stay distinct when one more student is appended exactly when its
      id is new. */
  lemma DistinctIdsSnoc(students: seq<Student>)
    requires |students| > 0
    ensures DistinctIds(students) <==>
              DistinctIds(students[..|students| - 1]) && students[|students| - 1].id !in StudentIds(students[..|students| - 1])
  {
    var n := |students|;
    var init := students[..n - 1];
    var last := students[n - 1].id;
    if DistinctIds(init) && last !in StudentIds(init) {
      forall i, j | 0 <= i < j < n
        ensures students[i].id != students[j].id
      {
        if j < n - 1 {
          assert init[i].id != init[j].id;
        } else {
          assert init[i].id in StudentIds(init);
        }
      }
    }
    if DistinctIds(students) {
      forall i, j | 0 <= i < j < n - 1 ensures init[i].id != init[j].id {
        assert students[i].id != students[j].id;
      }
      forall i | 0 <= i < n - 1 ensures init[i].id != last {
        assert students[i].id != last;
      }
    }
  }

  lemma {:induction false} StudentIdsCardinality(students: seq<Student>)
    ensures |StudentIds(students)| <= |students|
    ensures |StudentIds(students)| == |students| <==> DistinctIds(students)
    decreases |students|
  {
    if |students| > 0 {
      var init := students[..|students| - 1];
      StudentIdsCardinality(init);
      StudentIdsSnoc(students);
      DistinctIdsSnoc(students);
    }
  }

  lemma SubsetOfEqualSize<T>(a: set<T>, b: set<T>)
    requires a <= b && |a| >= |b|
    ensures a == b
  {
    assert b == a + (b - a);
    assert |b| == |a| + |b - a|;
  }

  /** When as many distinct students were read as there are students, every
      student has a line and no two students share an id. */
  lemma {:induction false} CompleteAllocation(students: seq<Student>, alloc: map<string, Assignment>)
    requires alloc.Keys <= StudentIds(students) && |alloc| == |students|
    ensures alloc.Keys == StudentIds(students)
    ensures DistinctIds(students)
    ensures forall i :: 0 <= i < |students| ==> students[i].id in alloc
  {
    StudentIdsCardinality(students);
    assert |alloc.Keys| == |alloc|;
    SubsetOfEqualSize(alloc.Keys, StudentIds(students));
    forall i | 0 <= i < |students| ensures students[i].id in alloc {
      assert students[i].id in StudentIds(students);
    }
  }

  // ---------------------------------------------------------------------
  // Legality (CheckAlloc.cpp:146-185)
  // ---------------------------------------------------------------------

  /** Number of read lines placing a student on pid. */
  function ProjectUsage(alloc: map<string, Assignment>, pid: int): nat {
    |set k | k in alloc && alloc[k].projectId == pid|
  }

  /** Number of read lines naming sup as supervisor. */
  function StaffUsage(alloc: map<string, Assignment>, sup: string): nat {
    |set k | k in alloc && alloc[k].supervisorId == sup|
  }

  predicate IdsKnown(alloc: map<string, Assignment>, projects: map<int, Project>, staff: map<string, Staff>) {
    forall k :: k in alloc ==> alloc[k].projectId in projects && alloc[k].supervisorId in staff
  }

  /** Derived counts never exceed capacity; like the source, only projects and
      staff that occur in the allocation are checked. */
  predicate UsageWithinCapacity(alloc: map<string, Assignment>, projects: map<int, Project>, staff: map<string, Staff>)
    requires IdsKnown(alloc, projects, staff)
  {
    forall k :: k in alloc ==>
      && ProjectUsage(alloc, alloc[k].projectId) <= projects[alloc[k].projectId].multiplicity
      && StaffUsage(alloc, alloc[k].supervisorId) <= staff[alloc[k].supervisorId].load
  }

  /** isAvailable (CheckAlloc.cpp:187-194): the project exists and the
      allocation leaves room on it. */
  predicate IsAvailable(projects: map<int, Project>, alloc: map<string, Assignment>, pid: int) {
    pid in projects && ProjectUsage(alloc, pid) < projects[pid].multiplicity
  }

  // ---------------------------------------------------------------------
  // Stability rules
  // ---------------------------------------------------------------------

  /** Rule 1 for one student (CheckAlloc.cpp:207-222): a choice listed before
      the assigned project's rank is still available. */
  predicate PrefersAvailableChoice(s: Student, a: Assignment, projects: map<int, Project>, alloc: map<string, Assignment>) {
    exists i :: 0 <= i < |s.choices| && i < StudentRankForProject(s, a.projectId)
                && IsAvailable(projects, alloc, s.choices[i])
  }

  predicate Rule1Violated(students: seq<Student>, alloc: map<string, Assignment>, projects: map<int, Project>)
    requires forall i :: 0 <= i < |students| ==> students[i].id in alloc
  {
    exists i :: 0 <= i < |students| && PrefersAvailableChoice(students[i], alloc[students[i].id], projects, alloc)
  }

  /** Rule 2's blocking pair (CheckAlloc.cpp:243-244): each of the two students
      strictly prefers the other's project. */
  predicate StudentsWouldSwap(a: Student, pa: int, b: Student, pb: int) {
    StudentStrictlyPrefers(a, pb, pa) && StudentStrictlyPrefers(b, pa, pb)
  }

  /** Rule 2 (CheckAlloc.cpp:235-250), over pairs of positions i < j. */
  predicate Rule2Violated(students: seq<Student>, alloc: map<string, Assignment>)
    requires forall i :: 0 <= i < |students| ==> students[i].id in alloc
  {
    exists i, j :: 0 <= i < j < |students|
      && StudentsWouldSwap(students[i], alloc[students[i].id].projectId, students[j], alloc[students[j].id].projectId)
  }

  /** Rule 3 for one student (CheckAlloc.cpp:259-283): the student did not
      list its project, and some available project has a strictly better
      category for its supervisor. */
  predicate SupervisorWouldSwitch(s: Student, a: Assignment, projects: map<int, Project>, staff: map<string, Staff>, alloc: map<string, Assignment>)
    requires a.projectId in projects && a.supervisorId in staff
  {
    && StudentRankForProject(s, a.projectId) == NoRank
    && exists k :: k in projects && IsAvailable(projects, alloc, projects[k].id)
                   && SupervisorStrictlyPrefersProject(staff[a.supervisorId], projects[k], projects[a.projectId])
  }

  predicate Rule3Violated(students: seq<Student>, alloc: map<string, Assignment>, projects: map<int, Project>, staff: map<string, Staff>)
    requires forall i :: 0 <= i < |students| ==> students[i].id in alloc
    requires IdsKnown(alloc, projects, staff)
  {
    exists i :: 0 <= i < |students| && SupervisorWouldSwitch(students[i], alloc[students[i].id], projects, staff, alloc)
  }

  /** Rule 4's blocking pair (CheckAlloc.cpp:309-327): students x and y have
      different supervisors, and each supervisor strictly prefers the other's
      supervisee's project to its own supervisee's. */
  predicate SupervisorsWouldSwap(alloc: map<string, Assignment>, projects: map<int, Project>, staff: map<string, Staff>, x: string, y: string)
    requires x in alloc && y in alloc && IdsKnown(alloc, projects, staff)
  {
    var ax := alloc[x];
    var ay := alloc[y];
    && ax.supervisorId != ay.supervisorId
    && SupervisorStrictlyPrefersProject(staff[ax.supervisorId], projects[ay.projectId], projects[ax.projectId])
    && SupervisorStrictlyPrefersProject(staff[ay.supervisorId], projects[ax.projectId], projects[ay.projectId])
  }

  /** Rule 4 (CheckAlloc.cpp:291-329). */
  predicate Rule4Violated(alloc: map<string, Assignment>, projects: map<int, Project>, staff: map<string, Staff>)
    requires IdsKnown(alloc, projects, staff)
  {
    exists x, y :: x in alloc && y in alloc && SupervisorsWouldSwap(alloc, projects, staff, x, y)
  }

  /** Rule 1 in terms of preference: some choice the student strictly prefers
      to its assigned project is available. For a project the student did not
      list, that is any available choice at all. */
  lemma Rule1Meaning(s: Student, a: Assignment, projects: map<int, Project>, alloc: map<string, Assignment>)
    requires |s.choices| <= NoRank
    ensures PrefersAvailableChoice(s, a, projects, alloc) <==>
              exists c :: c in s.choices && StudentStrictlyPrefers(s, c, a.projectId) && IsAvailable(projects, alloc, c)
    ensures a.projectId !in s.choices ==>
              (PrefersAvailableChoice(s, a, projects, alloc) <==> exists c :: c in s.choices && IsAvailable(projects, alloc, c))
  {
    var ra := StudentRankForProject(s, a.projectId);
    if PrefersAvailableChoice(s, a, projects, alloc) {
      var i :| 0 <= i < |s.choices| && i < ra && IsAvailable(projects, alloc, s.choices[i]);
      var c := s.choices[i];
      assert StudentRankForProject(s, c) <= i;
      assert StudentStrictlyPrefers(s, c, a.projectId);
    }
    if exists c :: c in s.choices && StudentStrictlyPrefers(s, c, a.projectId) && IsAvailable(projects, alloc, c) {
      var c :| c in s.choices && StudentStrictlyPrefers(s, c, a.projectId) && IsAvailable(projects, alloc, c);
      var i := StudentRankForProject(s, c);
      assert 0 <= i < |s.choices| && i < ra && s.choices[i] == c;
    }
    if a.projectId !in s.choices && exists c :: c in s.choices && IsAvailable(projects, alloc, c) {
      var c :| c in s.choices && IsAvailable(projects, alloc, c);
      var i := StudentRankForProject(s, c);
      assert 0 <= i < |s.choices| && i < ra && s.choices[i] == c;
    }
  }

  /** Rule 2 does not depend on the order of the two students: it holds for
      the pair i < j exactly when it holds for some two distinct positions in
      either order. */
  lemma Rule2IsSymmetric(students: seq<Student>, alloc: map<string, Assignment>)
    requires forall i :: 0 <= i < |students| ==> students[i].id in alloc
    ensures Rule2Violated(students, alloc) <==>
              exists i, j :: 0 <= i < |students| && 0 <= j < |students| && i != j
                && StudentsWouldSwap(students[i], alloc[students[i].id].projectId, students[j], alloc[students[j].id].projectId)
  {
    if exists i, j :: 0 <= i < |students| && 0 <= j < |students| && i != j
         && StudentsWouldSwap(students[i], alloc[students[i].id].projectId, students[j], alloc[students[j].id].projectId) {
      var i, j :| 0 <= i < |students| && 0 <= j < |students| && i != j
         && StudentsWouldSwap(students[i], alloc[students[i].id].projectId, students[j], alloc[students[j].id].projectId);
      if j < i {
        assert StudentsWouldSwap(students[j], alloc[students[j].id].projectId, students[i], alloc[students[i].id].projectId);
      }
    }
  }

  /** Rule 4's condition does not depend on which of the two supervisees comes
      first, and it only ever relates two different students. */
  lemma Rule4IsSymmetric(alloc: map<string, Assignment>, projects: map<int, Project>, staff: map<string, Staff>, x: string, y: string)
    requires x in alloc && y in alloc && IdsKnown(alloc, projects, staff)
    ensures SupervisorsWouldSwap(alloc, projects, staff, x, y) <==> SupervisorsWouldSwap(alloc, projects, staff, y, x)
    ensures SupervisorsWouldSwap(alloc, projects, staff, x, y) ==> x != y
  {
  }

  /** Rule 3 in terms of categories: for a student who did not list its
      project, it fires exactly when some available project has a lower
      category for the supervisor than the assigned one. It never fires when
      the supervisor proposed the assigned project, and when it fires the
      better project is the supervisor's own proposal or in its expertise. */
  lemma Rule3Meaning(s: Student, a: Assignment, projects: map<int, Project>, staff: map<string, Staff>, alloc: map<string, Assignment>)
    requires a.projectId in projects && a.supervisorId in staff
    ensures var st := staff[a.supervisorId];
            var current := SupervisorCategoryForProject(st, projects[a.projectId]);
            a.projectId !in s.choices ==>
              (SupervisorWouldSwitch(s, a, projects, staff, alloc) <==>
                 exists k :: k in projects && IsAvailable(projects, alloc, projects[k].id)
                             && SupervisorCategoryForProject(st, projects[k]) < current)
    ensures projects[a.projectId].proposer == staff[a.supervisorId].id ==>
              !SupervisorWouldSwitch(s, a, projects, staff, alloc)
    ensures SupervisorWouldSwitch(s, a, projects, staff, alloc) ==>
              var st := staff[a.supervisorId];
              exists k :: k in projects && IsAvailable(projects, alloc, projects[k].id)
                          && (projects[k].proposer == st.id || projects[k].subject in st.expertise)
    ensures |s.choices| <= NoRank && SupervisorWouldSwitch(s, a, projects, staff, alloc) ==>
              a.projectId !in s.choices
  {
    var st := staff[a.supervisorId];
    if SupervisorWouldSwitch(s, a, projects, staff, alloc) {
      var k :| k in projects && IsAvailable(projects, alloc, projects[k].id)
               && SupervisorStrictlyPrefersProject(st, projects[k], projects[a.projectId]);
      SupervisorPreferenceIsStrict(st, projects[k], projects[a.projectId], projects[a.projectId]);
    }
  }

  // ---------------------------------------------------------------------
  // The verdict
  // ---------------------------------------------------------------------

  /** A read that accepted one line per student: the lines are well formed,
      each student has exactly one line, and each line's slot is in the map. */
  lemma {:induction false} CompleteRead(lines: seq<seq<string>>, students: seq<Student>, alloc: map<string, Assignment>)
    requires ReadAllocation(lines, StudentIds(students)) == Some(alloc)
    requires |alloc| == |students|
    ensures NoMalformedLine(lines)
    ensures DistinctIds(students)
    ensures DistinctStudents(Entries(lines))
    ensures forall i :: 0 <= i < |students| ==> students[i].id in alloc
    ensures forall e :: e in Entries(lines) ==>
              e.studentId in StudentIds(students) && e.studentId in alloc && alloc[e.studentId] == AssignmentOf(e)
    ensures forall i :: 0 <= i < |students| ==>
              exists e :: e in Entries(lines) && e.studentId == students[i].id
  {
    ReadAllocationMeaning(lines, StudentIds(students));
    CompleteAllocation(students, alloc);
    var es := Entries(lines);
    forall e | e in es
      ensures e.studentId in StudentIds(students) && e.studentId in alloc && alloc[e.studentId] == AssignmentOf(e)
    {
      var i :| 0 <= i < |es| && es[i] == e;
    }
    forall i | 0 <= i < |students|
      ensures exists e :: e in es && e.studentId == students[i].id
    {
      assert students[i].id in alloc;
      var j :| 0 <= j < |es| && es[j].studentId == students[i].id;
      assert es[j] in es;
    }
  }

  /** An accepted read with one entry per student and only known ids: the
      lines are well formed, every student has exactly one line, and every
      line names a known student, project and supervisor. */
  lemma KnownEntries(lines: seq<seq<string>>, students: seq<Student>, alloc: map<string, Assignment>,
                     projects: map<int, Project>, staff: map<string, Staff>)
    requires ReadAllocation(lines, StudentIds(students)) == Some(alloc)
    requires |alloc| == |students| && IdsKnown(alloc, projects, staff)
    ensures forall i :: 0 <= i < |students| ==> students[i].id in alloc
    ensures NoMalformedLine(lines) && OneLineEach(students, Entries(lines), projects, staff)
  {
    CompleteRead(lines, students, alloc);
    var es := Entries(lines);
    assert EntriesKnown(es, projects, staff) by {
      forall e | e in es ensures e.projectId in projects && e.supervisorId in staff {
        assert alloc[e.studentId] == AssignmentOf(e);
      }
    }
  }

  /** The legality and stability part of the verdict (CheckAlloc.cpp:171-329),
      over an allocation whose ids are all known. */
  predicate LegalAndStable(students: seq<Student>, alloc: map<string, Assignment>,
                           projects: map<int, Project>, staff: map<string, Staff>)
    requires forall i :: 0 <= i < |students| ==> students[i].id in alloc
    requires IdsKnown(alloc, projects, staff)
  {
    && UsageWithinCapacity(alloc, projects, staff)
    && !Rule1Violated(students, alloc, projects)
    && !Rule2Violated(students, alloc)
    && !Rule3Violated(students, alloc, projects, staff)
    && !Rule4Violated(alloc, projects, staff)
  }

  /** The checker's verdict (CheckAlloc.cpp:89-331): true for VALID. */
  function CheckAllocation(staff: map<string, Staff>, projects: map<int, Project>, students: seq<Student>, lines: seq<seq<string>>): (valid: bool)
    ensures valid ==> NoMalformedLine(lines) && OneLineEach(students, Entries(lines), projects, staff)
  {
    var read := ReadAllocation(lines, StudentIds(students));
    if read.None? then false
    else
      var alloc := read.value;
      if |alloc| != |students| || !IdsKnown(alloc, projects, staff) then false
      else
        KnownEntries(lines, students, alloc, projects, staff);
        LegalAndStable(students, alloc, projects, staff)
  }

  // ---------------------------------------------------------------------
  // The verdict read off the lines
  // ---------------------------------------------------------------------

  /** Number of triples placing a student on pid. */
  function ProjectCount(es: seq<Entry>, pid: int): nat {
    if |es| == 0 then 0
    else (if es[0].projectId == pid then 1 else 0) + ProjectCount(es[1..], pid)
  }

  /** Number of triples naming sup as supervisor. */
  function StaffCount(es: seq<Entry>, sup: string): nat {
    if |es| == 0 then 0
    else (if es[0].supervisorId == sup then 1 else 0) + StaffCount(es[1..], sup)
  }

  /** The map read from triples of distinct students: its keys are their ids
      and each maps to its triple's slot. */
  predicate MapOfEntries(es: seq<Entry>, alloc: map<string, Assignment>) {
    && alloc.Keys == EntryIds(es)
    && forall i :: 0 <= i < |es| ==> alloc[es[i].studentId] == AssignmentOf(es[i])
  }

  lemma ProjectUsageDrop(alloc: map<string, Assignment>, x: string, pid: int)
    requires x in alloc
    ensures ProjectUsage(alloc, pid) == ProjectUsage(alloc - {x}, pid) + (if alloc[x].projectId == pid then 1 else 0)
  {
    var smaller := alloc - {x};
    var P := set k | k in alloc && alloc[k].projectId == pid;
    var P' := set k | k in smaller && smaller[k].projectId == pid;
    if alloc[x].projectId == pid {
      assert P == P' + {x};
    } else {
      assert P == P';
    }
  }

  lemma StaffUsageDrop(alloc: map<string, Assignment>, x: string, sup: string)
    requires x in alloc
    ensures StaffUsage(alloc, sup) == StaffUsage(alloc - {x}, sup) + (if alloc[x].supervisorId == sup then 1 else 0)
  {
    var smaller := alloc - {x};
    var S := set k | k in alloc && alloc[k].supervisorId == sup;
    var S' := set k | k in smaller && smaller[k].supervisorId == sup;
    if alloc[x].supervisorId == sup {
      assert S == S' + {x};
    } else {
      assert S == S';
    }
  }

  /** Taking one student out of the map lowers the counts of its project and
      its supervisor by one and leaves the others alone. */
  lemma UsageDrop(alloc: map<string, Assignment>, x: string, pid: int, sup: string)
    requires x in alloc
    ensures ProjectUsage(alloc, pid) == ProjectUsage(alloc - {x}, pid) + (if alloc[x].projectId == pid then 1 else 0)
    ensures StaffUsage(alloc, sup) == StaffUsage(alloc - {x}, sup) + (if alloc[x].supervisorId == sup then 1 else 0)
  {
    ProjectUsageDrop(alloc, x, pid);
    StaffUsageDrop(alloc, x, sup);
  }

  /** No project or supervisor is named by more lines than there are. */
  lemma UsageAtMostSize(alloc: map<string, Assignment>, pid: int, sup: string)
    ensures ProjectUsage(alloc, pid) <= |alloc|
    ensures StaffUsage(alloc, sup) <= |alloc|
  {
    var P := set k | k in alloc && alloc[k].projectId == pid;
    var S := set k | k in alloc && alloc[k].supervisorId == sup;
    assert alloc.Keys == P + (alloc.Keys - P);
    assert alloc.Keys == S + (alloc.Keys - S);
  }

  /** Dropping the first triple's student from the map of the triples gives
      the map of the remaining triples. */
  lemma MapOfEntriesTail(es: seq<Entry>, alloc: map<string, Assignment>)
    requires |es| > 0 && DistinctStudents(es) && MapOfEntries(es, alloc)
    ensures DistinctStudents(es[1..]) && MapOfEntries(es[1..], alloc - {es[0].studentId})
    ensures es[0].studentId in alloc && alloc[es[0].studentId] == AssignmentOf(es[0])
  {
    var e := es[0];
    var rest := es[1..];
    assert es == [e] + rest;
    EntryIdsCons(e, rest);
    assert e.studentId !in EntryIds(rest) by {
      forall i | 0 <= i < |rest| ensures rest[i].studentId != e.studentId {
        assert rest[i] == es[i + 1];
      }
    }
    var smaller := alloc - {e.studentId};
    assert smaller.Keys == EntryIds(rest);
    forall i | 0 <= i < |rest| ensures smaller[rest[i].studentId] == AssignmentOf(rest[i]) {
      assert rest[i] == es[i + 1];
    }
    forall i, j | 0 <= i < j < |rest| ensures rest[i].studentId != rest[j].studentId {
      assert rest[i] == es[i + 1] && rest[j] == es[j + 1];
    }
  }

  /** The counts derived from the map (CheckAlloc.cpp:154-168) are the numbers
      of triples naming each project and each supervisor. */
  lemma {:induction false} UsageCountsEntries(es: seq<Entry>, alloc: map<string, Assignment>, pid: int, sup: string)
    requires DistinctStudents(es) && MapOfEntries(es, alloc)
    ensures ProjectUsage(alloc, pid) == ProjectCount(es, pid)
    ensures StaffUsage(alloc, sup) == StaffCount(es, sup)
    decreases |es|
  {
    if |es| == 0 {
      assert |alloc| == |alloc.Keys| == 0;
      UsageAtMostSize(alloc, pid, sup);
    } else {
      MapOfEntriesTail(es, alloc);
      UsageCountsEntries(es[1..], alloc - {es[0].studentId}, pid, sup);
      UsageDrop(alloc, es[0].studentId, pid, sup);
    }
  }

  /** Every triple names a known project and supervisor. */
  predicate EntriesKnown(es: seq<Entry>, projects: map<int, Project>, staff: map<string, Staff>) {
    forall e :: e in es ==> e.projectId in projects && e.supervisorId in staff
  }

  /** Student ids are distinct, every triple names a known student, project
      and supervisor, and every student has exactly one triple. */
  predicate OneLineEach(students: seq<Student>, es: seq<Entry>, projects: map<int, Project>, staff: map<string, Staff>) {
    && DistinctIds(students)
    && DistinctStudents(es)
    && EntriesKnown(es, projects, staff)
    && (forall e :: e in es ==> e.studentId in StudentIds(students))
    && (forall i :: 0 <= i < |students| ==> exists e :: e in es && e.studentId == students[i].id)
  }

  /** No project is named by more triples than its multiplicity, and no
      supervisor by more than its load. */
  predicate LinesFit(es: seq<Entry>, projects: map<int, Project>, staff: map<string, Staff>)
    requires EntriesKnown(es, projects, staff)
  {
    forall e :: e in es ==>
      && ProjectCount(es, e.projectId) <= projects[e.projectId].multiplicity
      && StaffCount(es, e.supervisorId) <= staff[e.supervisorId].load
  }

  /** pid exists and fewer triples than its multiplicity name it. */
  predicate OpenInLines(es: seq<Entry>, projects: map<int, Project>, pid: int) {
    pid in projects && ProjectCount(es, pid) < projects[pid].multiplicity
  }

  /** Rule 1 over the triples: some student ranks an open choice better than
      the project on its own line. */
  predicate StudentEnvies(students: seq<Student>, es: seq<Entry>, projects: map<int, Project>) {
    exists i, e, c :: 0 <= i < |students| && e in es && e.studentId == students[i].id
      && c in students[i].choices && OpenInLines(es, projects, c)
      && StudentRankForProject(students[i], c) < StudentRankForProject(students[i], e.projectId)
  }

  /** Rule 2 over the triples: two different students each strictly prefer
      the project on the other's line. */
  predicate StudentsSwapLines(students: seq<Student>, es: seq<Entry>) {
    exists i, j, e1, e2 :: 0 <= i < |students| && 0 <= j < |students| && i != j
      && e1 in es && e2 in es && e1.studentId == students[i].id && e2.studentId == students[j].id
      && StudentsWouldSwap(students[i], e1.projectId, students[j], e2.projectId)
  }

  /** Rule 3 over the triples: some student did not list the project on its
      line, and an open project has a strictly better category for the
      supervisor on that line. */
  predicate SupervisorEnvies(students: seq<Student>, es: seq<Entry>, projects: map<int, Project>, staff: map<string, Staff>)
    requires EntriesKnown(es, projects, staff)
  {
    exists i, e, k :: 0 <= i < |students| && e in es && e.studentId == students[i].id
      && StudentRankForProject(students[i], e.projectId) == NoRank
      && k in projects && OpenInLines(es, projects, projects[k].id)
      && SupervisorStrictlyPrefersProject(staff[e.supervisorId], projects[k], projects[e.projectId])
  }

  /** Rule 4 over the triples: two lines with different supervisors, each of
      whom strictly prefers the project on the other's line. */
  predicate SupervisorsSwapLines(es: seq<Entry>, projects: map<int, Project>, staff: map<string, Staff>)
    requires EntriesKnown(es, projects, staff)
  {
    exists e1, e2 :: e1 in es && e2 in es && e1.supervisorId != e2.supervisorId
      && SupervisorStrictlyPrefersProject(staff[e1.supervisorId], projects[e2.projectId], projects[e1.projectId])
      && SupervisorStrictlyPrefersProject(staff[e2.supervisorId], projects[e1.projectId], projects[e2.projectId])
  }

  /** A VALID allocation file, stated over its lines: nothing malformed, one
      line per student naming known records, capacities respected, and none
      of the four stability rules broken. */
  predicate ValidLines(staff: map<string, Staff>, projects: map<int, Project>, students: seq<Student>, lines: seq<seq<string>>) {
    var es := Entries(lines);
    && NoMalformedLine(lines)
    && OneLineEach(students, es, projects, staff)
    && LinesFit(es, projects, staff)
    && !StudentEnvies(students, es, projects)
    && !StudentsSwapLines(students, es)
    && !SupervisorEnvies(students, es, projects, staff)
    && !SupervisorsSwapLines(es, projects, staff)
  }

  /** Each triple's student is in the map with that triple's slot. */
  predicate SameSlots(es: seq<Entry>, alloc: map<string, Assignment>) {
    forall e :: e in es ==> e.studentId in alloc && alloc[e.studentId] == AssignmentOf(e)
  }

  /** Every key of the map is the student of some triple. */
  predicate KeysFromEntries(es: seq<Entry>, alloc: map<string, Assignment>) {
    forall k :: k in alloc ==> exists e :: e in es && e.studentId == k
  }

  /** Every student has a triple. */
  predicate EachHasLine(students: seq<Student>, es: seq<Entry>) {
    forall i :: 0 <= i < |students| ==> exists e :: e in es && e.studentId == students[i].id
  }

  /** The map's derived counts are the triples' counts. */
  ghost predicate SameCounts(es: seq<Entry>, alloc: map<string, Assignment>) {
    && (forall pid :: ProjectUsage(alloc, pid) == ProjectCount(es, pid))
    && (forall sup :: StaffUsage(alloc, sup) == StaffCount(es, sup))
  }

  lemma FitToLines(es: seq<Entry>, alloc: map<string, Assignment>, projects: map<int, Project>, staff: map<string, Staff>)
    requires SameSlots(es, alloc) && SameCounts(es, alloc)
    requires IdsKnown(alloc, projects, staff) && EntriesKnown(es, projects, staff)
    requires UsageWithinCapacity(alloc, projects, staff)
    ensures LinesFit(es, projects, staff)
  {
    forall e | e in es
      ensures ProjectCount(es, e.projectId) <= projects[e.projectId].multiplicity
      ensures StaffCount(es, e.supervisorId) <= staff[e.supervisorId].load
    {
      assert e.studentId in alloc && alloc[e.studentId] == AssignmentOf(e);
      assert ProjectUsage(alloc, e.projectId) == ProjectCount(es, e.projectId);
      assert StaffUsage(alloc, e.supervisorId) == StaffCount(es, e.supervisorId);
    }
  }

  lemma FitFromLines(es: seq<Entry>, alloc: map<string, Assignment>, projects: map<int, Project>, staff: map<string, Staff>)
    requires SameSlots(es, alloc) && KeysFromEntries(es, alloc) && SameCounts(es, alloc)
    requires IdsKnown(alloc, projects, staff) && EntriesKnown(es, projects, staff)
    requires LinesFit(es, projects, staff)
    ensures UsageWithinCapacity(alloc, projects, staff)
  {
    forall k | k in alloc
      ensures ProjectUsage(alloc, alloc[k].projectId) <= projects[alloc[k].projectId].multiplicity
      ensures StaffUsage(alloc, alloc[k].supervisorId) <= staff[alloc[k].supervisorId].load
    {
      var e :| e in es && e.studentId == k;
      assert alloc[k] == AssignmentOf(e);
      assert ProjectUsage(alloc, e.projectId) == ProjectCount(es, e.projectId);
      assert StaffUsage(alloc, e.supervisorId) == StaffCount(es, e.supervisorId);
    }
  }

  lemma Rule1ToLines(students: seq<Student>, es: seq<Entry>, alloc: map<string, Assignment>, projects: map<int, Project>)
    requires SameSlots(es, alloc) && SameCounts(es, alloc) && EachHasLine(students, es)
    requires forall i :: 0 <= i < |students| ==> students[i].id in alloc
    requires Rule1Violated(students, alloc, projects)
    ensures StudentEnvies(students, es, projects)
  {
    var i :| 0 <= i < |students| && PrefersAvailableChoice(students[i], alloc[students[i].id], projects, alloc);
    var s := students[i];
    var a := alloc[s.id];
    var m :| 0 <= m < |s.choices| && m < StudentRankForProject(s, a.projectId)
             && IsAvailable(projects, alloc, s.choices[m]);
    var c := s.choices[m];
    var e :| e in es && e.studentId == s.id;
    assert a == AssignmentOf(e);
    assert StudentRankForProject(s, c) <= m;
    assert ProjectUsage(alloc, c) == ProjectCount(es, c);
    assert c in s.choices && OpenInLines(es, projects, c);
  }

  lemma Rule1FromLines(students: seq<Student>, es: seq<Entry>, alloc: map<string, Assignment>, projects: map<int, Project>)
    requires SameSlots(es, alloc) && SameCounts(es, alloc)
    requires forall i :: 0 <= i < |students| ==> students[i].id in alloc
    requires StudentEnvies(students, es, projects)
    ensures Rule1Violated(students, alloc, projects)
  {
    var i, e, c :| 0 <= i < |students| && e in es && e.studentId == students[i].id
      && c in students[i].choices && OpenInLines(es, projects, c)
      && StudentRankForProject(students[i], c) < StudentRankForProject(students[i], e.projectId);
    var m := StudentRankForProject(students[i], c);
    assert alloc[students[i].id] == AssignmentOf(e);
    assert ProjectUsage(alloc, c) == ProjectCount(es, c);
    assert IsAvailable(projects, alloc, students[i].choices[m]);
    assert PrefersAvailableChoice(students[i], alloc[students[i].id], projects, alloc);
  }

  lemma Rule2ToLines(students: seq<Student>, es: seq<Entry>, alloc: map<string, Assignment>)
    requires SameSlots(es, alloc) && EachHasLine(students, es)
    requires forall i :: 0 <= i < |students| ==> students[i].id in alloc
    requires Rule2Violated(students, alloc)
    ensures StudentsSwapLines(students, es)
  {
    var i, j :| 0 <= i < j < |students|
      && StudentsWouldSwap(students[i], alloc[students[i].id].projectId, students[j], alloc[students[j].id].projectId);
    var e1 :| e1 in es && e1.studentId == students[i].id;
    var e2 :| e2 in es && e2.studentId == students[j].id;
    assert alloc[students[i].id] == AssignmentOf(e1) && alloc[students[j].id] == AssignmentOf(e2);
    SwapLinesWitness(students, es, i, j, e1, e2);
  }

  /** Two concrete lines that would swap make Rule 2 fire over the triples. */
  lemma SwapLinesWitness(students: seq<Student>, es: seq<Entry>, i: int, j: int, e1: Entry, e2: Entry)
    requires 0 <= i < |students| && 0 <= j < |students| && i != j
    requires e1 in es && e2 in es && e1.studentId == students[i].id && e2.studentId == students[j].id
    requires StudentsWouldSwap(students[i], e1.projectId, students[j], e2.projectId)
    ensures StudentsSwapLines(students, es)
  {
  }

  lemma Rule2FromLines(students: seq<Student>, es: seq<Entry>, alloc: map<string, Assignment>)
    requires SameSlots(es, alloc)
    requires forall i :: 0 <= i < |students| ==> students[i].id in alloc
    requires StudentsSwapLines(students, es)
    ensures Rule2Violated(students, alloc)
  {
    var i, j, e1, e2 :| 0 <= i < |students| && 0 <= j < |students| && i != j
      && e1 in es && e2 in es && e1.studentId == students[i].id && e2.studentId == students[j].id
      && StudentsWouldSwap(students[i], e1.projectId, students[j], e2.projectId);
    assert alloc[students[i].id] == AssignmentOf(e1) && alloc[students[j].id] == AssignmentOf(e2);
    Rule2IsSymmetric(students, alloc);
  }

  lemma Rule3ToLines(students: seq<Student>, es: seq<Entry>, alloc: map<string, Assignment>,
                     projects: map<int, Project>, staff: map<string, Staff>)
    requires SameSlots(es, alloc) && SameCounts(es, alloc) && EachHasLine(students, es)
    requires IdsKnown(alloc, projects, staff) && EntriesKnown(es, projects, staff)
    requires forall i :: 0 <= i < |students| ==> students[i].id in alloc
    requires Rule3Violated(students, alloc, projects, staff)
    ensures SupervisorEnvies(students, es, projects, staff)
  {
    var i :| 0 <= i < |students| && SupervisorWouldSwitch(students[i], alloc[students[i].id], projects, staff, alloc);
    var a := alloc[students[i].id];
    var k :| k in projects && IsAvailable(projects, alloc, projects[k].id)
             && SupervisorStrictlyPrefersProject(staff[a.supervisorId], projects[k], projects[a.projectId]);
    var e :| e in es && e.studentId == students[i].id;
    assert a == AssignmentOf(e);
    assert ProjectUsage(alloc, projects[k].id) == ProjectCount(es, projects[k].id);
    assert OpenInLines(es, projects, projects[k].id);
  }

  lemma Rule3FromLines(students: seq<Student>, es: seq<Entry>, alloc: map<string, Assignment>,
                       projects: map<int, Project>, staff: map<string, Staff>)
    requires SameSlots(es, alloc) && SameCounts(es, alloc)
    requires IdsKnown(alloc, projects, staff) && EntriesKnown(es, projects, staff)
    requires forall i :: 0 <= i < |students| ==> students[i].id in alloc
    requires SupervisorEnvies(students, es, projects, staff)
    ensures Rule3Violated(students, alloc, projects, staff)
  {
    var i, e, k :| 0 <= i < |students| && e in es && e.studentId == students[i].id
      && StudentRankForProject(students[i], e.projectId) == NoRank
      && k in projects && OpenInLines(es, projects, projects[k].id)
      && SupervisorStrictlyPrefersProject(staff[e.supervisorId], projects[k], projects[e.projectId]);
    assert alloc[students[i].id] == AssignmentOf(e);
    assert ProjectUsage(alloc, projects[k].id) == ProjectCount(es, projects[k].id);
    assert IsAvailable(projects, alloc, projects[k].id);
    assert SupervisorWouldSwitch(students[i], alloc[students[i].id], projects, staff, alloc);
  }

  lemma Rule4ToLines(es: seq<Entry>, alloc: map<string, Assignment>, projects: map<int, Project>, staff: map<string, Staff>)
    requires SameSlots(es, alloc) && KeysFromEntries(es, alloc)
    requires IdsKnown(alloc, projects, staff) && EntriesKnown(es, projects, staff)
    requires Rule4Violated(alloc, projects, staff)
    ensures SupervisorsSwapLines(es, projects, staff)
  {
    var x, y :| x in alloc && y in alloc && SupervisorsWouldSwap(alloc, projects, staff, x, y);
    var e1 :| e1 in es && e1.studentId == x;
    var e2 :| e2 in es && e2.studentId == y;
    assert alloc[x] == AssignmentOf(e1) && alloc[y] == AssignmentOf(e2);
  }

  lemma Rule4FromLines(es: seq<Entry>, alloc: map<string, Assignment>, projects: map<int, Project>, staff: map<string, Staff>)
    requires SameSlots(es, alloc)
    requires IdsKnown(alloc, projects, staff) && EntriesKnown(es, projects, staff)
    requires SupervisorsSwapLines(es, projects, staff)
    ensures Rule4Violated(alloc, projects, staff)
  {
    var e1, e2 :| e1 in es && e2 in es && e1.supervisorId != e2.supervisorId
      && SupervisorStrictlyPrefersProject(staff[e1.supervisorId], projects[e2.projectId], projects[e1.projectId])
      && SupervisorStrictlyPrefersProject(staff[e2.supervisorId], projects[e1.projectId], projects[e2.projectId]);
    assert SupervisorsWouldSwap(alloc, projects, staff, e1.studentId, e2.studentId);
  }

  /** The stability rules and the capacity check, each read off the triples. */
  lemma FitLines(es: seq<Entry>, alloc: map<string, Assignment>, projects: map<int, Project>, staff: map<string, Staff>)
    requires SameSlots(es, alloc) && KeysFromEntries(es, alloc) && SameCounts(es, alloc)
    requires IdsKnown(alloc, projects, staff) && EntriesKnown(es, projects, staff)
    ensures UsageWithinCapacity(alloc, projects, staff) <==> LinesFit(es, projects, staff)
  {
    if UsageWithinCapacity(alloc, projects, staff) { FitToLines(es, alloc, projects, staff); }
    if LinesFit(es, projects, staff) { FitFromLines(es, alloc, projects, staff); }
  }

  lemma Rule1Lines(students: seq<Student>, es: seq<Entry>, alloc: map<string, Assignment>, projects: map<int, Project>)
    requires SameSlots(es, alloc) && SameCounts(es, alloc) && EachHasLine(students, es)
    requires forall i :: 0 <= i < |students| ==> students[i].id in alloc
    ensures Rule1Violated(students, alloc, projects) <==> StudentEnvies(students, es, projects)
  {
    if Rule1Violated(students, alloc, projects) { Rule1ToLines(students, es, alloc, projects); }
    if StudentEnvies(students, es, projects) { Rule1FromLines(students, es, alloc, projects); }
  }

  lemma Rule2Lines(students: seq<Student>, es: seq<Entry>, alloc: map<string, Assignment>)
    requires SameSlots(es, alloc) && EachHasLine(students, es)
    requires forall i :: 0 <= i < |students| ==> students[i].id in alloc
    ensures Rule2Violated(students, alloc) <==> StudentsSwapLines(students, es)
  {
    if Rule2Violated(students, alloc) { Rule2ToLines(students, es, alloc); }
    if StudentsSwapLines(students, es) { Rule2FromLines(students, es, alloc); }
  }

  lemma Rule3Lines(students: seq<Student>, es: seq<Entry>, alloc: map<string, Assignment>,
                   projects: map<int, Project>, staff: map<string, Staff>)
    requires SameSlots(es, alloc) && SameCounts(es, alloc) && EachHasLine(students, es)
    requires IdsKnown(alloc, projects, staff) && EntriesKnown(es, projects, staff)
    requires forall i :: 0 <= i < |students| ==> students[i].id in alloc
    ensures Rule3Violated(students, alloc, projects, staff) <==> SupervisorEnvies(students, es, projects, staff)
  {
    if Rule3Violated(students, alloc, projects, staff) { Rule3ToLines(students, es, alloc, projects, staff); }
    if SupervisorEnvies(students, es, projects, staff) { Rule3FromLines(students, es, alloc, projects, staff); }
  }

  lemma Rule4Lines(es: seq<Entry>, alloc: map<string, Assignment>, projects: map<int, Project>, staff: map<string, Staff>)
    requires SameSlots(es, alloc) && KeysFromEntries(es, alloc)
    requires IdsKnown(alloc, projects, staff) && EntriesKnown(es, projects, staff)
    ensures Rule4Violated(alloc, projects, staff) <==> SupervisorsSwapLines(es, projects, staff)
  {
    if Rule4Violated(alloc, projects, staff) { Rule4ToLines(es, alloc, projects, staff); }
    if SupervisorsSwapLines(es, projects, staff) { Rule4FromLines(es, alloc, projects, staff); }
  }

  /** Over a map that corresponds to the triples, the legality and stability
      part of the verdict is the line conditions. */
  lemma StableLines(students: seq<Student>, es: seq<Entry>, alloc: map<string, Assignment>,
                    projects: map<int, Project>, staff: map<string, Staff>)
    requires SameSlots(es, alloc) && KeysFromEntries(es, alloc) && EachHasLine(students, es) && SameCounts(es, alloc)
    requires IdsKnown(alloc, projects, staff) && EntriesKnown(es, projects, staff)
    requires forall i :: 0 <= i < |students| ==> students[i].id in alloc
    ensures LegalAndStable(students, alloc, projects, staff) <==>
              && LinesFit(es, projects, staff)
              && !StudentEnvies(students, es, projects)
              && !StudentsSwapLines(students, es)
              && !SupervisorEnvies(students, es, projects, staff)
              && !SupervisorsSwapLines(es, projects, staff)
  {
    FitLines(es, alloc, projects, staff);
    Rule1Lines(students, es, alloc, projects);
    Rule2Lines(students, es, alloc);
    Rule3Lines(students, es, alloc, projects, staff);
    Rule4Lines(es, alloc, projects, staff);
  }

  /** A read that accepted one line per student corresponds to its triples. */
  lemma ReadCorresponds(lines: seq<seq<string>>, students: seq<Student>, alloc: map<string, Assignment>)
    requires ReadAllocation(lines, StudentIds(students)) == Some(alloc)
    requires |alloc| == |students|
    ensures SameSlots(Entries(lines), alloc)
    ensures KeysFromEntries(Entries(lines), alloc)
    ensures EachHasLine(students, Entries(lines))
  {
    var es := Entries(lines);
    ReadAllocationMeaning(lines, StudentIds(students));
    CompleteRead(lines, students, alloc);
    forall k | k in alloc ensures exists e :: e in es && e.studentId == k {
      var i :| 0 <= i < |es| && es[i].studentId == k;
      assert es[i] in es;
    }
  }

  /** An accepted read counts what its triples count. */
  lemma ReadCounts(lines: seq<seq<string>>, known: set<string>)
    requires ReadAllocation(lines, known).Some?
    ensures SameCounts(Entries(lines), ReadAllocation(lines, known).value)
  {
    var es := Entries(lines);
    var alloc := ReadAllocation(lines, known).value;
    ReadAllocationMeaning(lines, known);
    assert MapOfEntries(es, alloc);
    forall pid ensures ProjectUsage(alloc, pid) == ProjectCount(es, pid) {
      UsageCountsEntries(es, alloc, pid, NoSupervisor);
    }
    forall sup ensures StaffUsage(alloc, sup) == StaffCount(es, sup) {
      UsageCountsEntries(es, alloc, NoProject, sup);
    }
  }

  /** With one line per student, the triples name exactly the students. */
  lemma EntryIdsAreStudentIds(students: seq<Student>, es: seq<Entry>, projects: map<int, Project>, staff: map<string, Staff>)
    requires OneLineEach(students, es, projects, staff)
    ensures EntryIds(es) == StudentIds(students)
  {
    forall x | x in StudentIds(students) ensures x in EntryIds(es) {
      var i :| 0 <= i < |students| && students[i].id == x;
      var e :| e in es && e.studentId == students[i].id;
      var j :| 0 <= j < |es| && es[j] == e;
    }
    forall x | x in EntryIds(es) ensures x in StudentIds(students) {
      var j :| 0 <= j < |es| && es[j].studentId == x;
      assert es[j] in es;
    }
  }

  /** Lines with one triple per known student are accepted by the read. */
  lemma ValidLinesReadable(staff: map<string, Staff>, projects: map<int, Project>, students: seq<Student>, lines: seq<seq<string>>)
    requires NoMalformedLine(lines) && OneLineEach(students, Entries(lines), projects, staff)
    ensures ReadAllocation(lines, StudentIds(students)).Some?
  {
    var es := Entries(lines);
    ReadAllocationMeaning(lines, StudentIds(students));
    forall i | 0 <= i < |es| ensures es[i].studentId in StudentIds(students) {
      assert es[i] in es;
    }
  }

  /** The map read from such lines has one entry per student. */
  lemma ValidLinesReadSize(staff: map<string, Staff>, projects: map<int, Project>, students: seq<Student>, lines: seq<seq<string>>)
    requires OneLineEach(students, Entries(lines), projects, staff)
    requires ReadAllocation(lines, StudentIds(students)).Some?
    ensures |ReadAllocation(lines, StudentIds(students)).value| == |students|
  {
    var alloc := ReadAllocation(lines, StudentIds(students)).value;
    ReadAllocationMeaning(lines, StudentIds(students));
    EntryIdsAreStudentIds(students, Entries(lines), projects, staff);
    StudentIdsCardinality(students);
    assert |alloc| == |alloc.Keys| == |students|;
  }

  /** The map read from such lines names only known projects and staff. */
  lemma ValidLinesReadKnown(staff: map<string, Staff>, projects: map<int, Project>, students: seq<Student>, lines: seq<seq<string>>)
    requires OneLineEach(students, Entries(lines), projects, staff)
    requires ReadAllocation(lines, StudentIds(students)).Some?
    ensures IdsKnown(ReadAllocation(lines, StudentIds(students)).value, projects, staff)
  {
    var es := Entries(lines);
    var alloc := ReadAllocation(lines, StudentIds(students)).value;
    ReadAllocationMeaning(lines, StudentIds(students));
    forall k | k in alloc ensures alloc[k].projectId in projects && alloc[k].supervisorId in staff {
      var i :| 0 <= i < |es| && es[i].studentId == k;
      assert es[i] in es;
    }
  }

  /** Lines that meet the stated conditions are read into a map with one
      entry per student and only known ids. */
  lemma ValidLinesRead(staff: map<string, Staff>, projects: map<int, Project>, students: seq<Student>, lines: seq<seq<string>>)
    requires NoMalformedLine(lines) && OneLineEach(students, Entries(lines), projects, staff)
    ensures ReadAllocation(lines, StudentIds(students)).Some?
    ensures var alloc := ReadAllocation(lines, StudentIds(students)).value;
            |alloc| == |students| && IdsKnown(alloc, projects, staff)
  {
    ValidLinesReadable(staff, projects, students, lines);
    ValidLinesReadSize(staff, projects, students, lines);
    ValidLinesReadKnown(staff, projects, students, lines);
  }

  /** The checker's verdict in both directions: VALID exactly when the lines
      meet the conditions stated over the triples themselves. */
  lemma CheckAllocationMeaning(staff: map<string, Staff>, projects: map<int, Project>, students: seq<Student>, lines: seq<seq<string>>)
    ensures CheckAllocation(staff, projects, students, lines) <==> ValidLines(staff, projects, students, lines)
  {
    var es := Entries(lines);
    var read := ReadAllocation(lines, StudentIds(students));
    if read.Some? && |read.value| == |students| && IdsKnown(read.value, projects, staff) {
      var alloc := read.value;
      KnownEntries(lines, students, alloc, projects, staff);
      ReadCorresponds(lines, students, alloc);
      ReadCounts(lines, StudentIds(students));
      StableLines(students, es, alloc, projects, staff);
      assert OneLineEach(students, es, projects, staff);
    } else if NoMalformedLine(lines) && OneLineEach(students, es, projects, staff) {
      ValidLinesRead(staff, projects, students, lines);
    }
  }
}
