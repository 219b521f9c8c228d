/** The greedy allocator (Allocator.cpp): students are placed on projects by
    preference, staff then take supervisees in three passes (their own
    projects, their expertise, anything), and a final safety net places and
    supervises whoever is left while capacity remains. Staff and projects
    are visited in ascending id order. */
module Allocator {
  import opened Records
  import opened Ordering
  import opened Preferences
  import opened AllocState

  // ---------------------------------------------------------------------------
  // Which projects a search may pick

  /** The project filter of each pass: proposed by the staff member, in one of
      their areas of expertise, or any project at all. */
  datatype Filter = OwnedBy(proposer: string) | InAreas(areas: set<string>) | Unfiltered

  predicate Accepts(f: Filter, p: Project) {
    match f
    case OwnedBy(id) => p.proposer == id
    case InAreas(areas) => p.subject in areas
    case Unfiltered => true
  }

  /** The three supervision passes of phase 2 (Allocator.cpp:113, 159, 216). */
  datatype Pass = OwnProjects | Expertise | AnyProject

  function FilterFor(pass: Pass, st: Staff): Filter {
    match pass
    case OwnProjects => OwnedBy(st.id)
    case Expertise => InAreas(st.expertise)
    case AnyProject => Unfiltered
  }

  /** The worst supervisor category a pass can produce. */
  function Bound(pass: Pass): int {
    match pass
    case OwnProjects => 0
    case Expertise => 1
    case AnyProject => 2
  }

  /** pid is a project with a free place that the filter accepts. */
  predicate OpenFor(projects: map<int, Project>, pid: int, f: Filter) {
    pid in projects && projects[pid].HasSpace() && Accepts(f, projects[pid])
  }

  /** The first position at or after from whose id is open for the filter,
      or |ids| when there is none. */
  function FirstOpen(projects: map<int, Project>, ids: seq<int>, f: Filter, from: nat): (k: nat)
    requires from <= |ids|
    ensures from <= k <= |ids|
    ensures k < |ids| ==> OpenFor(projects, ids[k], f)
    ensures forall j :: from <= j < k ==> !OpenFor(projects, ids[j], f)
    decreases |ids| - from
  {
    if from == |ids| then from
    else if OpenFor(projects, ids[from], f) then from
    else FirstOpen(projects, ids, f, from + 1)
  }

  /** Over the ascending list of all project ids, the first open position holds
      the smallest open project id, and there is none only when no project is
      open. */
  lemma FirstOpenIsLeast(projects: map<int, Project>, ids: seq<int>, f: Filter)
    requires IncreasingInts(ids)
    requires forall pid :: pid in projects ==> pid in ids
    ensures var k := FirstOpen(projects, ids, f, 0);
            && (k < |ids| <==> exists pid :: OpenFor(projects, pid, f))
            && (k < |ids| ==> forall pid :: OpenFor(projects, pid, f) ==> ids[k] <= pid)
  {
    var k := FirstOpen(projects, ids, f, 0);
    forall pid | OpenFor(projects, pid, f)
      ensures k < |ids| && ids[k] <= pid
    {
      assert pid in ids;
      var j :| 0 <= j < |ids| && ids[j] == pid;
      assert k <= j;
    }
  }

  /** With the filter of a pass, the supervisor's category for the chosen
      project is within the pass's bound. */
  lemma FilterWithinBound(pass: Pass, st: Staff, p: Project)
    requires Accepts(FilterFor(pass, st), p)
    ensures SupervisorCategoryForProject(st, p) <= Bound(pass)
    ensures pass == OwnProjects ==> SupervisorCategoryForProject(st, p) == 0
  {
  }

  // ---------------------------------------------------------------------------
  // The primitives

  /** AssignProjectIfNeeded (Allocator.cpp:14-30): succeeds exactly when pid
      names a project with a free place; then the student records pid and the
      project counts one more place taken, otherwise nothing changes. */
  method AssignProjectIfNeeded(s: State, i: nat, pid: int) returns (r: State, ok: bool)
    requires i < |s.students|
    ensures ok <==> pid in s.projects && s.projects[pid].HasSpace()
    ensures ok ==> r == Place(s, i, pid, pid)
    ensures !ok ==> r == s
    ensures !s.students[i].HasProject() ==> Progress(s, r)
  {
    if pid !in s.projects {
      return s, false;
    }
    var p := s.projects[pid];
    if p.assignedCount >= p.multiplicity {
      return s, false;
    }
    r := Place(s, i, pid, pid);
    ok := true;
    if !s.students[i].HasProject() {
      PlaceProgress(s, i, pid, pid);
    }
  }

  /** The search loop shared by EnsureStudentHasAnyProject and the placing
      sweeps of phase 2 (Allocator.cpp:40-48, 146-154, 195-207): the student
      goes onto the first listed project that is open for the filter,
      recording that project's id. */
  method PlaceOnFirstOpen(s: State, i: nat, ids: seq<int>, f: Filter) returns (r: State, ok: bool)
    requires i < |s.students| && !s.students[i].HasProject()
    requires forall k :: 0 <= k < |ids| ==> ids[k] in s.projects
    ensures var k := FirstOpen(s.projects, ids, f, 0);
            && (ok <==> k < |ids|)
            && (ok ==> r == Place(s, i, ids[k], s.projects[ids[k]].id))
            && (!ok ==> r == s)
    ensures Progress(s, r)
  {
    var k := 0;
    while k < |ids|
      invariant 0 <= k <= |ids|
      invariant FirstOpen(s.projects, ids, f, 0) == FirstOpen(s.projects, ids, f, k)
    {
      var p := s.projects[ids[k]];
      if p.assignedCount < p.multiplicity && Accepts(f, p) {
        if WellFormed(s) {
          assert p.id == ids[k];
        }
        PlaceProgress(s, i, ids[k], p.id);
        return Place(s, i, ids[k], p.id), true;
      }
      k := k + 1;
    }
    ProgressReflexive(s);
    return s, false;
  }

  /** EnsureStudentHasAnyProject (Allocator.cpp:32-49): true with nothing
      changed for a placed student; otherwise the student goes onto the first
      project in ids with a free place, or the result is false with nothing
      changed. */
  method EnsureStudentHasAnyProject(s: State, i: nat, ids: seq<int>) returns (r: State, ok: bool)
    requires i < |s.students|
    requires forall k :: 0 <= k < |ids| ==> ids[k] in s.projects
    ensures s.students[i].HasProject() ==> ok && r == s
    ensures !s.students[i].HasProject() ==>
              var k := FirstOpen(s.projects, ids, Unfiltered, 0);
              && (ok <==> k < |ids|)
              && (ok ==> r == Place(s, i, ids[k], s.projects[ids[k]].id))
              && (!ok ==> r == s)
    ensures Progress(s, r)
    ensures forall j :: 0 <= j < |s.students| && j != i ==> r.students[j] == s.students[j]
    ensures WellFormed(s) && (forall pid :: pid in s.projects ==> pid in ids) ==>
              r.students[i].HasProject() || NoneOpen(s)
  {
    if s.students[i].HasProject() {
      ProgressReflexive(s);
      return s, true;
    }
    r, ok := PlaceOnFirstOpen(s, i, ids, Unfiltered);
    var k := FirstOpen(s.projects, ids, Unfiltered, 0);
    if ok {
      assert r.students == s.students[i := r.students[i]];
      if WellFormed(s) {
        assert r.students[i].assignedProject == ids[k];
      }
    } else if forall pid :: pid in s.projects ==> pid in ids {
      NothingOpen(s, ids);
    }
  }

  /** A search over a list of every project id that finds nothing means every
      project is full. */
  lemma NothingOpen(s: State, ids: seq<int>)
    requires forall pid :: pid in s.projects ==> pid in ids
    requires FirstOpen(s.projects, ids, Unfiltered, 0) == |ids|
    ensures NoneOpen(s)
  {
    forall pid | pid in s.projects ensures !s.projects[pid].HasSpace() {
      var m :| 0 <= m < |ids| && ids[m] == pid;
      assert !OpenFor(s.projects, ids[m], Unfiltered);
    }
  }

  /** Over the ascending list of all project ids, EnsureStudentHasAnyProject
      picks the smallest id with a free place, and fails only when every
      project is full. */
  lemma EnsureStudentPicksSmallest(s: State, i: nat)
    requires i < |s.students| && !s.students[i].HasProject()
    ensures var ids := SortedInts(s.projects.Keys);
            var k := FirstOpen(s.projects, ids, Unfiltered, 0);
            && (k == |ids| <==> NoneOpen(s))
            && (k < |ids| ==> forall pid :: pid in s.projects && s.projects[pid].HasSpace() ==> ids[k] <= pid)
  {
    var ids := SortedInts(s.projects.Keys);
    FirstOpenIsLeast(s.projects, ids, Unfiltered);
    var k := FirstOpen(s.projects, ids, Unfiltered, 0);
    if k == |ids| {
      forall pid | pid in s.projects ensures !s.projects[pid].HasSpace() {
        assert !OpenFor(s.projects, pid, Unfiltered);
      }
    } else {
      assert OpenFor(s.projects, ids[k], Unfiltered);
    }
    forall pid | pid in s.projects && s.projects[pid].HasSpace() && k < |ids| ensures ids[k] <= pid {
      assert OpenFor(s.projects, pid, Unfiltered);
    }
  }

  /** TryAssignSupervisorToStudent (Allocator.cpp:51-72): succeeds exactly when
      the staff member has spare load and the student is on an existing project
      without a supervisor; then the student records the staff member's id and
      only that staff member's counter rises, otherwise nothing changes. */
  method TryAssignSupervisorToStudent(s: State, i: nat, sid: string) returns (r: State, ok: bool)
    requires i < |s.students| && sid in s.staff
    ensures ok <==> s.staff[sid].CanSupervise() && s.students[i].HasProject()
                    && !s.students[i].HasSupervisor() && s.students[i].assignedProject in s.projects
    ensures ok ==> r == Supervise(s, i, sid)
    ensures ok ==> r.students[i].assignedSupervisor == s.staff[sid].id
    ensures ok ==> r.staff[sid].assignedCount == s.staff[sid].assignedCount + 1
    ensures ok ==> forall x :: x in s.staff && x != sid ==> r.staff[x] == s.staff[x]
    ensures !ok ==> r == s
    ensures Progress(s, r)
  {
    ProgressReflexive(s);
    if !s.staff[sid].CanSupervise() {
      return s, false;
    }
    if s.students[i].assignedProject == NoProject {
      return s, false;
    }
    if s.students[i].assignedSupervisor != NoSupervisor {
      return s, false;
    }
    if s.students[i].assignedProject !in s.projects {
      return s, false;
    }
    SuperviseProgress(s, i, sid);
    return Supervise(s, i, sid), true;
  }

  // ---------------------------------------------------------------------------
  // Phase 1

  /** Every choice of the list names a missing or a full project. */
  predicate NoChoiceOpen(projects: map<int, Project>, choices: seq<int>) {
    forall c :: c in choices ==> !OpenFor(projects, c, Unfiltered)
  }

  /** A student newly placed between a and b sits on one of its own choices. */
  predicate PlacedByChoice(a: State, b: State, j: int)
    requires 0 <= j < |a.students| && j < |b.students|
  {
    !a.students[j].HasProject() && b.students[j].HasProject() ==>
      b.students[j].assignedProject in a.students[j].choices
  }

  /** Every choice the student lists before the first occurrence of its
      project names a missing or a full project. */
  predicate EarlierChoicesClosed(projects: map<int, Project>, st: Student) {
    forall m :: 0 <= m < |st.choices| && m < StudentRankForProject(st, st.assignedProject) ==>
      !OpenFor(projects, st.choices[m], Unfiltered)
  }

  lemma EarlierChoicesStayClosed(a: State, b: State, st: Student)
    requires Evolves(a, b) && EarlierChoicesClosed(a.projects, st)
    ensures EarlierChoicesClosed(b.projects, st)
  {
    forall m | 0 <= m < |st.choices| && m < StudentRankForProject(st, st.assignedProject)
      ensures !OpenFor(b.projects, st.choices[m], Unfiltered)
    {
      ClosedStays(a, b, st.choices[m], Unfiltered);
    }
  }

  lemma ProgressKeepsChoicesClosed(a: State, b: State, choices: seq<int>)
    requires Evolves(a, b) && NoChoiceOpen(a.projects, choices)
    ensures NoChoiceOpen(b.projects, choices)
  {
    forall c | c in choices ensures !OpenFor(b.projects, c, Unfiltered) {
      if c in b.projects {
        assert ProjectGrows(a.projects[c], b.projects[c]);
        assert !OpenFor(a.projects, c, Unfiltered);
      }
    }
  }

  /** The inner loop of phase 1 for one student (Allocator.cpp:99-105): an
      unplaced student goes onto the first choice that exists and has a free
      place at that moment; unknown and full choices are skipped. Only this
      student and that project change, every choice listed before the one
      taken was missing or full, and on a well-formed state the student stays
      unplaced only when none of its choices has a free place. */
  method PlaceByPreference(s: State, i: nat) returns (r: State)
    requires i < |s.students|
    ensures Progress(s, r)
    ensures var st := s.students[i];
            var k := FirstOpen(s.projects, st.choices, Unfiltered, 0);
            r == if st.HasProject() || k == |st.choices| then s else Place(s, i, st.choices[k], st.choices[k])
    ensures r.staff == s.staff
    ensures forall j :: 0 <= j < |s.students| && j != i ==> r.students[j] == s.students[j]
    ensures r.students[i].assignedSupervisor == s.students[i].assignedSupervisor
    ensures PlacedByChoice(s, r, i)
    ensures !s.students[i].HasProject() ==> EarlierChoicesClosed(r.projects, r.students[i])
    ensures WellFormed(s) && !r.students[i].HasProject() ==> NoChoiceOpen(r.projects, r.students[i].choices)
  {
    ProgressReflexive(s);
    if s.students[i].HasProject() {
      return s;
    }
    var choices := s.students[i].choices;
    var k := 0;
    while k < |choices|
      invariant 0 <= k <= |choices|
      invariant FirstOpen(s.projects, choices, Unfiltered, 0) == FirstOpen(s.projects, choices, Unfiltered, k)
    {
      var next, ok := AssignProjectIfNeeded(s, i, choices[k]);
      if ok {
        assert choices[k] in choices;
        PlaceClosesEarlier(s, i, k);
        return next;
      }
      k := k + 1;
    }
    forall c | c in choices ensures !OpenFor(s.projects, c, Unfiltered) {
      var m :| 0 <= m < |choices| && choices[m] == c;
    }
    return s;
  }

  /** Placing student i on its choice k, when no earlier choice is open, leaves
      every choice before the project's first occurrence closed. */
  lemma PlaceClosesEarlier(s: State, i: nat, k: nat)
    requires i < |s.students| && k < |s.students[i].choices|
    requires s.students[i].choices[k] in s.projects
    requires forall m :: 0 <= m < k ==> !OpenFor(s.projects, s.students[i].choices[m], Unfiltered)
    ensures var c := s.students[i].choices[k];
            EarlierChoicesClosed(Place(s, i, c, c).projects, Place(s, i, c, c).students[i])
  {
    var c := s.students[i].choices[k];
    var r := Place(s, i, c, c);
    var st := r.students[i];
    assert st.choices == s.students[i].choices && st.assignedProject == c;
    forall m | 0 <= m < |st.choices| && m < StudentRankForProject(st, c)
      ensures !OpenFor(r.projects, st.choices[m], Unfiltered)
    {
      assert st.choices[m] != c;
    }
  }

  /** What phase 1 keeps after the students before position i: progress,
      staff and supervisors untouched, the students from i on as they were,
      and for each student before i the promises of the inner loop. */
  predicate Phase1SoFar(s: State, r: State, i: int) {
    && Progress(s, r) && r.staff == s.staff && |r.students| == |s.students|
    && (forall j :: 0 <= j < |s.students| ==> r.students[j].assignedSupervisor == s.students[j].assignedSupervisor)
    && (forall j :: 0 <= i <= j < |s.students| ==> r.students[j] == s.students[j])
    && (forall j :: 0 <= j < i && j < |s.students| ==> PlacedByChoice(s, r, j))
    && (forall j :: 0 <= j < i && j < |s.students| && !s.students[j].HasProject() ==>
          EarlierChoicesClosed(r.projects, r.students[j]))
    && (WellFormed(s) ==>
          forall j :: 0 <= j < i && j < |r.students| && !r.students[j].HasProject() ==>
            NoChoiceOpen(r.projects, r.students[j].choices))
  }

  /** The inner loop for student i, with the outcome PlaceByPreference
      promises, keeps the invariants of phase 1. */
  lemma Phase1Step(s: State, r: State, next: State, i: nat)
    requires i < |s.students| && Phase1SoFar(s, r, i) && Progress(r, next)
    requires next.staff == r.staff
    requires forall j :: 0 <= j < |r.students| && j != i ==> next.students[j] == r.students[j]
    requires next.students[i].assignedSupervisor == r.students[i].assignedSupervisor
    requires PlacedByChoice(r, next, i)
    requires !r.students[i].HasProject() ==> EarlierChoicesClosed(next.projects, next.students[i])
    requires WellFormed(r) && !next.students[i].HasProject() ==> NoChoiceOpen(next.projects, next.students[i].choices)
    ensures Phase1SoFar(s, next, i + 1)
  {
    ProgressTransitive(s, r, next);
    forall j | 0 <= j < i + 1 ensures PlacedByChoice(s, next, j) {
      if j == i {
        assert PlacedByChoice(r, next, i) && r.students[i] == s.students[i];
      } else {
        assert PlacedByChoice(s, r, j) && next.students[j] == r.students[j];
      }
    }
    forall j | 0 <= j < i + 1 && !s.students[j].HasProject()
      ensures EarlierChoicesClosed(next.projects, next.students[j])
    {
      if j < i {
        EarlierChoicesStayClosed(r, next, r.students[j]);
      }
    }
    if WellFormed(s) {
      EvolvesKeepsWellFormed(s, r);
      forall j | 0 <= j < i && !next.students[j].HasProject()
        ensures NoChoiceOpen(next.projects, next.students[j].choices)
      {
        ProgressKeepsChoicesClosed(r, next, r.students[j].choices);
      }
    }
  }

  lemma Phase1Ends(s: State, r: State)
    requires Phase1SoFar(s, r, |s.students|)
    ensures Progress(s, r)
    ensures r.staff == s.staff
    ensures forall j :: 0 <= j < |s.students| ==>
              r.students[j].assignedSupervisor == s.students[j].assignedSupervisor
    ensures forall j :: 0 <= j < |s.students| ==> PlacedByChoice(s, r, j)
    ensures forall j :: 0 <= j < |s.students| && !s.students[j].HasProject() ==>
              EarlierChoicesClosed(r.projects, r.students[j])
    ensures WellFormed(s) ==>
              forall j :: 0 <= j < |r.students| && !r.students[j].HasProject() ==>
                NoChoiceOpen(r.projects, r.students[j].choices)
  {
  }

  /** Phase 1 (Allocator.cpp:98-106): students in input order take their first
      open choice. Nobody is supervised and no staff record changes; a newly
      placed student is on one of its choices, every choice it listed before
      that one is missing or full at the end, and on a well-formed state a
      student still unplaced afterwards has no choice with a free place. */
  method Phase1(s: State) returns (r: State)
    ensures Progress(s, r)
    ensures r.staff == s.staff
    ensures forall j :: 0 <= j < |s.students| ==>
              r.students[j].assignedSupervisor == s.students[j].assignedSupervisor
    ensures forall j :: 0 <= j < |s.students| ==> PlacedByChoice(s, r, j)
    ensures forall j :: 0 <= j < |s.students| && !s.students[j].HasProject() ==>
              EarlierChoicesClosed(r.projects, r.students[j])
    ensures WellFormed(s) ==>
              forall j :: 0 <= j < |r.students| && !r.students[j].HasProject() ==>
                NoChoiceOpen(r.projects, r.students[j].choices)
  {
    r := s;
    ProgressReflexive(s);
    var i := 0;
    while i < |s.students|
      invariant 0 <= i <= |s.students| && Phase1SoFar(s, r, i)
    {
      var next := PlaceByPreference(r, i);
      Phase1Step(s, r, next, i);
      r := next;
      i := i + 1;
    }
    Phase1Ends(s, r);
  }

  // ---------------------------------------------------------------------------
  // Phase 2

  /** Every supervisor recorded between a and b is sid, on a placed student
      whose project exists and passes sid's filter for the pass. */
  predicate SupervisedBy(a: State, b: State, sid: string, pass: Pass) {
    forall j :: 0 <= j < |a.students| && j < |b.students|
                && b.students[j].assignedSupervisor != a.students[j].assignedSupervisor ==>
      b.students[j].assignedSupervisor == sid && sid in b.staff
      && b.students[j].HasProject() && b.students[j].assignedProject in b.projects
      && Accepts(FilterFor(pass, b.staff[sid]), b.projects[b.students[j].assignedProject])
  }

  /** Student j is on an existing project and its supervisor, an existing staff
      member, ranks that project in category bound or better. */
  predicate WithinCategory(s: State, j: int, bound: int)
    requires 0 <= j < |s.students|
  {
    var st := s.students[j];
    st.HasProject() && st.assignedProject in s.projects && st.assignedSupervisor in s.staff
    && SupervisorCategoryForProject(s.staff[st.assignedSupervisor], s.projects[st.assignedProject]) <= bound
  }

  /** Every supervision recorded between a and b is within the bound. */
  predicate NewSupervisionWithin(a: State, b: State, bound: int) {
    forall j :: 0 <= j < |a.students| && j < |b.students|
                && b.students[j].assignedSupervisor != a.students[j].assignedSupervisor ==>
      WithinCategory(b, j, bound)
  }

  lemma SupervisedByTransitive(a: State, b: State, c: State, sid: string, pass: Pass)
    requires Evolves(a, b) && Evolves(b, c)
    requires SupervisedBy(a, b, sid, pass) && SupervisedBy(b, c, sid, pass)
    ensures SupervisedBy(a, c, sid, pass)
  {
    forall j | 0 <= j < |a.students| && j < |c.students|
               && c.students[j].assignedSupervisor != a.students[j].assignedSupervisor
      ensures c.students[j].assignedSupervisor == sid && sid in c.staff
              && c.students[j].HasProject() && c.students[j].assignedProject in c.projects
              && Accepts(FilterFor(pass, c.staff[sid]), c.projects[c.students[j].assignedProject])
    {
      if c.students[j].assignedSupervisor == b.students[j].assignedSupervisor {
        var pid := b.students[j].assignedProject;
        assert StudentGrows(b.students[j], c.students[j]);
        assert ProjectGrows(b.projects[pid], c.projects[pid]);
        assert StaffGrows(b.staff[sid], c.staff[sid]);
      }
    }
  }

  lemma WithinCategoryStays(b: State, c: State, j: int, bound: int)
    requires Evolves(b, c) && 0 <= j < |b.students|
    requires WithinCategory(b, j, bound)
    requires c.students[j].assignedSupervisor == b.students[j].assignedSupervisor
    ensures WithinCategory(c, j, bound)
  {
    var st := b.students[j];
    assert StudentGrows(st, c.students[j]);
    assert ProjectGrows(b.projects[st.assignedProject], c.projects[st.assignedProject]);
    assert StaffGrows(b.staff[st.assignedSupervisor], c.staff[st.assignedSupervisor]);
  }

  lemma NewSupervisionWithinTransitive(a: State, b: State, c: State, bound: int)
    requires Evolves(a, b) && Evolves(b, c)
    requires NewSupervisionWithin(a, b, bound) && NewSupervisionWithin(b, c, bound)
    ensures NewSupervisionWithin(a, c, bound)
  {
    forall j | 0 <= j < |a.students| && j < |c.students|
               && c.students[j].assignedSupervisor != a.students[j].assignedSupervisor
      ensures WithinCategory(c, j, bound)
    {
      if c.students[j].assignedSupervisor == b.students[j].assignedSupervisor {
        WithinCategoryStays(b, c, j, bound);
      }
    }
  }

  /** On a well-formed state, a sweep by sid in a pass supervises within the
      pass's category bound. */
  lemma SupervisedByWithin(a: State, b: State, sid: string, pass: Pass)
    requires WellFormed(b) && SupervisedBy(a, b, sid, pass)
    ensures NewSupervisionWithin(a, b, Bound(pass))
  {
    forall j | 0 <= j < |a.students| && j < |b.students|
               && b.students[j].assignedSupervisor != a.students[j].assignedSupervisor
      ensures WithinCategory(b, j, Bound(pass))
    {
      FilterWithinBound(pass, b.staff[sid], b.projects[b.students[j].assignedProject]);
    }
  }

  /** A supervision by sid of a student whose project passes sid's filter. */
  lemma SuperviseSupervisedBy(r: State, j: nat, sid: string, pass: Pass)
    requires WellFormed(r) && j < |r.students| && sid in r.staff
    requires r.students[j].HasProject() && r.students[j].assignedProject in r.projects
    requires Accepts(FilterFor(pass, r.staff[sid]), r.projects[r.students[j].assignedProject])
    ensures SupervisedBy(r, Supervise(r, j, sid), sid, pass)
  {
    var next := Supervise(r, j, sid);
    assert FilterFor(pass, next.staff[sid]) == FilterFor(pass, r.staff[sid]);
  }

  /** A placement on a project that passes sid's filter, with or without the
      supervision by sid that follows it. */
  lemma PlaceSupervisedBy(r: State, j: nat, key: int, sid: string, pass: Pass)
    requires WellFormed(r) && j < |r.students| && key in r.projects && sid in r.staff
    requires Accepts(FilterFor(pass, r.staff[sid]), r.projects[key])
    ensures SupervisedBy(r, Place(r, j, key, key), sid, pass)
    ensures SupervisedBy(r, Supervise(Place(r, j, key, key), j, sid), sid, pass)
  {
    var placed := Place(r, j, key, key);
    var next := Supervise(placed, j, sid);
    assert placed.students[j].HasProject();
    assert Accepts(FilterFor(pass, next.staff[sid]), next.projects[key]);
  }

  /** Student j is placed on an existing project that sid's filter for the
      pass accepts, and has no supervisor yet: whom the supervising sweep
      takes (Allocator.cpp:124-127, 170-175, 225-227). */
  predicate Eligible(s: State, j: int, sid: string, pass: Pass)
    requires 0 <= j < |s.students| && sid in s.staff
  {
    var st := s.students[j];
    st.HasProject() && !st.HasSupervisor() && st.assignedProject in s.projects
    && Accepts(FilterFor(pass, s.staff[sid]), s.projects[st.assignedProject])
  }

  /** Student j has neither a project nor a supervisor: whom the placing
      sweep takes (Allocator.cpp:141, 190, 240). */
  predicate Waiting(s: State, j: int)
    requires 0 <= j < |s.students|
  {
    !s.students[j].HasProject() && !s.students[j].HasSupervisor()
  }

  /** No listed project is open for the filter. */
  predicate NoneOpenFor(projects: map<int, Project>, ids: seq<int>, f: Filter) {
    forall k :: 0 <= k < |ids| ==> !OpenFor(projects, ids[k], f)
  }

  /** What a sweep by sid leaves behind while sid keeps spare load: nobody sid
      could supervise in this pass, and either nobody waiting for a placement
      or no listed project open for sid's filter. */
  predicate Settled(s: State, sid: string, ids: seq<int>, pass: Pass)
    requires sid in s.staff
  {
    (forall j :: 0 <= j < |s.students| ==> !Eligible(s, j, sid, pass))
    && ((forall j :: 0 <= j < |s.students| ==> !Waiting(s, j))
        || NoneOpenFor(s.projects, ids, FilterFor(pass, s.staff[sid])))
  }

  /** sid is at load, or settled for the pass. */
  predicate Done(s: State, sid: string, ids: seq<int>, pass: Pass) {
    sid in s.staff && (!s.staff[sid].CanSupervise() || Settled(s, sid, ids, pass))
  }

  /** Every student newly placed between a and b is also supervised. */
  predicate PlacedSupervised(a: State, b: State) {
    forall j :: 0 <= j < |a.students| && j < |b.students|
                && !a.students[j].HasProject() && b.students[j].HasProject() ==>
      b.students[j].HasSupervisor()
  }

  /** A project closed for a filter stays closed: only counters move, upwards. */
  lemma ClosedStays(a: State, b: State, pid: int, f: Filter)
    requires Evolves(a, b) && !OpenFor(a.projects, pid, f)
    ensures !OpenFor(b.projects, pid, f)
  {
    if pid in b.projects {
      assert ProjectGrows(a.projects[pid], b.projects[pid]);
    }
  }

  lemma NoneOpenForStays(a: State, b: State, ids: seq<int>, f: Filter)
    requires Evolves(a, b) && NoneOpenFor(a.projects, ids, f)
    ensures NoneOpenFor(b.projects, ids, f)
  {
    forall k | 0 <= k < |ids| ensures !OpenFor(b.projects, ids[k], f) {
      ClosedStays(a, b, ids[k], f);
    }
  }

  lemma PlacedSupervisedTransitive(a: State, b: State, c: State)
    requires Evolves(a, b) && Evolves(b, c)
    requires PlacedSupervised(a, b) && PlacedSupervised(b, c)
    ensures PlacedSupervised(a, c)
  {
    forall j | 0 <= j < |a.students| && j < |c.students|
               && !a.students[j].HasProject() && c.students[j].HasProject()
      ensures c.students[j].HasSupervisor()
    {
      assert StudentGrows(b.students[j], c.students[j]);
    }
  }

  /** A staff member done with a pass stays done as long as every later
      placement comes with a supervision: eligibility and waiting are never
      regained, and a closed project never reopens. */
  lemma DoneStays(a: State, b: State, sid: string, ids: seq<int>, pass: Pass)
    requires Evolves(a, b) && PlacedSupervised(a, b) && Done(a, sid, ids, pass)
    ensures Done(b, sid, ids, pass)
  {
    assert StaffGrows(a.staff[sid], b.staff[sid]);
    var f := FilterFor(pass, a.staff[sid]);
    assert FilterFor(pass, b.staff[sid]) == f;
    if b.staff[sid].CanSupervise() {
      forall j | 0 <= j < |b.students| ensures !Eligible(b, j, sid, pass) {
        assert StudentGrows(a.students[j], b.students[j]);
        assert !Eligible(a, j, sid, pass);
        var pid := b.students[j].assignedProject;
        if pid in a.projects {
          assert ProjectGrows(a.projects[pid], b.projects[pid]);
        }
      }
      if NoneOpenFor(a.projects, ids, f) {
        NoneOpenForStays(a, b, ids, f);
      } else {
        forall j | 0 <= j < |b.students| ensures !Waiting(b, j) {
          assert StudentGrows(a.students[j], b.students[j]);
          assert !Waiting(a, j);
        }
      }
    }
  }

  /** Every staff member listed before position n is done with the pass. */
  predicate AllDone(s: State, staffIds: seq<string>, n: int, ids: seq<int>, pass: Pass) {
    forall m :: 0 <= m < n && m < |staffIds| ==> Done(s, staffIds[m], ids, pass)
  }

  /** Every staff member listed before position n stays done across a step
      that leaves the one at n done. */
  lemma AllDoneStep(r: State, next: State, staffIds: seq<string>, n: nat, ids: seq<int>, pass: Pass)
    requires n < |staffIds| && Evolves(r, next) && PlacedSupervised(r, next)
    requires AllDone(r, staffIds, n, ids, pass)
    requires Done(next, staffIds[n], ids, pass)
    ensures AllDone(next, staffIds, n + 1, ids, pass)
  {
    forall m | 0 <= m < n ensures Done(next, staffIds[m], ids, pass) {
      DoneStays(r, next, staffIds[m], ids, pass);
    }
  }

  /** Nobody before position j is eligible for sid in the pass. */
  predicate NoneEligibleBefore(s: State, j: int, sid: string, pass: Pass) {
    sid in s.staff && forall i :: 0 <= i < j && i < |s.students| ==> !Eligible(s, i, sid, pass)
  }

  /** Supervising student j leaves nobody up to j eligible. */
  lemma SuperviseSettles(r: State, j: nat, sid: string, pass: Pass)
    requires WellFormed(r) && j < |r.students| && sid in r.staff
    requires NoneEligibleBefore(r, j, sid, pass)
    ensures NoneEligibleBefore(Supervise(r, j, sid), j + 1, sid, pass)
  {
    var next := Supervise(r, j, sid);
    assert next.projects == r.projects;
    assert FilterFor(pass, next.staff[sid]) == FilterFor(pass, r.staff[sid]);
    forall i | 0 <= i < j ensures !Eligible(next, i, sid, pass) {
      assert next.students[i] == r.students[i];
      assert !Eligible(r, i, sid, pass);
    }
  }

  /** No student's project and no project's counter differs between a and b. */
  predicate SamePlacements(a: State, b: State) {
    b.projects == a.projects && |b.students| == |a.students|
    && forall i :: 0 <= i < |a.students| ==> b.students[i].assignedProject == a.students[i].assignedProject
  }

  /** What the supervising sweep keeps up to position j: progress, placements
      as they were, did telling whether sid took anyone and, on a well-formed
      start, every supervision by sid within its filter and nobody before j
      left eligible. */
  predicate SupervisingSoFar(s: State, r: State, j: int, sid: string, pass: Pass, did: bool) {
    sid in s.staff && sid in r.staff && Progress(s, r) && SamePlacements(s, r)
    && (did <==> r.staff[sid].assignedCount > s.staff[sid].assignedCount)
    && (WellFormed(s) ==> SupervisedBy(s, r, sid, pass) && NoneEligibleBefore(r, j, sid, pass))
  }

  /** Supervising the eligible student j keeps the sweep's invariants. */
  lemma SuperviseStep(s: State, r: State, j: nat, sid: string, pass: Pass, did: bool)
    requires j < |r.students| && SupervisingSoFar(s, r, j, sid, pass, did)
    requires Eligible(r, j, sid, pass) && r.staff[sid].CanSupervise()
    ensures SupervisingSoFar(s, Supervise(r, j, sid), j + 1, sid, pass, true)
  {
    var next := Supervise(r, j, sid);
    SuperviseProgress(r, j, sid);
    ProgressTransitive(s, r, next);
    assert StaffGrows(s.staff[sid], r.staff[sid]);
    if WellFormed(s) {
      EvolvesKeepsWellFormed(s, r);
      SuperviseSupervisedBy(r, j, sid, pass);
      SupervisedByTransitive(s, r, next, sid, pass);
      SuperviseSettles(r, j, sid, pass);
    }
  }

  /** Passing over a student who is not eligible keeps the sweep's invariants. */
  lemma SkipStep(s: State, r: State, j: nat, sid: string, pass: Pass, did: bool)
    requires j < |r.students| && SupervisingSoFar(s, r, j, sid, pass, did)
    requires !Eligible(r, j, sid, pass)
    ensures SupervisingSoFar(s, r, j + 1, sid, pass, did)
  {
  }

  /** A supervising sweep that got through every student, or stopped at
      load, leaves nobody eligible unless sid is at load. */
  lemma SupervisingEnds(s: State, r: State, j: int, sid: string, pass: Pass, did: bool)
    requires SupervisingSoFar(s, r, j, sid, pass, did)
    requires j == |r.students| || !r.staff[sid].CanSupervise()
    ensures Progress(s, r) && SamePlacements(s, r)
    ensures did <==> r.staff[sid].assignedCount > s.staff[sid].assignedCount
    ensures WellFormed(s) ==> SupervisedBy(s, r, sid, pass)
    ensures WellFormed(s) ==>
              !r.staff[sid].CanSupervise() || forall j :: 0 <= j < |r.students| ==> !Eligible(r, j, sid, pass)
  {
  }

  /** The supervising sweep (Allocator.cpp:120-135, 166-184, 223-234): while sid
      has spare load, every eligible student in turn is supervised by sid.
      Placements do not change. On a well-formed state sid ends at load or
      with nobody eligible left. The flag reports whether sid took anyone. */
  method SupervisePlaced(s: State, sid: string, pass: Pass) returns (r: State, did: bool)
    requires sid in s.staff
    ensures Progress(s, r)
    ensures did <==> r.staff[sid].assignedCount > s.staff[sid].assignedCount
    ensures WellFormed(s) ==> SupervisedBy(s, r, sid, pass)
    ensures SamePlacements(s, r)
    ensures WellFormed(s) ==>
              !r.staff[sid].CanSupervise() || forall j :: 0 <= j < |r.students| ==> !Eligible(r, j, sid, pass)
  {
    r := s;
    did := false;
    ProgressReflexive(s);
    var j := 0;
    while j < |s.students|
      invariant 0 <= j <= |s.students| && SupervisingSoFar(s, r, j, sid, pass, did)
    {
      if !r.staff[sid].CanSupervise() {
        break;
      }
      if Eligible(r, j, sid, pass) {
        SuperviseStep(s, r, j, sid, pass, did);
        var next, ok := TryAssignSupervisorToStudent(r, j, sid);
        assert next == Supervise(r, j, sid);
        r, did := next, true;
      } else {
        SkipStep(s, r, j, sid, pass, did);
      }
      j := j + 1;
    }
    SupervisingEnds(s, r, j, sid, pass, did);
  }

  /** The outcome of the placing step for student j: a waiting student goes
      onto the first listed project open for sid's filter, and took says
      whether sid then supervises it, which it does exactly when sid has
      spare load and the project's own id names an existing project. Anyone
      else, or a waiting student with no open project, leaves the state as it
      was. */
  predicate PlaceOneOutcome(s: State, r: State, j: nat, sid: string, ids: seq<int>, pass: Pass, took: bool)
    requires j < |s.students| && sid in s.staff
    requires forall k :: 0 <= k < |ids| ==> ids[k] in s.projects
  {
    && (!Waiting(s, j) ==> r == s && !took)
    && (Waiting(s, j) ==>
          var k := FirstOpen(s.projects, ids, FilterFor(pass, s.staff[sid]), 0);
          && (k == |ids| ==> r == s && !took)
          && (k < |ids| ==>
                var placed := Place(s, j, ids[k], s.projects[ids[k]].id);
                && (took <==> s.staff[sid].CanSupervise() && s.projects[ids[k]].id != NoProject
                              && s.projects[ids[k]].id in s.projects)
                && r == if took then Supervise(placed, j, sid) else placed))
  }

  /** After placing student j on an open project, the supervisor step
      accepts exactly when sid has spare load and the recorded project id
      names an existing project; on a well-formed state the placement, with
      or without the supervision, is one the sweep by sid may make. */
  lemma PlaceThenSupervisable(s: State, j: nat, key: int, sid: string, pass: Pass)
    requires j < |s.students| && key in s.projects && sid in s.staff && !s.students[j].HasSupervisor()
    requires OpenFor(s.projects, key, FilterFor(pass, s.staff[sid]))
    ensures var value := s.projects[key].id;
            var placed := Place(s, j, key, value);
            (placed.staff[sid].CanSupervise() && placed.students[j].HasProject()
             && !placed.students[j].HasSupervisor() && placed.students[j].assignedProject in placed.projects)
            <==> (s.staff[sid].CanSupervise() && value != NoProject && value in s.projects)
    ensures WellFormed(s) ==>
              var placed := Place(s, j, key, s.projects[key].id);
              SupervisedBy(s, placed, sid, pass) && SupervisedBy(s, Supervise(placed, j, sid), sid, pass)
  {
    if WellFormed(s) {
      assert s.projects[key].id == key;
      PlaceSupervisedBy(s, j, key, sid, pass);
    }
  }

  /** The placing step for one student (Allocator.cpp:142-155, 191-208,
      241-251): a waiting student goes onto the first listed project open for
      sid's filter (through EnsureStudentHasAnyProject in the last pass), and
      sid then supervises it when TryAssignSupervisorToStudent allows. Anyone
      else is left alone. The flag reports whether sid took the student. */
  method PlaceOne(s: State, j: nat, sid: string, ids: seq<int>, pass: Pass) returns (r: State, took: bool)
    requires j < |s.students| && sid in s.staff
    requires forall k :: 0 <= k < |ids| ==> ids[k] in s.projects
    ensures Progress(s, r)
    ensures took <==> r.staff[sid].assignedCount > s.staff[sid].assignedCount
    ensures WellFormed(s) ==> SupervisedBy(s, r, sid, pass)
    ensures PlaceOneOutcome(s, r, j, sid, ids, pass, took)
  {
    ProgressReflexive(s);
    if s.students[j].HasSupervisor() || s.students[j].HasProject() {
      return s, false;
    }
    var f := FilterFor(pass, s.staff[sid]);
    var k := FirstOpen(s.projects, ids, f, 0);
    var placed, placedOk;
    if pass == AnyProject {
      placed, placedOk := EnsureStudentHasAnyProject(s, j, ids);
    } else {
      placed, placedOk := PlaceOnFirstOpen(s, j, ids, f);
    }
    if !placedOk {
      return s, false;
    }
    var key := ids[k];
    assert placed == Place(s, j, key, s.projects[key].id);
    PlaceThenSupervisable(s, j, key, sid, pass);
    r, took := TryAssignSupervisorToStudent(placed, j, sid);
    ProgressTransitive(s, placed, r);
  }

  /** On a well-formed state with sid below load, the placing step supervises
      whomever it places, makes nobody eligible, and leaves student j waiting
      only when no listed project is open for sid's filter. */
  lemma PlaceOneSettles(s: State, r: State, j: nat, sid: string, ids: seq<int>, pass: Pass, took: bool)
    requires WellFormed(s) && j < |s.students| && sid in s.staff && s.staff[sid].CanSupervise()
    requires forall k :: 0 <= k < |ids| ==> ids[k] in s.projects
    requires PlaceOneOutcome(s, r, j, sid, ids, pass, took)
    ensures |r.students| == |s.students| && sid in r.staff
    ensures PlacedSupervised(s, r)
    ensures !Waiting(r, j) || NoneOpenFor(r.projects, ids, FilterFor(pass, r.staff[sid]))
    ensures forall i :: 0 <= i < |r.students| && Eligible(r, i, sid, pass) ==> Eligible(s, i, sid, pass)
  {
    if Waiting(s, j) {
      var f := FilterFor(pass, s.staff[sid]);
      var k := FirstOpen(s.projects, ids, f, 0);
      if k < |ids| {
        var key := ids[k];
        assert s.projects[key].id == key;
        var placed := Place(s, j, key, key);
        assert r == Supervise(placed, j, sid);
        assert FilterFor(pass, r.staff[sid]) == f;
        forall i | 0 <= i < |r.students| && Eligible(r, i, sid, pass) ensures Eligible(s, i, sid, pass) {
          assert i != j;
          assert r.students[i] == s.students[i];
        }
      }
    }
  }

  /** One placing step keeps the placing sweep's invariants. */
  lemma PlaceSweepStep(s: State, r: State, next: State, j: nat, sid: string, ids: seq<int>, pass: Pass)
    requires Evolves(s, r) && Evolves(r, next) && j < |r.students| && sid in r.staff
    requires PlacedSupervised(s, r) && PlacedSupervised(r, next)
    requires forall i :: 0 <= i < |next.students| && Eligible(next, i, sid, pass) ==> Eligible(r, i, sid, pass)
    requires forall i :: 0 <= i < |r.students| && Eligible(r, i, sid, pass) ==> Eligible(s, i, sid, pass)
    requires !Waiting(next, j) || NoneOpenFor(next.projects, ids, FilterFor(pass, next.staff[sid]))
    requires (forall i :: 0 <= i < j ==> !Waiting(r, i)) || NoneOpenFor(r.projects, ids, FilterFor(pass, r.staff[sid]))
    ensures PlacedSupervised(s, next)
    ensures forall i :: 0 <= i < |next.students| && Eligible(next, i, sid, pass) ==> Eligible(s, i, sid, pass)
    ensures (forall i :: 0 <= i < j + 1 ==> !Waiting(next, i))
            || NoneOpenFor(next.projects, ids, FilterFor(pass, next.staff[sid]))
  {
    PlacedSupervisedTransitive(s, r, next);
    assert StaffGrows(r.staff[sid], next.staff[sid]);
    var f := FilterFor(pass, r.staff[sid]);
    assert FilterFor(pass, next.staff[sid]) == f;
    if NoneOpenFor(r.projects, ids, f) {
      NoneOpenForStays(r, next, ids, f);
    } else if Waiting(next, j) {
    } else {
      forall i | 0 <= i < j + 1 ensures !Waiting(next, i) {
        if i < j {
          assert !Waiting(r, i);
          assert StudentGrows(r.students[i], next.students[i]);
        }
      }
    }
  }

  /** What the placing sweep keeps up to position j: progress, the listed
      projects still known, did telling whether sid took anyone and, on a
      well-formed start, every supervision by sid within its filter, everyone
      newly placed supervised, nobody newly eligible, and nobody before j
      waiting unless no listed project is open for sid's filter. */
  predicate PlacingSoFar(s: State, r: State, j: int, sid: string, ids: seq<int>, pass: Pass, did: bool) {
    sid in s.staff && sid in r.staff && Progress(s, r)
    && (forall k :: 0 <= k < |ids| ==> ids[k] in r.projects)
    && (did <==> r.staff[sid].assignedCount > s.staff[sid].assignedCount)
    && (WellFormed(s) ==>
          && SupervisedBy(s, r, sid, pass) && PlacedSupervised(s, r)
          && (forall i :: 0 <= i < |r.students| && Eligible(r, i, sid, pass) ==> Eligible(s, i, sid, pass))
          && ((forall i :: 0 <= i < j && i < |r.students| ==> !Waiting(r, i))
              || NoneOpenFor(r.projects, ids, FilterFor(pass, r.staff[sid]))))
  }

  /** One placing step keeps the placing sweep's invariants. */
  lemma PlaceStep(s: State, r: State, next: State, j: nat, sid: string, ids: seq<int>, pass: Pass, did: bool, took: bool)
    requires j < |r.students| && PlacingSoFar(s, r, j, sid, ids, pass, did) && r.staff[sid].CanSupervise()
    requires Progress(r, next) && (took <==> next.staff[sid].assignedCount > r.staff[sid].assignedCount)
    requires WellFormed(r) ==> SupervisedBy(r, next, sid, pass)
    requires PlaceOneOutcome(r, next, j, sid, ids, pass, took)
    ensures PlacingSoFar(s, next, j + 1, sid, ids, pass, did || took)
  {
    ProgressTransitive(s, r, next);
    assert StaffGrows(s.staff[sid], r.staff[sid]);
    if WellFormed(s) {
      EvolvesKeepsWellFormed(s, r);
      SupervisedByTransitive(s, r, next, sid, pass);
      PlaceOneSettles(r, next, j, sid, ids, pass, took);
      PlaceSweepStep(s, r, next, j, sid, ids, pass);
    }
  }

  /** A placing sweep that got through every student, or stopped at load,
      leaves nobody waiting unless sid is at load or no listed project is open
      for sid's filter. */
  lemma PlacingEnds(s: State, r: State, j: int, sid: string, ids: seq<int>, pass: Pass, did: bool)
    requires PlacingSoFar(s, r, j, sid, ids, pass, did)
    requires j == |r.students| || !r.staff[sid].CanSupervise()
    ensures Progress(s, r)
    ensures did <==> r.staff[sid].assignedCount > s.staff[sid].assignedCount
    ensures WellFormed(s) ==> SupervisedBy(s, r, sid, pass)
    ensures WellFormed(s) ==> PlacedSupervised(s, r)
    ensures WellFormed(s) ==>
              forall j :: 0 <= j < |r.students| && Eligible(r, j, sid, pass) ==> Eligible(s, j, sid, pass)
    ensures WellFormed(s) ==>
              || !r.staff[sid].CanSupervise()
              || (forall j :: 0 <= j < |r.students| ==> !Waiting(r, j))
              || NoneOpenFor(r.projects, ids, FilterFor(pass, r.staff[sid]))
  {
  }

  /** The placing sweep (Allocator.cpp:137-156, 186-209, 236-252): while sid
      has spare load, each student in turn goes through the placing step. On
      a well-formed state every student it places is supervised, nobody
      becomes eligible, and sid ends at load, or with nobody waiting, or with
      no listed project open for its filter. The flag reports whether sid
      took anyone. */
  method PlaceAndSupervise(s: State, sid: string, ids: seq<int>, pass: Pass) returns (r: State, did: bool)
    requires sid in s.staff
    requires forall k :: 0 <= k < |ids| ==> ids[k] in s.projects
    ensures Progress(s, r)
    ensures did <==> r.staff[sid].assignedCount > s.staff[sid].assignedCount
    ensures WellFormed(s) ==> SupervisedBy(s, r, sid, pass)
    ensures WellFormed(s) ==> PlacedSupervised(s, r)
    ensures WellFormed(s) ==>
              forall j :: 0 <= j < |r.students| && Eligible(r, j, sid, pass) ==> Eligible(s, j, sid, pass)
    ensures WellFormed(s) ==>
              || !r.staff[sid].CanSupervise()
              || (forall j :: 0 <= j < |r.students| ==> !Waiting(r, j))
              || NoneOpenFor(r.projects, ids, FilterFor(pass, r.staff[sid]))
  {
    r := s;
    did := false;
    ProgressReflexive(s);
    var j := 0;
    while j < |s.students|
      invariant 0 <= j <= |s.students| && PlacingSoFar(s, r, j, sid, ids, pass, did)
    {
      if !r.staff[sid].CanSupervise() {
        break;
      }
      var next, took := PlaceOne(r, j, sid, ids, pass);
      PlaceStep(s, r, next, j, sid, ids, pass, did, took);
      r, did := next, did || took;
      j := j + 1;
    }
    PlacingEnds(s, r, j, sid, ids, pass, did);
  }

  /** The supervising sweep followed by the placing sweep leaves sid done. */
  lemma SweepDone(mid: State, r: State, sid: string, ids: seq<int>, pass: Pass)
    requires Evolves(mid, r) && sid in mid.staff
    requires !mid.staff[sid].CanSupervise() || forall j :: 0 <= j < |mid.students| ==> !Eligible(mid, j, sid, pass)
    requires forall j :: 0 <= j < |r.students| && Eligible(r, j, sid, pass) ==> Eligible(mid, j, sid, pass)
    requires || !r.staff[sid].CanSupervise()
             || (forall j :: 0 <= j < |r.students| ==> !Waiting(r, j))
             || NoneOpenFor(r.projects, ids, FilterFor(pass, r.staff[sid]))
    ensures Done(r, sid, ids, pass)
  {
    if r.staff[sid].CanSupervise() {
      assert StaffGrows(mid.staff[sid], r.staff[sid]);
      forall j | 0 <= j < |r.students| ensures !Eligible(r, j, sid, pass) {
        assert !Eligible(mid, j, sid, pass);
      }
    }
  }

  /** The two sweeps together supervise within sid's filter and supervise
      everyone they place. */
  lemma SweepJoin(s: State, mid: State, r: State, sid: string, pass: Pass)
    requires Evolves(s, mid) && Evolves(mid, r)
    requires SupervisedBy(s, mid, sid, pass) && SupervisedBy(mid, r, sid, pass)
    requires SamePlacements(s, mid)
    requires PlacedSupervised(mid, r)
    ensures SupervisedBy(s, r, sid, pass) && PlacedSupervised(s, r)
  {
    SupervisedByTransitive(s, mid, r, sid, pass);
    assert PlacedSupervised(s, mid);
    PlacedSupervisedTransitive(s, mid, r);
  }

  /** One sweep of a pass for sid: the supervising sweep, then the placing
      one. On a well-formed state it supervises everyone it places and leaves
      sid done with the pass. */
  method Sweep(s: State, sid: string, ids: seq<int>, pass: Pass) returns (r: State, did: bool)
    requires sid in s.staff
    requires forall k :: 0 <= k < |ids| ==> ids[k] in s.projects
    ensures Progress(s, r)
    ensures did <==> r.staff[sid].assignedCount > s.staff[sid].assignedCount
    ensures WellFormed(s) ==> SupervisedBy(s, r, sid, pass)
    ensures WellFormed(s) ==> PlacedSupervised(s, r)
    ensures WellFormed(s) ==> Done(r, sid, ids, pass)
  {
    var mid, didA := SupervisePlaced(s, sid, pass);
    var didB;
    r, didB := PlaceAndSupervise(mid, sid, ids, pass);
    did := didA || didB;
    ProgressTransitive(s, mid, r);
    if WellFormed(s) {
      EvolvesKeepsWellFormed(s, mid);
      SweepJoin(s, mid, r, sid, pass);
      SweepDone(mid, r, sid, ids, pass);
    }
  }

  /** What a pass has achieved after the staff members before position n:
      every new supervision within the pass's bound, everyone newly placed
      supervised, and those staff members done with the pass. */
  predicate PassSoFar(s: State, r: State, staffIds: seq<string>, n: int, ids: seq<int>, pass: Pass) {
    NewSupervisionWithin(s, r, Bound(pass)) && PlacedSupervised(s, r) && AllDone(r, staffIds, n, ids, pass)
  }

  /** One staff member's sweeps keep what the pass has achieved. */
  lemma PassStep(s: State, r: State, next: State, staffIds: seq<string>, n: nat, ids: seq<int>, pass: Pass)
    requires WellFormed(s) && Progress(s, r) && Progress(r, next)
    requires n < |staffIds| && staffIds[n] in r.staff
    requires PassSoFar(s, r, staffIds, n, ids, pass)
    requires SupervisedBy(r, next, staffIds[n], pass)
    requires PlacedSupervised(r, next) && Done(next, staffIds[n], ids, pass)
    ensures PassSoFar(s, next, staffIds, n + 1, ids, pass)
  {
    EvolvesKeepsWellFormed(s, r);
    EvolvesKeepsWellFormed(r, next);
    SupervisedByWithin(r, next, staffIds[n], pass);
    NewSupervisionWithinTransitive(s, r, next, Bound(pass));
    PlacedSupervisedTransitive(s, r, next);
    AllDoneStep(r, next, staffIds, n, ids, pass);
  }

  /** Pass 2.1 (Allocator.cpp:113-157): each staff member with spare load, in
      ascending id order, does one sweep over their own projects. On a
      well-formed state every supervision it records is by the project's
      proposer, every student it places is supervised, and every listed staff
      member ends done with the pass. */
  method Phase2Own(s: State, staffIds: seq<string>, projectIds: seq<int>) returns (r: State)
    requires forall k :: 0 <= k < |staffIds| ==> staffIds[k] in s.staff
    requires forall k :: 0 <= k < |projectIds| ==> projectIds[k] in s.projects
    ensures Progress(s, r)
    ensures WellFormed(s) ==> NewSupervisionWithin(s, r, 0)
    ensures WellFormed(s) ==> PlacedSupervised(s, r)
    ensures WellFormed(s) ==> forall n :: 0 <= n < |staffIds| ==> Done(r, staffIds[n], projectIds, OwnProjects)
  {
    r := s;
    ProgressReflexive(s);
    var n := 0;
    while n < |staffIds|
      invariant 0 <= n <= |staffIds|
      invariant Progress(s, r)
      invariant forall k :: 0 <= k < |staffIds| ==> staffIds[k] in r.staff
      invariant forall k :: 0 <= k < |projectIds| ==> projectIds[k] in r.projects
      invariant WellFormed(s) ==> PassSoFar(s, r, staffIds, n, projectIds, OwnProjects)
    {
      var sid := staffIds[n];
      var next, swept := r, false;
      if r.staff[sid].CanSupervise() {
        next, swept := Sweep(r, sid, projectIds, OwnProjects);
      } else {
        ProgressReflexive(r);
      }
      ProgressTransitive(s, r, next);
      if WellFormed(s) {
        EvolvesKeepsWellFormed(s, r);
        PassStep(s, r, next, staffIds, n, projectIds, OwnProjects);
      }
      r := next;
      n := n + 1;
    }
  }

  /** The repeat loop of passes 2.2 and 2.3 for one staff member
      (Allocator.cpp:163-213, 220-256): sweeps repeat while sid has spare load
      and the last sweep took someone. Each repeat raises sid's counter, which
      never passes the load, so the loop ends; on a well-formed state it ends
      with sid done with the pass and everyone it placed supervised. */
  method RepeatSweeps(s: State, sid: string, ids: seq<int>, pass: Pass) returns (r: State)
    requires sid in s.staff
    requires forall k :: 0 <= k < |ids| ==> ids[k] in s.projects
    ensures Progress(s, r)
    ensures WellFormed(s) ==> SupervisedBy(s, r, sid, pass)
    ensures WellFormed(s) ==> PlacedSupervised(s, r)
    ensures WellFormed(s) ==> Done(r, sid, ids, pass)
  {
    r := s;
    ProgressReflexive(s);
    ghost var swept := false;
    while r.staff[sid].CanSupervise()
      invariant Progress(s, r) && sid in r.staff
      invariant forall k :: 0 <= k < |ids| ==> ids[k] in r.projects
      invariant WellFormed(s) ==> SupervisedBy(s, r, sid, pass)
      invariant WellFormed(s) ==> PlacedSupervised(s, r)
      invariant swept && WellFormed(s) ==> Done(r, sid, ids, pass)
      decreases r.staff[sid].load - r.staff[sid].assignedCount
    {
      var next, did := Sweep(r, sid, ids, pass);
      assert StaffGrows(r.staff[sid], next.staff[sid]);
      ProgressTransitive(s, r, next);
      if WellFormed(s) {
        EvolvesKeepsWellFormed(s, r);
        SupervisedByTransitive(s, r, next, sid, pass);
        PlacedSupervisedTransitive(s, r, next);
      }
      r, swept := next, true;
      if !did {
        break;
      }
    }
  }

  /** Passes 2.2 and 2.3 (Allocator.cpp:159-214, 216-257): each staff member in
      ascending id order repeats sweeps of the pass. On a well-formed state
      every supervision recorded is within the pass's category bound, every
      student placed is supervised, and every listed staff member ends done
      with the pass. */
  method Phase2Repeated(s: State, staffIds: seq<string>, projectIds: seq<int>, pass: Pass) returns (r: State)
    requires forall k :: 0 <= k < |staffIds| ==> staffIds[k] in s.staff
    requires forall k :: 0 <= k < |projectIds| ==> projectIds[k] in s.projects
    ensures Progress(s, r)
    ensures WellFormed(s) ==> NewSupervisionWithin(s, r, Bound(pass))
    ensures WellFormed(s) ==> PlacedSupervised(s, r)
    ensures WellFormed(s) ==> forall n :: 0 <= n < |staffIds| ==> Done(r, staffIds[n], projectIds, pass)
  {
    r := s;
    ProgressReflexive(s);
    var n := 0;
    while n < |staffIds|
      invariant 0 <= n <= |staffIds|
      invariant Progress(s, r)
      invariant forall k :: 0 <= k < |staffIds| ==> staffIds[k] in r.staff
      invariant forall k :: 0 <= k < |projectIds| ==> projectIds[k] in r.projects
      invariant WellFormed(s) ==> PassSoFar(s, r, staffIds, n, projectIds, pass)
    {
      var next := RepeatSweeps(r, staffIds[n], projectIds, pass);
      ProgressTransitive(s, r, next);
      if WellFormed(s) {
        EvolvesKeepsWellFormed(s, r);
        PassStep(s, r, next, staffIds, n, projectIds, pass);
      }
      r := next;
      n := n + 1;
    }
  }

  // ---------------------------------------------------------------------------
  // The safety net

  /** Offering student i a project leaves the students before it as they
      were, so unless every project is full all of them are placed. */
  lemma ProjectNetStep(r: State, next: State, i: nat)
    requires i < |r.students| && Progress(r, next)
    requires forall j :: 0 <= j < |r.students| && j != i ==> next.students[j] == r.students[j]
    requires !NoneOpen(r) ==> forall j :: 0 <= j < i ==> r.students[j].HasProject()
    requires next.students[i].HasProject() || NoneOpen(r)
    ensures !NoneOpen(next) ==> forall j :: 0 <= j < i + 1 ==> next.students[j].HasProject()
  {
    if NoneOpen(r) {
      ProgressKeepsNoneOpen(r, next);
    } else {
      forall j | 0 <= j < i ensures next.students[j].HasProject() {
        assert next.students[j] == r.students[j];
      }
    }
  }

  /** The project half of the safety net (Allocator.cpp:262-264): every
      student is offered the first project with a free place. On a well-formed
      state with ids listing every project, afterwards everyone is placed or
      every project is full. */
  method SafetyNetProjects(s: State, ids: seq<int>) returns (r: State)
    requires forall k :: 0 <= k < |ids| ==> ids[k] in s.projects
    ensures Progress(s, r)
    ensures WellFormed(s) && (forall pid :: pid in s.projects ==> pid in ids) ==> AllPlaced(r) || NoneOpen(r)
  {
    r := s;
    ProgressReflexive(s);
    var covers := WellFormed(s) && (forall pid :: pid in s.projects ==> pid in ids);
    var i := 0;
    while i < |s.students|
      invariant 0 <= i <= |s.students|
      invariant Progress(s, r)
      invariant forall k :: 0 <= k < |ids| ==> ids[k] in r.projects
      invariant covers && !NoneOpen(r) ==> forall j :: 0 <= j < i ==> r.students[j].HasProject()
    {
      var next, placed := EnsureStudentHasAnyProject(r, i, ids);
      ProgressTransitive(s, r, next);
      if covers {
        EvolvesKeepsWellFormed(s, r);
        ProjectNetStep(r, next, i);
      }
      r := next;
      i := i + 1;
    }
  }

  /** Student j is on an existing project and still has no supervisor. */
  predicate AwaitsSupervisor(s: State, j: int)
    requires 0 <= j < |s.students|
  {
    s.students[j].HasProject() && s.students[j].assignedProject in s.projects && !s.students[j].HasSupervisor()
  }

  /** The inner loop of the supervisor half of the safety net
      (Allocator.cpp:270-274): staff in the given order are asked to supervise
      student i until one accepts. When none accepts nothing changes, and
      either the student was not waiting or every listed staff member was at
      load. */
  method OfferToStaff(s: State, i: nat, staffIds: seq<string>) returns (r: State, ok: bool)
    requires i < |s.students|
    requires forall k :: 0 <= k < |staffIds| ==> staffIds[k] in s.staff
    ensures Progress(s, r)
    ensures ok ==> exists k :: 0 <= k < |staffIds| && r == Supervise(s, i, staffIds[k])
                                && s.staff[staffIds[k]].CanSupervise()
                                && forall m :: 0 <= m < k ==> !s.staff[staffIds[m]].CanSupervise()
    ensures ok ==> AwaitsSupervisor(s, i)
    ensures !ok ==> r == s
    ensures !ok && AwaitsSupervisor(s, i) ==>
              forall k :: 0 <= k < |staffIds| ==> !s.staff[staffIds[k]].CanSupervise()
    ensures forall j :: 0 <= j < |s.students| && j != i ==> r.students[j] == s.students[j]
    ensures WellFormed(s) && ok ==> r.students[i].HasSupervisor()
    ensures WellFormed(s) && (forall sid :: sid in s.staff ==> sid in staffIds) ==>
              !AwaitsSupervisor(r, i) || NoneFree(s)
  {
    ProgressReflexive(s);
    var n := 0;
    while n < |staffIds|
      invariant 0 <= n <= |staffIds|
      invariant AwaitsSupervisor(s, i) ==> forall k :: 0 <= k < n ==> !s.staff[staffIds[k]].CanSupervise()
    {
      var next, accepted := TryAssignSupervisorToStudent(s, i, staffIds[n]);
      if accepted {
        if WellFormed(s) {
          assert next.students[i].assignedSupervisor == staffIds[n];
        }
        assert forall m :: 0 <= m < n ==> !s.staff[staffIds[m]].CanSupervise();
        return next, true;
      }
      n := n + 1;
    }
    if WellFormed(s) && (forall sid :: sid in s.staff ==> sid in staffIds) && AwaitsSupervisor(s, i) {
      forall sid | sid in s.staff ensures !s.staff[sid].CanSupervise() {
        var m :| 0 <= m < |staffIds| && staffIds[m] == sid;
      }
    }
    return s, false;
  }

  /** Offering student i leaves the students before it as they were, so
      unless every staff member is at load none of them is waiting. */
  lemma SupervisorNetStep(r: State, next: State, i: nat)
    requires i < |r.students| && Progress(r, next)
    requires forall j :: 0 <= j < |r.students| && j != i ==> next.students[j] == r.students[j]
    requires !NoneFree(r) ==> forall j :: 0 <= j < i ==> !AwaitsSupervisor(r, j)
    requires !AwaitsSupervisor(next, i) || NoneFree(r)
    ensures !NoneFree(next) ==> forall j :: 0 <= j < i + 1 ==> !AwaitsSupervisor(next, j)
  {
    if NoneFree(r) {
      ProgressKeepsNoneFree(r, next);
    } else {
      forall j | 0 <= j < i ensures !AwaitsSupervisor(next, j) {
        assert next.students[j] == r.students[j] && !AwaitsSupervisor(r, j);
      }
    }
  }

  /** What the supervisor half of the safety net keeps up to student i:
      progress, the listed staff still known and, on a well-formed start with
      every staff member listed, nobody before i waiting for a supervisor
      unless every staff member is at load. */
  predicate SupervisorNetSoFar(s: State, r: State, i: int, staffIds: seq<string>) {
    Progress(s, r) && (forall k :: 0 <= k < |staffIds| ==> staffIds[k] in r.staff)
    && (WellFormed(s) && (forall sid :: sid in s.staff ==> sid in staffIds) && !NoneFree(r) ==>
          forall j :: 0 <= j < i && j < |r.students| ==> !AwaitsSupervisor(r, j))
  }

  /** Offering student i to the staff, with the outcome OfferToStaff
      promises, keeps the invariants of the supervisor half. */
  lemma SupervisorNetAdvance(s: State, r: State, next: State, i: nat, staffIds: seq<string>, ok: bool)
    requires i < |r.students| && SupervisorNetSoFar(s, r, i, staffIds) && Progress(r, next)
    requires forall j :: 0 <= j < |r.students| && j != i ==> next.students[j] == r.students[j]
    requires !ok ==> next == r
    requires !ok && AwaitsSupervisor(r, i) ==> forall k :: 0 <= k < |staffIds| ==> !r.staff[staffIds[k]].CanSupervise()
    requires WellFormed(r) && ok ==> next.students[i].HasSupervisor()
    ensures SupervisorNetSoFar(s, next, i + 1, staffIds)
  {
    ProgressTransitive(s, r, next);
    if WellFormed(s) && (forall sid :: sid in s.staff ==> sid in staffIds) {
      EvolvesKeepsWellFormed(s, r);
      if !ok && AwaitsSupervisor(r, i) {
        forall sid | sid in r.staff ensures !r.staff[sid].CanSupervise() {
          var m :| 0 <= m < |staffIds| && staffIds[m] == sid;
        }
      }
      SupervisorNetStep(r, next, i);
    }
  }

  lemma SupervisorNetEnds(s: State, r: State, staffIds: seq<string>)
    requires SupervisorNetSoFar(s, r, |s.students|, staffIds)
    ensures WellFormed(s) && (forall sid :: sid in s.staff ==> sid in staffIds) ==>
              NoneFree(r) || forall j :: 0 <= j < |r.students| ==> !AwaitsSupervisor(r, j)
  {
  }

  /** The supervisor half of the safety net (Allocator.cpp:266-275): every
      unsupervised student is offered to the staff in order. On a well-formed
      state with staffIds listing every staff member, afterwards nobody is
      waiting for a supervisor or every staff member is at load. */
  method SafetyNetSupervisors(s: State, staffIds: seq<string>) returns (r: State)
    requires forall k :: 0 <= k < |staffIds| ==> staffIds[k] in s.staff
    ensures Progress(s, r)
    ensures WellFormed(s) && (forall sid :: sid in s.staff ==> sid in staffIds) ==>
              NoneFree(r) || forall j :: 0 <= j < |r.students| ==> !AwaitsSupervisor(r, j)
  {
    r := s;
    ProgressReflexive(s);
    var i := 0;
    while i < |s.students|
      invariant 0 <= i <= |s.students| && SupervisorNetSoFar(s, r, i, staffIds)
    {
      var next, offered := r, false;
      if !r.students[i].HasSupervisor() {
        next, offered := OfferToStaff(r, i, staffIds);
      } else {
        ProgressReflexive(r);
      }
      SupervisorNetAdvance(s, r, next, i, staffIds, offered);
      r := next;
      i := i + 1;
    }
    SupervisorNetEnds(s, r, staffIds);
  }

  // ---------------------------------------------------------------------------
  // allocate

  /** Phase 2 (Allocator.cpp:108-257): the own-projects pass, then the
      expertise pass, then the any-project pass. On a well-formed state every
      student it places is also supervised, and every listed staff member
      ends at load or with nobody on an existing project left unsupervised
      and either nobody waiting or no listed project with a free place. */
  method Phase2(s: State, staffIds: seq<string>, projectIds: seq<int>) returns (r: State)
    requires forall k :: 0 <= k < |staffIds| ==> staffIds[k] in s.staff
    requires forall k :: 0 <= k < |projectIds| ==> projectIds[k] in s.projects
    ensures Progress(s, r)
    ensures WellFormed(s) ==> PlacedSupervised(s, r)
    ensures WellFormed(s) ==> forall n :: 0 <= n < |staffIds| ==> Done(r, staffIds[n], projectIds, AnyProject)
  {
    var own := Phase2Own(s, staffIds, projectIds);
    var expert := Phase2Repeated(own, staffIds, projectIds, Expertise);
    r := Phase2Repeated(expert, staffIds, projectIds, AnyProject);
    ProgressTransitive(s, own, expert);
    ProgressTransitive(s, expert, r);
    if WellFormed(s) {
      EvolvesKeepsWellFormed(s, own);
      EvolvesKeepsWellFormed(s, expert);
      PlacedSupervisedTransitive(s, own, expert);
      PlacedSupervisedTransitive(s, expert, r);
    }
  }

  /** The safety net (Allocator.cpp:259-275): the project half, then the
      supervisor half. */
  method SafetyNet(s: State, staffIds: seq<string>, projectIds: seq<int>) returns (r: State)
    requires forall k :: 0 <= k < |staffIds| ==> staffIds[k] in s.staff
    requires forall k :: 0 <= k < |projectIds| ==> projectIds[k] in s.projects
    ensures Progress(s, r)
    ensures WellFormed(s) && (forall pid :: pid in s.projects ==> pid in projectIds) ==> AllPlaced(r) || NoneOpen(r)
    ensures WellFormed(s) && (forall sid :: sid in s.staff ==> sid in staffIds) ==>
              NoneFree(r) || forall j :: 0 <= j < |r.students| ==> !AwaitsSupervisor(r, j)
  {
    var placed := SafetyNetProjects(s, projectIds);
    r := SafetyNetSupervisors(placed, staffIds);
    ProgressTransitive(s, placed, r);
    if WellFormed(s) {
      EvolvesKeepsWellFormed(s, placed);
      if NoneOpen(placed) {
        ProgressKeepsNoneOpen(placed, r);
      } else if (forall pid :: pid in s.projects ==> pid in projectIds) {
        forall j | 0 <= j < |r.students| ensures r.students[j].HasProject() {
          assert StudentGrows(placed.students[j], r.students[j]);
        }
      }
    }
  }

  /** When the free places covered the unplaced students, a state where
      everybody is placed or every project is full has everybody placed. */
  lemma PlacedWhenCapacitySuffices(s: State, r: State)
    requires Progress(s, r) && WellFormed(s) && ProjectSlack(s) >= 0
    requires AllPlaced(r) || NoneOpen(r)
    ensures AllPlaced(r)
  {
    SpareProjectsZero(r);
    NoneUnplaced(r);
  }

  /** When the free load covered the unsupervised students, a state where
      everybody is supervised or every staff member is at load has everybody
      supervised. */
  lemma SupervisedWhenLoadSuffices(s: State, r: State)
    requires Progress(s, r) && WellFormed(s) && StaffSlack(s) >= 0
    requires AllSupervised(r) || NoneFree(r)
    ensures AllSupervised(r)
  {
    SpareStaffZero(r);
    NoneUnsupervised(r);
  }

  /** With everybody placed on an existing project, nobody waiting for a
      supervisor means everybody is supervised. */
  lemma NotAwaitingMeansSupervised(r: State)
    requires AllPlaced(r) && ProjectsKnown(r)
    requires forall j :: 0 <= j < |r.students| ==> !AwaitsSupervisor(r, j)
    ensures AllSupervised(r)
  {
    forall j | 0 <= j < |r.students| ensures r.students[j].HasSupervisor() {
      assert !AwaitsSupervisor(r, j);
    }
  }

  /** What the safety net's two guarantees give for the whole run. */
  lemma Coverage(s: State, r: State)
    requires WellFormed(s) && Progress(s, r)
    requires AllPlaced(r) || NoneOpen(r)
    requires NoneFree(r) || forall j :: 0 <= j < |r.students| ==> !AwaitsSupervisor(r, j)
    ensures ProjectSlack(s) >= 0 ==> AllPlaced(r)
    ensures ProjectsKnown(s) && AllPlaced(r) ==> AllSupervised(r) || NoneFree(r)
    ensures ProjectsKnown(s) && ProjectSlack(s) >= 0 && StaffSlack(s) >= 0 ==> AllSupervised(r)
  {
    if ProjectSlack(s) >= 0 {
      PlacedWhenCapacitySuffices(s, r);
    }
    if ProjectsKnown(s) && AllPlaced(r) && !NoneFree(r) {
      NotAwaitingMeansSupervised(r);
    }
    if ProjectsKnown(s) && ProjectSlack(s) >= 0 && StaffSlack(s) >= 0 {
      if !NoneFree(r) {
        NotAwaitingMeansSupervised(r);
      }
      SupervisedWhenLoadSuffices(s, r);
    }
  }

  /** Phase 1 then phase 2 (Allocator.cpp:98-257). */
  method Phases(s: State, staffIds: seq<string>, projectIds: seq<int>) returns (r: State)
    requires forall k :: 0 <= k < |staffIds| ==> staffIds[k] in s.staff
    requires forall k :: 0 <= k < |projectIds| ==> projectIds[k] in s.projects
    ensures Progress(s, r)
  {
    var r1 := Phase1(s);
    r := Phase2(r1, staffIds, projectIds);
    ProgressTransitive(s, r1, r);
  }

  /** What the safety net, run over every project and staff member, leaves
      behind on a state that made progress from s. */
  lemma AllocateEnds(s: State, r2: State, r: State, staffIds: seq<string>, projectIds: seq<int>)
    requires Progress(s, r2) && Progress(r2, r)
    requires forall pid :: pid in s.projects ==> pid in projectIds
    requires forall sid :: sid in s.staff ==> sid in staffIds
    requires WellFormed(r2) && (forall pid :: pid in r2.projects ==> pid in projectIds) ==> AllPlaced(r) || NoneOpen(r)
    requires WellFormed(r2) && (forall sid :: sid in r2.staff ==> sid in staffIds) ==>
               NoneFree(r) || forall j :: 0 <= j < |r.students| ==> !AwaitsSupervisor(r, j)
    ensures Progress(s, r)
    ensures WithinCapacity(s) ==> WithinCapacity(r)
    ensures WellFormed(s) ==> AllPlaced(r) || NoneOpen(r)
    ensures WellFormed(s) && ProjectSlack(s) >= 0 ==> AllPlaced(r)
    ensures WellFormed(s) && ProjectsKnown(s) && AllPlaced(r) ==> AllSupervised(r) || NoneFree(r)
    ensures WellFormed(s) && ProjectsKnown(s) && ProjectSlack(s) >= 0 && StaffSlack(s) >= 0 ==> AllSupervised(r)
  {
    ProgressTransitive(s, r2, r);
    if WithinCapacity(s) {
      ProgressKeepsCapacity(s, r);
    }
    if WellFormed(s) {
      EvolvesKeepsWellFormed(s, r2);
      assert r2.projects.Keys == s.projects.Keys && r2.staff.Keys == s.staff.Keys;
      Coverage(s, r);
    }
  }

  /** allocate (Allocator.cpp:75-276): staff and project ids are sorted, then
      phase 1, phase 2 and the safety net run in turn. Every step keeps
      Progress, so counters never pass their capacity and assignments are
      write-once. On a well-formed state counters track assignments, nobody
      is left unplaced unless every project is full, and everybody is placed
      when the free places cover the unplaced students; likewise for
      supervisors when placements are on existing projects and the free load
      covers the unsupervised students. */
  method Allocate(s: State) returns (r: State)
    ensures Progress(s, r)
    ensures WithinCapacity(s) ==> WithinCapacity(r)
    ensures WellFormed(s) ==> AllPlaced(r) || NoneOpen(r)
    ensures WellFormed(s) && ProjectSlack(s) >= 0 ==> AllPlaced(r)
    ensures WellFormed(s) && ProjectsKnown(s) && AllPlaced(r) ==> AllSupervised(r) || NoneFree(r)
    ensures WellFormed(s) && ProjectsKnown(s) && ProjectSlack(s) >= 0 && StaffSlack(s) >= 0 ==> AllSupervised(r)
  {
    var staffIds := SortedStrings(s.staff.Keys);
    var projectIds := SortedInts(s.projects.Keys);
    var r2 := Phases(s, staffIds, projectIds);
    r := SafetyNet(r2, staffIds, projectIds);
    AllocateEnds(s, r2, r, staffIds, projectIds);
  }
}
