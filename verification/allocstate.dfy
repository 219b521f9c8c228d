/** The allocator's state (Allocator.cpp:75-78) and the relation every step of
    allocate keeps between an earlier and a later state: capacity-guarded
    counters, write-once assignment fields, counters that track the students
    assigned to them, and constant slack between spare capacity and the
    students still waiting for it. */
module AllocState {
  import opened Records
  import opened Ordering
  import opened Preferences

  /** The three collections allocate works on, threaded through every phase. */
  datatype State = State(students: seq<Student>, projects: map<int, Project>, staff: map<string, Staff>)

  /** What the input parser builds (Parser.cpp:34,61): every record is filed
      under its own id, and the staff id is a non-empty token. The project id
      -1 can in principle be read, so it is excluded here explicitly. */
  predicate WellFormed(s: State) {
    NoProject !in s.projects && NoSupervisor !in s.staff
    && (forall pid :: pid in s.projects ==> s.projects[pid].id == pid)
    && (forall sid :: sid in s.staff ==> s.staff[sid].id == sid)
  }

  /** Every placed student is on a project that exists. */
  predicate ProjectsKnown(s: State) {
    forall i :: 0 <= i < |s.students| && s.students[i].HasProject() ==> s.students[i].assignedProject in s.projects
  }

  predicate AllPlaced(s: State) {
    forall i :: 0 <= i < |s.students| ==> s.students[i].HasProject()
  }

  predicate AllSupervised(s: State) {
    forall i :: 0 <= i < |s.students| ==> s.students[i].HasSupervisor()
  }

  /** No counter exceeds its capacity. */
  predicate WithinCapacity(s: State) {
    (forall pid :: pid in s.projects ==> s.projects[pid].assignedCount <= s.projects[pid].multiplicity)
    && (forall sid :: sid in s.staff ==> s.staff[sid].assignedCount <= s.staff[sid].load)
  }

  /** No project has a free place. */
  predicate NoneOpen(s: State) {
    forall pid :: pid in s.projects ==> !s.projects[pid].HasSpace()
  }

  /** No staff member can take another student. */
  predicate NoneFree(s: State) {
    forall sid :: sid in s.staff ==> !s.staff[sid].CanSupervise()
  }

  // ---------------------------------------------------------------------------
  // Counting students

  /** The number of students whose project field is pid. */
  function OnProject(ss: seq<Student>, pid: int): nat {
    if |ss| == 0 then 0
    else (if ss[0].assignedProject == pid then 1 else 0) + OnProject(ss[1..], pid)
  }

  /** The number of students whose supervisor field is sid. */
  function WithSupervisor(ss: seq<Student>, sid: string): nat {
    if |ss| == 0 then 0
    else (if ss[0].assignedSupervisor == sid then 1 else 0) + WithSupervisor(ss[1..], sid)
  }

  function Unplaced(s: State): nat {
    OnProject(s.students, NoProject)
  }

  function Unsupervised(s: State): nat {
    WithSupervisor(s.students, NoSupervisor)
  }

  lemma {:induction false} OnProjectUpdate(ss: seq<Student>, i: nat, x: Student, pid: int)
    requires i < |ss|
    ensures OnProject(ss[i := x], pid) ==
              OnProject(ss, pid) - (if ss[i].assignedProject == pid then 1 else 0)
              + (if x.assignedProject == pid then 1 else 0)
    decreases |ss|
  {
    if i == 0 {
      assert ss[i := x][1..] == ss[1..];
    } else {
      assert ss[i := x][1..] == ss[1..][i - 1 := x];
      OnProjectUpdate(ss[1..], i - 1, x, pid);
    }
  }

  lemma {:induction false} WithSupervisorUpdate(ss: seq<Student>, i: nat, x: Student, sid: string)
    requires i < |ss|
    ensures WithSupervisor(ss[i := x], sid) ==
              WithSupervisor(ss, sid) - (if ss[i].assignedSupervisor == sid then 1 else 0)
              + (if x.assignedSupervisor == sid then 1 else 0)
    decreases |ss|
  {
    if i == 0 {
      assert ss[i := x][1..] == ss[1..];
    } else {
      assert ss[i := x][1..] == ss[1..][i - 1 := x];
      WithSupervisorUpdate(ss[1..], i - 1, x, sid);
    }
  }

  lemma {:induction false} OnProjectZero(ss: seq<Student>, pid: int)
    ensures OnProject(ss, pid) == 0 <==> forall i :: 0 <= i < |ss| ==> ss[i].assignedProject != pid
    decreases |ss|
  {
    if |ss| > 0 {
      OnProjectZero(ss[1..], pid);
      assert forall i :: 1 <= i < |ss| ==> ss[i] == ss[1..][i - 1];
    }
  }

  lemma {:induction false} WithSupervisorZero(ss: seq<Student>, sid: string)
    ensures WithSupervisor(ss, sid) == 0 <==> forall i :: 0 <= i < |ss| ==> ss[i].assignedSupervisor != sid
    decreases |ss|
  {
    if |ss| > 0 {
      WithSupervisorZero(ss[1..], sid);
      assert forall i :: 1 <= i < |ss| ==> ss[i] == ss[1..][i - 1];
    }
  }

  /** Nobody is waiting for a project exactly when everybody is placed. */
  lemma NoneUnplaced(s: State)
    ensures Unplaced(s) == 0 <==> AllPlaced(s)
  {
    OnProjectZero(s.students, NoProject);
  }

  /** Nobody is waiting for a supervisor exactly when everybody is supervised. */
  lemma NoneUnsupervised(s: State)
    ensures Unsupervised(s) == 0 <==> AllSupervised(s)
  {
    WithSupervisorZero(s.students, NoSupervisor);
  }

  // ---------------------------------------------------------------------------
  // Spare capacity

  predicate Distinct<T(==)>(ids: seq<T>) {
    forall i, j :: 0 <= i < j < |ids| ==> ids[i] != ids[j]
  }

  /** The free places on one project; nothing for a full or over-full one. */
  function ProjectSpare(p: Project): nat {
    if p.HasSpace() then p.multiplicity - p.assignedCount else 0
  }

  /** The students one staff member can still take. */
  function StaffSpare(st: Staff): nat {
    if st.CanSupervise() then st.load - st.assignedCount else 0
  }

  function ProjectSpareOver(projects: map<int, Project>, ids: seq<int>): nat {
    if |ids| == 0 then 0
    else (if ids[0] in projects then ProjectSpare(projects[ids[0]]) else 0) + ProjectSpareOver(projects, ids[1..])
  }

  function StaffSpareOver(staff: map<string, Staff>, ids: seq<string>): nat {
    if |ids| == 0 then 0
    else (if ids[0] in staff then StaffSpare(staff[ids[0]]) else 0) + StaffSpareOver(staff, ids[1..])
  }

  /** Total free places over all projects. */
  function SpareProjects(s: State): nat {
    ProjectSpareOver(s.projects, SortedInts(s.projects.Keys))
  }

  /** Total supervision load still available over all staff. */
  function SpareStaff(s: State): nat {
    StaffSpareOver(s.staff, SortedStrings(s.staff.Keys))
  }

  /** Free places minus students still waiting for one. */
  function ProjectSlack(s: State): int {
    SpareProjects(s) - Unplaced(s)
  }

  /** Free supervision load minus students still waiting for a supervisor. */
  function StaffSlack(s: State): int {
    SpareStaff(s) - Unsupervised(s)
  }

  lemma {:induction false} ProjectSpareOverZero(projects: map<int, Project>, ids: seq<int>)
    ensures ProjectSpareOver(projects, ids) == 0 <==>
              forall k :: 0 <= k < |ids| && ids[k] in projects ==> !projects[ids[k]].HasSpace()
    decreases |ids|
  {
    if |ids| > 0 {
      ProjectSpareOverZero(projects, ids[1..]);
      assert forall k :: 1 <= k < |ids| ==> ids[k] == ids[1..][k - 1];
    }
  }

  lemma {:induction false} StaffSpareOverZero(staff: map<string, Staff>, ids: seq<string>)
    ensures StaffSpareOver(staff, ids) == 0 <==>
              forall k :: 0 <= k < |ids| && ids[k] in staff ==> !staff[ids[k]].CanSupervise()
    decreases |ids|
  {
    if |ids| > 0 {
      StaffSpareOverZero(staff, ids[1..]);
      assert forall k :: 1 <= k < |ids| ==> ids[k] == ids[1..][k - 1];
    }
  }

  /** There are no free places at all exactly when every project is full. */
  lemma SpareProjectsZero(s: State)
    ensures SpareProjects(s) == 0 <==> NoneOpen(s)
  {
    var ids := SortedInts(s.projects.Keys);
    ProjectSpareOverZero(s.projects, ids);
    if !NoneOpen(s) {
      var pid :| pid in s.projects && s.projects[pid].HasSpace();
      assert pid in ids;
    }
  }

  /** There is no free supervision load exactly when every staff member is at load. */
  lemma SpareStaffZero(s: State)
    ensures SpareStaff(s) == 0 <==> NoneFree(s)
  {
    var ids := SortedStrings(s.staff.Keys);
    StaffSpareOverZero(s.staff, ids);
    if !NoneFree(s) {
      var sid :| sid in s.staff && s.staff[sid].CanSupervise();
      assert sid in ids;
    }
  }

  /** Replacing one project changes the sum over distinct ids by the change in its spare places. */
  lemma {:induction false} ProjectSpareOverUpdate(projects: map<int, Project>, ids: seq<int>, key: int, q: Project)
    requires key in projects && Distinct(ids)
    ensures ProjectSpareOver(projects[key := q], ids) ==
              ProjectSpareOver(projects, ids) + (if key in ids then ProjectSpare(q) - ProjectSpare(projects[key]) else 0)
    decreases |ids|
  {
    if |ids| > 0 {
      assert Distinct(ids[1..]) by {
        forall i, j | 0 <= i < j < |ids| - 1 ensures ids[1..][i] != ids[1..][j] {
          assert ids[1..][i] == ids[i + 1] && ids[1..][j] == ids[j + 1];
        }
      }
      ProjectSpareOverUpdate(projects, ids[1..], key, q);
      assert ids == [ids[0]] + ids[1..];
      if ids[0] == key {
        assert key !in ids[1..] by {
          forall j | 0 <= j < |ids| - 1 ensures ids[1..][j] != key {
            assert ids[1..][j] == ids[j + 1];
          }
        }
      }
    }
  }

  lemma {:induction false} StaffSpareOverUpdate(staff: map<string, Staff>, ids: seq<string>, key: string, q: Staff)
    requires key in staff && Distinct(ids)
    ensures StaffSpareOver(staff[key := q], ids) ==
              StaffSpareOver(staff, ids) + (if key in ids then StaffSpare(q) - StaffSpare(staff[key]) else 0)
    decreases |ids|
  {
    if |ids| > 0 {
      assert Distinct(ids[1..]) by {
        forall i, j | 0 <= i < j < |ids| - 1 ensures ids[1..][i] != ids[1..][j] {
          assert ids[1..][i] == ids[i + 1] && ids[1..][j] == ids[j + 1];
        }
      }
      StaffSpareOverUpdate(staff, ids[1..], key, q);
      assert ids == [ids[0]] + ids[1..];
      if ids[0] == key {
        assert key !in ids[1..] by {
          forall j | 0 <= j < |ids| - 1 ensures ids[1..][j] != key {
            assert ids[1..][j] == ids[j + 1];
          }
        }
      }
    }
  }

  // ---------------------------------------------------------------------------
  // The two writes allocate performs

  /** Put student i on the project filed under key, recording value as its
      project id, and count the place taken (Allocator.cpp:27-28, 43-44,
      149-150, 200-201). */
  function Place(s: State, i: nat, key: int, value: int): State
    requires i < |s.students| && key in s.projects
  {
    var p := s.projects[key];
    s.(students := s.students[i := s.students[i].(assignedProject := value)],
       projects := s.projects[key := p.(assignedCount := p.assignedCount + 1)])
  }

  /** Record staff member sid as student i's supervisor and count the
      supervision (Allocator.cpp:69-70). */
  function Supervise(s: State, i: nat, sid: string): State
    requires i < |s.students| && sid in s.staff
  {
    var st := s.staff[sid];
    s.(students := s.students[i := s.students[i].(assignedSupervisor := st.id)],
       staff := s.staff[sid := st.(assignedCount := st.assignedCount + 1)])
  }

  // ---------------------------------------------------------------------------
  // The progress relation

  /** Identity and choices never change; a set project or supervisor is never overwritten. */
  predicate StudentGrows(a: Student, b: Student) {
    b.id == a.id && b.choices == a.choices
    && (a.HasProject() ==> b.assignedProject == a.assignedProject)
    && (a.HasSupervisor() ==> b.assignedSupervisor == a.assignedSupervisor)
  }

  /** Only the counter moves; it never decreases and never rises above the multiplicity. */
  predicate ProjectGrows(a: Project, b: Project) {
    b.id == a.id && b.proposer == a.proposer && b.multiplicity == a.multiplicity && b.subject == a.subject
    && a.assignedCount <= b.assignedCount
    && (b.assignedCount == a.assignedCount || b.assignedCount <= b.multiplicity)
  }

  /** Only the counter moves; it never decreases and never rises above the load. */
  predicate StaffGrows(a: Staff, b: Staff) {
    b.id == a.id && b.load == a.load && b.expertise == a.expertise
    && a.assignedCount <= b.assignedCount
    && (b.assignedCount == a.assignedCount || b.assignedCount <= b.load)
  }

  predicate Evolves(a: State, b: State) {
    |b.students| == |a.students|
    && (forall i :: 0 <= i < |a.students| ==> StudentGrows(a.students[i], b.students[i]))
    && b.projects.Keys == a.projects.Keys
    && (forall pid :: pid in a.projects ==> ProjectGrows(a.projects[pid], b.projects[pid]))
    && b.staff.Keys == a.staff.Keys
    && (forall sid :: sid in a.staff ==> StaffGrows(a.staff[sid], b.staff[sid]))
  }

  /** Each counter rose by the number of students newly assigned to it. */
  predicate Tracks(a: State, b: State) {
    (forall pid :: pid in a.projects && pid in b.projects ==>
       b.projects[pid].assignedCount - a.projects[pid].assignedCount
       == OnProject(b.students, pid) - OnProject(a.students, pid))
    && (forall sid :: sid in a.staff && sid in b.staff ==>
          b.staff[sid].assignedCount - a.staff[sid].assignedCount
          == WithSupervisor(b.students, sid) - WithSupervisor(a.students, sid))
  }

  /** What holds between any state of allocate and any later one. On a
      well-formed state, in addition, counters track assignments, every
      placement uses up one free place and every supervision one unit of
      load, and placements are on existing projects. */
  predicate Progress(a: State, b: State) {
    Evolves(a, b)
    && (WellFormed(a) ==>
          Tracks(a, b)
          && ProjectSlack(b) == ProjectSlack(a)
          && StaffSlack(b) == StaffSlack(a)
          && (ProjectsKnown(a) ==> ProjectsKnown(b)))
  }

  lemma ProgressReflexive(a: State)
    ensures Progress(a, a)
  {
  }

  lemma EvolvesKeepsWellFormed(a: State, b: State)
    requires Evolves(a, b) && WellFormed(a)
    ensures WellFormed(b)
  {
    forall pid | pid in b.projects ensures b.projects[pid].id == pid {
      assert ProjectGrows(a.projects[pid], b.projects[pid]);
    }
    forall sid | sid in b.staff ensures b.staff[sid].id == sid {
      assert StaffGrows(a.staff[sid], b.staff[sid]);
    }
  }

  lemma ProgressTransitive(a: State, b: State, c: State)
    requires Progress(a, b) && Progress(b, c)
    ensures Progress(a, c)
  {
    forall i | 0 <= i < |a.students| ensures StudentGrows(a.students[i], c.students[i]) {
      assert StudentGrows(a.students[i], b.students[i]) && StudentGrows(b.students[i], c.students[i]);
    }
    forall pid | pid in a.projects ensures ProjectGrows(a.projects[pid], c.projects[pid]) {
      assert ProjectGrows(a.projects[pid], b.projects[pid]) && ProjectGrows(b.projects[pid], c.projects[pid]);
    }
    forall sid | sid in a.staff ensures StaffGrows(a.staff[sid], c.staff[sid]) {
      assert StaffGrows(a.staff[sid], b.staff[sid]) && StaffGrows(b.staff[sid], c.staff[sid]);
    }
    if WellFormed(a) {
      EvolvesKeepsWellFormed(a, b);
    }
  }

  /** Progress never takes a counter above its capacity. */
  lemma ProgressKeepsCapacity(a: State, b: State)
    requires Progress(a, b) && WithinCapacity(a)
    ensures WithinCapacity(b)
  {
    forall pid | pid in b.projects ensures b.projects[pid].assignedCount <= b.projects[pid].multiplicity {
      assert ProjectGrows(a.projects[pid], b.projects[pid]);
    }
    forall sid | sid in b.staff ensures b.staff[sid].assignedCount <= b.staff[sid].load {
      assert StaffGrows(a.staff[sid], b.staff[sid]);
    }
  }

  /** Counters only grow, so a full project stays full. */
  lemma ProgressKeepsNoneOpen(a: State, b: State)
    requires Progress(a, b) && NoneOpen(a)
    ensures NoneOpen(b)
  {
    forall pid | pid in b.projects ensures !b.projects[pid].HasSpace() {
      assert ProjectGrows(a.projects[pid], b.projects[pid]);
    }
  }

  /** Counters only grow, so a staff member at load stays at load. */
  lemma ProgressKeepsNoneFree(a: State, b: State)
    requires Progress(a, b) && NoneFree(a)
    ensures NoneFree(b)
  {
    forall sid | sid in b.staff ensures !b.staff[sid].CanSupervise() {
      assert StaffGrows(a.staff[sid], b.staff[sid]);
    }
  }

  lemma PlaceEvolves(s: State, i: nat, key: int, value: int)
    requires i < |s.students| && key in s.projects
    requires !s.students[i].HasProject() && s.projects[key].HasSpace()
    ensures Evolves(s, Place(s, i, key, value))
  {
  }

  /** On a well-formed state a placement on key adds one to the students on
      key and takes one from the unplaced. */
  lemma {:induction false} PlaceCounts(s: State, i: nat, key: int)
    requires i < |s.students| && key in s.projects && WellFormed(s)
    requires !s.students[i].HasProject()
    ensures var r := Place(s, i, key, key);
            && (forall pid :: OnProject(r.students, pid) ==
                                OnProject(s.students, pid) + (if pid == key then 1 else 0)
                                - (if pid == NoProject then 1 else 0))
            && (forall id :: WithSupervisor(r.students, id) == WithSupervisor(s.students, id))
  {
    var r := Place(s, i, key, key);
    var x := r.students[i];
    assert r.students == s.students[i := x];
    forall pid ensures OnProject(r.students, pid) ==
                         OnProject(s.students, pid) + (if pid == key then 1 else 0)
                         - (if pid == NoProject then 1 else 0) {
      OnProjectUpdate(s.students, i, x, pid);
    }
    forall id ensures WithSupervisor(r.students, id) == WithSupervisor(s.students, id) {
      WithSupervisorUpdate(s.students, i, x, id);
    }
  }

  lemma PlaceSpare(s: State, i: nat, key: int, value: int)
    requires i < |s.students| && key in s.projects
    requires s.projects[key].HasSpace()
    ensures SpareProjects(Place(s, i, key, value)) == SpareProjects(s) - 1
    ensures SpareStaff(Place(s, i, key, value)) == SpareStaff(s)
  {
    var r := Place(s, i, key, value);
    var q := r.projects[key];
    assert r.projects == s.projects[key := q];
    assert ProjectSpare(q) == ProjectSpare(s.projects[key]) - 1;
    assert r.projects.Keys == s.projects.Keys;
    var ids := SortedInts(s.projects.Keys);
    assert SortedInts(r.projects.Keys) == ids;
    assert key in ids;
    IncreasingIntsDistinct(ids);
    ProjectSpareOverUpdate(s.projects, ids, key, q);
    assert r.staff == s.staff;
  }

  lemma PlaceTracks(s: State, i: nat, key: int)
    requires i < |s.students| && key in s.projects && WellFormed(s)
    requires !s.students[i].HasProject()
    ensures Tracks(s, Place(s, i, key, key))
  {
    PlaceCounts(s, i, key);
  }

  lemma PlaceUnplaced(s: State, i: nat, key: int)
    requires i < |s.students| && key in s.projects && key != NoProject
    requires !s.students[i].HasProject()
    ensures Unplaced(Place(s, i, key, key)) == Unplaced(s) - 1
    ensures Unsupervised(Place(s, i, key, key)) == Unsupervised(s)
  {
    var r := Place(s, i, key, key);
    var x := r.students[i];
    assert r.students == s.students[i := x];
    OnProjectUpdate(s.students, i, x, NoProject);
    WithSupervisorUpdate(s.students, i, x, NoSupervisor);
  }

  lemma PlaceProjectSlack(s: State, i: nat, key: int)
    requires i < |s.students| && key in s.projects && key != NoProject
    requires !s.students[i].HasProject() && s.projects[key].HasSpace()
    ensures ProjectSlack(Place(s, i, key, key)) == ProjectSlack(s)
  {
    PlaceUnplaced(s, i, key);
    PlaceSpare(s, i, key, key);
  }

  lemma PlaceStaffSlack(s: State, i: nat, key: int)
    requires i < |s.students| && key in s.projects && key != NoProject
    requires !s.students[i].HasProject() && s.projects[key].HasSpace()
    ensures StaffSlack(Place(s, i, key, key)) == StaffSlack(s)
  {
    PlaceUnplaced(s, i, key);
    PlaceSpare(s, i, key, key);
  }

  lemma PlaceSlack(s: State, i: nat, key: int)
    requires i < |s.students| && key in s.projects && key != NoProject
    requires !s.students[i].HasProject() && s.projects[key].HasSpace()
    ensures ProjectSlack(Place(s, i, key, key)) == ProjectSlack(s)
    ensures StaffSlack(Place(s, i, key, key)) == StaffSlack(s)
  {
    PlaceProjectSlack(s, i, key);
    PlaceStaffSlack(s, i, key);
  }

  /** Placing an unplaced student on a project with room is a step of progress;
      on a well-formed state the recorded id must be the project's key. */
  lemma PlaceProgress(s: State, i: nat, key: int, value: int)
    requires i < |s.students| && key in s.projects
    requires !s.students[i].HasProject() && s.projects[key].HasSpace()
    requires WellFormed(s) ==> value == key
    ensures Progress(s, Place(s, i, key, value))
  {
    PlaceEvolves(s, i, key, value);
    if WellFormed(s) {
      PlaceTracks(s, i, key);
      PlaceSlack(s, i, key);
    }
  }

  lemma SuperviseEvolves(s: State, i: nat, sid: string)
    requires i < |s.students| && sid in s.staff
    requires !s.students[i].HasSupervisor() && s.staff[sid].CanSupervise()
    ensures Evolves(s, Supervise(s, i, sid))
  {
  }

  /** On a well-formed state a supervision adds one to sid's counter and to
      the students supervised by sid, and takes one from the unsupervised. */
  lemma {:induction false} SuperviseCounts(s: State, i: nat, sid: string)
    requires i < |s.students| && sid in s.staff && WellFormed(s)
    requires !s.students[i].HasSupervisor() && s.staff[sid].CanSupervise()
    ensures var r := Supervise(s, i, sid);
            && (forall pid :: OnProject(r.students, pid) == OnProject(s.students, pid))
            && (forall id :: WithSupervisor(r.students, id) ==
                               WithSupervisor(s.students, id) + (if id == sid then 1 else 0)
                               - (if id == NoSupervisor then 1 else 0))
  {
    var r := Supervise(s, i, sid);
    var x := r.students[i];
    assert r.students == s.students[i := x];
    assert x.assignedSupervisor == sid;
    forall pid ensures OnProject(r.students, pid) == OnProject(s.students, pid) {
      OnProjectUpdate(s.students, i, x, pid);
    }
    forall id ensures WithSupervisor(r.students, id) ==
                        WithSupervisor(s.students, id) + (if id == sid then 1 else 0)
                        - (if id == NoSupervisor then 1 else 0) {
      WithSupervisorUpdate(s.students, i, x, id);
    }
  }

  lemma SuperviseSpare(s: State, i: nat, sid: string)
    requires i < |s.students| && sid in s.staff
    requires s.staff[sid].CanSupervise()
    ensures SpareStaff(Supervise(s, i, sid)) == SpareStaff(s) - 1
    ensures SpareProjects(Supervise(s, i, sid)) == SpareProjects(s)
  {
    var r := Supervise(s, i, sid);
    var st := r.staff[sid];
    assert r.staff == s.staff[sid := st];
    assert StaffSpare(st) == StaffSpare(s.staff[sid]) - 1;
    assert r.staff.Keys == s.staff.Keys;
    var ids := SortedStrings(s.staff.Keys);
    assert SortedStrings(r.staff.Keys) == ids;
    assert sid in ids;
    IncreasingStringsDistinct(ids);
    StaffSpareOverUpdate(s.staff, ids, sid, st);
    assert r.projects == s.projects;
  }

  lemma SuperviseTracks(s: State, i: nat, sid: string)
    requires i < |s.students| && sid in s.staff && WellFormed(s)
    requires !s.students[i].HasSupervisor() && s.staff[sid].CanSupervise()
    ensures Tracks(s, Supervise(s, i, sid))
  {
    SuperviseCounts(s, i, sid);
  }

  lemma SuperviseSlack(s: State, i: nat, sid: string)
    requires i < |s.students| && sid in s.staff && WellFormed(s)
    requires !s.students[i].HasSupervisor() && s.staff[sid].CanSupervise()
    ensures ProjectSlack(Supervise(s, i, sid)) == ProjectSlack(s)
    ensures StaffSlack(Supervise(s, i, sid)) == StaffSlack(s)
  {
    var r := Supervise(s, i, sid);
    SuperviseCounts(s, i, sid);
    assert sid != NoSupervisor;
    assert Unsupervised(r) == Unsupervised(s) - 1;
    assert Unplaced(r) == Unplaced(s);
    SuperviseSpare(s, i, sid);
  }

  /** Recording a free staff member as an unsupervised student's supervisor
      is a step of progress. */
  lemma SuperviseProgress(s: State, i: nat, sid: string)
    requires i < |s.students| && sid in s.staff
    requires !s.students[i].HasSupervisor() && s.staff[sid].CanSupervise()
    ensures Progress(s, Supervise(s, i, sid))
  {
    SuperviseEvolves(s, i, sid);
    if WellFormed(s) {
      SuperviseTracks(s, i, sid);
      SuperviseSlack(s, i, sid);
    }
  }
}
