/** The quality score of a finished assignment (Score.cpp): preference points
    for each student plus supervision-affinity points for each supervised
    student. */
module Score {
  import opened Records
  import opened Preferences

  /** Preference points from position i on: 4 - j for the first j >= i with
      choices[j] == pid, 0 if there is none. */
  function PreferenceFrom(choices: seq<int>, pid: int, i: nat): int
    requires i <= |choices|
    decreases |choices| - i
  {
    if i == |choices| then 0
    else if choices[i] == pid then 4 - i
    else PreferenceFrom(choices, pid, i + 1)
  }

  /** A student's preference points (Score.cpp:14-21). */
  function PreferencePoints(s: Student): int {
    PreferenceFrom(s.choices, s.assignedProject, 0)
  }

  /** A student's supervision points (Score.cpp:28-47): 4 under the project's
      proposer, 2 under an expert in its subject, 0 otherwise or when the
      student lacks a project, a supervisor, or a known project or staff id. */
  function SupervisorPoints(s: Student, projects: map<int, Project>, staff: map<string, Staff>): int {
    if !s.HasProject() || !s.HasSupervisor() then 0
    else if s.assignedProject !in projects || s.assignedSupervisor !in staff then 0
    else
      var p := projects[s.assignedProject];
      var st := staff[s.assignedSupervisor];
      if p.proposer == st.id then 4
      else if p.subject in st.expertise then 2
      else 0
  }

  function StudentPoints(s: Student, projects: map<int, Project>, staff: map<string, Staff>): int {
    PreferencePoints(s) + SupervisorPoints(s, projects, staff)
  }

  /** The score: the sum of every student's points. */
  function Total(students: seq<Student>, projects: map<int, Project>, staff: map<string, Staff>): int {
    if |students| == 0 then 0
    else Total(students[..|students| - 1], projects, staff) + StudentPoints(students[|students| - 1], projects, staff)
  }

  function PreferenceTotal(students: seq<Student>): int {
    if |students| == 0 then 0
    else PreferenceTotal(students[..|students| - 1]) + PreferencePoints(students[|students| - 1])
  }

  function SupervisorTotal(students: seq<Student>, projects: map<int, Project>, staff: map<string, Staff>): int {
    if |students| == 0 then 0
    else SupervisorTotal(students[..|students| - 1], projects, staff) + SupervisorPoints(students[|students| - 1], projects, staff)
  }

  lemma {:induction false} TotalSplits(students: seq<Student>, projects: map<int, Project>, staff: map<string, Staff>)
    ensures Total(students, projects, staff) == PreferenceTotal(students) + SupervisorTotal(students, projects, staff)
    decreases |students|
  {
    if |students| > 0 {
      TotalSplits(students[..|students| - 1], projects, staff);
    }
  }

  /** computeScore (Score.cpp:4-51): the preference loop, then the supervision
      loop, over an unchanged assignment; the result is the sum of every
      student's points. */
  method ComputeScore(students: seq<Student>, projects: map<int, Project>, staff: map<string, Staff>)
    returns (score: int)
    ensures score == Total(students, projects, staff)
  {
    score := 0;
    var i := 0;
    while i < |students|
      invariant 0 <= i <= |students|
      invariant score == PreferenceTotal(students[..i])
    {
      assert students[..i + 1][..i] == students[..i];
      score := score + PreferencePoints(students[i]);
      i := i + 1;
    }
    assert students[..i] == students;
    i := 0;
    while i < |students|
      invariant 0 <= i <= |students|
      invariant score == PreferenceTotal(students) + SupervisorTotal(students[..i], projects, staff)
    {
      assert students[..i + 1][..i] == students[..i];
      score := score + SupervisorPoints(students[i], projects, staff);
      i := i + 1;
    }
    assert students[..i] == students;
    TotalSplits(students, projects, staff);
  }

  lemma {:induction false} PreferenceFromRank(choices: seq<int>, pid: int, i: nat)
    requires i <= |choices|
    ensures PreferenceFrom(choices, pid, i) ==
              if pid in choices[i..] then 4 - RankFrom(choices, pid, i) else 0
    decreases |choices| - i
  {
    if i < |choices| {
      assert choices[i..] == [choices[i]] + choices[i + 1..];
      PreferenceFromRank(choices, pid, i + 1);
    }
  }

  /** Preference points are 4 minus the checker's rank of the assigned project,
      and 0 for a project the student did not list. */
  lemma PreferencePointsByRank(s: Student)
    ensures PreferencePoints(s) ==
              if s.assignedProject in s.choices then 4 - StudentRankForProject(s, s.assignedProject) else 0
  {
    assert s.choices[0..] == s.choices;
    PreferenceFromRank(s.choices, s.assignedProject, 0);
  }

  /** Supervision points are 4 - 2 * the checker's supervisor category. */
  lemma SupervisorPointsByCategory(s: Student, projects: map<int, Project>, staff: map<string, Staff>)
    requires s.HasProject() && s.HasSupervisor()
    requires s.assignedProject in projects && s.assignedSupervisor in staff
    ensures SupervisorPoints(s, projects, staff) ==
              4 - 2 * SupervisorCategoryForProject(staff[s.assignedSupervisor], projects[s.assignedProject])
  {
  }

  /** A student on its first choice, supervised by that project's proposer,
      contributes 8. */
  lemma TopChoiceUnderProposerScoresEight(s: Student, projects: map<int, Project>, staff: map<string, Staff>)
    requires |s.choices| > 0 && s.assignedProject == s.choices[0] && s.HasProject()
    requires s.assignedProject in projects && s.assignedSupervisor in staff && s.HasSupervisor()
    requires projects[s.assignedProject].proposer == staff[s.assignedSupervisor].id
    ensures StudentPoints(s, projects, staff) == 8
  {
    PreferencePointsByRank(s);
  }

  /** The rank is not capped: a student placed on the sixth entry of its list
      (listed there first) loses a point. */
  lemma SixthChoiceScoresNegative(s: Student)
    requires |s.choices| >= 6 && s.choices[5] == s.assignedProject
    requires s.assignedProject !in s.choices[..5]
    ensures PreferencePoints(s) == -1
  {
    PreferencePointsByRank(s);
    assert forall k :: 0 <= k < 5 ==> s.choices[..5][k] == s.choices[k];
  }

  /** With at most five choices a student contributes between 0 and 8. */
  lemma StudentPointsBounds(s: Student, projects: map<int, Project>, staff: map<string, Staff>)
    requires |s.choices| <= 5
    ensures 0 <= StudentPoints(s, projects, staff) <= 8
  {
    PreferencePointsByRank(s);
  }

  /** With at most five choices per student the score lies in [0, 8 * |students|]. */
  lemma {:induction false} TotalBounds(students: seq<Student>, projects: map<int, Project>, staff: map<string, Staff>)
    requires forall i :: 0 <= i < |students| ==> |students[i].choices| <= 5
    ensures 0 <= Total(students, projects, staff) <= 8 * |students|
    decreases |students|
  {
    if |students| > 0 {
      TotalBounds(students[..|students| - 1], projects, staff);
      StudentPointsBounds(students[|students| - 1], projects, staff);
    }
  }

  /** Taking one student out of the list lowers the score by its points. */
  lemma {:induction false} TotalWithout(students: seq<Student>, k: nat, projects: map<int, Project>, staff: map<string, Staff>)
    requires k < |students|
    ensures Total(students, projects, staff) ==
              StudentPoints(students[k], projects, staff) + Total(students[..k] + students[k + 1..], projects, staff)
    decreases |students|
  {
    var n := |students|;
    var init := students[..n - 1];
    if k < n - 1 {
      TotalWithout(init, k, projects, staff);
      var rest := students[..k] + students[k + 1..];
      assert rest[..|rest| - 1] == init[..k] + init[k + 1..];
      assert rest[|rest| - 1] == students[n - 1];
    } else {
      assert students[..k] + students[k + 1..] == init;
    }
  }

  /** Dropping the same element from two permutations of each other leaves permutations. */
  lemma DropMatching<T>(a: seq<T>, b: seq<T>, k: nat)
    requires multiset(a) == multiset(b)
    requires |a| > 0 && k < |b| && b[k] == a[|a| - 1]
    ensures multiset(a[..|a| - 1]) == multiset(b[..k] + b[k + 1..])
  {
    var x := a[|a| - 1];
    assert a == a[..|a| - 1] + [x];
    assert b == b[..k] + [x] + b[k + 1..];
    calc {
      multiset(a[..|a| - 1]);
      multiset(a) - multiset{x};
      multiset(b) - multiset{x};
      multiset(b[..k]) + multiset(b[k + 1..]);
      multiset(b[..k] + b[k + 1..]);
    }
  }

  /** The score does not depend on the order of the students. */
  lemma {:induction false} TotalIsOrderIndependent(a: seq<Student>, b: seq<Student>, projects: map<int, Project>, staff: map<string, Staff>)
    requires multiset(a) == multiset(b)
    ensures Total(a, projects, staff) == Total(b, projects, staff)
    decreases |a|
  {
    if |a| > 0 {
      var x := a[|a| - 1];
      assert x in multiset(b);
      var k :| 0 <= k < |b| && b[k] == x;
      DropMatching(a, b, k);
      TotalIsOrderIndependent(a[..|a| - 1], b[..k] + b[k + 1..], projects, staff);
      TotalWithout(b, k, projects, staff);
    } else {
      assert |b| == |multiset(b)| == 0;
    }
  }
}
