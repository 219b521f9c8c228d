/** How students rank projects and how staff rank the projects they supervise
    (CheckAlloc.cpp:22-58); shared by the checker and the score. */
module Preferences {
  import opened Records

  /** Rank reported for a project that is not on the student's list (CheckAlloc.cpp:22). */
  const NoRank: int := 1_000_000

  /** Index of the first occurrence of pid in choices at or after position from. */
  function RankFrom(choices: seq<int>, pid: int, from: nat): (r: int)
    requires from <= |choices|
    ensures pid in choices[from..] ==>
              from <= r < |choices| && choices[r] == pid
              && forall k :: from <= k < r ==> choices[k] != pid
    ensures pid !in choices[from..] ==> r == NoRank
    decreases |choices| - from
  {
    if from == |choices| then NoRank
    else if choices[from] == pid then from
    else
      assert choices[from..] == [choices[from]] + choices[from + 1..];
      RankFrom(choices, pid, from + 1)
  }

  /** StudentRankForProject (CheckAlloc.cpp:24-31): the position of pid in the
      student's choice list, or NoRank when it is not listed. */
  function StudentRankForProject(s: Student, pid: int): (r: int)
    ensures pid in s.choices ==>
              0 <= r < |s.choices| && s.choices[r] == pid
              && forall k :: 0 <= k < r ==> s.choices[k] != pid
    ensures pid !in s.choices ==> r == NoRank
  {
    assert s.choices[0..] == s.choices;
    RankFrom(s.choices, pid, 0)
  }

  /** StudentStrictlyPrefers (CheckAlloc.cpp:33-42): a is ranked, and ranked
      better than b. */
  predicate StudentStrictlyPrefers(s: Student, a: int, b: int) {
    var ra := StudentRankForProject(s, a);
    ra != NoRank && ra < StudentRankForProject(s, b)
  }

  /** Strict student preference never relates a project to itself, and never
      both ways round. */
  lemma StudentPreferenceIsStrict(s: Student, a: int, b: int)
    ensures !StudentStrictlyPrefers(s, a, a)
    ensures StudentStrictlyPrefers(s, a, b) ==> !StudentStrictlyPrefers(s, b, a)
  {
  }

  /** For a list of at most NoRank choices, strict preference means: a is listed,
      and b is either not listed or listed only after a's first occurrence. */
  lemma {:induction false} StudentStrictlyPrefersMeaning(s: Student, a: int, b: int)
    requires |s.choices| <= NoRank
    ensures StudentStrictlyPrefers(s, a, b) <==>
              a in s.choices
              && (b !in s.choices
                  || exists i :: 0 <= i < |s.choices| && s.choices[i] == a && b !in s.choices[..i + 1])
  {
    var ra := StudentRankForProject(s, a);
    var rb := StudentRankForProject(s, b);
    if a in s.choices && b in s.choices {
      if ra < rb {
        assert forall k :: 0 <= k <= ra ==> s.choices[k] != b;
        assert b !in s.choices[..ra + 1];
      } else {
        forall i | 0 <= i < |s.choices| && s.choices[i] == a
          ensures b in s.choices[..i + 1]
        {
          assert ra <= i;
          assert s.choices[..i + 1][rb] == b;
        }
      }
    }
  }

  /** SupervisorCategoryForProject (CheckAlloc.cpp:44-53): 0 for the staff
      member's own proposal, 1 for a project in their expertise, 2 otherwise. */
  function SupervisorCategoryForProject(st: Staff, p: Project): (c: int)
    ensures 0 <= c <= 2
    ensures c == 0 <==> p.proposer == st.id
    ensures c == 1 <==> p.proposer != st.id && p.subject in st.expertise
    ensures c == 2 <==> p.proposer != st.id && p.subject !in st.expertise
  {
    if p.proposer == st.id then 0
    else if p.subject in st.expertise then 1
    else 2
  }

  /** SupervisorStrictlyPrefersProject (CheckAlloc.cpp:55-58). */
  predicate SupervisorStrictlyPrefersProject(st: Staff, better: Project, worse: Project) {
    SupervisorCategoryForProject(st, better) < SupervisorCategoryForProject(st, worse)
  }

  /** Strict supervisor preference is irreflexive, asymmetric and transitive;
      projects of equal category are not strictly preferred either way. */
  lemma SupervisorPreferenceIsStrict(st: Staff, p: Project, q: Project, r: Project)
    ensures !SupervisorStrictlyPrefersProject(st, p, p)
    ensures SupervisorStrictlyPrefersProject(st, p, q) ==> !SupervisorStrictlyPrefersProject(st, q, p)
    ensures SupervisorStrictlyPrefersProject(st, p, q) && SupervisorStrictlyPrefersProject(st, q, r)
            ==> SupervisorStrictlyPrefersProject(st, p, r)
    ensures SupervisorStrictlyPrefersProject(st, p, q) ==> p.proposer == st.id || p.subject in st.expertise
  {
  }
}
