# Student–project–supervisor allocation, modelled in Dafny

This project models the three algorithmic pieces of a small C++ tool. The tool
assigns students to capacity-limited projects and to capacity-limited
supervising staff, and then judges a candidate assignment:

- **the allocator** (`allocate` in `Allocator.cpp`), a deterministic greedy
  matcher that works in four stages:
  - phase 1 places students by their preference lists;
  - phase 2 lets every staff member, in ascending id order, take supervisees
    in three passes: own projects, then expertise, then anything;
  - a safety net places and supervises whoever is still left while capacity
    remains;
- **the stability checker** (`main` in `CheckAlloc.cpp`), which reads one
  `student project supervisor` line per student and answers VALID or INVALID.
  INVALID covers malformed lines, unknown or repeated students, missing
  students, unknown ids, capacity overflow, and four stability rules;
- **the score** (`computeScore` in `Score.cpp`), which sums preference points
  and supervision points.

How the files are organised:

- `records.dfy`: the records shared by all three pieces. The `-1` and `""`
  sentinels stand for "not assigned".
- `ordering.dfy`: the ascending id orders the allocator iterates in. Project
  ids use numeric order and staff ids use `std::string` order.
- `preferences.dfy`: the rank and category helpers of the checker, which the
  score reuses.
- `score.dfy`, `checker.dfy`: the score and the checker.
- `allocstate.dfy`: the allocator's state, a record of the student list, the
  project map and the staff map. It also defines the relation `Progress(a, b)`
  between an earlier and a later state, which every step of the allocator
  satisfies:
  - **Write-once.** A student's project and supervisor fields change only
    while they are unset.
  - **Capacity.** Every counter only rises. A counter that moved stays within
    its project's multiplicity or its staff member's load.
  - **Counter consistency.** Each counter rises by exactly the number of
    students newly placed on that project or supervised by that staff member.
  - **Constant slack.** Spare project capacity minus the number of unplaced
    students stays constant. The same holds for spare staff load minus the
    number of unsupervised students.
- `allocator.dfy`: one method per primitive, per sweep and per phase. Each
  method threads the state record through loops with invariants.

**Well-formed states.** Counter consistency and the slack properties are
stated for *well-formed* states. In a well-formed state, every map key equals
its record's id, no project has id `-1`, and no staff member has id `""`.
The parser never builds other states except through a project whose id is
`-1`. For such a project, the code bumps a counter while the student still
reads as unplaced.

**Behaviour worth knowing, modelled as the code has it:**

- The score does not cap the rank: Score.cpp:16-19 gives `4 - i` for a
  project at index `i` of the choice list, so a student placed on its sixth
  choice scores −1.
- The checker skips any line whose *first* token is all digits, whatever
  follows it. The comment at CheckAlloc.cpp:112-113 speaks of a line with no
  other tokens, but the test at CheckAlloc.cpp:114-118 looks at the first
  token only; where the comment and the code disagree, the model follows the
  code.
- The checker ignores tokens after `student project supervisor`: the read at
  CheckAlloc.cpp:120 takes two more tokens and never looks further.

**What is not claimed.** The model does not claim that the allocator's output
is always VALID, and the code does not guarantee it. A student left without a
supervisor is written as a two-token line, and the checker rejects such a
line (`Checker.UnsupervisedLineIsMalformed`).

## Model

| member | source | states |
|---|---|---|
| Ordering.SortedInts | Allocator.cpp:88-93 | the project ids listed exactly once each, in strictly increasing numeric order |
| Ordering.SortedStrings | Allocator.cpp:81-86 | the staff ids listed exactly once each, in strictly increasing std::string order |
| Ordering.StrLessIrreflexive | Allocator.cpp:86 | no string sorts before itself under the std::string order the staff sort uses |
| Ordering.StrLessAsymmetric | Allocator.cpp:86 | two strings never sort before each other |
| Ordering.StrLessTransitive | Allocator.cpp:86 | the std::string order is transitive |
| Ordering.StrLessTotal | Allocator.cpp:86 | any two different strings are ordered one way or the other, so together with the three lemmas above the std::string order is a strict total order |
| Preferences.StudentRankForProject | CheckAlloc.cpp:24-31 | the result is the index of the first occurrence of the project in the choice list, and 1 000 000 when the project is not listed |
| Preferences.StudentPreferenceIsStrict | CheckAlloc.cpp:33-42 | strict student preference is irreflexive and asymmetric |
| Preferences.StudentStrictlyPrefersMeaning | CheckAlloc.cpp:33-42 | a is strictly preferred to b iff a is listed and b is unlisted or first appears only after some occurrence of a |
| Preferences.SupervisorCategoryForProject | CheckAlloc.cpp:46-53 | the category is in {0,1,2}; it is 0 iff the staff member proposed the project, 1 iff not the proposer but expert in its subject, 2 iff neither |
| Preferences.SupervisorPreferenceIsStrict | CheckAlloc.cpp:55-58 | strict supervisor preference is irreflexive, asymmetric and transitive, and only an own or expertise project is ever strictly preferred |
| Score.ComputeScore | Score.cpp:4-51 | the two loops return the sum over students of their preference points plus their supervision points |
| Score.TotalSplits | Score.cpp:9-50 | the score is the preference total plus the supervision total |
| Score.PreferencePointsByRank | Score.cpp:13-24 | a student's preference points are 4 minus the checker's rank of its project when listed, and 0 when not |
| Score.SixthChoiceScoresNegative | Score.cpp:16-19 | the rank is not capped: a sixth choice yields −1 |
| Score.SupervisorPointsByCategory | Score.cpp:28-47 | for a student with a known project and supervisor the supervision points are 4 − 2 × the checker's supervisor category |
| Score.TopChoiceUnderProposerScoresEight | Score.cpp:13-47 | a student on its first choice supervised by that project's proposer contributes exactly 8 |
| Score.StudentPointsBounds | Score.cpp:13-47 | with at most five choices a student contributes between 0 and 8 |
| Score.TotalBounds | Score.cpp:9-50 | with at most five choices per student, 0 ≤ score ≤ 8 × number of students |
| Score.TotalIsOrderIndependent | Score.cpp:9-50 | any permutation of the student list gives the same score |
| Checker.ParseIntRoundTrip | CheckAlloc.cpp:120 | reading back the decimal notation of any int yields that int |
| Checker.ClassifyLine | CheckAlloc.cpp:98-123 | a line is skipped iff it has no token or its first token is all digits; it yields a triple iff it has at least three tokens, a non-digit first token and an int second token, and the triple is made of the first three tokens; otherwise it is malformed |
| Checker.TripleLineRoundTrip | CheckAlloc.cpp:103-123 | a token triple `sid pid sup` whose student id is not all digits reads back as the same triple |
| Checker.UnsupervisedLineIsMalformed | CheckAlloc.cpp:120-123 | the two-token line written for an unsupervised student is malformed |
| Checker.ReadAllocationMeaning | CheckAlloc.cpp:97-138 | reading succeeds iff no line is malformed and the triples name known, pairwise distinct students; the result maps exactly those students to their line's project and supervisor |
| Checker.CompleteAllocation | CheckAlloc.cpp:140-144 | when as many distinct known students were read as there are students, every student was read and student ids are distinct |
| Checker.CompleteRead | CheckAlloc.cpp:97-144 | an accepted read with one entry per student has well-formed lines, distinct students, and each student's slot taken from its own line |
| Checker.Rule1Meaning | CheckAlloc.cpp:207-222 | Rule 1 fires for a student iff some choice it strictly prefers to its assignment is available; for an unlisted assignment iff any choice is available |
| Checker.Rule2IsSymmetric | CheckAlloc.cpp:235-250 | Rule 2 over pairs i < j fires iff some two distinct students, in either order, would both gain by swapping |
| Checker.Rule4IsSymmetric | CheckAlloc.cpp:299-329 | the Rule 4 swap condition is symmetric in the two supervisees and never relates a student to itself |
| Checker.CheckAllocation | CheckAlloc.cpp:89-331 | VALID only when no line is malformed, student ids are distinct, every student has exactly one line, and every line names a known student, project and supervisor |
| Checker.UsageCountsEntries | CheckAlloc.cpp:146-168 | the per-project and per-supervisor counts built from the map equal the number of triples naming that project or supervisor |
| Checker.Rule3Meaning | CheckAlloc.cpp:259-283 | for a student whose project is not among its choices, Rule 3 fires iff some available project has a lower supervisor category than the assigned one; it never fires when the supervisor proposed the assigned project; a better project is always the supervisor's own or in its expertise; with at most 1 000 000 choices it fires only for an unlisted project |
| Checker.CheckAllocationMeaning | CheckAlloc.cpp:89-331 | VALID iff all of these hold over the triples read: no line is malformed; each student has exactly one line naming known records; no project is named more often than its multiplicity and no supervisor more often than its load; no student ranks an open choice above its line's project (Rule 1); no two different students would both gain by swapping projects (Rule 2); no student with an unlisted project has a supervisor who strictly prefers an open project (Rule 3); no two lines with different supervisors each prefer the other's project (Rule 4) |
| AllocState.PlaceProgress | Allocator.cpp:27-28 | placing an unplaced student on a project with room is write-once, keeps the counter within capacity, raises exactly that project's counter by the one new placement and keeps the slack |
| AllocState.SuperviseProgress | Allocator.cpp:69-70 | supervising an unsupervised student by a staff member with spare load is write-once, keeps the counter within load, raises exactly that counter by the one new supervision and keeps the slack |
| AllocState.ProgressKeepsCapacity | Allocator.cpp:24-28 | once every counter is within capacity, every later state keeps it so |
| Allocator.AssignProjectIfNeeded | Allocator.cpp:14-30 | succeeds iff the id names a project with a free place; then only that student and that project's counter change, otherwise nothing changes |
| Allocator.EnsureStudentHasAnyProject | Allocator.cpp:32-49 | a placed student gives true with nothing changed; otherwise the student goes onto the first listed project with a free place, or the result is false with nothing changed; other students are untouched |
| Allocator.EnsureStudentPicksSmallest | Allocator.cpp:40-47 | over the ascending id list the chosen project has the smallest id among projects with a free place, and none is chosen iff all are full |
| Allocator.FirstOpenIsLeast | Allocator.cpp:88-93 | the first match in the ascending id list is the least matching project id, and there is one iff some project matches |
| Allocator.TryAssignSupervisorToStudent | Allocator.cpp:51-72 | succeeds iff the staff member has spare load and the student is on an existing project without a supervisor; then the supervisor becomes that staff member's id and only its counter rises by one |
| Allocator.PlaceByPreference | Allocator.cpp:99-105 | an unplaced student goes onto its first choice that exists and has a free place, and every choice listed before it has no free place; if none qualifies it stays unplaced and none of its choices has room |
| Allocator.Phase1 | Allocator.cpp:98-106 | only project fields change; every newly placed student is on one of its own choices, and at the end no choice it lists before that one has a free place; every student still unplaced has no choice with a free place |
| Allocator.PlaceOnFirstOpen | Allocator.cpp:146-154 | the student goes onto the first listed project with room that the pass accepts, recording that project's id, or nothing changes when there is none |
| Allocator.SupervisePlaced | Allocator.cpp:120-135 | no placement changes; every supervision recorded is by this staff member, of a student whose existing project the pass accepts; the flag is set iff it took someone; afterwards it is at load or no placed, unsupervised student on an existing project the pass accepts remains |
| Allocator.PlaceOne | Allocator.cpp:191-208 | a student with neither project nor supervisor goes onto the first listed project open for the pass's filter, recording that project's id, and this staff member then supervises it exactly when it has spare load and the recorded id names an existing project; anyone else, or a student with no open project, leaves the state unchanged; the flag is set iff it took the student |
| Allocator.PlaceAndSupervise | Allocator.cpp:236-252 | the placing sweep supervises only through this staff member on accepted projects, and every student it places is also supervised; it creates no new student to supervise; afterwards the staff member is at load, or nobody lacks both project and supervisor, or no listed project is open for the pass's filter; the flag is set iff it took someone |
| Allocator.Sweep | Allocator.cpp:166-209 | a full sweep records supervisions only by this staff member on accepted projects and supervises everyone it places; afterwards the staff member is at load or settled: nobody it could supervise in the pass remains, and nobody waits for a placement or no listed project is open for its filter |
| Allocator.SupervisedByWithin | Allocator.cpp:179 | a supervision allowed by a pass's filter has supervisor category at most 0, 1 or 2 for the own, expertise and any pass |
| Allocator.Phase2Own | Allocator.cpp:113-157 | every supervision recorded in pass 2.1 is by the project's proposer (category 0); every student placed in the pass is supervised; at the end every listed staff member is at load or settled for its own projects |
| Allocator.RepeatSweeps | Allocator.cpp:163-213 | the repeat loop terminates, with measure load − assigned; it supervises only through this staff member on accepted projects and supervises everyone it places; at exit the staff member is at load or settled for the pass |
| Allocator.Phase2Repeated | Allocator.cpp:159-257 | every supervision recorded in pass 2.2 has category at most 1, and in pass 2.3 at most 2; every student placed in the pass is supervised; at the end every listed staff member is at load or settled for the pass |
| Allocator.Phase2 | Allocator.cpp:108-257 | every student placed in phase 2 is supervised, and at the end every listed staff member is at load or settled for the any-project pass |
| Allocator.SafetyNetProjects | Allocator.cpp:262-264 | afterwards every student is placed or every project is full |
| Allocator.OfferToStaff | Allocator.cpp:270-274 | only a student on an existing project without a supervisor is taken, by the first staff member in the list with spare load; when none accepts nothing changes, and a waiting student then found every listed staff member at load |
| Allocator.SafetyNetSupervisors | Allocator.cpp:266-275 | afterwards no student on an existing project is without a supervisor, or every staff member is at load |
| Allocator.SafetyNet | Allocator.cpp:259-275 | both halves' coverage guarantees hold at the end |
| Allocator.PlacedWhenCapacitySuffices | Allocator.cpp:262-264 | when free places covered the unplaced students at the start, the end state has every student placed |
| Allocator.SupervisedWhenLoadSuffices | Allocator.cpp:266-275 | when free load covered the unsupervised students at the start, the end state has every student supervised |
| Allocator.Allocate | Allocator.cpp:75-276 | the output has write-once assignments, counters within capacity, and counters that equal their start plus the students newly assigned to them; nobody is unplaced unless every project is full; everybody is placed when spare places cover the unplaced students; and everybody is supervised when spare load also covers the unsupervised students |

## Left out

- `Parser.cpp` and `Parser.h`, file reading into records: these are I/O. The model takes the records as Dafny values.
- `main.cpp` is not part of the model. It covers the command line, sorting students by id for output, and writing the output file. Only the shape of one output line is used, in `Checker.TripleLineRoundTrip` and `Checker.UnsupervisedLineIsMalformed`.
- The checker's argument-count and file-open handling (CheckAlloc.cpp:63-66, 83-87): these are process exit codes and stderr messages.
- Reading lines: a line is modelled as its whitespace-separated tokens, and the project field is parsed from one whole token (`[+-]?digits`). `std::istream >> int` splits a token such as `12abc` into a number and the rest; that quirk and out-of-range ints are not modelled.
- Ordering.StrLess: ids are sequences of characters compared by code point; `std::string` compares bytes as `unsigned char`, which gives the same order on ASCII ids and on UTF-8 text.
- Integer width: counters, ranks and the score are unbounded integers, so 32-bit overflow is not modelled.
- Iteration order of `std::unordered_map` in the checker: the legality loops and Rule 3 are modelled as universal or existential predicates over maps. `Checker.Rule2IsSymmetric` and `Checker.Rule4IsSymmetric` show that the pair order does not matter. The allocator's explicit sorted order is kept.
- Checker.Rule1Meaning: it assumes at most 1 000 000 choices, so that a real index never equals the "not listed" rank.
- Preferences.StudentStrictlyPrefersMeaning: it assumes at most 1 000 000 choices for the same reason.
- Preferences.StudentRankForProject: with more than 1 000 000 choices a real index can equal the "not listed" rank, so the result is 1 000 000 when the project is not listed but not only then.
- Allocator.Allocate: counter consistency, constant slack and the coverage results are stated for well-formed states only. In other states the code can increment a counter without the student reading as placed.
- Allocator.Allocate: the supervisor coverage result also assumes that every already-placed student is on an existing project. The code never supervises a student whose project id is unknown.
- Allocator.Phase2: the category bounds are stated per pass, in `Allocator.Phase2Own` and `Allocator.Phase2Repeated`. The phase as a whole states the settled state for the last pass only; the earlier passes' settled states are stated by those two methods.
- Allocator.Phase1: the "no unplaced student has an open choice" result is stated for well-formed states only.
- Allocator.PlaceByPreference: the "no open choice when unplaced" result is stated for well-formed states only.
- Allocator.SupervisePlaced, Allocator.PlaceOne, Allocator.PlaceAndSupervise, Allocator.Sweep, Allocator.RepeatSweeps, Allocator.Phase2Own, Allocator.Phase2Repeated: the supervision, category and settled results are stated for well-formed states only.
- Allocator.SafetyNetProjects: its coverage result is stated for well-formed states only.
- Allocator.SafetyNetSupervisors: its coverage result is stated for well-formed states only.
- Allocator.SafetyNet: its coverage results are stated for well-formed states only.
