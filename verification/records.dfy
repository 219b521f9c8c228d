/** The shared data model of the allocator, the stability checker and the score:
    students, projects and staff, as built by the input parser. */
module Records {

  /** The conventional Some/None datatype. */
  datatype Option<+T> = None | Some(value: T)

  /** Sentinel for "no project assigned yet" (Student.h:8). */
  const NoProject: int := -1

  /** Sentinel for "no supervisor assigned yet": the empty string (Student.h:9). */
  const NoSupervisor: string := ""

  /** A student: id, ranked project choices (index 0 is most preferred) and the
      two assignment fields, which start out unset. */
  datatype Student = Student(
    id: string,
    choices: seq<int>,
    assignedProject: int,
    assignedSupervisor: string)
  {
    predicate HasProject() { assignedProject != NoProject }
    predicate HasSupervisor() { assignedSupervisor != NoSupervisor }
  }

  /** A project: id, proposing staff id, capacity, subject label and the
      running count of students placed on it. */
  datatype Project = Project(
    id: int,
    proposer: string,
    multiplicity: int,
    subject: string,
    assignedCount: int)
  {
    predicate HasSpace() { assignedCount < multiplicity }
  }

  /** A staff member: id, supervision capacity, running count of supervisees
      and the set of subject labels they are expert in. */
  datatype Staff = Staff(
    id: string,
    load: int,
    assignedCount: int,
    expertise: set<string>)
  {
    /** CanSupervise (Allocator.cpp:9-12). */
    predicate CanSupervise() { assignedCount < load }
  }
}
