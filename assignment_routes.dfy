/** The assignment blueprint (fopd/assignments/routes.py).

    `update_assignment` overwrites a field only when the body gives it a truthy value, and it
    appends to the roster instead of replacing it; but it looks each listed student up without
    `.first()` and appends the query object itself, which the ORM refuses, so any non-empty
    `student_ids` makes the update raise before the commit. */
module Assignments {
  import opened Basics
  import opened Models
  import opened Api
  import opened Roster

  /** `create_assignment`: a new assignment of the path teacher, with the listed public ids that
      name a student attached in list order. */
  method CreateAssignment(db: Database, teacherId: Id, json: Option<AssignmentForm>, newId: Id)
    returns (r: Reply<AssignmentView>)
    requires db.Valid()
    modifies db
    ensures db.Valid()
    ensures !r.Ok? ==> unchanged(db)
    ensures teacherId !in old(db.teachers) ==> r == Fail("Account does not exist")
    ensures teacherId in old(db.teachers) && NoAssignmentInfo(json) ==> r == Fail("No assignment information provided")
    ensures teacherId in old(db.teachers) && !NoAssignmentInfo(json) && json.value.title.None? ==> r == Crash(KeyError("title"))
    ensures teacherId in old(db.teachers) && !NoAssignmentInfo(json) && json.value.title.Some?
            ==> var f := json.value;
                && (f.description.None? ==> r == Crash(KeyError("description")))
                && (f.description.Some? && f.kind.None? ==> r == Crash(KeyError("type")))
                && (f.description.Some? && f.kind.Some? && f.dueDate.None? ==> r == Crash(KeyError("due_date")))
                && (f.description.Some? && f.kind.Some? && f.dueDate.Some? && newId in old(db.assignments)
                    ==> r == Fail("Assignment not created"))
    ensures r.Ok? <==>
      && teacherId in old(db.teachers) && !NoAssignmentInfo(json)
      && json.value.title.Some? && json.value.description.Some? && json.value.kind.Some? && json.value.dueDate.Some?
      && newId !in old(db.assignments)
    ensures r.Ok? ==>
      var f := json.value;
      var attached := ResolvePublicIds(old(db.students), f.studentIds.GetOr([]));
      && db.assignments == old(db.assignments)[newId := Assignment(f.title.value, f.description.value, f.kind.value, f.dueDate.value, teacherId, attached)]
      && db.Rows() == old(db.Rows()) && db.experiments == old(db.experiments) && db.responses == old(db.responses)
      && r.value == AssignmentView(newId, f.title.value, f.description.value, f.kind.value, f.dueDate.value, teacherId, attached, |attached|)
  {
    if teacherId !in db.teachers {
      return Fail("Account does not exist");
    }
    if NoAssignmentInfo(json) {
      return Fail("No assignment information provided");
    }
    var form := json.value;
    if form.title.None? {
      return Crash(KeyError("title"));
    }
    if form.description.None? {
      return Crash(KeyError("description"));
    }
    if form.kind.None? {
      return Crash(KeyError("type"));
    }
    if form.dueDate.None? {
      return Crash(KeyError("due_date"));
    }
    var attached := CollectStudentsByPublicId(db.students, form.studentIds.GetOr([]));
    // the commit violates the unique constraint on `public_id`
    if newId in db.assignments {
      return Fail("Assignment not created");
    }
    var a := Assignment(form.title.value, form.description.value, form.kind.value, form.dueDate.value, teacherId, attached);
    db.assignments := db.assignments[newId := a];
    r := Ok(AssignmentView(newId, a.title, a.description, a.kind, a.dueDate, teacherId, attached, |attached|));
  }

  /** The checks of `update_assignment` and `delete_assignment`, in this order: the teacher
      exists, the assignment exists, the assignment belongs to the teacher. The two handlers
      word the last two refusals differently. */
  function AssignmentAccess(teachers: map<Id, Teacher>, assignments: map<Id, Assignment>, teacherId: Id, assignmentId: Id,
                            missing: string, denied: string): (refusal: Option<string>)
    ensures refusal.None? <==> teacherId in teachers && assignmentId in assignments && assignments[assignmentId].teacher == teacherId
    ensures teacherId !in teachers ==> refusal == Some("Account does not exist")
    ensures teacherId in teachers && assignmentId !in assignments ==> refusal == Some(missing)
    ensures teacherId in teachers && assignmentId in assignments && assignments[assignmentId].teacher != teacherId ==> refusal == Some(denied)
  {
    if teacherId !in teachers then Some("Account does not exist")
    else if assignmentId !in assignments then Some(missing)
    else if assignments[assignmentId].teacher != teacherId then Some(denied)
    else None
  }

  /** The value a field of `update_assignment` ends with: the body's value when it is truthy,
      the current one otherwise. */
  function Overwrite(current: string, given: Option<string>): (v: string)
    ensures v == current || (given.Some? && v == given.value)
    ensures v != current ==> Truthy(given)
    ensures Truthy(given) ==> v == given.value
  {
    if Truthy(given) then given.value else current
  }

  /** The assignment after the field overwrites of `update_assignment`. */
  function Revise(a: Assignment, f: AssignmentForm): (a': Assignment)
    ensures a'.teacher == a.teacher && a'.students == a.students
    ensures a'.title == Overwrite(a.title, f.title) && a'.kind == Overwrite(a.kind, f.kind)
    ensures a'.description == Overwrite(a.description, f.description) && a'.dueDate == Overwrite(a.dueDate, f.dueDate)
  {
    a.(title := Overwrite(a.title, f.title), kind := Overwrite(a.kind, f.kind),
       description := Overwrite(a.description, f.description), dueDate := Overwrite(a.dueDate, f.dueDate))
  }

  /** A body that gives no field a truthy value leaves the assignment as it is. */
  lemma ReviseWithNothingTruthy(a: Assignment, f: AssignmentForm)
    requires !Truthy(f.title) && !Truthy(f.kind) && !Truthy(f.description) && !Truthy(f.dueDate)
    ensures Revise(a, f) == a
  {
  }

  /** Sending the same body twice has the effect of sending it once. */
  lemma ReviseIdempotent(a: Assignment, f: AssignmentForm)
    ensures Revise(Revise(a, f), f) == Revise(a, f)
  {
  }

  /** `update_assignment`. */
  method UpdateAssignment(db: Database, teacherId: Id, assignmentId: Id, json: Option<AssignmentForm>)
    returns (r: Reply<AssignmentView>)
    requires db.Valid()
    modifies db
    ensures db.Valid()
    ensures !r.Ok? ==> unchanged(db)
    ensures var refusal := AssignmentAccess(old(db.teachers), old(db.assignments), teacherId, assignmentId,
                                            "Experiment does not exist", "Teacher not authorized to update assignment");
            refusal.Some? ==> r == Fail(refusal.value)
    ensures r.Ok? <==>
      && AssignmentAccess(old(db.teachers), old(db.assignments), teacherId, assignmentId,
                          "Experiment does not exist", "Teacher not authorized to update assignment").None?
      && !NoAssignmentInfo(json) && json.value.studentIds.GetOr([]) == []
    ensures r.Crash? <==>
      && AssignmentAccess(old(db.teachers), old(db.assignments), teacherId, assignmentId,
                          "Experiment does not exist", "Teacher not authorized to update assignment").None?
      && !NoAssignmentInfo(json) && json.value.studentIds.GetOr([]) != []
    ensures r.Crash? ==> r.fault == OrmError
    ensures r.Fail? && AssignmentAccess(old(db.teachers), old(db.assignments), teacherId, assignmentId,
                                        "Experiment does not exist", "Teacher not authorized to update assignment").None?
            ==> r.message == "No assignment information provided to update assignment `" + assignmentId + "`"
    ensures r.Ok? ==>
      var a' := Revise(old(db.assignments)[assignmentId], json.value);
      && db.assignments == old(db.assignments)[assignmentId := a']
      && db.Rows() == old(db.Rows()) && db.experiments == old(db.experiments) && db.responses == old(db.responses)
      && r.value == AssignmentView(assignmentId, a'.title, a'.description, a'.kind, a'.dueDate, teacherId, [], 0)
  {
    var refusal := AssignmentAccess(db.teachers, db.assignments, teacherId, assignmentId,
                                    "Experiment does not exist", "Teacher not authorized to update assignment");
    if refusal.Some? {
      return Fail(refusal.value);
    }
    if NoAssignmentInfo(json) {
      return Fail("No assignment information provided to update assignment `" + assignmentId + "`");
    }
    var form := json.value;
    var a := Revise(db.assignments[assignmentId], form);
    if form.studentIds.GetOr([]) != [] {
      // `assignment.students.append(student)` with `student` a query, not a mapped row
      return Crash(OrmError);
    }
    db.assignments := db.assignments[assignmentId := a];
    r := Ok(AssignmentView(assignmentId, a.title, a.description, a.kind, a.dueDate, teacherId, [], 0));
  }

  /** `delete_assignment`: after the checks, the assignment row goes. */
  method DeleteAssignment(db: Database, teacherId: Id, assignmentId: Id) returns (r: Reply<string>)
    requires db.Valid()
    modifies db
    ensures db.Valid()
    ensures r.Ok? <==> AssignmentAccess(old(db.teachers), old(db.assignments), teacherId, assignmentId,
                                        "Assignment does not exist", "Teacher not authorized to delete assignment").None?
    ensures !r.Ok? ==> r.Fail? && Some(r.message) == AssignmentAccess(old(db.teachers), old(db.assignments), teacherId, assignmentId,
                                                                       "Assignment does not exist", "Teacher not authorized to delete assignment")
    ensures !r.Ok? ==> unchanged(db)
    ensures r.Ok? ==>
      && db.assignments == old(db.assignments) - {assignmentId}
      && db.Rows() == old(db.Rows()) && db.experiments == old(db.experiments) && db.responses == old(db.responses)
  {
    var refusal := AssignmentAccess(db.teachers, db.assignments, teacherId, assignmentId,
                                    "Assignment does not exist", "Teacher not authorized to delete assignment");
    if refusal.Some? {
      return Fail(refusal.value);
    }
    db.assignments := db.assignments - {assignmentId};
    r := Ok("Assignment has been deleted");
  }
}
