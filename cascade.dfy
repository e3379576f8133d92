/** What the database does on `db.session.delete(...)` and on assigning a course roster,
    following the relationships declared in fopd/models.py:
    - `Teacher.students` and `Teacher.courses` cascade `all, delete-orphan`: a deleted teacher
      takes its students and courses with it;
    - `Course.students` cascades `all, delete-orphan`: a deleted course takes the students on
      its roster;
    - `Course.students` has the back-reference `Student.course`: putting a student on one
      roster takes it off any other;
    - `Course.students` is also `delete-orphan`: `course.students = []` leaves the former
      students without a course, and the next flush deletes them (`ClearRoster`). */
module Cascade {
  import opened Basics
  import opened Models

  /** `db.session.delete(student)`: the row goes, and so does its place on a roster. */
  function RemoveStudent(r: Tables, s: Id): (r': Tables)
    requires s in r.students
    ensures r'.teachers == r.teachers
    ensures s !in r'.students && r'.students.Keys == r.students.Keys - {s}
    ensures forall k :: k in r'.students ==> r'.students[k] == r.students[k]
    ensures r'.courses.Keys == r.courses.Keys
    ensures forall c :: c in r'.courses ==> s !in r'.courses[c].students
  {
    Tables(r.teachers, r.students - {s},
           map c | c in r.courses :: r.courses[c].(students := Without(r.courses[c].students, {s})))
  }

  lemma RemoveStudentConsistent(r: Tables, s: Id)
    requires Consistent(r) && s in r.students
    ensures Consistent(RemoveStudent(r, s))
  {
    var r' := RemoveStudent(r, s);
    assert OneCoursePerStudent(r') by {
      forall c, d, x | c in r'.courses && d in r'.courses && x in r'.courses[c].students && x in r'.courses[d].students
        ensures c == d
      {
        assert x in r.courses[c].students && x in r.courses[d].students;
      }
    }
  }

  /** `db.session.delete(course)`: the course goes, with every student on its roster. */
  function RemoveCourse(r: Tables, c: Id): (r': Tables)
    requires c in r.courses
    ensures r'.courses.Keys == r.courses.Keys - {c}
    ensures forall s :: s in r.courses[c].students ==> s !in r'.students
    ensures forall s :: s in r'.students ==> s in r.students && r'.students[s] == r.students[s]
  {
    var roster := r.courses[c].students;
    Tables(r.teachers, map s | s in r.students && s !in roster :: r.students[s], r.courses - {c})
  }

  lemma RemoveCourseConsistent(r: Tables, c: Id)
    requires Consistent(r) && c in r.courses
    ensures Consistent(RemoveCourse(r, c))
  {
    var r' := RemoveCourse(r, c);
    assert RostersExist(r') by {
      forall d, s | d in r'.courses && s in r'.courses[d].students ensures s in r'.students {
        assert s in r.courses[d].students && s in r.students;
      }
    }
  }

  /** The students that `db.session.delete(teacher)` removes: its own, and every student on
      the roster of one of its courses, whichever teacher that student belongs to. */
  function CascadedStudents(r: Tables, t: Id): (gone: set<Id>)
    ensures forall s :: s in r.students && r.students[s].teacher == t ==> s in gone
    ensures forall c, s :: c in r.courses && r.courses[c].teacher == t && s in r.courses[c].students && s in r.students ==> s in gone
    ensures gone <= r.students.Keys
  {
    set s | s in r.students && (r.students[s].teacher == t ||
                                exists c :: c in r.courses && r.courses[c].teacher == t && s in r.courses[c].students)
  }

  /** `db.session.delete(teacher)`. */
  function RemoveTeacher(r: Tables, t: Id): (r': Tables)
    requires t in r.teachers
    ensures r'.teachers.Keys == r.teachers.Keys - {t}
    ensures forall s :: s in r'.students ==> s in r.students && r'.students[s] == r.students[s]
    ensures forall c :: c in r'.courses ==> c in r.courses && r'.courses[c].name == r.courses[c].name
  {
    var gone := CascadedStudents(r, t);
    Tables(r.teachers - {t},
           map s | s in r.students && s !in gone :: r.students[s],
           map c | c in r.courses && r.courses[c].teacher != t ::
             r.courses[c].(students := Without(r.courses[c].students, gone)))
  }

  /** After the delete nothing refers to the teacher: every student and course that did is gone. */
  lemma RemoveTeacherLeavesNoOwnedRows(r: Tables, t: Id)
    requires Consistent(r) && t in r.teachers
    ensures var r' := RemoveTeacher(r, t);
      && (forall s :: s in r'.students ==> r'.students[s].teacher != t)
      && (forall c :: c in r'.courses ==> r'.courses[c].teacher != t)
      && (forall s :: s in r.students && r.students[s].teacher == t ==> s !in r'.students)
      && (forall c, s :: c in r.courses && r.courses[c].teacher == t && s in r.courses[c].students ==> s !in r'.students)
  {
  }

  /** A student or course survives exactly when it is not reached by the cascade. */
  lemma RemoveTeacherKeepsTheRest(r: Tables, t: Id)
    requires Consistent(r) && t in r.teachers
    ensures var r' := RemoveTeacher(r, t);
      && (forall c :: c in r.courses && r.courses[c].teacher != t ==> c in r'.courses)
      && (forall s :: s in r.students && r.students[s].teacher != t && (forall c :: c in r.courses && s in r.courses[c].students ==> r.courses[c].teacher != t)
            ==> s in r'.students)
      && (forall u :: u in r.teachers && u != t ==> u in r'.teachers && r'.teachers[u] == r.teachers[u])
  {
  }

  lemma RemoveTeacherConsistent(r: Tables, t: Id)
    requires Consistent(r) && t in r.teachers
    ensures Consistent(RemoveTeacher(r, t))
  {
    RemoveTeacherKeepsOwners(r, t);
    RemoveTeacherKeepsRosters(r, t);
  }

  /** Every surviving student and course still has its teacher. */
  lemma RemoveTeacherKeepsOwners(r: Tables, t: Id)
    requires Consistent(r) && t in r.teachers
    ensures StudentsHaveTeachers(RemoveTeacher(r, t)) && CoursesHaveTeachers(RemoveTeacher(r, t))
  {
    var r' := RemoveTeacher(r, t);
    var gone := CascadedStudents(r, t);
    forall s | s in r'.students ensures r'.students[s].teacher in r'.teachers {
      assert s !in gone;
    }
  }

  /** Every surviving roster lists surviving students, each on one roster only. */
  lemma RemoveTeacherKeepsRosters(r: Tables, t: Id)
    requires Consistent(r) && t in r.teachers
    ensures RostersExist(RemoveTeacher(r, t)) && OneCoursePerStudent(RemoveTeacher(r, t))
  {
    var r' := RemoveTeacher(r, t);
    forall c, d, x | c in r'.courses && d in r'.courses && x in r'.courses[c].students && x in r'.courses[d].students
      ensures c == d
    {
      assert x in r.courses[c].students && x in r.courses[d].students;
    }
  }

  /** Appending the students of `roster` to course `c`: the course's roster becomes `roster`,
      and the students on it leave whatever roster they were on before. The handlers apply it
      after `ClearRoster`, so the course drops no student here. */
  function AssignRoster(r: Tables, c: Id, roster: seq<Id>): (r': Tables)
    requires c in r.courses
    ensures r'.teachers == r.teachers && r'.students == r.students
    ensures r'.courses.Keys == r.courses.Keys
    ensures forall k :: k in r'.courses ==> r'.courses[k].name == r.courses[k].name && r'.courses[k].teacher == r.courses[k].teacher
  {
    var moved := set s | s in roster;
    r.(courses := map k | k in r.courses ::
         if k == c then r.courses[k].(students := roster)
         else r.courses[k].(students := Without(r.courses[k].students, moved)))
  }

  /** Every listed student is on course `c` and no other; every other roster lost only
      listed students. */
  lemma AssignRosterPlacement(r: Tables, c: Id, roster: seq<Id>)
    requires c in r.courses
    ensures var r' := AssignRoster(r, c, roster);
      && r'.courses[c].students == roster
      && (forall k, s :: k in r'.courses && s in r'.courses[k].students ==> (k == c <==> s in roster))
      && (forall k, s :: k in r.courses && k != c && s in r.courses[k].students && s !in roster ==> s in r'.courses[k].students)
  {
    var r' := AssignRoster(r, c, roster);
    forall k, s | k in r'.courses && s in r'.courses[k].students && k != c ensures s !in roster {
      assert r'.courses[k].students == Without(r.courses[k].students, set x | x in roster);
    }
  }

  lemma AssignRosterConsistent(r: Tables, c: Id, roster: seq<Id>)
    requires Consistent(r) && c in r.courses
    requires forall s :: s in roster ==> s in r.students
    ensures Consistent(AssignRoster(r, c, roster))
  {
    var r' := AssignRoster(r, c, roster);
    AssignRosterPlacement(r, c, roster);
    assert RostersExist(r') by {
      forall k, s | k in r'.courses && s in r'.courses[k].students ensures s in r'.students {
        if k != c {
          assert s in r.courses[k].students;
        }
      }
    }
    assert OneCoursePerStudent(r') by {
      forall k, d, x | k in r'.courses && d in r'.courses && x in r'.courses[k].students && x in r'.courses[d].students
        ensures k == d
      {
        if k != c && d != c {
          assert x in r.courses[k].students && x in r.courses[d].students;
        }
      }
    }
  }

  /** `course.students = []` and the autoflush of the next query: the roster is emptied, and
      the students that were on it, orphans of `Course.students`, are deleted. */
  function ClearRoster(r: Tables, c: Id): (r': Tables)
    requires c in r.courses
    ensures r'.teachers == r.teachers
    ensures r'.courses.Keys == r.courses.Keys
    ensures r'.courses[c] == r.courses[c].(students := [])
    ensures forall k :: k in r.courses && k != c ==> r'.courses[k] == r.courses[k]
    ensures forall s :: s in r.courses[c].students ==> s !in r'.students
    ensures forall s :: s in r.students && s !in r.courses[c].students ==> s in r'.students && r'.students[s] == r.students[s]
    ensures forall s :: s in r'.students ==> s in r.students
  {
    var roster := r.courses[c].students;
    Tables(r.teachers, map s | s in r.students && s !in roster :: r.students[s],
           r.courses[c := r.courses[c].(students := [])])
  }

  lemma ClearRosterConsistent(r: Tables, c: Id)
    requires Consistent(r) && c in r.courses
    ensures Consistent(ClearRoster(r, c))
  {
    var r' := ClearRoster(r, c);
    assert RostersExist(r') by {
      forall k, s | k in r'.courses && s in r'.courses[k].students ensures s in r'.students {
        assert k != c && s in r.courses[k].students;
        assert s !in r.courses[c].students;
      }
    }
    assert OneCoursePerStudent(r') by {
      forall k, d, x | k in r'.courses && d in r'.courses && x in r'.courses[k].students && x in r'.courses[d].students
        ensures k == d
      {
        assert x in r.courses[k].students && x in r.courses[d].students;
      }
    }
  }

  /** `course.name = ...` followed by commit: only that course's name changes. */
  function RenameCourse(r: Tables, c: Id, name: string): (r': Tables)
    requires c in r.courses
    ensures r'.teachers == r.teachers && r'.students == r.students
    ensures r'.courses.Keys == r.courses.Keys
    ensures r'.courses[c] == r.courses[c].(name := name)
    ensures forall k :: k in r.courses && k != c ==> r'.courses[k] == r.courses[k]
  {
    r.(courses := r.courses[c := r.courses[c].(name := name)])
  }

  lemma RenameCourseConsistent(r: Tables, c: Id, name: string)
    requires Consistent(r) && c in r.courses
    ensures Consistent(RenameCourse(r, c, name))
  {
    var r' := RenameCourse(r, c, name);
    assert OneCoursePerStudent(r') by {
      forall k, d, x | k in r'.courses && d in r'.courses && x in r'.courses[k].students && x in r'.courses[d].students
        ensures k == d
      {
        assert x in r.courses[k].students && x in r.courses[d].students;
      }
    }
  }

  /** `update_course`'s commit: the old roster is cleared and its students deleted, the new
      roster of surviving students is assigned, and the course is renamed. The result is
      consistent, the course holds exactly the new name and roster, and none of its former
      students is left. */
  lemma ReplaceRosterConsistent(r: Tables, c: Id, roster: seq<Id>, name: string)
    requires Consistent(r) && c in r.courses
    requires forall s :: s in roster ==> s in ClearRoster(r, c).students
    ensures var r' := RenameCourse(AssignRoster(ClearRoster(r, c), c, roster), c, name);
      && Consistent(r') && r'.teachers == r.teachers
      && r'.courses[c] == Course(name, r.courses[c].teacher, roster)
      && (forall s :: s in r.courses[c].students ==> s !in r'.students)
  {
    var cleared := ClearRoster(r, c);
    ClearRosterConsistent(r, c);
    AssignRosterConsistent(cleared, c, roster);
    AssignRosterPlacement(cleared, c, roster);
    RenameCourseConsistent(AssignRoster(cleared, c, roster), c, name);
  }
}
