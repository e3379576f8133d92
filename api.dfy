/** Request bodies and reply payloads of the HTTP handlers.

    A JSON body is `None` when `request.json` is `None`; otherwise it is an object that holds
    the fields a handler reads (each absent or present) and, in `otherKeys`, whether it holds
    any key the handler does not read. `not request.json` is true for `None` and for `{}`. */
module Api {
  import opened Basics
  import opened Models

  /** The default the handlers give an absent `fname` or `lname`. */
  const NoName: string := "No name"

  /** The body of the account routes: registration, update and login. */
  datatype AccountForm = AccountForm(username: Option<string>, password: Option<string>,
                                     fname: Option<string>, lname: Option<string>,
                                     teacherUsername: Option<string>, otherKeys: bool)
  {
    predicate IsEmpty() {
      username.None? && password.None? && fname.None? && lname.None? && teacherUsername.None? && !otherKeys
    }
  }

  datatype CourseForm = CourseForm(name: Option<string>, teacherUsername: Option<string>,
                                   studentUsernames: Option<seq<string>>, otherKeys: bool)
  {
    predicate IsEmpty() {
      name.None? && teacherUsername.None? && studentUsernames.None? && !otherKeys
    }
  }

  datatype ExperimentForm = ExperimentForm(title: Option<string>, description: Option<string>,
                                           plant: Option<string>, startDate: Option<string>,
                                           studentUsernames: Option<seq<string>>, otherKeys: bool)
  {
    predicate IsEmpty() {
      title.None? && description.None? && plant.None? && startDate.None? && studentUsernames.None? && !otherKeys
    }
  }

  /** `kind` is the JSON field `type`. */
  datatype AssignmentForm = AssignmentForm(title: Option<string>, description: Option<string>,
                                           kind: Option<string>, dueDate: Option<string>,
                                           studentIds: Option<seq<Id>>, otherKeys: bool)
  {
    predicate IsEmpty() {
      title.None? && description.None? && kind.None? && dueDate.None? && studentIds.None? && !otherKeys
    }
  }

  datatype ResponseForm = ResponseForm(response: Option<string>, comments: Option<string>, otherKeys: bool)
  {
    predicate IsEmpty() {
      response.None? && comments.None? && !otherKeys
    }
  }

  /** `not account_info`, `not course_info`, ... : no body, or an empty object. */
  predicate NoAccountInfo(json: Option<AccountForm>) { json.None? || json.value.IsEmpty() }
  predicate NoCourseInfo(json: Option<CourseForm>) { json.None? || json.value.IsEmpty() }
  predicate NoExperimentInfo(json: Option<ExperimentForm>) { json.None? || json.value.IsEmpty() }
  predicate NoAssignmentInfo(json: Option<AssignmentForm>) { json.None? || json.value.IsEmpty() }
  predicate NoResponseInfo(json: Option<ResponseForm>) { json.None? || json.value.IsEmpty() }

  /** Python truthiness of an optional string: present and not empty. */
  predicate Truthy(field: Option<string>) {
    field.Some? && field.value != ""
  }

  /** The account summary the account routes return: username, public id and names. */
  datatype Profile = Profile(username: string, id: Id, fname: string, lname: string)

  /** The blueprint logins return a fresh token together with the account's profile. */
  datatype Login = Login(token: string, profile: Profile)

  /** A course as the live `get_teacher_course_by_id` and `register_course` return it: name,
      public id and teacher, without the roster. Related rows are given by public id. */
  datatype CourseHeader = CourseHeader(name: string, id: Id, teacher: Id)

  /** A course as the blueprint's `get_teacher_course_by_id` returns it, with its roster. */
  datatype CourseView = CourseView(name: string, id: Id, teacher: Id, students: seq<Id>, numStudents: nat)

  /** A course as `update_course` returns it: name, public id and the new roster. */
  datatype CourseRoster = CourseRoster(name: string, id: Id, students: seq<Id>)

  /** An experiment as `create_experiment` and `update_experiment` return it. */
  datatype ExperimentView = ExperimentView(id: Id, title: string, description: string, plant: string,
                                           teacher: Id, students: seq<Id>)

  /** An assignment as `create_assignment` and `update_assignment` return it, with the
      students the request attached and their number. */
  datatype AssignmentView = AssignmentView(id: Id, title: string, description: string, kind: string,
                                           dueDate: string, teacher: Id, students: seq<Id>, numStudents: nat)

  /** The fields `update_student_response` returns. */
  datatype ResponseUpdate = ResponseUpdate(response: Option<string>, comments: Option<string>, submitted: Option<string>)

  /** The response `add_comment_to_assignment_response` returns, with its student. */
  datatype ResponseDetail = ResponseDetail(id: Id, response: Option<string>, comments: Option<string>,
                                           submitted: Option<string>, student: Id)

  /** One entry of the response listing; `comments` is `''` when the response has none. */
  datatype ResponseEntry = ResponseEntry(id: Id, submitted: Option<string>, comments: string, student: Id)

  /** A student whose username matches the body asks for a different teacher:
      `teacher_username and teacher_username != student.teacher.username`. */
  ghost predicate AsksOtherTeacher(r: Tables, form: AccountForm, s: Id)
    requires s in r.students && r.students[s].teacher in r.teachers
  {
    Truthy(form.teacherUsername) && form.teacherUsername.value != r.teachers[r.students[s].teacher].username
  }
}
