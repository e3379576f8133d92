/** The assignment-response blueprint (fopd/assignment_responses/routes.py).

    A response row refers to its assignment and its student; the filters of these handlers
    compare those references with the ids of the path as given. */
module AssignmentResponses {
  import opened Basics
  import opened Models
  import opened Api

  /** One listing entry: the response's id, submission time, comments (`''` when it has none)
      and student. */
  function EntryFor(responses: map<Id, AssignmentResponse>, k: Id): (e: ResponseEntry)
    requires k in responses
    ensures e.id == k && e.student == responses[k].student && e.submitted == responses[k].submitted
    ensures e.comments == (if responses[k].comments.Some? then responses[k].comments.value else "")
  {
    var row := responses[k];
    ResponseEntry(k, row.submitted, row.comments.GetOr(""), row.student)
  }

  /** `get_all_responses_by_assignment`: one entry for each response of the assignment, each
      once, in the order the relationship yields them, which the model leaves open. */
  method GetAllResponsesByAssignment(db: Database, assignmentId: Id) returns (r: Reply<seq<ResponseEntry>>)
    ensures r.Ok? <==> assignmentId in db.assignments
    ensures !r.Ok? ==> r == Fail("Experiment does not exist")
    ensures r.Ok? ==>
      var entries := r.value;
      && (forall i :: 0 <= i < |entries| ==>
            && entries[i].id in db.responses && db.responses[entries[i].id].assignment == assignmentId
            && entries[i] == EntryFor(db.responses, entries[i].id))
      && (forall k :: k in db.responses && db.responses[k].assignment == assignmentId ==>
            exists i :: 0 <= i < |entries| && entries[i].id == k)
      && (forall i, j :: 0 <= i < j < |entries| ==> entries[i].id != entries[j].id)
  {
    if assignmentId !in db.assignments {
      return Fail("Experiment does not exist");
    }
    var responses := db.responses;
    var pending := set k | k in responses && responses[k].assignment == assignmentId;
    var entries: seq<ResponseEntry> := [];
    while pending != {}
      invariant Gathering(responses, assignmentId, pending, entries)
      decreases |pending|
    {
      var k :| k in pending;
      GatheringStep(responses, assignmentId, pending, entries, k);
      entries := entries + [EntryFor(responses, k)];
      pending := pending - {k};
    }
    r := Ok(entries);
  }

  /** Halfway through the gathering loop: `pending` holds responses of the assignment not yet
      listed, `entries` lists each of the others once. */
  ghost predicate Gathering(responses: map<Id, AssignmentResponse>, assignmentId: Id,
                            pending: set<Id>, entries: seq<ResponseEntry>)
  {
    && (forall k :: k in pending ==> k in responses && responses[k].assignment == assignmentId)
    && (forall i :: 0 <= i < |entries| ==>
          && entries[i].id in responses && responses[entries[i].id].assignment == assignmentId
          && entries[i] == EntryFor(responses, entries[i].id)
          && entries[i].id !in pending)
    && (forall k :: k in responses && responses[k].assignment == assignmentId ==>
          k in pending || exists i :: 0 <= i < |entries| && entries[i].id == k)
    && (forall i, j :: 0 <= i < j < |entries| ==> entries[i].id != entries[j].id)
  }

  /** Moving one pending response to the end of the list keeps the loop's invariant. */
  lemma GatheringStep(responses: map<Id, AssignmentResponse>, assignmentId: Id,
                      pending: set<Id>, entries: seq<ResponseEntry>, k: Id)
    requires Gathering(responses, assignmentId, pending, entries) && k in pending
    ensures Gathering(responses, assignmentId, pending - {k}, entries + [EntryFor(responses, k)])
  {
    var entries' := entries + [EntryFor(responses, k)];
    assert forall i :: 0 <= i < |entries| ==> entries'[i] == entries[i];
    forall k' | k' in responses && responses[k'].assignment == assignmentId && k' !in pending - {k}
      ensures exists i :: 0 <= i < |entries'| && entries'[i].id == k'
    {
      if k' == k {
        assert entries'[|entries|].id == k';
      } else {
        var i :| 0 <= i < |entries| && entries[i].id == k';
        assert entries'[i].id == k';
      }
    }
  }

  /** The response the path names, when its assignment and its student are the path's. */
  predicate Names(responses: map<Id, AssignmentResponse>, responseId: Id, assignmentId: Id, studentId: Id): (found: bool)
    ensures found ==> responseId in responses
    ensures found <==> responseId in responses && responses[responseId].assignment == assignmentId
                                              && responses[responseId].student == studentId
  {
    responseId in responses && responses[responseId].assignment == assignmentId && responses[responseId].student == studentId
  }

  /** `update_student_response`: a truthy `response` replaces the response and stamps
      `submitted` with `now`; a truthy `comments` replaces the comments; nothing else changes. */
  method UpdateStudentResponse(db: Database, assignmentId: Id, studentId: Id, responseId: Id,
                               json: Option<ResponseForm>, now: string) returns (r: Reply<ResponseUpdate>)
    requires db.Valid()
    modifies db
    ensures db.Valid()
    ensures !r.Ok? ==> unchanged(db)
    ensures !Names(old(db.responses), responseId, assignmentId, studentId)
            ==> r == Fail("Assignment response id `" + responseId + "` does not exist")
    ensures Names(old(db.responses), responseId, assignmentId, studentId) && NoResponseInfo(json)
            ==> r == Fail("No data passed to update assignment response id `" + responseId + "`")
    ensures r.Ok? <==> Names(old(db.responses), responseId, assignmentId, studentId) && !NoResponseInfo(json)
    ensures r.Ok? ==> responseId in db.responses
    ensures r.Ok? ==>
      var f := json.value;
      var row := old(db.responses)[responseId];
      var row' := db.responses[responseId];
      && db.responses == old(db.responses)[responseId := row']
      && row'.assignment == row.assignment && row'.student == row.student
      && (if Truthy(f.response) then row'.response == f.response && row'.submitted == Some(now)
          else row'.response == row.response && row'.submitted == row.submitted)
      && row'.comments == (if Truthy(f.comments) then f.comments else row.comments)
      && db.Rows() == old(db.Rows()) && db.experiments == old(db.experiments) && db.assignments == old(db.assignments)
      && r.value == ResponseUpdate(row'.response, row'.comments, row'.submitted)
  {
    if !Names(db.responses, responseId, assignmentId, studentId) {
      return Fail("Assignment response id `" + responseId + "` does not exist");
    }
    if NoResponseInfo(json) {
      return Fail("No data passed to update assignment response id `" + responseId + "`");
    }
    var form := json.value;
    var row := db.responses[responseId];
    if Truthy(form.response) {
      row := row.(response := form.response, submitted := Some(now));
    }
    if Truthy(form.comments) {
      row := row.(comments := form.comments);
    }
    db.responses := db.responses[responseId := row];
    r := Ok(ResponseUpdate(row.response, row.comments, row.submitted));
  }

  /** `add_comment_to_assignment_response`: checks that the assignment, the response and the
      teacher exist, in this order, but not that the response is one of the assignment's or
      that the teacher owns the assignment; then sets the comments and nothing else. */
  method AddCommentToAssignmentResponse(db: Database, teacherId: Id, assignmentId: Id, responseId: Id,
                                        json: Option<ResponseForm>) returns (r: Reply<ResponseDetail>)
    requires db.Valid()
    modifies db
    ensures db.Valid()
    ensures !r.Ok? ==> unchanged(db)
    ensures assignmentId !in old(db.assignments) ==> r == Fail("Assignment id `" + assignmentId + "` does not exist")
    ensures assignmentId in old(db.assignments) && responseId !in old(db.responses)
            ==> r == Fail("Assignment response id `" + responseId + "` does not exist")
    ensures assignmentId in old(db.assignments) && responseId in old(db.responses) && teacherId !in old(db.teachers)
            ==> r == Fail("Account id `" + teacherId + "` does not exist")
    ensures assignmentId in old(db.assignments) && responseId in old(db.responses) && teacherId in old(db.teachers) && json.None?
            ==> r == Crash(AttributeError("get"))
    ensures assignmentId in old(db.assignments) && responseId in old(db.responses) && teacherId in old(db.teachers)
            && json.Some? && !Truthy(json.value.comments)
            ==> r == Fail("Comments not provided for assignment response `" + responseId + "`")
    ensures r.Ok? <==>
      && assignmentId in old(db.assignments) && responseId in old(db.responses) && teacherId in old(db.teachers)
      && json.Some? && Truthy(json.value.comments)
    ensures r.Ok? ==>
      var row := old(db.responses)[responseId];
      && db.responses == old(db.responses)[responseId := row.(comments := json.value.comments)]
      && db.Rows() == old(db.Rows()) && db.experiments == old(db.experiments) && db.assignments == old(db.assignments)
      && r.value == ResponseDetail(responseId, row.response, json.value.comments, row.submitted, row.student)
  {
    if assignmentId !in db.assignments {
      return Fail("Assignment id `" + assignmentId + "` does not exist");
    }
    if responseId !in db.responses {
      return Fail("Assignment response id `" + responseId + "` does not exist");
    }
    if teacherId !in db.teachers {
      return Fail("Account id `" + teacherId + "` does not exist");
    }
    if json.None? {
      return Crash(AttributeError("get"));
    }
    var comments := json.value.comments;
    if !Truthy(comments) {
      return Fail("Comments not provided for assignment response `" + responseId + "`");
    }
    var row := db.responses[responseId].(comments := comments);
    db.responses := db.responses[responseId := row];
    r := Ok(ResponseDetail(responseId, row.response, row.comments, row.submitted, row.student));
  }
}
