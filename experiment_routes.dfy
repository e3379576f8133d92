/** The experiment blueprint (fopd/experiments/routes.py).

    `get_experiment_by_id` and `delete_experiment` look the experiment up without `.first()`:
    the result is a query object, which is always truthy and has no `teacher`, so once the
    teacher exists both raise `AttributeError` and neither reads nor deletes an experiment.
    `update_experiment` checks that the teacher and the experiment exist but not that the one
    owns the other. */
module Experiments {
  import opened Basics
  import opened Models
  import opened Api
  import opened Roster

  /** `get_experiment_by_id`. */
  function GetExperimentById(teachers: map<Id, Teacher>, teacherId: Id, experimentId: Id): (r: Reply<ExperimentView>)
    ensures !r.Ok?
    ensures r.Fail? <==> teacherId !in teachers
    ensures r.Fail? ==> r.message == "Account does not exist"
    ensures r.Crash? ==> r.fault == AttributeError("teacher")
  {
    if teacherId !in teachers then Fail("Account does not exist")
    else Crash(AttributeError("teacher"))
  }

  /** `delete_experiment`: never reaches the delete. */
  function DeleteExperiment(teachers: map<Id, Teacher>, teacherId: Id, experimentId: Id): (r: Reply<string>)
    ensures !r.Ok?
    ensures r.Fail? <==> teacherId !in teachers
    ensures r.Fail? ==> r.message == "Account does not exist"
    ensures r.Crash? ==> r.fault == AttributeError("teacher")
  {
    if teacherId !in teachers then Fail("Account does not exist")
    else Crash(AttributeError("teacher"))
  }

  /** `create_experiment`: a new experiment of the path teacher, linked to the listed usernames
      that name a student, in list order; `now` is the `datetime.utcnow()` that an absent
      `start_date` defaults to, `newId` the fresh `uuid4`. */
  method CreateExperiment(db: Database, teacherId: Id, json: Option<ExperimentForm>, newId: Id, now: string)
    returns (r: Reply<ExperimentView>)
    requires db.Valid()
    modifies db
    ensures db.Valid()
    ensures !r.Ok? ==> unchanged(db)
    ensures teacherId !in old(db.teachers) ==> r == Fail("Account does not exist")
    ensures teacherId in old(db.teachers) && NoExperimentInfo(json) ==> r == Fail("No experiment information provided")
    ensures teacherId in old(db.teachers) && !NoExperimentInfo(json) && json.value.title.None? ==> r == Crash(KeyError("title"))
    ensures teacherId in old(db.teachers) && !NoExperimentInfo(json) && json.value.title.Some?
            ==> && (json.value.description.None? ==> r == Crash(KeyError("description")))
                && (json.value.description.Some? && json.value.plant.None? ==> r == Crash(KeyError("plant")))
                && (json.value.description.Some? && json.value.plant.Some? && newId in old(db.experiments)
                    ==> r == Fail("Unable to create experiment"))
    ensures r.Ok? <==>
      && teacherId in old(db.teachers) && !NoExperimentInfo(json)
      && json.value.title.Some? && json.value.description.Some? && json.value.plant.Some?
      && newId !in old(db.experiments)
    ensures r.Ok? ==>
      var f := json.value;
      var linked := ResolveUsernames(old(db.students), f.studentUsernames.GetOr([]));
      && db.experiments == old(db.experiments)[newId := Experiment(f.title.value, f.description.value, f.plant.value, f.startDate.GetOr(now), teacherId, linked)]
      && db.Rows() == old(db.Rows()) && db.assignments == old(db.assignments) && db.responses == old(db.responses)
      && r.value == ExperimentView(newId, f.title.value, f.description.value, f.plant.value, teacherId, linked)
  {
    if teacherId !in db.teachers {
      return Fail("Account does not exist");
    }
    if NoExperimentInfo(json) {
      return Fail("No experiment information provided");
    }
    var form := json.value;
    if form.title.None? {
      return Crash(KeyError("title"));
    }
    if form.description.None? {
      return Crash(KeyError("description"));
    }
    if form.plant.None? {
      return Crash(KeyError("plant"));
    }
    var linked := CollectStudentsByUsername(db.students, form.studentUsernames.GetOr([]));
    // the commit violates the unique constraint on `public_id`
    if newId in db.experiments {
      return Fail("Unable to create experiment");
    }
    var experiment := Experiment(form.title.value, form.description.value, form.plant.value, form.startDate.GetOr(now), teacherId, linked);
    db.experiments := db.experiments[newId := experiment];
    r := Ok(ExperimentView(newId, experiment.title, experiment.description, experiment.plant, teacherId, linked));
  }

  /** `update_experiment`: the students become the listed usernames that name a student, in
      list order; if none does the update is refused; otherwise title, plant and description
      are overwritten. The experiment keeps its teacher and start date. */
  method UpdateExperiment(db: Database, teacherId: Id, experimentId: Id, json: Option<ExperimentForm>)
    returns (r: Reply<ExperimentView>)
    requires db.Valid()
    modifies db
    ensures db.Valid()
    ensures !r.Ok? ==> unchanged(db)
    ensures teacherId !in old(db.teachers) ==> r == Fail("Account does not exist")
    ensures teacherId in old(db.teachers) && experimentId !in old(db.experiments) ==> r == Fail("Experiment does not exist")
    ensures teacherId in old(db.teachers) && experimentId in old(db.experiments) && NoExperimentInfo(json)
            ==> r == Fail("No experiment information provided to update experiment `" + experimentId + "`")
    ensures teacherId in old(db.teachers) && experimentId in old(db.experiments) && !NoExperimentInfo(json)
            && ResolveUsernames(old(db.students), json.value.studentUsernames.GetOr([])) == []
            ==> r == Fail("Unable to update course information")
    ensures teacherId in old(db.teachers) && experimentId in old(db.experiments) && !NoExperimentInfo(json)
            && ResolveUsernames(old(db.students), json.value.studentUsernames.GetOr([])) != []
            ==> && (json.value.title.None? ==> r == Crash(KeyError("title")))
                && (json.value.title.Some? && json.value.plant.None? ==> r == Crash(KeyError("plant")))
                && (json.value.title.Some? && json.value.plant.Some? && json.value.description.None?
                    ==> r == Crash(KeyError("description")))
    ensures r.Ok? <==>
      && teacherId in old(db.teachers) && experimentId in old(db.experiments) && !NoExperimentInfo(json)
      && ResolveUsernames(old(db.students), json.value.studentUsernames.GetOr([])) != []
      && json.value.title.Some? && json.value.plant.Some? && json.value.description.Some?
    ensures r.Ok? ==>
      var f := json.value;
      var linked := ResolveUsernames(old(db.students), f.studentUsernames.GetOr([]));
      var e := old(db.experiments)[experimentId];
      && db.experiments == old(db.experiments)[experimentId := e.(title := f.title.value, plant := f.plant.value,
                                                                  description := f.description.value, students := linked)]
      && db.Rows() == old(db.Rows()) && db.assignments == old(db.assignments) && db.responses == old(db.responses)
      && r.value == ExperimentView(experimentId, f.title.value, f.description.value, f.plant.value, teacherId, linked)
  {
    if teacherId !in db.teachers {
      return Fail("Account does not exist");
    }
    if experimentId !in db.experiments {
      return Fail("Experiment does not exist");
    }
    if NoExperimentInfo(json) {
      return Fail("No experiment information provided to update experiment `" + experimentId + "`");
    }
    var form := json.value;
    var linked := CollectStudentsByUsername(db.students, form.studentUsernames.GetOr([]));
    if |linked| == 0 {
      return Fail("Unable to update course information");
    }
    if form.title.None? {
      return Crash(KeyError("title"));
    }
    if form.plant.None? {
      return Crash(KeyError("plant"));
    }
    if form.description.None? {
      return Crash(KeyError("description"));
    }
    var e := db.experiments[experimentId];
    db.experiments := db.experiments[experimentId := e.(title := form.title.value, plant := form.plant.value,
                                                        description := form.description.value, students := linked)];
    r := Ok(ExperimentView(experimentId, form.title.value, form.description.value, form.plant.value, teacherId, linked));
  }
}
