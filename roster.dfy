/** Building an association list from a list of names or ids in a request body: every
    handler that takes `student_usernames` or `student_ids` looks each entry up with
    `.first()` and appends the students it finds, skipping the entries that match nothing. */
module Roster {
  import opened Basics
  import opened Models

  /** The students named by `names`, in list order; names that match no student are skipped. */
  function ResolveUsernames(students: map<Id, Student>, names: seq<string>): (found: seq<Id>)
    requires StudentUsernamesUnique(students)
    ensures |found| <= |names|
    ensures forall i :: 0 <= i < |found| ==> found[i] in students
    ensures forall s :: s in found ==> s in students
    decreases |names|
  {
    if names == [] then []
    else
      var before := ResolveUsernames(students, names[..|names| - 1]);
      match StudentNamed(students, names[|names| - 1])
      case Some(s) => before + [s]
      case None => before
  }

  /** A student is in the result exactly when its username is listed. */
  lemma {:induction false} ResolveUsernamesMembers(students: map<Id, Student>, names: seq<string>, s: Id)
    requires StudentUsernamesUnique(students)
    ensures s in ResolveUsernames(students, names) <==> s in students && students[s].username in names
    decreases |names|
  {
    if names != [] {
      var init, last := names[..|names| - 1], names[|names| - 1];
      assert names == init + [last];
      ResolveUsernamesMembers(students, init, s);
    }
  }

  /** Resolution respects list order: resolving a concatenation concatenates the results. */
  lemma {:induction false} ResolveUsernamesConcat(students: map<Id, Student>, a: seq<string>, b: seq<string>)
    requires StudentUsernamesUnique(students)
    ensures ResolveUsernames(students, a + b) == ResolveUsernames(students, a) + ResolveUsernames(students, b)
    decreases |b|
  {
    if b == [] {
      assert a + b == a;
    } else {
      var init := b[..|b| - 1];
      assert (a + b)[..|a + b| - 1] == a + init;
      assert (a + b)[|a + b| - 1] == b[|b| - 1];
      ResolveUsernamesConcat(students, a, init);
    }
  }

  /** The result is empty exactly when no listed username names a student. */
  lemma ResolveUsernamesEmpty(students: map<Id, Student>, names: seq<string>)
    requires StudentUsernamesUnique(students)
    ensures ResolveUsernames(students, names) == [] <==> forall s :: s in students ==> students[s].username !in names
  {
    var found := ResolveUsernames(students, names);
    if found != [] {
      ResolveUsernamesMembers(students, names, found[0]);
    } else {
      forall s | s in students ensures students[s].username !in names {
        ResolveUsernamesMembers(students, names, s);
      }
    }
  }

  /** The students whose public ids are listed, in list order; unknown ids are skipped. */
  function ResolvePublicIds(students: map<Id, Student>, ids: seq<Id>): (found: seq<Id>)
    ensures |found| <= |ids|
    ensures forall s :: s in found <==> s in ids && s in students
    decreases |ids|
  {
    if ids == [] then []
    else
      var before := ResolvePublicIds(students, ids[..|ids| - 1]);
      var last := ids[|ids| - 1];
      assert ids == ids[..|ids| - 1] + [last];
      if last in students then before + [last] else before
  }

  /** Resolving a concatenation of id lists concatenates the results. */
  lemma {:induction false} ResolvePublicIdsConcat(students: map<Id, Student>, a: seq<Id>, b: seq<Id>)
    ensures ResolvePublicIds(students, a + b) == ResolvePublicIds(students, a) + ResolvePublicIds(students, b)
    decreases |b|
  {
    if b == [] {
      assert a + b == a;
    } else {
      var init := b[..|b| - 1];
      assert (a + b)[..|a + b| - 1] == a + init;
      assert (a + b)[|a + b| - 1] == b[|b| - 1];
      ResolvePublicIdsConcat(students, a, init);
    }
  }

  /** The handlers' lookup loop over `student_usernames`. */
  method CollectStudentsByUsername(students: map<Id, Student>, names: seq<string>) returns (found: seq<Id>)
    requires StudentUsernamesUnique(students)
    ensures found == ResolveUsernames(students, names)
  {
    found := [];
    var i := 0;
    while i < |names|
      invariant 0 <= i <= |names|
      invariant found == ResolveUsernames(students, names[..i])
    {
      assert names[..i + 1][..i] == names[..i];
      var student := StudentNamed(students, names[i]);
      if student.Some? {
        found := found + [student.value];
      }
      i := i + 1;
    }
    assert names[..|names|] == names;
  }

  /** The lookup loop of `create_assignment` over `student_ids`. */
  method CollectStudentsByPublicId(students: map<Id, Student>, ids: seq<Id>) returns (found: seq<Id>)
    ensures found == ResolvePublicIds(students, ids)
  {
    found := [];
    var i := 0;
    while i < |ids|
      invariant 0 <= i <= |ids|
      invariant found == ResolvePublicIds(students, ids[..i])
    {
      assert ids[..i + 1][..i] == ids[..i];
      if ids[i] in students {
        found := found + [ids[i]];
      }
      i := i + 1;
    }
    assert ids[..|ids|] == ids;
  }
}
