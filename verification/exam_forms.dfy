/** The exam submission forms of exams/forms.py: resolving the course
    instance an exam belongs to, duplicate detection for upload and edit,
    the file-type check, and what `save` writes. The database is an
    abstract store: the set of courses (identified by department and
    number, which the schema makes unique), the course instances in
    creation order (instance `k + 1` is `instances[k]`), the instructors'
    permission records and the stored exams by primary key. */
module ExamForms {
  import opened Results

  datatype CourseKey = CourseKey(department: nat, number: string)

  datatype CourseInstance = CourseInstance(term: Option<int>, course: CourseKey, instructors: set<nat>)

  datatype Exam = Exam(courseInstance: nat, examNumber: string, examType: string, blacklisted: bool, verified: bool)

  datatype Db = Db(
    courses: set<CourseKey>,
    instances: seq<CourseInstance>,
    permissions: map<nat, Option<bool>>,
    exams: map<nat, Exam>)

  /** The cleaned form fields `set_course_instance` and `clean` read. */
  datatype ExamInput = ExamInput(
    department: Option<nat>,
    courseNumber: string,
    instructors: set<nat>,
    term: Option<int>,
    examNumber: string,
    examType: string)

  /** A `ValidationError` with the fields it is attached to, or the
      `MultipleInstances` that `.get()` raises. */
  datatype FormError = ValidationError(message: string, fields: set<string>) | MultipleInstances

  const InvalidCourse := ValidationError("Invalid course", {"department", "course_number"})
  const MissingFields := ValidationError("Please fill out all fields.", {})
  const IneligibleExam := ValidationError("Ineligible exam", {"instructors"})
  const DuplicateUpload := ValidationError("This exam already exists in the database.", {})
  const DuplicateEdit := ValidationError(
    "This exam already exists in the database. Please double check and delete as necessary.", {})

  /** The permission test of `set_course_instance`: an instructor whose
      permission record does not allow uploads. A record whose flag is
      unset (`None`) is falsy there and so refuses too; an instructor
      without a record is not denied. */
  predicate Denied(permissions: map<nat, Option<bool>>, instructor: nat)
  {
    instructor in permissions && permissions[instructor] != Some(true)
  }

  /** The narrower test of `UploadForm.save`: the record's flag `is False`,
      so an unset flag does not count. */
  predicate RefusedExplicitly(permissions: map<nat, Option<bool>>, instructor: nat)
  {
    instructor in permissions && permissions[instructor] == Some(false)
  }

  /** Every explicit refusal is a denial; an unset flag is a denial only. */
  lemma RefusedIsDenied(permissions: map<nat, Option<bool>>, instructor: nat)
    ensures RefusedExplicitly(permissions, instructor) ==> Denied(permissions, instructor)
    ensures Denied(permissions, instructor) && !RefusedExplicitly(permissions, instructor) <==>
      instructor in permissions && permissions[instructor] == None
  {
    if instructor in permissions && permissions[instructor].Some? {
      assert permissions[instructor] == Some(true) || permissions[instructor] == Some(false) by {
        if permissions[instructor].value {
        }
      }
    }
  }

  /** `get_object_or_none(Course, department=..., number=...)`. */
  function FindCourse(db: Db, input: ExamInput): (r: Option<CourseKey>)
    ensures r.Some? <==> input.department.Some? && CourseKey(input.department.value, input.courseNumber) in db.courses
    ensures r.Some? ==> r.value == CourseKey(input.department.value, input.courseNumber)
  {
    if input.department.Some? && CourseKey(input.department.value, input.courseNumber) in db.courses
    then Some(CourseKey(input.department.value, input.courseNumber))
    else None
  }

  /** The ids, ascending, of the stored instances equal to `target`: the
      queryset of instances with that term and course whose instructor
      count is the target's and which contain each target instructor. */
  function MatchingIds(instances: seq<CourseInstance>, target: CourseInstance): (r: seq<nat>)
    ensures forall id :: id in r <==> 1 <= id <= |instances| && instances[id - 1] == target
    ensures forall i, j :: 0 <= i < j < |r| ==> r[i] < r[j]
    ensures r == [] <==> forall k :: 0 <= k < |instances| ==> instances[k] != target
    decreases |instances|
  {
    if instances == [] then []
    else
      var n := |instances|;
      var front := MatchingIds(instances[..n - 1], target);
      assert forall k :: 0 <= k < n - 1 ==> instances[..n - 1][k] == instances[k];
      assert forall id :: id in front ==> id <= n - 1;
      assert forall i :: 0 <= i < |front| ==> front[i] in front;
      if instances[n - 1] == target then front + [n] else front
  }

  /** A sequence in which each value occurs at most once. */
  predicate NoRepeats<T(==)>(s: seq<T>)
  {
    forall j, k :: 0 <= j < |s| && 0 <= k < |s| && s[j] == s[k] ==> j == k
  }

  /** Among instances without repeats at most one matches, so the `.get()`
      in `set_course_instance` cannot see two. */
  lemma {:induction false} AtMostOneMatch(instances: seq<CourseInstance>, target: CourseInstance)
    requires NoRepeats(instances)
    ensures |MatchingIds(instances, target)| <= 1
    decreases |instances|
  {
    if instances != [] {
      var n := |instances|;
      var prefix := instances[..n - 1];
      assert forall k :: 0 <= k < n - 1 ==> prefix[k] == instances[k];
      assert NoRepeats(prefix);
      AtMostOneMatch(prefix, target);
      if instances[n - 1] == target {
        assert forall k :: 0 <= k < n - 1 ==> prefix[k] != target;
        assert MatchingIds(prefix, target) == [];
      }
    }
  }

  /** `set_course_instance`: checks the course exists, the instructor list is
      not empty and no instructor has refused permission; then reuses the
      instance with exactly this term, course and instructor set, or creates
      one. Returns the new store and the chosen instance id. */
  function SetCourseInstance(db: Db, input: ExamInput): (r: Result<(Db, nat), FormError>)
    ensures FindCourse(db, input).None? <==> r == Failure(InvalidCourse)
    ensures FindCourse(db, input).Some? && input.instructors == {} ==> r == Failure(MissingFields)
    ensures r == Failure(MissingFields) ==> FindCourse(db, input).Some? && input.instructors == {}
    ensures FindCourse(db, input).Some? && input.instructors != {} ==>
      (r == Failure(IneligibleExam) <==> exists i :: i in input.instructors && Denied(db.permissions, i))
    ensures r.Success? ==>
      var (db', id) := r.value;
      && 1 <= id <= |db'.instances|
      && db'.instances[id - 1] == CourseInstance(input.term, FindCourse(db, input).value, input.instructors)
    ensures r.Success? ==>
      var db' := r.value.0;
      && db'.courses == db.courses && db'.permissions == db.permissions && db'.exams == db.exams
      && |db.instances| <= |db'.instances| <= |db.instances| + 1
      && db'.instances[..|db.instances|] == db.instances
    ensures r.Success? ==>
      (r.value.0 == db <==>
        exists k :: 0 <= k < |db.instances|
          && db.instances[k] == CourseInstance(input.term, FindCourse(db, input).value, input.instructors))
    ensures (&& FindCourse(db, input).Some? && input.instructors != {}
             && forall i :: i in input.instructors ==> !Denied(db.permissions, i)) ==>
        var target := CourseInstance(input.term, FindCourse(db, input).value, input.instructors);
        && (r.Success? <==> |MatchingIds(db.instances, target)| <= 1)
        && (r.Failure? ==> r == Failure(MultipleInstances))
  {
    match FindCourse(db, input)
    case None => Failure(InvalidCourse)
    case Some(course) =>
      if input.instructors == {} then Failure(MissingFields)
      else if exists i :: i in input.instructors && Denied(db.permissions, i) then Failure(IneligibleExam)
      else
        var target := CourseInstance(input.term, course, input.instructors);
        var ids := MatchingIds(db.instances, target);
        if |ids| == 0 then
          assert forall k :: 0 <= k < |db.instances| ==> db.instances[k] != target by {
            forall k | 0 <= k < |db.instances| ensures db.instances[k] != target {
              assert k + 1 !in ids;
            }
          }
          var db' := db.(instances := db.instances + [target]);
          assert db' != db by {
            assert |db'.instances| != |db.instances|;
          }
          Success((db', |db.instances| + 1))
        else if |ids| == 1 then
          assert ids[0] in ids;
          Success((db, ids[0]))
        else Failure(MultipleInstances)
  }

  /** No two stored course instances have the same term, course and instructors. */
  predicate DistinctInstances(db: Db)
  {
    NoRepeats(db.instances)
  }

  /** Every stored exam refers to a stored course instance. */
  predicate ExamsReferenceInstances(db: Db)
  {
    forall pk :: pk in db.exams ==> 1 <= db.exams[pk].courseInstance <= |db.instances|
  }

  /** The find-or-create keeps instances distinct, so its `.get()` never
      finds two matches in a store it has maintained. */
  lemma SetCourseInstanceKeepsDistinct(db: Db, input: ExamInput)
    requires DistinctInstances(db)
    ensures SetCourseInstance(db, input) != Failure(MultipleInstances)
    ensures SetCourseInstance(db, input).Success? ==> DistinctInstances(SetCourseInstance(db, input).value.0)
    ensures SetCourseInstance(db, input).Success? && ExamsReferenceInstances(db) ==>
      ExamsReferenceInstances(SetCourseInstance(db, input).value.0)
  {
    var course := FindCourse(db, input);
    if course.Some? && input.instructors != {} {
      var target := CourseInstance(input.term, course.value, input.instructors);
      AtMostOneMatch(db.instances, target);
      var ids := MatchingIds(db.instances, target);
      if ids == [] {
        var grown := db.instances + [target];
        assert forall k :: 0 <= k < |db.instances| ==> grown[k] == db.instances[k] && grown[k] != target;
        assert NoRepeats(grown);
      }
    }
  }

  /** A stored exam with the same course instance, exam number and type. */
  predicate IsDuplicate(e: Exam, courseInstance: nat, input: ExamInput)
  {
    e.courseInstance == courseInstance && e.examNumber == input.examNumber && e.examType == input.examType
  }

  /** `UploadForm.clean`: resolves the course instance, then rejects the
      upload when any stored exam duplicates it. */
  function UploadClean(db: Db, input: ExamInput): (r: Result<(Db, nat), FormError>)
    ensures SetCourseInstance(db, input).Failure? ==> r == Failure(SetCourseInstance(db, input).error)
    ensures r.Failure? ==> SetCourseInstance(db, input).Failure? || r == Failure(DuplicateUpload)
    ensures SetCourseInstance(db, input).Success? ==>
      var (db', id) := SetCourseInstance(db, input).value;
      (r == Failure(DuplicateUpload) <==> exists pk :: pk in db'.exams && IsDuplicate(db'.exams[pk], id, input))
    ensures r.Success? ==> r.value == SetCourseInstance(db, input).value
    ensures r.Success? ==> forall pk :: pk in r.value.0.exams ==> !IsDuplicate(r.value.0.exams[pk], r.value.1, input)
  {
    match SetCourseInstance(db, input)
    case Failure(e) => Failure(e)
    case Success((db', id)) =>
      if exists pk :: pk in db'.exams && IsDuplicate(db'.exams[pk], id, input) then Failure(DuplicateUpload)
      else Success((db', id))
  }

  /** `EditForm.clean`: the same duplicate check, ignoring the exam being
      edited (primary key `editing`). */
  function EditClean(db: Db, input: ExamInput, editing: nat): (r: Result<(Db, nat), FormError>)
    ensures SetCourseInstance(db, input).Failure? ==> r == Failure(SetCourseInstance(db, input).error)
    ensures r.Failure? ==> SetCourseInstance(db, input).Failure? || r == Failure(DuplicateEdit)
    ensures SetCourseInstance(db, input).Success? ==>
      var (db', id) := SetCourseInstance(db, input).value;
      (r == Failure(DuplicateEdit) <==>
        exists pk :: pk in db'.exams && pk != editing && IsDuplicate(db'.exams[pk], id, input))
    ensures r.Success? ==> r.value == SetCourseInstance(db, input).value
    ensures r.Success? ==> forall pk :: pk in r.value.0.exams && pk != editing ==>
      !IsDuplicate(r.value.0.exams[pk], r.value.1, input)
  {
    match SetCourseInstance(db, input)
    case Failure(e) => Failure(e)
    case Success((db', id)) =>
      if exists pk :: pk in db'.exams && pk != editing && IsDuplicate(db'.exams[pk], id, input) then Failure(DuplicateEdit)
      else Success((db', id))
  }

  /** A duplicate can only be found on a reused instance: when the upload is
      rejected as a duplicate, `set_course_instance` created nothing. */
  lemma DuplicateUploadCreatesNothing(db: Db, input: ExamInput)
    requires ExamsReferenceInstances(db)
    requires UploadClean(db, input) == Failure(DuplicateUpload)
    ensures SetCourseInstance(db, input).Success? && SetCourseInstance(db, input).value.0 == db
  {
    var (db', id) := SetCourseInstance(db, input).value;
    var pk :| pk in db'.exams && IsDuplicate(db'.exams[pk], id, input);
    assert id <= |db.instances|;
    assert db.instances[id - 1] == db'.instances[..|db.instances|][id - 1];
  }

  /** No two stored exams share course instance, exam number and type. */
  predicate DistinctExams(db: Db)
  {
    forall p, q :: p in db.exams && q in db.exams && p != q ==>
      !(db.exams[p].courseInstance == db.exams[q].courseInstance
        && db.exams[p].examNumber == db.exams[q].examNumber
        && db.exams[p].examType == db.exams[q].examType)
  }

  /** The form filled in with a stored exam's own values. */
  predicate DescribesExam(db: Db, input: ExamInput, e: Exam)
    requires 1 <= e.courseInstance <= |db.instances|
  {
    var ci := db.instances[e.courseInstance - 1];
    && input.department == Some(ci.course.department)
    && input.courseNumber == ci.course.number
    && input.instructors == ci.instructors
    && input.term == ci.term
    && input.examNumber == e.examNumber
    && input.examType == e.examType
  }

  /** Re-saving an exam unchanged through the edit form is accepted and
      keeps its course instance, while the upload form rejects the same data
      as a duplicate. */
  lemma ResaveUnchangedExam(db: Db, input: ExamInput, editing: nat)
    requires DistinctInstances(db) && ExamsReferenceInstances(db) && DistinctExams(db)
    requires editing in db.exams && DescribesExam(db, input, db.exams[editing])
    requires db.instances[db.exams[editing].courseInstance - 1].course in db.courses
    requires input.instructors != {}
    requires forall i :: i in input.instructors ==> !Denied(db.permissions, i)
    ensures EditClean(db, input, editing) == Success((db, db.exams[editing].courseInstance))
    ensures UploadClean(db, input) == Failure(DuplicateUpload)
  {
    var e := db.exams[editing];
    var id := e.courseInstance;
    var target := db.instances[id - 1];
    assert FindCourse(db, input) == Some(target.course);
    var ids := MatchingIds(db.instances, target);
    assert id in ids;
    AtMostOneMatch(db.instances, target);
    assert ids[0] in ids;
    assert SetCourseInstance(db, input) == Success((db, id));
    assert IsDuplicate(db.exams[editing], id, input);
  }

  // ---------------------------------------------------------------------------
  // Saving

  /** `ExamForm.save`: attaches the resolved course instance to the exam. */
  function AttachCourseInstance(instance: Exam, courseInstance: nat): (r: Exam)
    ensures r.courseInstance == courseInstance
    ensures r.(courseInstance := instance.courseInstance) == instance
  {
    instance.(courseInstance := courseInstance)
  }

  /** `UploadForm.save`: marks the exam blacklisted when an instructor has
      explicitly refused permission (never clears the flag), then attaches
      the course instance. */
  function UploadSave(instance: Exam, courseInstance: nat, instructors: set<nat>, permissions: map<nat, Option<bool>>): (r: Exam)
    ensures r.blacklisted <==> instance.blacklisted || exists i :: i in instructors && RefusedExplicitly(permissions, i)
    ensures r.courseInstance == courseInstance
    ensures r.examNumber == instance.examNumber && r.examType == instance.examType && r.verified == instance.verified
  {
    var flagged := instance.blacklisted || exists i :: i in instructors && RefusedExplicitly(permissions, i);
    AttachCourseInstance(instance.(blacklisted := flagged), courseInstance)
  }

  /** After a successful `clean` no instructor has refused permission, so
      the blacklisting in `save` leaves the flag as it was. */
  lemma CleanedUploadKeepsBlacklistFlag(db: Db, input: ExamInput, instance: Exam)
    requires UploadClean(db, input).Success?
    ensures UploadSave(instance, UploadClean(db, input).value.1, input.instructors, db.permissions).blacklisted
      == instance.blacklisted
  {
    assert FindCourse(db, input).Some?;
  }

  /** `clean_exam_file`: accepts the file only when its detected mimetype is
      PDF. Mimetype detection is a library call, passed in as `mimetype`. */
  function CleanExamFile<F>(file: F, mimetype: F -> string): (r: Result<F, FormError>)
    ensures r.Success? <==> mimetype(file) == "application/pdf"
    ensures r.Success? ==> r.value == file
    ensures r.Failure? ==> r.error == ValidationError("Uploaded file must be a PDF file.", {})
  {
    if mimetype(file) != "application/pdf" then Failure(ValidationError("Uploaded file must be a PDF file.", {}))
    else Success(file)
  }

  /** The upload form's `exam_number` choices: all but the first ("Unknown")
      entry of the exam's choice list, a Python slice `[1:]`. */
  function UploadExamNumberChoices<C>(choices: seq<C>): (r: seq<C>)
    ensures |choices| > 0 ==> |r| == |choices| - 1
    ensures |choices| == 0 ==> r == []
    ensures forall i :: 0 <= i < |r| ==> r[i] == choices[i + 1]
    ensures forall c :: c in r ==> c in choices
  {
    if |choices| == 0 then [] else choices[1..]
  }

  /** The first choice is no longer offered (when it is listed once) and
      every other choice still is. */
  lemma UploadOmitsFirstChoice<C>(choices: seq<C>)
    requires |choices| > 0 && choices[0] !in choices[1..]
    ensures choices[0] !in UploadExamNumberChoices(choices)
    ensures forall c :: c in choices && c != choices[0] ==> c in UploadExamNumberChoices(choices)
  {
    forall c | c in choices && c != choices[0] ensures c in choices[1..] {
      var k :| 0 <= k < |choices| && choices[k] == c;
      assert choices[1..][k - 1] == c;
    }
  }
}
