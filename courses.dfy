/** Courses (`course-actions.ts`): offered by a department, unique by an
    upper-cased code. */
module Courses {
  import opened Common
  import Batches

  datatype CourseInput = CourseInput(name: string, code: string, departmentId: string)

  datatype Course = Course(name: string, code: string, departmentId: string)

  /** `CourseSchema`: name, code and department are non-empty, and the code
      is upper-cased (the emptiness test sees the code as submitted). */
  function ValidateCourse(input: CourseInput): (r: Parsed<Course>)
    ensures r.Accepted? <==> input.name != [] && input.code != [] && input.departmentId != []
    ensures r.Accepted? ==> r.value.name == input.name && r.value.departmentId == input.departmentId
    ensures r.Accepted? ==> SameIgnoringCase(r.value.code, input.code) && HasNoLowerCase(r.value.code)
  {
    if input.name != [] && input.code != [] && input.departmentId != []
    then Accepted(Course(input.name, Upper(input.code), input.departmentId))
    else Rejected
  }

  /** Codes that differ only in letter case validate to the same stored code,
      so the duplicate check treats them as one. */
  lemma CaseVariantsCollide(a: CourseInput, b: CourseInput)
    requires ValidateCourse(a).Accepted? && ValidateCourse(b).Accepted?
    requires SameIgnoringCase(a.code, b.code)
    ensures CodeOf(ValidateCourse(a).value) == CodeOf(ValidateCourse(b).value)
  {
    UpperOfSameIgnoringCase(a.code, b.code);
  }

  function CodeOf(c: Course): string {
    c.code
  }

  function NameOf(x: (string, Course)): string {
    x.1.name
  }

  function AnyCourse(c: Course): bool {
    true
  }

  /** A course as `getCourses` lists it, with its `_count` of batches. */
  datatype CourseSummary = CourseSummary(id: string, course: Course, batches: nat)

  function BatchesOf(courseId: string): Batches.Batch -> bool {
    (b: Batches.Batch) => b.courseId == courseId
  }

  function Summarise(ps: seq<(string, Course)>, batches: map<string, Batches.Batch>): (r: seq<CourseSummary>)
    ensures |r| == |ps|
    ensures forall i :: 0 <= i < |r| ==>
              r[i].id == ps[i].0 && r[i].course == ps[i].1 &&
              r[i].batches == Count(batches, BatchesOf(ps[i].0))
  {
    seq(|ps|, i requires 0 <= i < |ps| => CourseSummary(ps[i].0, ps[i].1, Count(batches, BatchesOf(ps[i].0))))
  }

  const DuplicateCourse := "Course code already exists"
  const DeleteCourseFailed := "Failed to delete course. It might have related batches."

  class CourseTable {
    var rows: map<string, Course>

    /** No two courses share a code. */
    ghost predicate Valid()
      reads this
    {
      Unique(rows, CodeOf)
    }

    constructor ()
      ensures Valid() && rows == map[]
    {
      rows := map[];
    }

    /** `createCourse`. `newId` is the id the database generates. */
    method CreateCourse(input: CourseInput, newId: string) returns (r: Outcome)
      requires Valid() && newId !in rows
      modifies this
      ensures Valid()
      ensures ValidateCourse(input).Rejected? ==> r == Failure(ValidationError)
      ensures ValidateCourse(input).Accepted? &&
              Taken(old(rows), CodeOf, Upper(input.code), None) ==>
                r == Failure(Message(DuplicateCourse))
      ensures r == Success <==>
                ValidateCourse(input).Accepted? && !Taken(old(rows), CodeOf, Upper(input.code), None)
      ensures r == Success ==> rows == old(rows)[newId := ValidateCourse(input).value]
      ensures r != Success ==> rows == old(rows)
    {
      var parsed := ValidateCourse(input);
      if parsed.Rejected? {
        return Failure(ValidationError);
      }
      var c := parsed.value;
      if Taken(rows, CodeOf, c.code, None) {
        return Failure(Message(DuplicateCourse));
      }
      PutKeepsUnique(rows, CodeOf, newId, c);
      rows := rows[newId := c];
      r := Success;
    }

    /** `updateCourse`: the duplicate check leaves out the course's own row; an
        unknown id makes the update throw, reported with the database's message. */
    method UpdateCourse(id: string, input: CourseInput) returns (r: Outcome)
      requires Valid()
      modifies this
      ensures Valid()
      ensures ValidateCourse(input).Rejected? ==> r == Failure(ValidationError)
      ensures ValidateCourse(input).Accepted? &&
              Taken(old(rows), CodeOf, Upper(input.code), Some(id)) ==>
                r == Failure(Message(DuplicateCourse))
      ensures ValidateCourse(input).Accepted? && id !in old(rows) &&
              !Taken(old(rows), CodeOf, Upper(input.code), Some(id)) ==>
                r == Failure(DbError)
      ensures r == Success <==>
                && ValidateCourse(input).Accepted? && id in old(rows)
                && !Taken(old(rows), CodeOf, Upper(input.code), Some(id))
      ensures r == Success ==> rows == old(rows)[id := ValidateCourse(input).value]
      ensures r != Success ==> rows == old(rows)
      // Keeping one's own code (in any letter case) is not a duplicate.
      ensures ValidateCourse(input).Accepted? && id in old(rows) &&
              Upper(input.code) == old(rows)[id].code ==>
                r == Success
    {
      var parsed := ValidateCourse(input);
      if parsed.Rejected? {
        return Failure(ValidationError);
      }
      var c := parsed.value;
      if Taken(rows, CodeOf, c.code, Some(id)) {
        return Failure(Message(DuplicateCourse));
      }
      if id !in rows {
        return Failure(DbError);
      }
      PutKeepsUnique(rows, CodeOf, id, c);
      rows := rows[id := c];
      r := Success;
    }

    /** `deleteCourse`: removes that row only. `blocked` stands for the database
        refusing the delete because batches refer to the course. */
    method DeleteCourse(id: string, blocked: bool) returns (r: Outcome)
      requires Valid()
      modifies this
      ensures Valid()
      ensures r == Success <==> id in old(rows) && !blocked
      ensures r == Success ==> rows == old(rows) - {id}
      ensures r != Success ==> r == Failure(Message(DeleteCourseFailed)) && rows == old(rows)
    {
      if id !in rows || blocked {
        return Failure(Message(DeleteCourseFailed));
      }
      RemoveKeepsUnique(rows, CodeOf, id);
      rows := rows - {id};
      r := Success;
    }

    /** `getCourses`: every course once, by name, with the number of its batches. */
    ghost function AllCourses(batches: map<string, Batches.Batch>): (r: seq<CourseSummary>)
      reads this
      ensures |r| == |rows|
      ensures forall i :: 0 <= i < |r| ==>
                r[i].id in rows && rows[r[i].id] == r[i].course &&
                r[i].batches == Count(batches, BatchesOf(r[i].id))
      ensures forall k :: k in rows ==> exists i :: 0 <= i < |r| && r[i].id == k
      ensures forall i, j :: 0 <= i < j < |r| ==> r[i].id != r[j].id
      ensures forall i, j :: 0 <= i < j < |r| ==> LessEq(r[i].course.name, r[j].course.name)
    {
      ByTextIsPreorder(NameOf);
      var ps := Listing(rows, AnyCourse, ByText(NameOf));
      ListingCovers(rows, AnyCourse, ps);
      ListingLength(rows, ps);
      ListingDistinct(rows, AnyCourse, ps);
      SummariesByName(rows, ps, batches);
      Summarise(ps, batches)
    }
  }

  /** Summarising a by-name listing of every course keeps every course, once,
      in name order. */
  lemma SummariesByName(rows: map<string, Course>, ps: seq<(string, Course)>,
                        batches: map<string, Batches.Batch>)
    requires forall k :: k in rows ==> (k, rows[k]) in ps
    requires SortedBy(ps, ByText(NameOf))
    requires forall i, j :: 0 <= i < j < |ps| ==> ps[i].0 != ps[j].0
    ensures var r := Summarise(ps, batches);
      && (forall k :: k in rows ==> exists i :: 0 <= i < |r| && r[i].id == k)
      && (forall i, j :: 0 <= i < j < |r| ==> r[i].id != r[j].id)
      && (forall i, j :: 0 <= i < j < |r| ==> LessEq(r[i].course.name, r[j].course.name))
  {
    var r := Summarise(ps, batches);
    forall k | k in rows ensures exists i :: 0 <= i < |r| && r[i].id == k {
      var i :| 0 <= i < |ps| && ps[i] == (k, rows[k]);
      assert r[i].id == k;
    }
    forall i, j | 0 <= i < j < |r| ensures LessEq(r[i].course.name, r[j].course.name) {
      assert ByText(NameOf)(ps[i], ps[j]);
      assert LessEq(NameOf(ps[i]), NameOf(ps[j]));
      assert r[i].course == ps[i].1 && r[j].course == ps[j].1;
    }
  }
}
