/** Subject mappings (`subject-mapping-actions.ts`): a subject taught to a
    section by a teacher, at most one per (section, subject); and the
    course → batch → semester → section hierarchy the assignment form
    picks a section from. */
module SubjectMapping {
  import opened Common
  import Subjects
  import Courses
  import Batches

  datatype MappingInput = MappingInput(subjectId: string, sectionId: string, teacherId: string)

  datatype Mapping = Mapping(subjectId: string, sectionId: string, teacherId: string)

  /** `MappingSchema`: subject, section and teacher are all named. */
  function ValidateMapping(input: MappingInput): (r: Parsed<Mapping>)
    ensures r.Accepted? <==> input.subjectId != [] && input.sectionId != [] && input.teacherId != []
    ensures r.Accepted? ==> r.value == Mapping(input.subjectId, input.sectionId, input.teacherId)
  {
    if input.subjectId != [] && input.sectionId != [] && input.teacherId != []
    then Accepted(Mapping(input.subjectId, input.sectionId, input.teacherId))
    else Rejected
  }

  /** The natural key of the duplicate check; the teacher is not part of it. */
  function MappingKey(m: Mapping): (string, string) {
    (m.sectionId, m.subjectId)
  }

  /** Whether a subject is already assigned to a section does not depend on
      who would teach it. */
  lemma TeacherTakesNoPart(rows: map<string, Mapping>, a: MappingInput, b: MappingInput)
    requires ValidateMapping(a).Accepted? && ValidateMapping(b).Accepted?
    requires a.sectionId == b.sectionId && a.subjectId == b.subjectId
    ensures Taken(rows, MappingKey, MappingKey(ValidateMapping(a).value), None) ==
            Taken(rows, MappingKey, MappingKey(ValidateMapping(b).value), None)
  {
  }

  /** One teacher may hold several assignments: a second subject for the same
      teacher in the same section is not a duplicate. */
  lemma TeacherMayTeachTwice(id: string, t: string)
    ensures !Taken(map[id := Mapping("math", "A", t)], MappingKey, MappingKey(Mapping("physics", "A", t)), None)
  {
    assert MappingKey(Mapping("math", "A", t)) != MappingKey(Mapping("physics", "A", t)) by {
      assert "math"[0] != "physics"[0];
    }
  }

  /** The `where` of `getMappings`. */
  function InSection(sectionId: string): Mapping -> bool {
    (m: Mapping) => m.sectionId == sectionId
  }

  /** `orderBy: { subject: { name } }`: the name of the mapped subject (every
      mapping refers to a stored subject). */
  function SubjectName(subjects: map<string, Subjects.Subject>): ((string, Mapping)) -> string {
    (x: (string, Mapping)) => if x.1.subjectId in subjects then subjects[x.1.subjectId].name else []
  }

  const AlreadyAssigned := "Subject is already assigned to this section"
  const CreateMappingFailed := "Failed to create assignment"
  const DeleteMappingFailed := "Failed to delete assignment"

  class MappingTable {
    var rows: map<string, Mapping>

    /** No subject is assigned twice to one section. */
    ghost predicate Valid()
      reads this
    {
      Unique(rows, MappingKey)
    }

    constructor ()
      ensures Valid() && rows == map[]
    {
      rows := map[];
    }

    /** `createMapping`. `newId` is the id the database generates; `refused`
        stands for the database rejecting the insert (a subject, section or
        teacher that does not exist). */
    method CreateMapping(input: MappingInput, newId: string, refused: bool) returns (r: Outcome)
      requires Valid() && newId !in rows
      modifies this
      ensures Valid()
      ensures ValidateMapping(input).Rejected? ==> r == Failure(ValidationError)
      ensures ValidateMapping(input).Accepted? &&
              Taken(old(rows), MappingKey, (input.sectionId, input.subjectId), None) ==>
                r == Failure(Message(AlreadyAssigned))
      ensures ValidateMapping(input).Accepted? && refused &&
              !Taken(old(rows), MappingKey, (input.sectionId, input.subjectId), None) ==>
                r == Failure(Message(CreateMappingFailed))
      ensures r == Success <==>
                && ValidateMapping(input).Accepted? && !refused
                && !Taken(old(rows), MappingKey, (input.sectionId, input.subjectId), None)
      ensures r == Success ==>
                rows == old(rows)[newId := Mapping(input.subjectId, input.sectionId, input.teacherId)]
      ensures r != Success ==> rows == old(rows)
    {
      var parsed := ValidateMapping(input);
      if parsed.Rejected? {
        return Failure(ValidationError);
      }
      var m := parsed.value;
      if Taken(rows, MappingKey, MappingKey(m), None) {
        return Failure(Message(AlreadyAssigned));
      }
      if refused {
        return Failure(Message(CreateMappingFailed));
      }
      PutKeepsUnique(rows, MappingKey, newId, m);
      rows := rows[newId := m];
      r := Success;
    }

    /** `deleteMapping`: removes that row only. `blocked` stands for the
        database refusing the delete because time slots refer to it. */
    method DeleteMapping(id: string, blocked: bool) returns (r: Outcome)
      requires Valid()
      modifies this
      ensures Valid()
      ensures r == Success <==> id in old(rows) && !blocked
      ensures r == Success ==> rows == old(rows) - {id}
      ensures r != Success ==> r == Failure(Message(DeleteMappingFailed)) && rows == old(rows)
    {
      if id !in rows || blocked {
        return Failure(Message(DeleteMappingFailed));
      }
      RemoveKeepsUnique(rows, MappingKey, id);
      rows := rows - {id};
      r := Success;
    }

    /** `getMappings`: the mappings of one section, each once, by subject name. */
    ghost function MappingsOf(sectionId: string, subjects: map<string, Subjects.Subject>)
      : (r: seq<(string, Mapping)>)
      reads this
      ensures forall x :: multiset(r)[x] ==
                if x.0 in rows && rows[x.0] == x.1 && x.1.sectionId == sectionId then 1 else 0
      ensures SortedBy(r, ByText(SubjectName(subjects)))
    {
      ByTextIsPreorder(SubjectName(subjects));
      Listing(rows, InSection(sectionId), ByText(SubjectName(subjects)))
    }
  }

  // ---------------------------------------------------------------------------
  // `getHierarchy`: every course with its batches, each batch with its
  // semesters by number, each semester with its sections by name.
  // ---------------------------------------------------------------------------

  datatype Semester = Semester(batchId: string, semesterNumber: int)

  datatype Section = Section(semesterId: string, name: string)

  datatype SemesterNode = SemesterNode(id: string, semester: Semester, sections: seq<(string, Section)>)

  datatype BatchNode = BatchNode(id: string, batch: Batches.Batch, semesters: seq<SemesterNode>)

  datatype CourseNode = CourseNode(id: string, course: Courses.Course, batches: seq<BatchNode>)

  function InSemester(semesterId: string): Section -> bool {
    (s: Section) => s.semesterId == semesterId
  }

  function InBatch(batchId: string): Semester -> bool {
    (s: Semester) => s.batchId == batchId
  }

  function OfCourse(courseId: string): Batches.Batch -> bool {
    (b: Batches.Batch) => b.courseId == courseId
  }

  function SectionName(x: (string, Section)): string {
    x.1.name
  }

  function SemesterNumber(x: (string, Semester)): int {
    x.1.semesterNumber
  }

  function AnyCourse(c: Courses.Course): bool {
    true
  }

  function SemesterPairs(ns: seq<SemesterNode>): (r: seq<(string, Semester)>)
    ensures |r| == |ns| && forall i :: 0 <= i < |ns| ==> r[i] == (ns[i].id, ns[i].semester)
  {
    seq(|ns|, i requires 0 <= i < |ns| => (ns[i].id, ns[i].semester))
  }

  function BatchPairs(ns: seq<BatchNode>): (r: seq<(string, Batches.Batch)>)
    ensures |r| == |ns| && forall i :: 0 <= i < |ns| ==> r[i] == (ns[i].id, ns[i].batch)
  {
    seq(|ns|, i requires 0 <= i < |ns| => (ns[i].id, ns[i].batch))
  }

  function CoursePairs(ns: seq<CourseNode>): (r: seq<(string, Courses.Course)>)
    ensures |r| == |ns| && forall i :: 0 <= i < |ns| ==> r[i] == (ns[i].id, ns[i].course)
  {
    seq(|ns|, i requires 0 <= i < |ns| => (ns[i].id, ns[i].course))
  }

  /** The sections of one semester: each exactly once, by name. */
  ghost predicate SectionLevel(sections: map<string, Section>, semesterId: string, ss: seq<(string, Section)>) {
    && Faithful(sections, InSemester(semesterId), ss)
    && Covers(sections, InSemester(semesterId), ss)
    && SortedBy(ss, ByText(SectionName))
  }

  /** The semesters of one batch: each exactly once, by number, each holding
      its sections. */
  ghost predicate SemesterLevel(semesters: map<string, Semester>, sections: map<string, Section>,
                                batchId: string, ns: seq<SemesterNode>) {
    && Faithful(semesters, InBatch(batchId), SemesterPairs(ns))
    && Covers(semesters, InBatch(batchId), SemesterPairs(ns))
    && (forall i, j :: 0 <= i < j < |ns| ==> ns[i].semester.semesterNumber <= ns[j].semester.semesterNumber)
    && (forall i :: 0 <= i < |ns| ==> SectionLevel(sections, ns[i].id, ns[i].sections))
  }

  /** The batches of one course: each exactly once, each holding its semesters. */
  ghost predicate BatchLevel(batches: map<string, Batches.Batch>, semesters: map<string, Semester>,
                             sections: map<string, Section>, courseId: string, ns: seq<BatchNode>) {
    && Faithful(batches, OfCourse(courseId), BatchPairs(ns))
    && Covers(batches, OfCourse(courseId), BatchPairs(ns))
    && (forall i :: 0 <= i < |ns| ==> SemesterLevel(semesters, sections, ns[i].id, ns[i].semesters))
  }

  /** Every course exactly once, each holding its batches. */
  ghost predicate CourseLevel(courses: map<string, Courses.Course>, batches: map<string, Batches.Batch>,
                              semesters: map<string, Semester>, sections: map<string, Section>,
                              ns: seq<CourseNode>) {
    && Faithful(courses, AnyCourse, CoursePairs(ns))
    && Covers(courses, AnyCourse, CoursePairs(ns))
    && (forall i :: 0 <= i < |ns| ==> BatchLevel(batches, semesters, sections, ns[i].id, ns[i].batches))
  }

  /** The sections of one semester, each once, by name. */
  ghost function SectionsOf(sections: map<string, Section>, semesterId: string): (r: seq<(string, Section)>)
    ensures SectionLevel(sections, semesterId, r)
  {
    ByTextIsPreorder(SectionName);
    Ordered(sections, InSemester(semesterId), ByText(SectionName))
  }

  /** The semesters of one batch, each once, by number, each with its sections. */
  ghost function SemestersOf(semesters: map<string, Semester>, sections: map<string, Section>, batchId: string)
    : (r: seq<SemesterNode>)
    ensures SemesterLevel(semesters, sections, batchId, r)
  {
    ByNumberIsPreorder(SemesterNumber);
    var ps := Ordered(semesters, InBatch(batchId), ByNumber(SemesterNumber));
    var r := seq(|ps|, i requires 0 <= i < |ps| => SemesterNode(ps[i].0, ps[i].1, SectionsOf(sections, ps[i].0)));
    SemesterNodesFit(semesters, sections, batchId, ps, r);
    r
  }

  lemma SemesterNodesFit(semesters: map<string, Semester>, sections: map<string, Section>, batchId: string,
                         ps: seq<(string, Semester)>, r: seq<SemesterNode>)
    requires Faithful(semesters, InBatch(batchId), ps) && Covers(semesters, InBatch(batchId), ps)
    requires SortedBy(ps, ByNumber(SemesterNumber))
    requires |r| == |ps|
    requires forall i :: 0 <= i < |r| ==> r[i] == SemesterNode(ps[i].0, ps[i].1, SectionsOf(sections, ps[i].0))
    ensures SemesterLevel(semesters, sections, batchId, r)
  {
    assert SemesterPairs(r) == ps;
    forall i, j | 0 <= i < j < |r| ensures r[i].semester.semesterNumber <= r[j].semester.semesterNumber {
      assert ByNumber(SemesterNumber)(ps[i], ps[j]);
      assert SemesterNumber(ps[i]) <= SemesterNumber(ps[j]);
    }
  }

  /** The batches of one course, each once, each with its semesters. */
  ghost function BatchesOf(batches: map<string, Batches.Batch>, semesters: map<string, Semester>,
                           sections: map<string, Section>, courseId: string): (r: seq<BatchNode>)
    ensures BatchLevel(batches, semesters, sections, courseId, r)
  {
    var ps := Unordered(batches, OfCourse(courseId));
    var r := seq(|ps|, i requires 0 <= i < |ps| => BatchNode(ps[i].0, ps[i].1, SemestersOf(semesters, sections, ps[i].0)));
    BatchNodesFit(batches, semesters, sections, courseId, ps, r);
    r
  }

  lemma BatchNodesFit(batches: map<string, Batches.Batch>, semesters: map<string, Semester>,
                      sections: map<string, Section>, courseId: string,
                      ps: seq<(string, Batches.Batch)>, r: seq<BatchNode>)
    requires Faithful(batches, OfCourse(courseId), ps) && Covers(batches, OfCourse(courseId), ps)
    requires |r| == |ps|
    requires forall i :: 0 <= i < |r| ==> r[i] == BatchNode(ps[i].0, ps[i].1, SemestersOf(semesters, sections, ps[i].0))
    ensures BatchLevel(batches, semesters, sections, courseId, r)
  {
    assert BatchPairs(r) == ps;
  }

  /** `getHierarchy`: every course once (in no stated order), each with its
      batches, each batch with its semesters by number, each semester with
      its sections by name. */
  ghost function Hierarchy(courses: map<string, Courses.Course>, batches: map<string, Batches.Batch>,
                           semesters: map<string, Semester>, sections: map<string, Section>)
    : (r: seq<CourseNode>)
    ensures CourseLevel(courses, batches, semesters, sections, r)
  {
    var ps := Unordered(courses, AnyCourse);
    var r := seq(|ps|, i requires 0 <= i < |ps| => CourseNode(ps[i].0, ps[i].1, BatchesOf(batches, semesters, sections, ps[i].0)));
    CourseNodesFit(courses, batches, semesters, sections, ps, r);
    r
  }

  lemma CourseNodesFit(courses: map<string, Courses.Course>, batches: map<string, Batches.Batch>,
                       semesters: map<string, Semester>, sections: map<string, Section>,
                       ps: seq<(string, Courses.Course)>, r: seq<CourseNode>)
    requires Faithful(courses, AnyCourse, ps) && Covers(courses, AnyCourse, ps)
    requires |r| == |ps|
    requires forall i :: 0 <= i < |r| ==> r[i] == CourseNode(ps[i].0, ps[i].1, BatchesOf(batches, semesters, sections, ps[i].0))
    ensures CourseLevel(courses, batches, semesters, sections, r)
  {
    assert CoursePairs(r) == ps;
  }
}
