/** Departments (`department-actions.ts`): unique by an upper-cased code; the
    listing counts each department's courses and teachers. */
module Departments {
  import opened Common
  import Courses
  import Users

  datatype DepartmentInput = DepartmentInput(name: string, code: string)

  datatype Department = Department(name: string, code: string)

  /** `DepartmentSchema`: name and code are non-empty, and the code is
      upper-cased (the emptiness test sees the code as submitted). */
  function ValidateDepartment(input: DepartmentInput): (r: Parsed<Department>)
    ensures r.Accepted? <==> input.name != [] && input.code != []
    ensures r.Accepted? ==> r.value.name == input.name
    ensures r.Accepted? ==> SameIgnoringCase(r.value.code, input.code) && HasNoLowerCase(r.value.code)
  {
    if input.name != [] && input.code != []
    then Accepted(Department(input.name, Upper(input.code)))
    else Rejected
  }

  function CodeOf(d: Department): string {
    d.code
  }

  function NameOf(x: (string, Department)): string {
    x.1.name
  }

  function AnyDepartment(d: Department): bool {
    true
  }

  /** Submitting `cse` when `CSE` is stored is a duplicate: the check sees the
      upper-cased code. */
  lemma LowerCaseCodeCollides(rows: map<string, Department>, id: string, input: DepartmentInput)
    requires id in rows && rows[id].code == "CSE"
    requires input == DepartmentInput("Computer Science", "cse")
    ensures ValidateDepartment(input).Accepted?
    ensures Taken(rows, CodeOf, ValidateDepartment(input).value.code, None)
  {
    assert Upper("cse") == "CSE";
    assert CodeOf(rows[id]) == "CSE";
  }

  /** A department as `getDepartments` lists it, with its `_count` of courses
      and of teachers. */
  datatype DepartmentSummary = DepartmentSummary(id: string, department: Department, courses: nat, teachers: nat)

  function CoursesOf(departmentId: string): Courses.Course -> bool {
    (c: Courses.Course) => c.departmentId == departmentId
  }

  /** Only users of role TEACHER are counted. */
  function TeachersOf(departmentId: string): Users.User -> bool {
    (u: Users.User) => u.role == Users.Teacher && u.departmentId == Some(departmentId)
  }

  function Summarise(ps: seq<(string, Department)>, courses: map<string, Courses.Course>,
                     users: map<string, Users.User>): (r: seq<DepartmentSummary>)
    ensures |r| == |ps|
    ensures forall i :: 0 <= i < |r| ==>
              && r[i].id == ps[i].0 && r[i].department == ps[i].1
              && r[i].courses == Count(courses, CoursesOf(ps[i].0))
              && r[i].teachers == Count(users, TeachersOf(ps[i].0))
  {
    seq(|ps|, i requires 0 <= i < |ps| =>
      DepartmentSummary(ps[i].0, ps[i].1, Count(courses, CoursesOf(ps[i].0)), Count(users, TeachersOf(ps[i].0))))
  }

  /** Administrators and students of a department do not add to its count. */
  lemma OnlyTeachersCount(users: map<string, Users.User>, id: string, u: Users.User, departmentId: string)
    requires id !in users && u.role != Users.Teacher
    ensures Count(users[id := u], TeachersOf(departmentId)) == Count(users, TeachersOf(departmentId))
  {
    CountIgnoresRejected(users, TeachersOf(departmentId), id, u);
  }

  const DuplicateDepartment := "Department code already exists"
  const DeleteDepartmentFailed := "Failed to delete department. It might have related courses or users."

  class DepartmentTable {
    var rows: map<string, Department>

    /** No two departments share a code. */
    ghost predicate Valid()
      reads this
    {
      Unique(rows, CodeOf)
    }

    constructor ()
      ensures Valid() && rows == map[]
    {
      rows := map[];
    }

    /** `createDepartment`. `newId` is the id the database generates. */
    method CreateDepartment(input: DepartmentInput, newId: string) returns (r: Outcome)
      requires Valid() && newId !in rows
      modifies this
      ensures Valid()
      ensures ValidateDepartment(input).Rejected? ==> r == Failure(ValidationError)
      ensures ValidateDepartment(input).Accepted? &&
              Taken(old(rows), CodeOf, Upper(input.code), None) ==>
                r == Failure(Message(DuplicateDepartment))
      ensures r == Success <==>
                ValidateDepartment(input).Accepted? && !Taken(old(rows), CodeOf, Upper(input.code), None)
      ensures r == Success ==> rows == old(rows)[newId := ValidateDepartment(input).value]
      ensures r != Success ==> rows == old(rows)
    {
      var parsed := ValidateDepartment(input);
      if parsed.Rejected? {
        return Failure(ValidationError);
      }
      var d := parsed.value;
      if Taken(rows, CodeOf, d.code, None) {
        return Failure(Message(DuplicateDepartment));
      }
      PutKeepsUnique(rows, CodeOf, newId, d);
      rows := rows[newId := d];
      r := Success;
    }

    /** `updateDepartment`: the duplicate check leaves out the department's own
        row; an unknown id makes the update throw, reported with the database's
        message. */
    method UpdateDepartment(id: string, input: DepartmentInput) returns (r: Outcome)
      requires Valid()
      modifies this
      ensures Valid()
      ensures ValidateDepartment(input).Rejected? ==> r == Failure(ValidationError)
      ensures ValidateDepartment(input).Accepted? &&
              Taken(old(rows), CodeOf, Upper(input.code), Some(id)) ==>
                r == Failure(Message(DuplicateDepartment))
      ensures ValidateDepartment(input).Accepted? && id !in old(rows) &&
              !Taken(old(rows), CodeOf, Upper(input.code), Some(id)) ==>
                r == Failure(DbError)
      ensures r == Success <==>
                && ValidateDepartment(input).Accepted? && id in old(rows)
                && !Taken(old(rows), CodeOf, Upper(input.code), Some(id))
      ensures r == Success ==> rows == old(rows)[id := ValidateDepartment(input).value]
      ensures r != Success ==> rows == old(rows)
      // Keeping one's own code (in any letter case) is not a duplicate.
      ensures ValidateDepartment(input).Accepted? && id in old(rows) &&
              Upper(input.code) == old(rows)[id].code ==>
                r == Success
    {
      var parsed := ValidateDepartment(input);
      if parsed.Rejected? {
        return Failure(ValidationError);
      }
      var d := parsed.value;
      if Taken(rows, CodeOf, d.code, Some(id)) {
        return Failure(Message(DuplicateDepartment));
      }
      if id !in rows {
        return Failure(DbError);
      }
      PutKeepsUnique(rows, CodeOf, id, d);
      rows := rows[id := d];
      r := Success;
    }

    /** `deleteDepartment`: removes that row only. `blocked` stands for the
        database refusing the delete because courses or users refer to it. */
    method DeleteDepartment(id: string, blocked: bool) returns (r: Outcome)
      requires Valid()
      modifies this
      ensures Valid()
      ensures r == Success <==> id in old(rows) && !blocked
      ensures r == Success ==> rows == old(rows) - {id}
      ensures r != Success ==> r == Failure(Message(DeleteDepartmentFailed)) && rows == old(rows)
    {
      if id !in rows || blocked {
        return Failure(Message(DeleteDepartmentFailed));
      }
      RemoveKeepsUnique(rows, CodeOf, id);
      rows := rows - {id};
      r := Success;
    }

    /** `getDepartments`: every department once, by name, with the number of
        its courses and of its teachers. */
    ghost function AllDepartments(courses: map<string, Courses.Course>, users: map<string, Users.User>)
      : (r: seq<DepartmentSummary>)
      reads this
      ensures |r| == |rows|
      ensures forall i :: 0 <= i < |r| ==>
                && r[i].id in rows && rows[r[i].id] == r[i].department
                && r[i].courses == Count(courses, CoursesOf(r[i].id))
                && r[i].teachers == Count(users, TeachersOf(r[i].id))
      ensures forall k :: k in rows ==> exists i :: 0 <= i < |r| && r[i].id == k
      ensures forall i, j :: 0 <= i < j < |r| ==> r[i].id != r[j].id
      ensures forall i, j :: 0 <= i < j < |r| ==> LessEq(r[i].department.name, r[j].department.name)
    {
      ByTextIsPreorder(NameOf);
      var ps := Listing(rows, AnyDepartment, ByText(NameOf));
      ListingCovers(rows, AnyDepartment, ps);
      ListingLength(rows, ps);
      ListingDistinct(rows, AnyDepartment, ps);
      SummariesByName(rows, ps, courses, users);
      Summarise(ps, courses, users)
    }
  }

  /** Summarising a by-name listing of every department keeps every
      department, once, in name order. */
  lemma SummariesByName(rows: map<string, Department>, ps: seq<(string, Department)>,
                        courses: map<string, Courses.Course>, users: map<string, Users.User>)
    requires forall k :: k in rows ==> (k, rows[k]) in ps
    requires SortedBy(ps, ByText(NameOf))
    requires forall i, j :: 0 <= i < j < |ps| ==> ps[i].0 != ps[j].0
    ensures var r := Summarise(ps, courses, users);
      && (forall k :: k in rows ==> exists i :: 0 <= i < |r| && r[i].id == k)
      && (forall i, j :: 0 <= i < j < |r| ==> r[i].id != r[j].id)
      && (forall i, j :: 0 <= i < j < |r| ==> LessEq(r[i].department.name, r[j].department.name))
  {
    var r := Summarise(ps, courses, users);
    forall k | k in rows ensures exists i :: 0 <= i < |r| && r[i].id == k {
      var i :| 0 <= i < |ps| && ps[i] == (k, rows[k]);
      assert r[i].id == k;
    }
    forall i, j | 0 <= i < j < |r| ensures LessEq(r[i].department.name, r[j].department.name) {
      assert ByText(NameOf)(ps[i], ps[j]);
      assert LessEq(NameOf(ps[i]), NameOf(ps[j]));
      assert r[i].department == ps[i].1 && r[j].department == ps[j].1;
    }
  }
}
