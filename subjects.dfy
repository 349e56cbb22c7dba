/** Subjects (`subject-actions.ts`): taught under a department, unique by a
    code that is stored exactly as submitted. */
module Subjects {
  import opened Common

  datatype SubjectInput = SubjectInput(name: string, code: string, credits: int, departmentId: string)

  datatype Subject = Subject(name: string, code: string, credits: nat, departmentId: string)

  /** `SubjectSchema`: name, code and department are non-empty and credits are
      not negative; the code is kept as it was sent. */
  function ValidateSubject(input: SubjectInput): (r: Parsed<Subject>)
    ensures r.Accepted? <==>
              input.name != [] && input.code != [] && input.credits >= 0 && input.departmentId != []
    ensures r.Accepted? ==>
              && r.value.name == input.name && r.value.code == input.code
              && r.value.credits == input.credits && r.value.departmentId == input.departmentId
  {
    if input.name != [] && input.code != [] && input.credits >= 0 && input.departmentId != []
    then Accepted(Subject(input.name, input.code, input.credits, input.departmentId))
    else Rejected
  }

  function CodeOf(s: Subject): string {
    s.code
  }

  function CodeOfRow(x: (string, Subject)): string {
    x.1.code
  }

  /** The `where` of `getSubjects`: a department filter only when a non-empty
      department id is given (an empty string is falsy). */
  function InDepartment(departmentId: Option<string>): Subject -> bool {
    (s: Subject) => departmentId.None? || departmentId.value == [] || s.departmentId == departmentId.value
  }

  const DuplicateSubject := "Subject code must be unique"
  const UpdateSubjectFailed := "Failed to update subject"
  const DeleteSubjectFailed := "Failed to delete subject"

  /** Codes are compared exactly: a stored `CS101` does not make `cs101` a
      duplicate. */
  lemma CaseVariantsAreDistinct(rows: map<string, Subject>, id: string)
    requires rows == map[id := Subject("Data Structures", "CS101", 4, "d")]
    ensures Taken(rows, CodeOf, "CS101", None)
    ensures !Taken(rows, CodeOf, "cs101", None)
  {
    assert CodeOf(rows[id]) == "CS101";
    assert "cs101"[0] != "CS101"[0];
  }

  /** An omitted or empty department id lists every subject; a given one lists
      exactly that department's subjects. */
  lemma DepartmentFilterOnlyWhenGiven(s: Subject, d: string)
    ensures InDepartment(None)(s) && InDepartment(Some(""))(s)
    ensures d != [] ==> (InDepartment(Some(d))(s) <==> s.departmentId == d)
  {
  }

  class SubjectTable {
    var rows: map<string, Subject>

    /** No two subjects share a code. */
    ghost predicate Valid()
      reads this
    {
      Unique(rows, CodeOf)
    }

    constructor ()
      ensures Valid() && rows == map[]
    {
      rows := map[];
    }

    /** `createSubject`. `newId` is the id the database generates. */
    method CreateSubject(input: SubjectInput, newId: string) returns (r: Outcome)
      requires Valid() && newId !in rows
      modifies this
      ensures Valid()
      ensures ValidateSubject(input).Rejected? ==> r == Failure(ValidationError)
      ensures ValidateSubject(input).Accepted? && Taken(old(rows), CodeOf, input.code, None) ==>
                r == Failure(Message(DuplicateSubject))
      ensures r == Success <==>
                ValidateSubject(input).Accepted? && !Taken(old(rows), CodeOf, input.code, None)
      ensures r == Success ==> rows == old(rows)[newId := ValidateSubject(input).value]
      ensures r != Success ==> rows == old(rows)
    {
      var parsed := ValidateSubject(input);
      if parsed.Rejected? {
        return Failure(ValidationError);
      }
      var s := parsed.value;
      if Taken(rows, CodeOf, s.code, None) {
        return Failure(Message(DuplicateSubject));
      }
      PutKeepsUnique(rows, CodeOf, newId, s);
      rows := rows[newId := s];
      r := Success;
    }

    /** `updateSubject`: the duplicate check leaves out the subject's own row;
        an unknown id makes the update throw, reported as a failed update. */
    method UpdateSubject(id: string, input: SubjectInput) returns (r: Outcome)
      requires Valid()
      modifies this
      ensures Valid()
      ensures ValidateSubject(input).Rejected? ==> r == Failure(ValidationError)
      ensures ValidateSubject(input).Accepted? && Taken(old(rows), CodeOf, input.code, Some(id)) ==>
                r == Failure(Message(DuplicateSubject))
      ensures ValidateSubject(input).Accepted? && id !in old(rows) &&
              !Taken(old(rows), CodeOf, input.code, Some(id)) ==>
                r == Failure(Message(UpdateSubjectFailed))
      ensures r == Success <==>
                && ValidateSubject(input).Accepted? && id in old(rows)
                && !Taken(old(rows), CodeOf, input.code, Some(id))
      ensures r == Success ==> rows == old(rows)[id := ValidateSubject(input).value]
      ensures r != Success ==> rows == old(rows)
      // Keeping one's own code is not a duplicate.
      ensures ValidateSubject(input).Accepted? && id in old(rows) && input.code == old(rows)[id].code ==>
                r == Success
    {
      var parsed := ValidateSubject(input);
      if parsed.Rejected? {
        return Failure(ValidationError);
      }
      var s := parsed.value;
      if Taken(rows, CodeOf, s.code, Some(id)) {
        return Failure(Message(DuplicateSubject));
      }
      if id !in rows {
        return Failure(Message(UpdateSubjectFailed));
      }
      PutKeepsUnique(rows, CodeOf, id, s);
      rows := rows[id := s];
      r := Success;
    }

    /** `deleteSubject`: removes that row only. `blocked` stands for the
        database refusing the delete because other rows refer to the subject. */
    method DeleteSubject(id: string, blocked: bool) returns (r: Outcome)
      requires Valid()
      modifies this
      ensures Valid()
      ensures r == Success <==> id in old(rows) && !blocked
      ensures r == Success ==> rows == old(rows) - {id}
      ensures r != Success ==> r == Failure(Message(DeleteSubjectFailed)) && rows == old(rows)
    {
      if id !in rows || blocked {
        return Failure(Message(DeleteSubjectFailed));
      }
      RemoveKeepsUnique(rows, CodeOf, id);
      rows := rows - {id};
      r := Success;
    }

    /** `getSubjects`: the subjects of the department when one is given (all
        otherwise), each once, by code. */
    ghost function SubjectsOf(departmentId: Option<string>): (r: seq<(string, Subject)>)
      reads this
      ensures forall x :: multiset(r)[x] ==
                if x.0 in rows && rows[x.0] == x.1 && InDepartment(departmentId)(x.1) then 1 else 0
      ensures SortedBy(r, ByText(CodeOfRow))
    {
      ByTextIsPreorder(CodeOfRow);
      Listing(rows, InDepartment(departmentId), ByText(CodeOfRow))
    }
  }
}
