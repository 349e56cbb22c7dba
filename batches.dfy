/** Batches (`batch-actions.ts`): a cohort of one course between two years,
    unique per `(courseId, startYear, endYear)`. */
module Batches {
  import opened Common

  datatype BatchInput = BatchInput(courseId: string, startYear: int, endYear: int)

  /** A row of the batch table: exactly the validated fields, no semesters. */
  datatype Batch = Batch(courseId: string, startYear: int, endYear: int)

  predicate InYearRange(y: int) {
    2000 <= y <= 2100
  }

  /** `BatchSchema`: a course is named, both years lie in 2000..2100, and the
      end year is after the start year. */
  function ValidateBatch(input: BatchInput): (r: Parsed<Batch>)
    ensures r.Accepted? <==>
              && input.courseId != []
              && InYearRange(input.startYear) && InYearRange(input.endYear)
              && input.startYear < input.endYear
    ensures r.Accepted? ==> r.value == Batch(input.courseId, input.startYear, input.endYear)
    ensures r.Accepted? ==> 1 <= r.value.endYear - r.value.startYear <= 100
  {
    if && input.courseId != []
       && InYearRange(input.startYear) && InYearRange(input.endYear)
       && input.endYear > input.startYear
    then Accepted(Batch(input.courseId, input.startYear, input.endYear))
    else Rejected
  }

  /** The natural key of the duplicate check. */
  function BatchKey(b: Batch): (string, int, int) {
    (b.courseId, b.startYear, b.endYear)
  }

  function StartYearOf(x: (string, Batch)): int {
    x.1.startYear
  }

  function AnyBatch(b: Batch): bool {
    true
  }

  const DuplicateBatch := "Batch already exists for this course"
  const DeleteBatchFailed := "Failed to delete batch. It might have related users or semesters."

  /** The same years under another course are a different key. */
  lemma OtherCourseIsNotDuplicate(rows: map<string, Batch>, b: Batch)
    requires forall k :: k in rows ==> rows[k].courseId != b.courseId
    ensures !Taken(rows, BatchKey, BatchKey(b), None)
  {
  }

  class BatchTable {
    var rows: map<string, Batch>

    /** No two batches share course, start year and end year. */
    ghost predicate Valid()
      reads this
    {
      Unique(rows, BatchKey)
    }

    constructor ()
      ensures Valid() && rows == map[]
    {
      rows := map[];
    }

    /** `createBatch`. `newId` is the id the database generates. */
    method CreateBatch(input: BatchInput, newId: string) returns (r: Outcome)
      requires Valid() && newId !in rows
      modifies this
      ensures Valid()
      ensures ValidateBatch(input).Rejected? ==> r == Failure(ValidationError)
      ensures ValidateBatch(input).Accepted? &&
              Taken(old(rows), BatchKey, BatchKey(ValidateBatch(input).value), None) ==>
                r == Failure(Message(DuplicateBatch))
      ensures r == Success <==>
                ValidateBatch(input).Accepted? &&
                !Taken(old(rows), BatchKey, BatchKey(ValidateBatch(input).value), None)
      ensures r == Success ==> rows == old(rows)[newId := ValidateBatch(input).value]
      ensures r != Success ==> rows == old(rows)
    {
      var parsed := ValidateBatch(input);
      if parsed.Rejected? {
        return Failure(ValidationError);
      }
      var b := parsed.value;
      if Taken(rows, BatchKey, BatchKey(b), None) {
        return Failure(Message(DuplicateBatch));
      }
      PutKeepsUnique(rows, BatchKey, newId, b);
      rows := rows[newId := b];
      r := Success;
    }

    /** `updateBatch`: the duplicate check leaves out the batch's own row; an
        unknown id makes the update throw, reported with the database's message. */
    method UpdateBatch(id: string, input: BatchInput) returns (r: Outcome)
      requires Valid()
      modifies this
      ensures Valid()
      ensures ValidateBatch(input).Rejected? ==> r == Failure(ValidationError)
      ensures ValidateBatch(input).Accepted? &&
              Taken(old(rows), BatchKey, BatchKey(ValidateBatch(input).value), Some(id)) ==>
                r == Failure(Message(DuplicateBatch))
      ensures ValidateBatch(input).Accepted? && id !in old(rows) &&
              !Taken(old(rows), BatchKey, BatchKey(ValidateBatch(input).value), Some(id)) ==>
                r == Failure(DbError)
      ensures r == Success <==>
                && ValidateBatch(input).Accepted? && id in old(rows)
                && !Taken(old(rows), BatchKey, BatchKey(ValidateBatch(input).value), Some(id))
      ensures r == Success ==> rows == old(rows)[id := ValidateBatch(input).value]
      ensures r != Success ==> rows == old(rows)
      // Re-saving a batch unchanged succeeds.
      ensures id in old(rows) && ValidateBatch(input) == Accepted(old(rows)[id]) ==> r == Success
    {
      var parsed := ValidateBatch(input);
      if parsed.Rejected? {
        return Failure(ValidationError);
      }
      var b := parsed.value;
      if Taken(rows, BatchKey, BatchKey(b), Some(id)) {
        return Failure(Message(DuplicateBatch));
      }
      if id !in rows {
        return Failure(DbError);
      }
      PutKeepsUnique(rows, BatchKey, id, b);
      rows := rows[id := b];
      r := Success;
    }

    /** `deleteBatch`: removes that row only. `blocked` stands for the
        database refusing the delete because other rows refer to the batch. */
    method DeleteBatch(id: string, blocked: bool) returns (r: Outcome)
      requires Valid()
      modifies this
      ensures Valid()
      ensures r == Success <==> id in old(rows) && !blocked
      ensures r == Success ==> rows == old(rows) - {id}
      ensures r != Success ==> r == Failure(Message(DeleteBatchFailed)) && rows == old(rows)
    {
      if id !in rows || blocked {
        return Failure(Message(DeleteBatchFailed));
      }
      RemoveKeepsUnique(rows, BatchKey, id);
      rows := rows - {id};
      r := Success;
    }

    /** `getBatches`: every batch once, latest start year first. */
    ghost function AllBatches(): (r: seq<(string, Batch)>)
      reads this
      ensures forall x :: multiset(r)[x] == if x.0 in rows && rows[x.0] == x.1 then 1 else 0
      ensures SortedBy(r, ByNumberDesc(StartYearOf))
    {
      ByNumberDescIsPreorder(StartYearOf);
      Listing(rows, AnyBatch, ByNumberDesc(StartYearOf))
    }
  }
}
