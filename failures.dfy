/**
 * The exceptions that end a run of the parser, as values. Each one is
 * raised by Python or pandas; none is caught, so the first one stops the run.
 */
module Failures {

  datatype Failure =
    | MissingLabel(field: string)            // `split(field + '\nTypeSCALAR')[1]` has no piece [1]
    | MissingValue(field: string)            // `split('\nValue')[1]` has no piece [1]
    | ShapeMismatch(values: nat, columns: nat) // the report record and the column list differ in length
    | NoReferenceRow(caseId: string)         // no CSV row carries the report's identifier
    | ReferenceRowTooShort(caseId: string, width: nat, columns: nat) // the CSV row has fewer cells than columns
    | AmbiguousReferenceRow(caseId: string, count: nat)  // several CSV rows carry the identifier

  datatype Result<T> = Ok(value: T) | Err(error: Failure)
}
