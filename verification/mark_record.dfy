/** The terminal output of the pipeline: one record per accepted table row. */
module MarkRecords {
  import opened Wrappers

  /** Every field but the student ID is nullable: it may be missing from the
      row or malformed. */
  datatype MarkRecord = MarkRecord(
    studentId: nat,
    studentName: Option<string>,
    studentFatherName: Option<string>,
    practicalMark: Option<nat>,
    theoreticalMark: Option<nat>,
    examMark: Option<nat>)
}
