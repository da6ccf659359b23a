/**
 * The tables of the pipeline. A data frame is a header (its column labels in
 * order) and a sequence of row records; a cell that can hold text, a parsed
 * date, a number or nothing is a `Value`.
 */
module Records {
  import opened Dates
  import opened Wrappers

  /** A data frame cell: missing (NaN), text, a parsed date, or an integer. */
  datatype Value = Missing | Text(text: string) | Day(date: CalendarDate) | Num(n: int)

  /** A row of the patient table (PATIENT, BIRTHDATE, DEAD, FIRST, LAST, MARITAL, RACE, GENDER), with the derived AGE and CASE columns once added. */
  datatype PatientRow = PatientRow(
    patient: string, birthdate: Value, dead: Value,
    first: Value, last: Value, marital: Value, race: Value, gender: Value,
    age: Option<int>, isCase: Option<int>)

  /**
   * A row of a clinical event table. Every domain has PATIENT, DATE,
   * DESCRIPTION and CODE; allergies also carry SYSTEM, observations VALUE,
   * UNITS and TYPE (Missing where a domain has no such column). AGE is
   * present once the row is annotated. Other domain-specific columns play no
   * part in the pipeline and are not modelled.
   */
  datatype EventRow = EventRow(
    patient: string, date: Value, age: Option<int>, system: Value,
    description: Value, code: Value, value: Value, units: Value, kind: Value)

  datatype Frame<R> = Frame(header: seq<string>, rows: seq<R>)

  /** What the pipeline can raise. */
  datatype Error =
    | NoCriteria                      // generate_cohort called with no patient set
    | SampleOutOfRange(population: int, requested: int)  // random.sample's ValueError
    | MissingBirthdate(patient: string) // KeyError in the birth-date lookup
    | BirthdateNotADate(patient: string) // TypeError subtracting a non-date birth date
    | ColumnExists(column: string)    // DataFrame.insert of a label that exists (ValueError)
    | NotOneDimensional(columns: int) // DataFrame.insert of a value with several columns (ValueError)
    | ColumnIndexOutOfRange(loc: int) // DataFrame.insert past the last column (IndexError)

  function PatientOf(r: PatientRow): string { r.patient }

  function EventPatient(r: EventRow): string { r.patient }
}
