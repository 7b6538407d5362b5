/** The record shapes of the service: the stored student, the creation request
    and the statistics summary. */
module Models {

  /** A stored student: identifier, display name and per-subject grades.
      Grades are Python floats, modelled as reals. */
  datatype Student = Student(id: int, name: string, grades: map<string, real>)

  /** The body of a creation request: everything but the identifier,
      which the router assigns. */
  datatype StudentCreate = StudentCreate(name: string, grades: map<string, real>)

  /** The statistics of one subject, shaped after the call that builds it in
      calculate_statistics. Only the average is modelled; the median and the
      standard deviation are not part of this model. */
  datatype Statistics = Statistics(average: real)
}
