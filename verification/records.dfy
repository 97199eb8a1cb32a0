/** The course record that flows from the scraper to the CSV file. */
module Records {

  /** The sentinel stored when a type or grade cannot be extracted. */
  const Unknown: string := "未知"

  /**
   * One row of the catalogue. `Code` is catalogue text that merely looks
   * numeric; `Credits` is kept as written (it may encode a lecture/lab split).
   */
  datatype Course = Course(
    Code: string,
    Name: string,
    Type: string,
    Grade: string,
    Instructor: string,
    Notes: string,
    Credits: string,
    Hours: int)
}
