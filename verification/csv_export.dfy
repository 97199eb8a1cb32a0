/**
 * `write_csv_file`: the input checks, in their order, and the records handed
 * to the CSV writer — the header, then one fixed eight-column row per course.
 */
module CsvExport {
  import opened Wrappers
  import opened Strconv
  import opened Records

  /** Why the export was refused; each check fails before the file is created. */
  datatype CsvError = EmptyFileName | EmptyContents | EmptyHeader

  /** The number of fields of every data row. */
  const RowWidth: nat := 8

  /** The data row of one course: code, type, name, grade, credits, hours, instructor, notes. */
  function CsvRow(c: Course): (row: seq<string>)
    ensures |row| == RowWidth
    ensures CourseOfRow(row) == c
    ensures IsCanonicalInt(row[5])
  {
    [c.Code, c.Type, c.Name, c.Grade, c.Credits, Itoa(c.Hours), c.Instructor, c.Notes]
  }

  /** Reads a course back from its data row, parsing the hours column. */
  function CourseOfRow(row: seq<string>): Course
    requires |row| == RowWidth
  {
    Course(
      Code := row[0],
      Name := row[2],
      Type := row[1],
      Grade := row[3],
      Instructor := row[6],
      Notes := row[7],
      Credits := row[4],
      Hours := Atoi(row[5]))
  }

  /**
   * Checks the file name, then the contents, then the header, and yields the
   * records written: the header, then the row of each course in order.
   */
  method WriteCsvFile(fileName: string, contents: seq<Course>, header: seq<string>)
    returns (r: Result<seq<seq<string>>, CsvError>)
    ensures fileName == "" ==> r == Failure(EmptyFileName)
    ensures fileName != "" && contents == [] ==> r == Failure(EmptyContents)
    ensures fileName != "" && contents != [] && header == [] ==> r == Failure(EmptyHeader)
    ensures r.Success? <==> fileName != "" && contents != [] && header != []
    ensures r.Success? ==> |r.value| == |contents| + 1 && r.value[0] == header
    ensures r.Success? ==> forall i :: 0 <= i < |contents| ==> r.value[i + 1] == CsvRow(contents[i])
  {
    if fileName == "" {
      return Failure(EmptyFileName);
    }
    if |contents| == 0 {
      return Failure(EmptyContents);
    }
    if |header| == 0 {
      return Failure(EmptyHeader);
    }
    var records := [header];
    var i := 0;
    while i < |contents|
      invariant 0 <= i <= |contents|
      invariant |records| == i + 1 && records[0] == header
      invariant forall k :: 0 <= k < i ==> records[k + 1] == CsvRow(contents[k])
    {
      var course := contents[i];
      var row := [course.Code, course.Type, course.Name, course.Grade, course.Credits,
                  Itoa(course.Hours), course.Instructor, course.Notes];
      records := records + [row];
      i := i + 1;
    }
    r := Success(records);
  }
}
