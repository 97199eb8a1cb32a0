/**
 * Record assembly: the body of the crawler's row callback. The cells of one
 * table row, already pulled out of the page, become a `Course`, which is
 * appended to the list of accepted courses unless the row is blank, belongs to
 * a graduate programme or is an elective.
 */
module Assembly {
  import opened Wrappers
  import opened Strings
  import opened Records
  import opened FieldParsers

  /** The cell contents the callback reads from one table row. */
  datatype RowCells = RowCells(
    codeText: string,          // text of the course-code cell
    nameHtml: string,          // inner HTML of the link in the course-name cell
    creditsText: string,       // text of the credits cell
    instructors: seq<string>,  // text of each link in the instructor cell, in page order
    notesHtml: string,         // inner HTML of the notes cell
    timeLocation: string)      // text of the time-and-place cell

  /** The connective between instructor names, and the honorific after them. */
  const NameJoiner: string := "與"
  const Honorific: string := "教授"
  /** A note containing this character marks a graduate course. */
  const GraduateMark: string := "碩"
  /** A type containing this marks an elective. */
  const ElectiveMark: string := "選修"

  /** No white space at either end. */
  predicate Trimmed(s: string) {
    s == [] || (!IsSpace(s[0]) && !IsSpace(s[|s| - 1]))
  }

  /** The course title: line breaks in the link turned into spaces, then trimmed. */
  function CleanTitle(nameHtml: string): (title: string)
    ensures Trimmed(title)
    ensures |title| <= |ReplaceAll(nameHtml, "<br/>", " ")|
  {
    TrimSpace(ReplaceAll(nameHtml, "<br/>", " "))
  }

  /** The instructor field: the names joined with "與", then "教授". */
  function InstructorLine(names: seq<string>): (line: string)
    ensures |line| >= |Honorific| && line[|line| - |Honorific|..] == Honorific
  {
    Join(names, NameJoiner) + Honorific
  }

  /** The notes field: line breaks kept as '\n', tags removed, ends trimmed. */
  function CleanNotes(notesHtml: string): (notes: string)
    ensures Trimmed(notes)
    ensures NoSpan(notes, '<', '>')
  {
    var text := StripTags(ReplaceAll(notesHtml, "<br/>", "\n"));
    StripTagsRemovesEveryTag(ReplaceAll(notesHtml, "<br/>", "\n"));
    TrimSpaceKeepsNoSpan(text, '<', '>');
    TrimSpace(text)
  }

  /**
   * A title written as lines separated by "<br/>" comes out as the same lines
   * separated by single spaces, trimmed.
   */
  lemma {:induction false} CleanTitleJoinsLines(lines: seq<string>)
    requires lines != [] && forall p :: p in lines ==> '<' !in p
    ensures CleanTitle(Join(lines, "<br/>")) == TrimSpace(Join(lines, " "))
  {
    assert "<br/>"[0] == '<';
    SplitUndoesJoin(lines, "<br/>");
    ReplaceAllIsJoinOfSplit(Join(lines, "<br/>"), "<br/>", " ");
  }

  /**
   * Notes written as lines separated by "<br/>" come out as the same lines
   * separated by '\n', trimmed: with no other tag there is nothing to strip.
   */
  lemma {:induction false} CleanNotesJoinsLines(lines: seq<string>)
    requires lines != [] && forall p :: p in lines ==> '<' !in p
    ensures CleanNotes(Join(lines, "<br/>")) == TrimSpace(Join(lines, "\n"))
  {
    assert "<br/>"[0] == '<';
    SplitUndoesJoin(lines, "<br/>");
    ReplaceAllIsJoinOfSplit(Join(lines, "<br/>"), "<br/>", "\n");
    JoinAvoidsChar(lines, "\n", '<');
    StripTagsRemovesEveryTag(Join(lines, "\n"));
  }

  /** What every accepted course satisfies. */
  predicate WellFormed(c: Course) {
    && !Contains(c.Type, ElectiveMark)
    && !Contains(c.Notes, GraduateMark)
    && (c.Grade == Unknown || IsGradeText(c.Grade))
    && |c.Instructor| >= |Honorific| && c.Instructor[|c.Instructor| - |Honorific|..] == Honorific
    && Trimmed(c.Code) && Trimmed(c.Credits) && Trimmed(c.Notes)
    && NoSpan(c.Notes, '<', '>')
    && c.Hours >= 0
  }

  /**
   * The callback as a function: the course a row yields, or `None` when the
   * row is dropped.
   */
  function BuildCourse(row: RowCells): (r: Option<Course>)
    ensures r.None? <==>
      || row.codeText == ""
      || Contains(CleanNotes(row.notesHtml), GraduateMark)
      || Contains(SplitCourseTypeAndName(CleanTitle(row.nameHtml)).0, ElectiveMark)
    ensures r.Some? ==> WellFormed(r.value)
    ensures r.Some? ==>
      && r.value.Code == TrimSpace(row.codeText)
      && (r.value.Type, r.value.Name) == SplitCourseTypeAndName(CleanTitle(row.nameHtml))
      && r.value.Credits == TrimSpace(row.creditsText)
      && r.value.Instructor == InstructorLine(row.instructors)
      && r.value.Grade == ParseGradeFromNotes(row.notesHtml)
      && r.value.Notes == CleanNotes(row.notesHtml)
      && r.value.Hours == CalculateHours(row.timeLocation)
  {
    if row.codeText == "" then None
    else
      var (courseType, name) := SplitCourseTypeAndName(CleanTitle(row.nameHtml));
      var notes := CleanNotes(row.notesHtml);
      if Contains(notes, GraduateMark) || Contains(courseType, ElectiveMark) then None
      else
        Some(Course(
          Code := TrimSpace(row.codeText),
          Name := name,
          Type := courseType,
          Grade := ParseGradeFromNotes(row.notesHtml),
          Instructor := InstructorLine(row.instructors),
          Notes := notes,
          Credits := TrimSpace(row.creditsText),
          Hours := CalculateHours(row.timeLocation)))
  }

  /** The courses a row contributes to the list: none or one. */
  function Accepted(row: RowCells): (added: seq<Course>)
    ensures |added| <= 1
    ensures forall c :: c in added ==> WellFormed(c)
  {
    match BuildCourse(row)
    case None => []
    case Some(c) => [c]
  }

  /**
   * The instructor field loses nothing: when no name contains "與", cutting
   * off "教授" and splitting at "與" gives the names back. A row without
   * instructor links yields just "教授".
   */
  lemma {:induction false} InstructorNamesRecoverable(names: seq<string>)
    ensures names == [] ==> InstructorLine(names) == Honorific
    ensures names != [] && (forall n :: n in names ==> NameJoiner[0] !in n) ==>
      var line := InstructorLine(names);
      Split(line[..|line| - |Honorific|], NameJoiner) == names
  {
    if names != [] && (forall n :: n in names ==> NameJoiner[0] !in n) {
      var line := InstructorLine(names);
      assert line[..|line| - |Honorific|] == Join(names, NameJoiner);
      assert NameJoiner == [NameJoiner[0]];
      SplitUndoesJoin(names, NameJoiner);
    }
  }

  /**
   * The emptiness test looks at the raw code cell, so a cell holding only
   * white space passes it and yields a course whose code is empty.
   */
  lemma {:induction false} BlankCodeCellYieldsEmptyCode(row: RowCells)
    requires row.codeText != [] && forall k :: 0 <= k < |row.codeText| ==> IsSpace(row.codeText[k])
    ensures BuildCourse(row).Some? ==> BuildCourse(row).value.Code == ""
  {
  }

  /** Every course of a list satisfies `WellFormed`. */
  predicate AllWellFormed(courses: seq<Course>) {
    forall i :: 0 <= i < |courses| ==> WellFormed(courses[i])
  }

  lemma {:induction false} AppendKeepsWellFormed(courses: seq<Course>, c: Course)
    requires AllWellFormed(courses) && WellFormed(c)
    ensures AllWellFormed(courses + [c])
  {
  }

  /** The growing list of accepted courses the callback appends to. */
  class CourseList {
    var courses: seq<Course>

    /** Every course in the list was accepted. */
    ghost predicate Valid()
      reads this
    {
      AllWellFormed(courses)
    }

    constructor ()
      ensures courses == [] && Valid()
    {
      courses := [];
    }

    /**
     * The callback for one table row, field by field: a row that is kept is
     * appended after every earlier course, and nothing else in the list changes.
     */
    method OnRow(row: RowCells)
      requires Valid()
      modifies this
      ensures Valid()
      ensures courses == old(courses) + Accepted(row)
    {
      if row.codeText == "" {
        return;
      }
      var course := Course("", "", "", "", "", "", "", 0);
      course := course.(Code := TrimSpace(row.codeText));
      course := course.(Name := CleanTitle(row.nameHtml));
      var (courseType, name) := SplitCourseTypeAndName(course.Name);
      course := course.(Type := courseType, Name := name);
      course := course.(Credits := TrimSpace(row.creditsText));
      course := course.(Instructor := Join(row.instructors, NameJoiner));
      course := course.(Instructor := course.Instructor + Honorific);
      course := course.(Grade := ParseGradeFromNotes(row.notesHtml));
      var notesWithNewlines := ReplaceAll(row.notesHtml, "<br/>", "\n");
      course := course.(Notes := TrimSpace(StripTags(notesWithNewlines)));
      assert course.Notes == CleanNotes(row.notesHtml);
      if Contains(course.Notes, GraduateMark) {
        assert BuildCourse(row).None?;
        return;
      }
      course := course.(Hours := CalculateHours(row.timeLocation));
      if IndexFrom(course.Type, ElectiveMark, 0).Some? {
        assert BuildCourse(row).None?;
        return;
      } else {
        assert WellFormed(course) by {
          assert BuildCourse(row) == Some(course);
        }
        AppendKeepsWellFormed(courses, course);
        courses := courses + [course];
      }
    }
  }
}
