/** The course listing: `parseCoursesCSV` (utils/api.ts:5-34). A row becomes a
    course when its `CourseName` cell is neither empty nor the skip marker; every
    other column may be absent and is then filled with a fixed default. */
module Courses {
  import opened Types
  import opened Text
  import opened Csv
  import Uri
  import Numeric

  const TitleColumn: string := "CourseName"
  const DescriptionColumn: string := "Description"
  const PriceColumn: string := "Price (EGP)"
  const ImageColumn: string := "ImageURL"
  const BookingColumn: string := "BookingLink"
  const InstructorColumn: string := "Instructor"
  const DaysColumn: string := "days"
  const TimeColumn: string := "Time"

  /** "No description is available at the moment." */
  const NoDescription: string := "لا يوجد وصف متاح حاليًا."
  /** "Not specified." */
  const Unassigned: string := "غير محدد"
  /** "Not decided yet." */
  const Unscheduled: string := "لم يحدد بعد"
  /** The booking link of a course that has none. */
  const DeadLink: string := "#"

  const PicsumPrefix: string := "https://picsum.photos/seed/"
  const PicsumSuffix: string := "/600/400"

  /** The picsum.photos image of a course without one of its own, seeded by its title.
      The title stays inside one path segment, whatever characters it holds. */
  function PlaceholderImage(title: string): (r: string)
    ensures Uri.EmbedsComponent(r, PicsumPrefix, title, PicsumSuffix)
  {
    Uri.Embed(PicsumPrefix, title, PicsumSuffix);
    PicsumPrefix + Uri.EncodeComponent(title) + PicsumSuffix
  }

  /** `Number(cell) || 0`; a missing column reads as `undefined`, which is not a number. */
  function PriceOf(cell: Option<string>): (r: int)
    ensures cell.None? ==> r == 0
    ensures r != 0 ==> cell.Some? && exists i :: 0 <= i < |cell.value| && Numeric.IsDigit(cell.value[i])
  {
    match cell
    case None => 0
    case Some(text) => Numeric.NumberOrZero(text)
  }

  /** A price cell holding an integer as `String` writes it gives that integer. */
  lemma WrittenPriceReadsBack(n: int)
    ensures PriceOf(Some(Numeric.ShowInt(n))) == n
  {
    Numeric.NumberOfShowInt(n);
  }

  /** The course a row of cells describes; `None` when its title is missing, empty or
      the skip marker. Cells are looked up in the object the row builds, so of two
      columns with one name the later one counts. */
  function CourseOfRow(headers: seq<string>, values: seq<string>): (r: Option<Course>)
    requires |headers| == |values|
    ensures r.Some? ==> r.value.title != [] && r.value.title != SkipMarker
  {
    var entry := Entries(headers, values);
    var title := OrElse(Get(entry, TitleColumn), "");
    if title == [] || title == SkipMarker then None
    else
      var image := Get(entry, ImageColumn);
      var booking := Get(entry, BookingColumn);
      Some(Course(
        title := title,
        description := OrElse(Get(entry, DescriptionColumn), NoDescription),
        price := PriceOf(Get(entry, PriceColumn)),
        imageUrl := if Usable(image) then image.value else PlaceholderImage(title),
        bookingUrl := if Usable(booking) then booking.value else DeadLink,
        instructor := OrElse(Get(entry, InstructorColumn), Unassigned),
        days := OrElse(Get(entry, DaysColumn), Unscheduled),
        time := OrElse(Get(entry, TimeColumn), Unscheduled)))
  }

  /** The course one data line yields, if any. */
  function CourseOfLine(headers: seq<string>, line: string): Option<Course> {
    match DataRow(|headers|, line)
    case None => None
    case Some(values) => CourseOfRow(headers, values)
  }

  function CourseReader(headers: seq<string>): string -> Option<Course> {
    line => CourseOfLine(headers, line)
  }

  /** The courses of the data lines under a header, in line order. */
  function CoursesOf(headers: seq<string>, rows: seq<string>): seq<Course> {
    FilterMap(rows, CourseReader(headers))
  }

  /** `parseCoursesCSV(text)`. */
  function ParseCourses(text: string): (r: seq<Course>)
    ensures '\n' !in Trim(text) ==> r == []
    ensures |r| < |Lines(text)|
    ensures forall c :: c in r ==> c.title != [] && c.title != SkipMarker
  {
    var lines := Lines(text);
    if |lines| < 2 then []
    else
      CoursesTitled(HeaderOf(text), lines[1..]);
      CoursesOf(HeaderOf(text), lines[1..])
  }

  /** Every course has a usable title. */
  lemma CoursesTitled(headers: seq<string>, rows: seq<string>)
    ensures forall c :: c in CoursesOf(headers, rows) ==> c.title != [] && c.title != SkipMarker
  {
    forall c | c in CoursesOf(headers, rows) ensures c.title != [] && c.title != SkipMarker {
      var i :| 0 <= i < |rows| && CourseReader(headers)(rows[i]) == Some(c);
      assert CourseOfLine(headers, rows[i]) == Some(c);
    }
  }

  /** A data line yields no course exactly when it is blank, has a different number of
      fields than the header, or its (last) `CourseName` cell is missing, empty or `##`. */
  lemma CourseOfLineNone(headers: seq<string>, line: string)
    ensures CourseOfLine(headers, line).None? <==>
      || Trim(line) == []
      || |SplitFields(line)| != |headers|
      || !Usable(LastCell(headers, RowValues(line), TitleColumn))
  {
    if Trim(line) != [] && |SplitFields(line)| == |headers| {
      var values := RowValues(line);
      assert DataRow(|headers|, line) == Some(values);
      CourseOfRowNone(headers, values);
    }
  }

  lemma CourseOfRowNone(headers: seq<string>, values: seq<string>)
    requires |headers| == |values|
    ensures CourseOfRow(headers, values).None? <==> !Usable(LastCell(headers, values, TitleColumn))
  {
    LookupLastWins(headers, values, TitleColumn);
  }

  /** What each field of a course is, in terms of the cells of the last column of each
      name: the title verbatim; description, instructor, days and time verbatim when
      non-empty (the skip marker included) and their placeholder otherwise; image and
      booking link verbatim unless empty, missing or the skip marker; the price as a
      number, 0 when missing. */
  lemma CourseFields(headers: seq<string>, values: seq<string>)
    requires |headers| == |values|
    ensures CourseOfRow(headers, values).Some? <==> Usable(LastCell(headers, values, TitleColumn))
    ensures CourseOfRow(headers, values).Some? ==>
      var c := CourseOfRow(headers, values).value;
      && Some(c.title) == LastCell(headers, values, TitleColumn)
      && c.description == OrElse(LastCell(headers, values, DescriptionColumn), NoDescription)
      && c.instructor == OrElse(LastCell(headers, values, InstructorColumn), Unassigned)
      && c.days == OrElse(LastCell(headers, values, DaysColumn), Unscheduled)
      && c.time == OrElse(LastCell(headers, values, TimeColumn), Unscheduled)
      && c.price == PriceOf(LastCell(headers, values, PriceColumn))
      && c.imageUrl == (if Usable(LastCell(headers, values, ImageColumn)) then LastCell(headers, values, ImageColumn).value else PlaceholderImage(c.title))
      && c.bookingUrl == (if Usable(LastCell(headers, values, BookingColumn)) then LastCell(headers, values, BookingColumn).value else DeadLink)
  {
    LookupLastWins(headers, values, TitleColumn);
    LookupLastWins(headers, values, DescriptionColumn);
    LookupLastWins(headers, values, InstructorColumn);
    LookupLastWins(headers, values, DaysColumn);
    LookupLastWins(headers, values, TimeColumn);
    LookupLastWins(headers, values, PriceColumn);
    LookupLastWins(headers, values, ImageColumn);
    LookupLastWins(headers, values, BookingColumn);
  }

  /** The skip marker hides a course only in its title; in the image and booking
      columns it selects the default; in the text columns it is shown as it is. */
  lemma SkipMarkerPerColumn(headers: seq<string>, values: seq<string>)
    requires |headers| == |values|
    requires CourseOfRow(headers, values).Some?
    ensures var c := CourseOfRow(headers, values).value;
      && (LastCell(headers, values, DescriptionColumn) == Some(SkipMarker) ==> c.description == SkipMarker)
      && (LastCell(headers, values, InstructorColumn) == Some(SkipMarker) ==> c.instructor == SkipMarker)
      && (LastCell(headers, values, DaysColumn) == Some(SkipMarker) ==> c.days == SkipMarker)
      && (LastCell(headers, values, TimeColumn) == Some(SkipMarker) ==> c.time == SkipMarker)
      && (LastCell(headers, values, ImageColumn) == Some(SkipMarker) ==> c.imageUrl == PlaceholderImage(c.title))
      && (LastCell(headers, values, BookingColumn) == Some(SkipMarker) ==> c.bookingUrl == DeadLink)
  {
    CourseFields(headers, values);
  }

  /** A course whose price cell is missing, empty or holds no digit is free. */
  lemma NonNumericPriceIsZero(headers: seq<string>, values: seq<string>)
    requires |headers| == |values|
    requires CourseOfRow(headers, values).Some?
    requires var cell := LastCell(headers, values, PriceColumn);
      cell.Some? ==> forall i :: 0 <= i < |cell.value| ==> !Numeric.IsDigit(cell.value[i])
    ensures CourseOfRow(headers, values).value.price == 0
  {
    CourseFields(headers, values);
  }

  /** Courses come in the order of their lines: the courses of two blocks of lines are
      those of the first block followed by those of the second. */
  lemma CoursesInLineOrder(headers: seq<string>, a: seq<string>, b: seq<string>)
    ensures CoursesOf(headers, a + b) == CoursesOf(headers, a) + CoursesOf(headers, b)
  {
    FilterMapAppend(a, b, CourseReader(headers));
  }

  /** A dropped line (blank, of the wrong width, or without a usable title) can be
      inserted anywhere among the data lines without changing the courses. */
  lemma DroppedLineChangesNothing(headers: seq<string>, a: seq<string>, line: string, b: seq<string>)
    requires || Trim(line) == []
             || |SplitFields(line)| != |headers|
             || !Usable(LastCell(headers, RowValues(line), TitleColumn))
    ensures CoursesOf(headers, a + [line] + b) == CoursesOf(headers, a + b)
  {
    CourseOfLineNone(headers, line);
    FilterMapSkip(a, line, b, CourseReader(headers));
  }

  /** Every line with a usable title yields its course: none is lost. */
  lemma EveryTitledLineKept(headers: seq<string>, rows: seq<string>, i: nat)
    requires i < |rows|
    requires Trim(rows[i]) != [] && |SplitFields(rows[i])| == |headers|
    requires Usable(LastCell(headers, RowValues(rows[i]), TitleColumn))
    ensures CourseOfLine(headers, rows[i]).Some?
    ensures CourseOfLine(headers, rows[i]).value in CoursesOf(headers, rows)
  {
    CourseOfLineNone(headers, rows[i]);
    assert CourseReader(headers)(rows[i]) == CourseOfLine(headers, rows[i]);
    FilterMapComplete(rows, CourseReader(headers), i);
  }
}
