/** The accreditation logos: `parseAccreditationsCSV` (utils/api.ts:85-114). Both the
    `AltText` and the `ImageURL` column are required; a row is kept when its image
    cell is neither empty nor the skip marker. */
module Accreditations {
  import opened Types
  import opened Text
  import opened Csv

  const AltColumn: string := "AltText"
  const ImageColumn: string := "ImageURL"

  /** The alternative text of a logo whose `AltText` cell is empty. */
  const DefaultAlt: string := "Accreditation Logo"

  /** Where the alternative text and the image of a logo are in a row. */
  datatype Columns = Columns(alt: nat, image: nat)

  /** The column positions, each the first header cell of its name; `None` unless the
      sheet has both columns. */
  function LogoColumns(headers: seq<string>): (r: Option<Columns>)
    ensures r.Some? <==> AltColumn in headers && ImageColumn in headers
    ensures r.Some? ==> r.value.alt < |headers| && r.value.image < |headers|
  {
    match (IndexOf(headers, AltColumn), IndexOf(headers, ImageColumn))
    case (Some(a), Some(i)) => Some(Columns(a, i))
    case _ => None
  }

  /** The logo a row of cells describes; `None` when its image cell is empty or `##`. */
  function LogoOfRow(cols: Columns, values: seq<string>): (r: Option<Accreditation>)
    requires cols.alt < |values| && cols.image < |values|
    ensures r.Some? ==> Usable(Some(r.value.imageUrl)) && r.value.altText != []
  {
    var image := values[cols.image];
    if !Usable(Some(image)) then None
    else Some(Accreditation(altText := OrElse(Some(values[cols.alt]), DefaultAlt), imageUrl := image))
  }

  /** The logo one data line yields, if any. */
  function LogoOfLine(headers: seq<string>, cols: Columns, line: string): Option<Accreditation>
    requires cols.alt < |headers| && cols.image < |headers|
  {
    match DataRow(|headers|, line)
    case None => None
    case Some(values) => LogoOfRow(cols, values)
  }

  function LogoReader(headers: seq<string>, cols: Columns): string -> Option<Accreditation>
    requires cols.alt < |headers| && cols.image < |headers|
  {
    line => LogoOfLine(headers, cols, line)
  }

  /** The logos of the data lines under a header, in line order. */
  function LogosOf(headers: seq<string>, cols: Columns, rows: seq<string>): seq<Accreditation>
    requires cols.alt < |headers| && cols.image < |headers|
  {
    FilterMap(rows, LogoReader(headers, cols))
  }

  /** `parseAccreditationsCSV(text)`. */
  function ParseAccreditations(text: string): (r: seq<Accreditation>)
    ensures '\n' !in Trim(text) ==> r == []
    ensures AltColumn !in HeaderOf(text) || ImageColumn !in HeaderOf(text) ==> r == []
    ensures |r| < |Lines(text)|
    ensures forall a :: a in r ==> Usable(Some(a.imageUrl)) && a.altText != []
  {
    var lines := Lines(text);
    if |lines| < 2 then []
    else
      var headers := HeaderOf(text);
      match LogoColumns(headers)
      case None => []
      case Some(cols) =>
        LogosUsable(headers, cols, lines[1..]);
        LogosOf(headers, cols, lines[1..])
  }

  /** Every logo has a usable image and a non-empty alternative text. */
  lemma LogosUsable(headers: seq<string>, cols: Columns, rows: seq<string>)
    requires cols.alt < |headers| && cols.image < |headers|
    ensures forall a :: a in LogosOf(headers, cols, rows) ==> Usable(Some(a.imageUrl)) && a.altText != []
  {
    forall a | a in LogosOf(headers, cols, rows) ensures Usable(Some(a.imageUrl)) && a.altText != [] {
      var i :| 0 <= i < |rows| && LogoReader(headers, cols)(rows[i]) == Some(a);
      assert LogoOfLine(headers, cols, rows[i]) == Some(a);
    }
  }

  /** The fields of a logo in terms of the first column of each name: the image as it
      is, and the alternative text as it is unless empty, then the default. */
  lemma LogoFields(headers: seq<string>, values: seq<string>)
    requires |headers| == |values|
    requires LogoColumns(headers).Some?
    ensures var r := LogoOfRow(LogoColumns(headers).value, values);
      && (r.Some? <==> Usable(FirstCell(headers, values, ImageColumn)))
      && (r.Some? ==>
          && Some(r.value.imageUrl) == FirstCell(headers, values, ImageColumn)
          && r.value.altText == OrElse(FirstCell(headers, values, AltColumn), DefaultAlt))
  {
  }

  /** A data line yields no logo exactly when it is blank, has a different number of
      fields than the header, or its (first) `ImageURL` cell is empty or `##`. */
  lemma LogoOfLineNone(headers: seq<string>, line: string)
    requires LogoColumns(headers).Some?
    ensures LogoOfLine(headers, LogoColumns(headers).value, line).None? <==>
      || Trim(line) == []
      || |SplitFields(line)| != |headers|
      || !Usable(FirstCell(headers, RowValues(line), ImageColumn))
  {
  }

  /** Logos come in the order of their lines. */
  lemma LogosInLineOrder(headers: seq<string>, cols: Columns, a: seq<string>, b: seq<string>)
    requires cols.alt < |headers| && cols.image < |headers|
    ensures LogosOf(headers, cols, a + b) == LogosOf(headers, cols, a) + LogosOf(headers, cols, b)
  {
    FilterMapAppend(a, b, LogoReader(headers, cols));
  }

  /** A line yielding no logo can be inserted anywhere among the data lines without
      changing the logos. */
  lemma DroppedLineChangesNothing(headers: seq<string>, a: seq<string>, line: string, b: seq<string>)
    requires LogoColumns(headers).Some?
    requires || Trim(line) == []
             || |SplitFields(line)| != |headers|
             || !Usable(FirstCell(headers, RowValues(line), ImageColumn))
    ensures var cols := LogoColumns(headers).value;
      LogosOf(headers, cols, a + [line] + b) == LogosOf(headers, cols, a + b)
  {
    LogoOfLineNone(headers, line);
    FilterMapSkip(a, line, b, LogoReader(headers, LogoColumns(headers).value));
  }

  /** Every line with a usable image yields its logo: none is lost. */
  lemma EveryUsableLineKept(headers: seq<string>, rows: seq<string>, i: nat)
    requires LogoColumns(headers).Some?
    requires i < |rows|
    requires Trim(rows[i]) != [] && |SplitFields(rows[i])| == |headers|
    requires Usable(FirstCell(headers, RowValues(rows[i]), ImageColumn))
    ensures var cols := LogoColumns(headers).value;
      LogoOfLine(headers, cols, rows[i]).Some? && LogoOfLine(headers, cols, rows[i]).value in LogosOf(headers, cols, rows)
  {
    var cols := LogoColumns(headers).value;
    LogoOfLineNone(headers, rows[i]);
    assert LogoReader(headers, cols)(rows[i]) == LogoOfLine(headers, cols, rows[i]);
    FilterMapComplete(rows, LogoReader(headers, cols), i);
  }
}
