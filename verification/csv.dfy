/** The CSV dialect the three listing parsers share (utils/api.ts): how a sheet is
    cut into lines, how the header line and the data lines are cut into cells, and
    how a cell is found by its column name. It is not RFC 4180: the header is cut at
    every comma, a data line at the commas followed by an even number of `"`. */
module Csv {
  import opened Types
  import opened Text

  /** The cell content a sheet uses to mean "no record here" / "no value here". */
  const SkipMarker: string := "##"

  const ByteOrderMark: char := '\U{FEFF}'

  // ---------------------------------------------------------------- lines

  /** `s.replace(/^\uFEFF/, '')`. */
  function StripBom(s: string): (r: string)
    ensures s == r || s == [ByteOrderMark] + r
    ensures s != [] && s[0] == ByteOrderMark ==> s == [ByteOrderMark] + r
  {
    if s != [] && s[0] == ByteOrderMark then s[1..] else s
  }

  /** `trim` already removes a leading byte-order mark (U+FEFF is white space to
      ECMAScript), so the explicit strip that follows it never changes anything. */
  lemma BomGoneAfterTrim(text: string)
    ensures StripBom(Trim(text)) == Trim(text)
  {
    var t := Trim(text);
    assert t != [] ==> !IsSpace(t[0]);
  }

  /** A line without the carriage return of a CRLF break. */
  function DropCarriageReturn(s: string): (r: string)
    ensures r == s || r + "\r" == s
    ensures s != [] && s[|s| - 1] == '\r' ==> r + "\r" == s
  {
    if s != [] && s[|s| - 1] == '\r' then s[..|s| - 1] else s
  }

  /** `s.split(/\r?\n/)`: the pieces between line feeds, where a carriage return just
      before a line feed belongs to the line break. */
  function SplitLines(s: string): (r: seq<string>)
    ensures |r| == 1 + multiset(s)['\n']
    ensures forall k :: 0 <= k < |r| ==> '\n' !in r[k]
  {
    var p := SplitOn(s, '\n');
    SplitCount(s, '\n');
    seq(|p|, k requires 0 <= k < |p| => if k < |p| - 1 then DropCarriageReturn(p[k]) else p[k])
  }

  /** The line pieces with the carriage return of a CRLF break put back. */
  function WithCarriageReturns(xs: seq<string>): (r: seq<string>)
    ensures |r| == |xs|
  {
    if |xs| <= 1 then xs else [xs[0] + "\r"] + WithCarriageReturns(xs[1..])
  }

  lemma {:induction false} JoinCrlf(xs: seq<string>)
    ensures Join(xs, "\r\n") == Join(WithCarriageReturns(xs), "\n")
  {
    if |xs| > 1 {
      JoinCrlf(xs[1..]);
      var ys := WithCarriageReturns(xs);
      assert ys[1..] == WithCarriageReturns(xs[1..]);
    }
  }

  /** Lines written with CRLF breaks (as spreadsheet exports write them) are read back as written. */
  lemma CrlfLinesRoundTrip(xs: seq<string>)
    requires |xs| >= 1
    requires forall k :: 0 <= k < |xs| ==> '\n' !in xs[k]
    ensures SplitLines(Join(xs, "\r\n")) == xs
  {
    CrlfPieces(xs);
    LinesFromCrlfPieces(Join(xs, "\r\n"), xs);
  }

  /** Lines written with LF breaks are read back as written, provided no line but the
      last ends in a carriage return (which would be taken for part of a CRLF break). */
  lemma LfLinesRoundTrip(xs: seq<string>)
    requires |xs| >= 1
    requires forall k :: 0 <= k < |xs| ==> '\n' !in xs[k]
    requires forall k :: 0 <= k < |xs| - 1 ==> xs[k] == [] || xs[k][|xs[k]| - 1] != '\r'
    ensures SplitLines(Join(xs, "\n")) == xs
  {
    var s := Join(xs, "\n");
    SplitJoin(xs, '\n');
    LinesArePieces(s);
    var r := SplitLines(s);
    forall k | 0 <= k < |xs| ensures r[k] == xs[k] {
      if k < |xs| - 1 {
        assert r[k] == DropCarriageReturn(xs[k]);
      }
    }
  }

  lemma LinesFromCrlfPieces(s: string, xs: seq<string>)
    requires |xs| >= 1
    requires forall k :: 0 <= k < |xs| ==> '\n' !in xs[k]
    requires SplitOn(s, '\n') == WithCarriageReturns(xs)
    ensures SplitLines(s) == xs
  {
    LinesArePieces(s);
    DropCarriageReturns(xs);
    var r := SplitLines(s);
    var p := SplitOn(s, '\n');
    assert |r| == |xs|;
    forall k | 0 <= k < |xs| ensures r[k] == xs[k] {
      assert p[k] == WithCarriageReturns(xs)[k];
      if k < |xs| - 1 {
        assert r[k] == DropCarriageReturn(p[k]);
      } else {
        assert r[k] == p[k];
      }
    }
  }

  /** Cutting CRLF-joined lines at the line feeds leaves each carriage return on its line. */
  lemma CrlfPieces(xs: seq<string>)
    requires |xs| >= 1
    requires forall k :: 0 <= k < |xs| ==> '\n' !in xs[k]
    ensures SplitOn(Join(xs, "\r\n"), '\n') == WithCarriageReturns(xs)
  {
    JoinCrlf(xs);
    CarriageReturnsAt(xs);
    SplitJoin(WithCarriageReturns(xs), '\n');
  }

  lemma DropCarriageReturns(xs: seq<string>)
    requires |xs| >= 1
    requires forall k :: 0 <= k < |xs| ==> '\n' !in xs[k]
    ensures forall k :: 0 <= k < |xs| - 1 ==> DropCarriageReturn(WithCarriageReturns(xs)[k]) == xs[k]
    ensures WithCarriageReturns(xs)[|xs| - 1] == xs[|xs| - 1]
  {
    CarriageReturnsAt(xs);
    forall k | 0 <= k < |xs| - 1 ensures DropCarriageReturn(WithCarriageReturns(xs)[k]) == xs[k] {
      DropAddedCarriageReturn(xs[k]);
    }
  }

  lemma DropAddedCarriageReturn(x: string)
    ensures DropCarriageReturn(x + "\r") == x
  {
    assert (x + "\r")[..|x|] == x;
  }

  /** Each line is its piece between line feeds, less the carriage return of a CRLF break. */
  lemma LinesArePieces(s: string)
    ensures var p := SplitOn(s, '\n'); var r := SplitLines(s);
      && |r| == |p|
      && (forall k :: 0 <= k < |p| - 1 ==> r[k] == DropCarriageReturn(p[k]))
      && r[|r| - 1] == p[|p| - 1]
  {
  }

  lemma {:induction false} CarriageReturnsAt(xs: seq<string>)
    requires forall k :: 0 <= k < |xs| ==> '\n' !in xs[k]
    ensures forall k :: 0 <= k < |xs| - 1 ==> WithCarriageReturns(xs)[k] == xs[k] + "\r"
    ensures |xs| > 0 ==> WithCarriageReturns(xs)[|xs| - 1] == xs[|xs| - 1]
    ensures forall k :: 0 <= k < |xs| ==> '\n' !in WithCarriageReturns(xs)[k]
  {
    if |xs| > 1 {
      CarriageReturnsAt(xs[1..]);
      var ys := WithCarriageReturns(xs);
      assert multiset(ys[0]) == multiset(xs[0]) + multiset("\r");
    }
  }

  /** The lines of a sheet: `text.trim().replace(/^\uFEFF/, '').split(/\r?\n/)`. There
      is one more line than there are line feeds inside the trimmed text. */
  function Lines(text: string): (r: seq<string>)
    ensures |r| == 1 + multiset(Trim(text))['\n']
    ensures forall k :: 0 <= k < |r| ==> '\n' !in r[k]
  {
    BomGoneAfterTrim(text);
    SplitLines(StripBom(Trim(text)))
  }

  /** Text whose trimmed form has no line feed is a single line, hence no data. */
  lemma SingleLine(text: string)
    requires '\n' !in Trim(text)
    ensures |Lines(text)| == 1
  {
  }

  // ---------------------------------------------------------------- header

  /** The column names of a sheet: its first line, cut as a header. */
  function HeaderOf(text: string): seq<string> {
    HeaderNames(Lines(text)[0])
  }

  /** A header cell: trimmed, then every `"` deleted (`h.trim().replace(/"/g, '')`).
      A clean cell is kept as it is. */
  function HeaderName(cell: string): (r: string)
    ensures '"' !in r
    ensures '"' !in cell && Trim(cell) == cell ==> r == cell
  {
    if '"' !in cell && Trim(cell) == cell then
      RemoveAbsent(cell, '"');
      RemoveAll(Trim(cell), '"')
    else
      RemoveAll(Trim(cell), '"')
  }

  /** The column names of the header line: `line.split(',')` with no regard for quotes,
      each piece cleaned by `HeaderName`. */
  function HeaderNames(line: string): (r: seq<string>)
    ensures |r| == 1 + multiset(line)[',']
    ensures forall k :: 0 <= k < |r| ==> '"' !in r[k] && ',' !in r[k]
  {
    var p := SplitOn(line, ',');
    SplitCount(line, ',');
    var r := seq(|p|, k requires 0 <= k < |p| => HeaderName(p[k]));
    forall k | 0 <= k < |r| ensures ',' !in r[k] {
      HeaderNameCommaFree(p[k]);
    }
    r
  }

  /** Cleaning a header cell adds no comma. */
  lemma HeaderNameCommaFree(cell: string)
    requires ',' !in cell
    ensures ',' !in HeaderName(cell)
  {
    var t := Trim(cell);
    TrimAddsNothing(cell, ',');
    RemoveAllAddsNothing(t, '"', ',');
    assert HeaderName(cell) == RemoveAll(t, '"');
  }

  /** A header cell written between quotes is read as the text between the quotes,
      white space inside the quotes included. */
  lemma QuotedHeaderName(name: string)
    requires '"' !in name
    ensures HeaderName(Quoted(name)) == name
  {
    var q := Quoted(name);
    assert q[0] == '"' && q[|q| - 1] == '"';
    TrimTrimmed(q);
    assert q == "\"" + name + "\"";
    RemoveAllAppend("\"" + name, "\"", '"');
    RemoveAllAppend("\"", name, '"');
    RemoveAbsent(name, '"');
  }

  /** Names free of commas and quotes, each written between quotes, as a header line
      are read back as they were: the quotes go and nothing else changes. */
  lemma HeaderOfQuotedNames(names: seq<string>)
    requires |names| >= 1
    requires forall k :: 0 <= k < |names| ==> ',' !in names[k] && '"' !in names[k]
    ensures HeaderNames(Join(QuotedRow(names), ",")) == names
  {
    var p := QuotedRow(names);
    forall k | 0 <= k < |p| ensures ',' !in p[k] {
      assert p[k] == "\"" + names[k] + "\"";
      assert multiset(p[k])[','] == multiset(names[k])[','];
    }
    SplitJoin(p, ',');
    forall k | 0 <= k < |names| ensures HeaderName(p[k]) == names[k] {
      QuotedHeaderName(names[k]);
    }
  }

  /** Names free of commas and quotes, without surrounding white space, written as a
      comma-separated header line are read back as they were. */
  lemma HeaderRoundTrip(names: seq<string>)
    requires |names| >= 1
    requires forall k :: 0 <= k < |names| ==> ',' !in names[k] && '"' !in names[k] && Trim(names[k]) == names[k]
    ensures HeaderNames(Join(names, ",")) == names
  {
    SplitJoin(names, ',');
    forall k | 0 <= k < |names| ensures HeaderName(names[k]) == names[k] {
      RemoveAbsent(names[k], '"');
    }
  }

  // ---------------------------------------------------------------- data rows

  function Quotes(s: string): nat {
    multiset(s)['"']
  }

  /** The comma at index `i` separates two fields: an even number of `"` follow it on
      the line. This is the lookahead `(?=(?:(?:[^"]*"){2})*[^"]*$)` of the pattern
      the data lines are split with. */
  predicate IsSeparator(line: string, i: int) {
    0 <= i < |line| && line[i] == ',' && Quotes(line[i + 1..]) % 2 == 0
  }

  /** Whether a comma separates depends only on what follows it on the line: putting
      any text in front of the line changes nothing. */
  lemma {:induction false} SeparatorLooksAhead(a: string, b: string, i: int)
    requires 0 <= i < |b|
    ensures IsSeparator(a + b, |a| + i) <==> IsSeparator(b, i)
  {
    assert (a + b)[|a| + i] == b[i];
    assert (a + b)[|a| + i + 1..] == b[i + 1..];
  }

  /** The `"` that follow piece `k` of a cut line. */
  function QuotesAfter(pieces: seq<string>, k: nat): nat
    requires k < |pieces|
  {
    Quotes(Join(pieces[k + 1..], ","))
  }

  /** No comma of `piece` is a separator when `after` quotes follow the piece. */
  predicate NoSeparatorIn(piece: string, after: nat) {
    forall j :: 0 <= j < |piece| && piece[j] == ',' ==> (Quotes(piece[j + 1..]) + after) % 2 == 1
  }

  /** `pieces` cut their comma-join exactly at its separators: the comma after every
      piece but the last is a separator, and no comma inside a piece is one. */
  predicate CutAtSeparators(pieces: seq<string>) {
    && |pieces| >= 1
    && (forall k :: 0 <= k < |pieces| - 1 ==> QuotesAfter(pieces, k) % 2 == 0)
    && (forall k :: 0 <= k < |pieces| ==> NoSeparatorIn(pieces[k], QuotesAfter(pieces, k)))
  }

  /** The `"` of a join are those of its first piece and those after it. */
  lemma QuotesOfJoin(pieces: seq<string>)
    requires |pieces| >= 1
    ensures Quotes(Join(pieces, ",")) == Quotes(pieces[0]) + QuotesAfter(pieces, 0)
  {
    JoinCount(pieces, ",", '"');
  }

  /** `line.split(/,(?=(?:(?:[^"]*"){2})*[^"]*$)/)`: the line cut at its separator commas. */
  function SplitFields(line: string): (r: seq<string>)
    ensures Join(r, ",") == line
    ensures CutAtSeparators(r)
  {
    if line == [] then [[]]
    else
      var rest := SplitFields(line[1..]);
      if line[0] == ',' && Quotes(line[1..]) % 2 == 0 then
        SeparatorStep(line, rest);
        [[]] + rest
      else
        OrdinaryStep(line, rest);
        [[line[0]] + rest[0]] + rest[1..]
  }

  lemma SeparatorStep(line: string, rest: seq<string>)
    requires line != [] && IsSeparator(line, 0)
    requires Join(rest, ",") == line[1..] && CutAtSeparators(rest)
    ensures Join([[]] + rest, ",") == line && CutAtSeparators([[]] + rest)
  {
    var r := [[]] + rest;
    assert Join(r, ",") == [] + "," + Join(rest, ",");
    assert r[1..] == rest;
    assert QuotesAfter(r, 0) % 2 == 0;
    forall k | 1 <= k < |r| ensures QuotesAfter(r, k) == QuotesAfter(rest, k - 1) {
      assert r[k + 1..] == rest[k..];
    }
  }

  lemma OrdinaryStep(line: string, rest: seq<string>)
    requires line != [] && !IsSeparator(line, 0)
    requires Join(rest, ",") == line[1..] && CutAtSeparators(rest)
    ensures Join([[line[0]] + rest[0]] + rest[1..], ",") == line
    ensures CutAtSeparators([[line[0]] + rest[0]] + rest[1..])
  {
    OrdinaryJoin(line, rest);
    OrdinaryCut(line[0], rest);
  }

  lemma OrdinaryJoin(line: string, rest: seq<string>)
    requires line != [] && |rest| >= 1 && Join(rest, ",") == line[1..]
    ensures Join([[line[0]] + rest[0]] + rest[1..], ",") == line
  {
    JoinExtendHead(line[0], rest, ",");
    assert line == [line[0]] + line[1..];
  }

  /** A character that is no separator, put in front of the first piece, keeps the
      pieces cut at separators. */
  lemma OrdinaryCut(c: char, rest: seq<string>)
    requires CutAtSeparators(rest)
    requires c == ',' ==> Quotes(Join(rest, ",")) % 2 == 1
    ensures CutAtSeparators([[c] + rest[0]] + rest[1..])
  {
    QuotesOfJoin(rest);
    ExtendPiece(c, rest[0], QuotesAfter(rest, 0));
    CutOfSameTail([[c] + rest[0]] + rest[1..], rest);
  }

  /** Pieces that agree with a cut from the second piece on are a cut too, provided
      their first piece has no separator. */
  lemma CutOfSameTail(r: seq<string>, rest: seq<string>)
    requires CutAtSeparators(rest)
    requires |r| == |rest| && r[1..] == rest[1..]
    requires NoSeparatorIn(r[0], QuotesAfter(rest, 0))
    ensures CutAtSeparators(r)
  {
    SameTailSameQuotes(r, rest);
    forall k | 1 <= k < |r| ensures NoSeparatorIn(r[k], QuotesAfter(r, k)) {
      assert r[k] == rest[1..][k - 1];
    }
  }

  /** Cuts that agree from the second piece on have the same quotes after each piece. */
  lemma SameTailSameQuotes(r: seq<string>, rest: seq<string>)
    requires |r| == |rest| >= 1 && r[1..] == rest[1..]
    ensures forall k :: 0 <= k < |r| ==> QuotesAfter(r, k) == QuotesAfter(rest, k)
  {
    forall k | 0 <= k < |r| ensures QuotesAfter(r, k) == QuotesAfter(rest, k) {
      assert r[k + 1..] == rest[k + 1..];
    }
  }

  /** A character put in front of a piece is no separator exactly when, if it is a
      comma, an odd number of quotes follow it. */
  lemma ExtendPiece(c: char, piece: string, after: nat)
    requires NoSeparatorIn(piece, after)
    requires c == ',' ==> (Quotes(piece) + after) % 2 == 1
    ensures NoSeparatorIn([c] + piece, after)
  {
    forall j | 0 <= j < |[c] + piece| && ([c] + piece)[j] == ','
      ensures (Quotes(([c] + piece)[j + 1..]) + after) % 2 == 1
    {
      if j == 0 {
        FrontComma(c, piece, after);
      } else {
        InnerComma(c, piece, after, j);
      }
    }
  }

  lemma FrontComma(c: char, piece: string, after: nat)
    requires c == ',' && (Quotes(piece) + after) % 2 == 1
    ensures (Quotes(([c] + piece)[1..]) + after) % 2 == 1
  {
    assert ([c] + piece)[1..] == piece;
  }

  /** A comma inside `piece` keeps its quotes-after count once a character is put in front. */
  lemma InnerComma(c: char, piece: string, after: nat, j: nat)
    requires NoSeparatorIn(piece, after)
    requires 1 <= j <= |piece| && ([c] + piece)[j] == ','
    ensures (Quotes(([c] + piece)[j + 1..]) + after) % 2 == 1
  {
    assert piece[j - 1] == ',';
    assert ([c] + piece)[j + 1..] == piece[j..];
  }

  /** The converse of `ExtendPiece`. */
  lemma ShrinkPiece(p: string, after: nat)
    requires p != [] && NoSeparatorIn(p, after)
    ensures NoSeparatorIn(p[1..], after)
    ensures p[0] == ',' ==> (Quotes(p[1..]) + after) % 2 == 1
  {
    var piece := p[1..];
    forall j | 0 <= j < |piece| && piece[j] == ',' ensures (Quotes(piece[j + 1..]) + after) % 2 == 1 {
      assert p[j + 1] == piece[j];
      assert p[j + 2..] == piece[j + 1..];
    }
  }


  /** A cut at the separators is the only one: any pieces that cut their join at its
      separator commas are exactly what `SplitFields` returns for that join. */
  lemma {:induction false} FieldsOfJoin(pieces: seq<string>)
    requires CutAtSeparators(pieces)
    ensures SplitFields(Join(pieces, ",")) == pieces
    decreases |Join(pieces, ",")|
  {
    if |pieces| == 1 && pieces[0] == [] {
    } else if pieces[0] == [] {
      EmptyHeadStep(pieces);
      FieldsOfJoin(pieces[1..]);
      assert [[]] + pieces[1..] == pieces;
    } else {
      var ys := [pieces[0][1..]] + pieces[1..];
      CharHeadStep(pieces);
      FieldsOfJoin(ys);
    }
  }

  /** A join whose first piece is empty starts with a separator, followed by the join
      of the other pieces, which are cut at separators too. */
  lemma EmptyHeadStep(pieces: seq<string>)
    requires CutAtSeparators(pieces) && |pieces| > 1 && pieces[0] == []
    ensures var s := Join(pieces, ",");
      && s != [] && IsSeparator(s, 0) && s[1..] == Join(pieces[1..], ",")
      && CutAtSeparators(pieces[1..])
  {
    var s := Join(pieces, ",");
    var tail := pieces[1..];
    assert s == [] + "," + Join(tail, ",");
    assert s[1..] == Join(tail, ",");
    assert QuotesAfter(pieces, 0) % 2 == 0;
    forall k | 0 <= k < |tail| ensures QuotesAfter(tail, k) == QuotesAfter(pieces, k + 1) {
      assert tail[k + 1..] == pieces[k + 2..];
    }
    assert forall k :: 0 <= k < |tail| ==> tail[k] == pieces[k + 1];
  }

  /** A join whose first piece is not empty starts with that piece's first character,
      which is no separator, followed by the join of the shortened pieces, which are
      cut at separators too. */
  lemma CharHeadStep(pieces: seq<string>)
    requires CutAtSeparators(pieces) && pieces[0] != []
    ensures var s := Join(pieces, ",");
      var ys := [pieces[0][1..]] + pieces[1..];
      && s != [] && !IsSeparator(s, 0) && s[1..] == Join(ys, ",")
      && [[s[0]] + ys[0]] + ys[1..] == pieces
      && CutAtSeparators(ys)
  {
    CharHeadJoin(pieces);
    CharHeadCut(pieces);
  }

  lemma CharHeadJoin(pieces: seq<string>)
    requires |pieces| >= 1 && pieces[0] != []
    ensures var s := Join(pieces, ",");
      var ys := [pieces[0][1..]] + pieces[1..];
      && s != [] && s[0] == pieces[0][0] && s[1..] == Join(ys, ",")
      && [[s[0]] + ys[0]] + ys[1..] == pieces
  {
    var s := Join(pieces, ",");
    var c := pieces[0][0];
    var ys := [pieces[0][1..]] + pieces[1..];
    assert [c] + ys[0] == pieces[0];
    assert [[c] + ys[0]] + ys[1..] == pieces;
    JoinExtendHead(c, ys, ",");
    assert s == [c] + Join(ys, ",");
  }

  lemma CharHeadCut(pieces: seq<string>)
    requires CutAtSeparators(pieces) && pieces[0] != []
    ensures var ys := [pieces[0][1..]] + pieces[1..];
      && CutAtSeparators(ys)
      && (pieces[0][0] == ',' ==> Quotes(Join(ys, ",")) % 2 == 1)
  {
    var ys := [pieces[0][1..]] + pieces[1..];
    assert ys[1..] == pieces[1..];
    HeadShrinks(pieces);
    CutOfSameTail(ys, pieces);
    HeadParity(pieces);
  }

  /** The first piece of a cut less its first character has no separator. */
  lemma HeadShrinks(pieces: seq<string>)
    requires CutAtSeparators(pieces) && pieces[0] != []
    ensures NoSeparatorIn(pieces[0][1..], QuotesAfter(pieces, 0))
    ensures pieces[0][0] == ',' ==> (Quotes(pieces[0][1..]) + QuotesAfter(pieces, 0)) % 2 == 1
  {
    var after := QuotesAfter(pieces, 0);
    assert NoSeparatorIn(pieces[0], after);
    ShrinkPiece(pieces[0], after);
  }

  /** A comma opening a cut is followed by an odd number of quotes. */
  lemma HeadParity(pieces: seq<string>)
    requires CutAtSeparators(pieces) && pieces[0] != []
    ensures pieces[0][0] == ',' ==> Quotes(Join([pieces[0][1..]] + pieces[1..], ",")) % 2 == 1
  {
    var ys := [pieces[0][1..]] + pieces[1..];
    HeadShrinks(pieces);
    assert ys[1..] == pieces[1..];
    assert QuotesAfter(ys, 0) == QuotesAfter(pieces, 0);
    QuotesOfJoin(ys);
  }

  /** How many separator commas `line` has from index `i` on. */
  function SeparatorsFrom(line: string, i: nat): nat
    decreases |line| - i
  {
    if i >= |line| then 0 else (if IsSeparator(line, i) then 1 else 0) + SeparatorsFrom(line, i + 1)
  }

  /** A data line has one field more than it has separator commas. */
  lemma FieldCount(line: string)
    ensures |SplitFields(line)| == 1 + SeparatorsFrom(line, 0)
  {
    FieldCountFrom(line, 0);
    assert line[0..] == line;
  }

  lemma {:induction false} FieldCountFrom(line: string, i: nat)
    requires i <= |line|
    ensures |SplitFields(line[i..])| == 1 + SeparatorsFrom(line, i)
    decreases |line| - i
  {
    if i < |line| {
      FieldCountFrom(line, i + 1);
      assert line[i..][1..] == line[i + 1..];
    }
  }

  /** `v.replace(/^"|"$/g, '')`: one `"` removed from the front and one from the back. */
  function StripQuotePair(v: string): (r: string)
    ensures v == r || v == "\"" + r || v == r + "\"" || v == "\"" + r + "\""
    ensures v != [] && v[0] == '"' ==> v == "\"" + r || v == "\"" + r + "\""
    ensures |v| >= 2 && v[|v| - 1] == '"' ==> v == r + "\"" || v == "\"" + r + "\""
  {
    var a := if |v| > 0 && v[0] == '"' then 1 else 0;
    var b := if |v| > a && v[|v| - 1] == '"' then |v| - 1 else |v|;
    assert v == v[..a] + v[a..b] + v[b..];
    v[a..b]
  }

  /** A field cell: its pair of surrounding quotes dropped, then trimmed. */
  function CleanField(v: string): (r: string)
    ensures Trim(r) == r
  {
    TrimIdempotent(StripQuotePair(v));
    Trim(StripQuotePair(v))
  }

  /** The cells of a data line. */
  function RowValues(line: string): (r: seq<string>)
    ensures |r| == |SplitFields(line)|
    ensures forall k :: 0 <= k < |r| ==> Trim(r[k]) == r[k]
  {
    var p := SplitFields(line);
    seq(|p|, k requires 0 <= k < |p| => CleanField(p[k]))
  }

  function Quoted(cell: string): string {
    "\"" + cell + "\""
  }

  /** A cell written between quotes is read back without them. */
  lemma QuotedCellRoundTrip(cell: string)
    ensures StripQuotePair(Quoted(cell)) == cell
  {
  }

  lemma {:induction false} QuotesOfQuotedJoin(pieces: seq<string>)
    requires forall k :: 0 <= k < |pieces| ==> Quotes(pieces[k]) == 2
    ensures Quotes(Join(pieces, ",")) == 2 * |pieces|
    ensures Quotes(Join(pieces, ",")) % 2 == 0
  {
    if |pieces| > 0 {
      QuotesOfQuotedJoin(pieces[1..]);
      QuotesOfJoin(pieces);
    }
  }

  /** The cells of a row, each written between quotes, joined with commas. */
  function QuotedRow(cells: seq<string>): (r: seq<string>)
    ensures |r| == |cells|
  {
    seq(|cells|, k requires 0 <= k < |cells| => Quoted(cells[k]))
  }

  /** A row whose cells are all quoted is cut at exactly the commas between the cells,
      even where a cell itself holds commas. */
  lemma QuotedRowCut(cells: seq<string>)
    requires |cells| >= 1
    requires forall k :: 0 <= k < |cells| ==> '"' !in cells[k]
    ensures CutAtSeparators(QuotedRow(cells))
  {
    var p := QuotedRow(cells);
    QuotedRowQuotesAfter(cells);
    forall k | 0 <= k < |p| ensures NoSeparatorIn(p[k], QuotesAfter(p, k)) {
      QuotedCellHasNoSeparator(cells[k], QuotesAfter(p, k));
    }
  }

  /** Two quotes per quoted cell follow each cell of a quoted row. */
  lemma QuotedRowQuotesAfter(cells: seq<string>)
    requires forall k :: 0 <= k < |cells| ==> '"' !in cells[k]
    ensures forall k :: 0 <= k < |cells| ==> QuotesAfter(QuotedRow(cells), k) % 2 == 0
  {
    var p := QuotedRow(cells);
    forall k | 0 <= k < |p| ensures QuotesAfter(p, k) % 2 == 0 {
      var tail := p[k + 1..];
      forall i | 0 <= i < |tail| ensures Quotes(tail[i]) == 2 {
        assert tail[i] == Quoted(cells[k + 1 + i]);
      }
      QuotesOfQuotedJoin(tail);
    }
  }

  /** A comma inside a quoted cell is followed by the cell's closing quote, so it does
      not separate when an even number of quotes follow the cell. */
  lemma QuotedCellHasNoSeparator(cell: string, after: nat)
    requires '"' !in cell && after % 2 == 0
    ensures NoSeparatorIn(Quoted(cell), after)
  {
    var q := Quoted(cell);
    forall j | 0 <= j < |q| && q[j] == ',' ensures (Quotes(q[j + 1..]) + after) % 2 == 1 {
      assert 1 <= j <= |cell|;
      assert q[j + 1..] == cell[j..] + "\"";
      assert cell == cell[..j] + cell[j..];
      assert multiset(cell) == multiset(cell[..j]) + multiset(cell[j..]);
    }
  }

  /** Cells without quotes or surrounding white space, written as a row of quoted
      cells, are read back as they were, commas inside cells included. */
  lemma QuotedRowRoundTrip(cells: seq<string>)
    requires |cells| >= 1
    requires forall k :: 0 <= k < |cells| ==> '"' !in cells[k] && Trim(cells[k]) == cells[k]
    ensures RowValues(Join(QuotedRow(cells), ",")) == cells
  {
    var line := Join(QuotedRow(cells), ",");
    QuotedRowCut(cells);
    FieldsOfJoin(QuotedRow(cells));
    var r := RowValues(line);
    forall k | 0 <= k < |cells| ensures r[k] == cells[k] {
      QuotedCellRoundTrip(cells[k]);
      assert SplitFields(line)[k] == Quoted(cells[k]);
      assert r[k] == CleanField(Quoted(cells[k]));
    }
  }

  /** The cells of a data line that has as many fields as the header has names;
      `None` for a blank line and for a line of another width. */
  function DataRow(width: nat, line: string): (r: Option<seq<string>>)
    ensures r.Some? ==> |r.value| == width && r.value == RowValues(line)
    ensures r.None? <==> Trim(line) == [] || 1 + SeparatorsFrom(line, 0) != width
  {
    FieldCount(line);
    if Trim(line) == [] then None
    else
      var values := RowValues(line);
      if |values| != width then None else Some(values)
  }

  // ---------------------------------------------------------------- cell lookup

  /** `headers.indexOf(key)`: the first column with that name. */
  function IndexOf(headers: seq<string>, key: string): (r: Option<nat>)
    ensures r.None? <==> key !in headers
    ensures r.Some? ==> r.value < |headers| && headers[r.value] == key && key !in headers[..r.value]
  {
    if headers == [] then None
    else if headers[0] == key then Some(0)
    else
      match IndexOf(headers[1..], key)
      case None => None
      case Some(i) =>
        assert headers[..i + 1] == [headers[0]] + headers[1..][..i];
        Some(i + 1)
  }

  /** The last column with that name. */
  function LastIndexOf(headers: seq<string>, key: string): (r: Option<nat>)
    ensures r.None? <==> key !in headers
    ensures r.Some? ==> r.value < |headers| && headers[r.value] == key && key !in headers[r.value + 1..]
  {
    if headers == [] then None
    else if headers[|headers| - 1] == key then Some(|headers| - 1)
    else
      var init := headers[..|headers| - 1];
      var r := LastIndexOf(init, key);
      assert r.Some? ==> headers[r.value + 1..] == init[r.value + 1..] + [headers[|headers| - 1]];
      assert key in init ==> key in headers;
      assert key in headers ==> key in init by {
        if key in headers {
          var i :| 0 <= i < |headers| && headers[i] == key;
          assert i < |headers| - 1 && init[i] == key;
        }
      }
      r
  }

  /** `Object.fromEntries(headers.map((h, i) => [h, values[i]]))`: one key per distinct
      column name, and where a name repeats, the cell of its last column wins. */
  function Entries(headers: seq<string>, values: seq<string>): (r: map<string, string>)
    requires |headers| == |values|
    ensures r.Keys == set k | k in headers
    ensures forall i :: 0 <= i < |headers| && headers[i] !in headers[i + 1..] ==> r[headers[i]] == values[i]
  {
    if headers == [] then map[]
    else
      var n := |headers| - 1;
      var init := headers[..n];
      var m := Entries(init, values[..n]);
      EntriesStep(headers, values, m);
      m[headers[n] := values[n]]
  }

  lemma EntriesStep(headers: seq<string>, values: seq<string>, m: map<string, string>)
    requires |headers| == |values| > 0
    requires var n := |headers| - 1;
      && m.Keys == (set k | k in headers[..n])
      && forall i :: 0 <= i < n && headers[..n][i] !in headers[..n][i + 1..] ==> m[headers[..n][i]] == values[..n][i]
    ensures var n := |headers| - 1; var r := m[headers[n] := values[n]];
      && r.Keys == (set k | k in headers)
      && forall i :: 0 <= i < |headers| && headers[i] !in headers[i + 1..] ==> r[headers[i]] == values[i]
  {
    var n := |headers| - 1;
    EntriesKeysStep(headers, m, values[n]);
    EntriesValuesStep(headers, values, m);
  }

  lemma EntriesKeysStep(headers: seq<string>, m: map<string, string>, v: string)
    requires |headers| > 0
    requires var n := |headers| - 1; m.Keys == (set k | k in headers[..n])
    ensures m[headers[|headers| - 1] := v].Keys == (set k | k in headers)
  {
    SplitLast(headers);
  }

  lemma EntriesValuesStep(headers: seq<string>, values: seq<string>, m: map<string, string>)
    requires |headers| == |values| > 0
    requires var n := |headers| - 1;
      && m.Keys == (set k | k in headers[..n])
      && forall i :: 0 <= i < n && headers[..n][i] !in headers[..n][i + 1..] ==> m[headers[..n][i]] == values[..n][i]
    ensures var n := |headers| - 1; var r := m[headers[n] := values[n]];
      forall i :: 0 <= i < |headers| && headers[i] !in headers[i + 1..] ==> headers[i] in r && r[headers[i]] == values[i]
  {
    var n := |headers| - 1;
    var init := headers[..n];
    var r := m[headers[n] := values[n]];
    forall i | 0 <= i < |headers| && headers[i] !in headers[i + 1..] ensures headers[i] in r && r[headers[i]] == values[i] {
      if i < n {
        assert headers[i + 1..] == init[i + 1..] + [headers[n]];
        assert init[i] == headers[i] && headers[i] != headers[n];
        assert init[i] !in init[i + 1..];
        assert values[..n][i] == values[i];
      }
    }
  }

  /** `entry[key]`: the value an object holds under `key`, if any. */
  function Get(entry: map<string, string>, key: string): Option<string> {
    if key in entry then Some(entry[key]) else None
  }

  /** The cell of the named column in a row, found as `Object.fromEntries` finds it. */
  function Lookup(headers: seq<string>, values: seq<string>, key: string): Option<string>
    requires |headers| == |values|
  {
    Get(Entries(headers, values), key)
  }

  /** The cell in the last column of that name; `None` when there is no such column. */
  function LastCell(headers: seq<string>, values: seq<string>, key: string): Option<string>
    requires |headers| == |values|
  {
    match LastIndexOf(headers, key)
    case None => None
    case Some(i) => Some(values[i])
  }

  /** The cell in the first column of that name, as `values[headers.indexOf(key)]` finds
      it; `None` when there is no such column. */
  function FirstCell(headers: seq<string>, values: seq<string>, key: string): Option<string>
    requires |headers| == |values|
  {
    match IndexOf(headers, key)
    case None => None
    case Some(i) => Some(values[i])
  }

  /** With duplicate column names, the object built from a row keeps the last one's cell. */
  lemma LookupLastWins(headers: seq<string>, values: seq<string>, key: string)
    requires |headers| == |values|
    ensures Lookup(headers, values, key) == LastCell(headers, values, key)
  {
  }

  /** `cell || fallback`: the cell when it exists and is not empty. With a non-empty
      fallback the result is never empty. */
  function OrElse(cell: Option<string>, fallback: string): (r: string)
    ensures r == fallback || cell == Some(r)
    ensures cell.Some? && cell.value != [] ==> r == cell.value
    ensures fallback != [] ==> r != []
  {
    if cell.Some? && cell.value != [] then cell.value else fallback
  }

  /** `cell && cell !== '##'`: the cell exists, is not empty and is not the skip marker.
      Equivalently, `cell || '##'` is something other than the marker. */
  predicate Usable(cell: Option<string>)
    ensures Usable(cell) <==> OrElse(cell, SkipMarker) != SkipMarker
  {
    cell.Some? && cell.value != [] && cell.value != SkipMarker
  }

  // ---------------------------------------------------------------- row loops

  /** The records the rows yield, in row order; a row yielding `None` is skipped. */
  function FilterMap<T>(rows: seq<string>, f: string -> Option<T>): (r: seq<T>)
    ensures |r| <= |rows|
    ensures forall x :: x in r ==> exists i :: 0 <= i < |rows| && f(rows[i]) == Some(x)
  {
    if rows == [] then []
    else
      var rest := FilterMap(rows[1..], f);
      assert forall i :: 0 <= i < |rows| - 1 ==> rows[1..][i] == rows[i + 1];
      match f(rows[0])
      case None => rest
      case Some(x) => [x] + rest
  }

  /** Every row that yields a record contributes it. */
  lemma {:induction false} FilterMapComplete<T>(rows: seq<string>, f: string -> Option<T>, i: nat)
    requires i < |rows| && f(rows[i]).Some?
    ensures f(rows[i]).value in FilterMap(rows, f)
  {
    if i > 0 {
      FilterMapComplete(rows[1..], f, i - 1);
    }
  }

  /** The records of consecutive blocks of rows come in block order. */
  lemma {:induction false} FilterMapAppend<T>(a: seq<string>, b: seq<string>, f: string -> Option<T>)
    ensures FilterMap(a + b, f) == FilterMap(a, f) + FilterMap(b, f)
  {
    if a == [] {
      assert a + b == b;
    } else {
      assert (a + b)[1..] == a[1..] + b;
      FilterMapAppend(a[1..], b, f);
    }
  }

  /** One more row adds what that row yields, if anything, at the end. */
  lemma FilterMapSnoc<T>(rows: seq<string>, row: string, f: string -> Option<T>)
    ensures FilterMap(rows + [row], f) == FilterMap(rows, f) + (if f(row).Some? then [f(row).value] else [])
  {
    FilterMapAppend(rows, [row], f);
    assert [row][1..] == [];
  }

  /** A row yielding no record can be inserted anywhere without changing the records. */
  lemma FilterMapSkip<T>(a: seq<string>, row: string, b: seq<string>, f: string -> Option<T>)
    requires f(row).None?
    ensures FilterMap(a + [row] + b, f) == FilterMap(a + b, f)
  {
    FilterMapAppend(a + [row], b, f);
    FilterMapAppend(a, [row], f);
    FilterMapAppend(a, b, f);
  }
}
