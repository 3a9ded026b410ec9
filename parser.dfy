/** The extractor of `src/parser.py`: from the located parts of the page to
    substitutions, news messages and the portal's last-update timestamp. */
module Parser {
  import opened Results
  import opened Text
  import opened Dates
  import opened Models
  import opened Dom

  // ---------------------------------------------------------------------
  // Splitting the main row into day columns and the news column
  // ---------------------------------------------------------------------

  /** `cells[:-1]` when the page carries news, else every cell. */
  function DayBlocks(cells: seq<MainCell>, showNews: bool): (r: seq<MainCell>)
    ensures !showNews ==> r == cells
    ensures showNews && cells != [] ==> r + [cells[|cells| - 1]] == cells
    ensures showNews && cells == [] ==> r == []
  {
    if showNews then (if cells == [] then [] else cells[..|cells| - 1]) else cells
  }

  /** `cells[-1] if show_news else None`; indexing an empty row raises. */
  function NewsCell(cells: seq<MainCell>, showNews: bool): (r: Result<Option<MainCell>>)
    ensures !showNews ==> r == Ok(None)
    ensures showNews && cells != [] ==> r == Ok(Some(cells[|cells| - 1]))
    ensures showNews && cells == [] ==> r == Err(IndexError)
  {
    if !showNews then Ok(None)
    else if cells == [] then Err(IndexError)
    else Ok(Some(cells[|cells| - 1]))
  }

  // ---------------------------------------------------------------------
  // Table date
  // ---------------------------------------------------------------------

  /** `_parse_substitution_table_date`: the text between the first comma and
      the next comma, cut at its first dash, stripped and read as a date. */
  function TableDate(s: string): (r: Result<Date>)
    ensures r.Ok? ==> ValidDate(r.value)
    ensures r.Err? ==> r.error == IndexError || r.error == ValueError
    ensures r.Err? && r.error == IndexError <==> ',' !in s
  {
    var parts := Split(s, ",");
    SplitSingle(s, ',');
    if |parts| < 2 then Err(IndexError)
    else ParseDate(Trim(Split(parts[1], "-")[0]))
  }

  /** For a heading `a, b` followed by nothing, by a dash or by another comma,
      the date is read from `b` alone. */
  lemma TableDateField(a: string, b: string, rest: string)
    requires ',' !in a && ',' !in b && '-' !in b
    requires rest == [] || rest[0] == ',' || rest[0] == '-'
    ensures TableDate(a + "," + b + rest) == ParseDate(Trim(b))
  {
    var s := a + "," + b + rest;
    assert s == a + [','] + (b + rest);
    SplitAtChar(a, ',', b + rest);
    FieldBeforeDelimiters(b, rest);
  }

  /** A heading `a, DD.MM.YYYY` whose date does not exist raises
      `ValueError`, as `strptime` does. */
  lemma TableDateInvalid(a: string, ws: string, dd: string, mm: string, yyyy: string, rest: string)
    requires ',' !in a && AllSpace(ws)
    requires rest == [] || rest[0] == ',' || rest[0] == '-'
    requires |dd| == 2 && AllDigits(dd) && |mm| == 2 && AllDigits(mm) && YearToken(yyyy)
    requires !ValidDate(Date(DigitsValue(yyyy), DigitsValue(mm), DigitsValue(dd)))
    ensures TableDate(a + "," + (ws + (dd + "." + mm + "." + yyyy)) + rest) == Err(ValueError)
  {
    var g := dd + "." + mm + "." + yyyy;
    DottedText(dd, mm, yyyy);
    SpacesFree(ws, ',');
    SpacesFree(ws, '-');
    TableDateField(a, ws + g, rest);
    TrimPadded(ws, g);
    ParseDateInvalid(dd, mm, yyyy);
  }

  /** `b` followed by nothing, a comma or a dash is the first piece of both
      splits. */
  lemma FieldBeforeDelimiters(b: string, rest: string)
    requires ',' !in b && '-' !in b
    requires rest == [] || rest[0] == ',' || rest[0] == '-'
    ensures Split(Split(b + rest, ",")[0], "-")[0] == b
  {
    var s := b + rest;
    var p := Split(s, ",")[0];
    FirstPiece(s, ',');
    assert p[..|b|] == b;
    if |p| > |b| {
      assert p[|b|] == rest[0];
    }
    FirstPiece(p, '-');
  }

  /** The first piece of a split on one character is the text up to the
      first occurrence of that character, or all of it. */
  lemma FirstPiece(s: string, c: char)
    ensures var p := Split(s, [c])[0];
      |p| <= |s| && p == s[..|p|] && c !in p && (|p| == |s| || s[|p|] == c)
  {
    var p := Split(s, [c])[0];
    assert Free(p, [c]);
    forall k | 0 <= k < |p| ensures p[k] != c {
      assert p[k..k + 1] == [p[k]];
      assert !OccursAt(p, [c], k);
    }
    match IndexOf(s, [c])
    case None =>
    case Some(i) =>
      assert s[i..i + 1] == [s[i]];
  }

  // ---------------------------------------------------------------------
  // Class names
  // ---------------------------------------------------------------------

  /** `re.match(r"(\d+)([a-zA-Z]+)", c)`: the greedy digit run at the front
      and the letter run right after it, when both are non-empty. */
  function SplitClassName(c: string): Option<(string, string)> {
    var g := LeadingDigits(c);
    var l := LeadingLetters(c[g..]);
    if g == 0 || l == 0 then None else Some((c[..g], c[g..g + l]))
  }

  /** `c` starts with the grade `g` (digits) and the letters `l`, and no
      further letter follows. */
  predicate ClassPattern(c: string, g: string, l: string) {
    |g| > 0 && AllDigits(g) && |l| > 0 && AllLetters(l)
    && |g| + |l| <= |c| && c[..|g| + |l|] == g + l
    && (|c| == |g| + |l| || !IsAsciiLetter(c[|g| + |l|]))
  }

  /** The regular expression's two groups are exactly the decomposition of
      the class name into a grade and a maximal letter run. */
  lemma SplitClassNameExact(c: string, g: string, l: string)
    ensures SplitClassName(c) == Some((g, l)) <==> ClassPattern(c, g, l)
  {
    if ClassPattern(c, g, l) {
      PatternSplits(c, g, l);
    }
    if SplitClassName(c).Some? {
      SplitGivesPattern(c);
    }
  }

  lemma PatternSplits(c: string, g: string, l: string)
    requires ClassPattern(c, g, l)
    ensures SplitClassName(c) == Some((g, l))
  {
    var k := |g| + |l|;
    assert c[..|g|] == c[..k][..|g|] == g;
    assert c[|g|] == c[..k][|g|] == l[0];
    LeadingDigitsExact(c, |g|);
    var rest := c[|g|..];
    assert rest[..|l|] == c[..k][|g|..] == l;
    assert |l| < |rest| ==> rest[|l|] == c[k];
    LeadingLettersExact(rest, |l|);
    assert c[|g|..k] == rest[..|l|];
  }

  lemma SplitGivesPattern(c: string)
    requires SplitClassName(c).Some?
    ensures ClassPattern(c, SplitClassName(c).value.0, SplitClassName(c).value.1)
  {
    var n := LeadingDigits(c);
    var m := LeadingLetters(c[n..]);
    var g, l := c[..n], c[n..n + m];
    assert c[n..][..m] == l;
    assert c[..n + m] == g + l;
    if n + m < |c| {
      assert c[n + m] == c[n..][m];
    }
  }

  /** The single record of `[Substitution.from_array(cells, date)]`. */
  function SingleRecord(cells: seq<string>, date: Date): (r: Result<seq<Substitution>>)
    ensures r.Ok? <==> |cells| >= 6
    ensures r.Ok? ==> r.value == [Record(cells, cells[0], date)]
  {
    match FromArray(cells, date)
    case Ok(s) => Ok([s])
    case Err(e) => Err(e)
  }

  /** One record per letter, with class grade + letter. */
  function Expansion(cells: seq<string>, grade: string, letters: string, date: Date): (r: seq<Substitution>)
    requires |cells| >= 6
    ensures |r| == |letters|
    ensures forall i :: 0 <= i < |letters| ==> r[i] == Record(cells, grade + [letters[i]], date)
  {
    seq(|letters|, i requires 0 <= i < |letters| => Record(cells, grade + [letters[i]], date))
  }

  /** `_convert_cells_to_substitutions(cells, date)`. */
  function ConvertCells(cells: seq<string>, date: Date): (r: Result<seq<Substitution>>)
    ensures |cells| == 0 ==> r == Err(IndexError)
    ensures |cells| > 0 && Trim(cells[0]) == [] ==> r == Ok([])
    ensures |cells| >= 6 ==> r.Ok?
    ensures r.Ok? ==> forall s :: s in r.value ==> s.date == date
  {
    if |cells| == 0 then Err(IndexError)
    else if Trim(cells[0]) == [] then Ok([])
    else if IsDigit(cells[0][0]) then
      match SplitClassName(cells[0])
      case None => SingleRecord(cells, date)
      case Some((grade, letters)) =>
        if |cells| < 6 then Err(ValueError) else Ok(Expansion(cells, grade, letters, date))
    else
      SingleRecord(cells, date)
  }

  /** A row whose class is `<grade><letters>` expands into one record per
      letter; each keeps the row's other five fields and the table date. */
  lemma ConvertExpands(cells: seq<string>, date: Date, grade: string, letters: string)
    requires |cells| >= 6 && ClassPattern(cells[0], grade, letters)
    ensures ConvertCells(cells, date).Ok?
    ensures var subs := ConvertCells(cells, date).value;
      |subs| == |letters|
      && forall i :: 0 <= i < |subs| ==>
           subs[i].className == grade + [letters[i]] && subs[i].period == cells[1]
           && subs[i].absentTeacher == cells[2] && subs[i].substitutionTeacher == cells[3]
           && subs[i].room == cells[4] && subs[i].info == cells[5] && subs[i].date == date
  {
    ExpandedClass(cells, date, grade, letters);
  }

  lemma ExpandedClass(cells: seq<string>, date: Date, grade: string, letters: string)
    requires |cells| >= 6 && ClassPattern(cells[0], grade, letters)
    ensures ConvertCells(cells, date) == Ok(Expansion(cells, grade, letters, date))
  {
    SplitClassNameExact(cells[0], grade, letters);
    assert cells[0][0] == grade[0];
    assert !IsSpace(cells[0][0]);
    assert LeadingSpaces(cells[0]) == 0;
  }

  /** A class that is not blank and starts with something other than a
      digit, or with digits not followed by a letter, yields the one record
      of the raw cells. */
  lemma ConvertSingle(cells: seq<string>, date: Date)
    requires |cells| >= 6 && Trim(cells[0]) != []
    requires !IsDigit(cells[0][0]) || SplitClassName(cells[0]).None?
    ensures ConvertCells(cells, date) == Ok([Record(cells, cells[0], date)])
  {
  }

  // ---------------------------------------------------------------------
  // Rows of one day table
  // ---------------------------------------------------------------------

  /** The stripped texts of a row's cells. */
  function TrimAll(row: seq<string>): (r: seq<string>)
    ensures |r| == |row| && forall i :: 0 <= i < |row| ==> r[i] == Trim(row[i])
  {
    seq(|row|, i requires 0 <= i < |row| => Trim(row[i]))
  }

  function Extend<T>(acc: seq<T>, more: Result<seq<T>>): (r: Result<seq<T>>)
    ensures more.Ok? ==> r == Ok(acc + more.value)
    ensures more.Err? ==> r == Err(more.error)
  {
    match more
    case Ok(xs) => Ok(acc + xs)
    case Err(e) => Err(e)
  }

  /** One pass of the row loop: `acc` holds what the table produced so far. */
  function ConvertRow(acc: seq<Substitution>, row: seq<string>, date: Date): Result<seq<Substitution>> {
    var cells := TrimAll(row);
    if |cells| != 6 then Ok(acc)
    else if cells[0] == "" then
      if acc == [] then Err(IndexError)
      else Extend(acc, ConvertCells([acc[|acc| - 1].className] + cells[1..], date))
    else Extend(acc, ConvertCells(cells, date))
  }

  /** The substitutions of the data rows of one table (header row removed). */
  function ConvertRows(rows: seq<seq<string>>, date: Date): Result<seq<Substitution>>
    decreases |rows|
  {
    if rows == [] then Ok([])
    else
      match ConvertRows(rows[..|rows| - 1], date)
      case Err(e) => Err(e)
      case Ok(acc) => ConvertRow(acc, rows[|rows| - 1], date)
  }

  /** One more row after rows that converted without error. */
  lemma ConvertRowsSnoc(rows: seq<seq<string>>, row: seq<string>, date: Date)
    requires ConvertRows(rows, date).Ok?
    ensures ConvertRows(rows + [row], date) == ConvertRow(ConvertRows(rows, date).value, row, date)
  {
    assert (rows + [row])[..|rows|] == rows;
  }

  /** Every substitution of a table carries the table's date. */
  lemma {:induction false} ConvertRowsDate(rows: seq<seq<string>>, date: Date)
    ensures ConvertRows(rows, date).Ok? ==> forall s :: s in ConvertRows(rows, date).value ==> s.date == date
    decreases |rows|
  {
    if rows != [] {
      ConvertRowsDate(rows[..|rows| - 1], date);
    }
  }

  /** A row that does not have exactly six cells adds nothing. */
  lemma ConvertRowsSkipsWrongWidth(rows: seq<seq<string>>, row: seq<string>, date: Date)
    requires |row| != 6
    ensures ConvertRows(rows + [row], date) == ConvertRows(rows, date)
  {
    assert (rows + [row])[..|rows|] == rows;
  }

  /** A six-cell row with an empty first cell continues the class of the last
      substitution produced so far in the same table; there is none to
      continue after no output, and `substitutions[-1]` raises. */
  lemma ConvertRowsContinuation(rows: seq<seq<string>>, row: seq<string>, date: Date)
    requires |row| == 6 && Trim(row[0]) == []
    requires ConvertRows(rows, date).Ok?
    ensures var acc := ConvertRows(rows, date).value;
      ConvertRows(rows + [row], date)
        == if acc == [] then Err(IndexError)
           else Extend(acc, ConvertCells([acc[|acc| - 1].className] + TrimAll(row)[1..], date))
  {
    ConvertRowsSnoc(rows, row, date);
    assert TrimAll(row)[0] == [];
  }

  /** After a row whose class expands (`12ab`), a continuation row takes the
      class of the last record only (`12b`), not of the whole row. */
  lemma ContinuationAfterExpansion(rows: seq<seq<string>>, row: seq<string>, cont: seq<string>,
                                   date: Date, grade: string, letters: string)
    requires ConvertRows(rows, date).Ok?
    requires |row| == 6 && ClassPattern(TrimAll(row)[0], grade, letters)
    requires |cont| == 6 && Trim(cont[0]) == []
    ensures var acc := ConvertRows(rows, date).value;
      var out := ConvertRows(rows + [row] + [cont], date);
      && out.Ok? && |out.value| == |acc| + |letters| + 1
      && out.value[..|acc|] == acc
      && out.value[|out.value| - 1] == Record(TrimAll(cont), grade + [letters[|letters| - 1]], date)
  {
    var acc := ConvertRows(rows, date).value;
    var exp := Expansion(TrimAll(row), grade, letters, date);
    ExpandedRow(rows, row, date, grade, letters);
    AppendParts(acc, exp, Record(TrimAll(cont), grade + [letters[|letters| - 1]], date));
    ContinuationRow(rows + [row], cont, date, grade, letters[|letters| - 1]);
  }

  lemma AppendParts<T>(a: seq<T>, b: seq<T>, x: T)
    requires b != []
    ensures (a + b)[|a + b| - 1] == b[|b| - 1]
    ensures (a + b + [x])[..|a|] == a
  {
    assert (a + b + [x])[..|a|] == a;
  }

  lemma ExpandedRow(rows: seq<seq<string>>, row: seq<string>, date: Date, grade: string, letters: string)
    requires ConvertRows(rows, date).Ok?
    requires |row| == 6 && ClassPattern(TrimAll(row)[0], grade, letters)
    ensures ConvertRows(rows + [row], date) == Ok(ConvertRows(rows, date).value + Expansion(TrimAll(row), grade, letters, date))
  {
    ExpandedClass(TrimAll(row), date, grade, letters);
    ConvertRowsSnoc(rows, row, date);
  }

  lemma ContinuationRow(rows: seq<seq<string>>, cont: seq<string>, date: Date, grade: string, letter: char)
    requires ConvertRows(rows, date).Ok? && ConvertRows(rows, date).value != []
    requires |grade| > 0 && AllDigits(grade) && IsAsciiLetter(letter)
    requires ConvertRows(rows, date).value[|ConvertRows(rows, date).value| - 1].className == grade + [letter]
    requires |cont| == 6 && Trim(cont[0]) == []
    ensures ConvertRows(rows + [cont], date) == Ok(ConvertRows(rows, date).value + [Record(TrimAll(cont), grade + [letter], date)])
  {
    ContinuedClass(TrimAll(cont), date, grade, letter);
    ConvertRowsContinuation(rows, cont, date);
  }

  /** Cells continued with a one-letter class give one record of that class. */
  lemma ContinuedClass(cells: seq<string>, date: Date, grade: string, letter: char)
    requires |cells| == 6 && |grade| > 0 && AllDigits(grade) && IsAsciiLetter(letter)
    ensures ConvertCells([grade + [letter]] + cells[1..], date) == Ok([Record(cells, grade + [letter], date)])
  {
    var className := grade + [letter];
    var next := [className] + cells[1..];
    assert ClassPattern(className, grade, [letter]) by {
      assert AllLetters([letter]);
      assert className[..|grade| + 1] == className == grade + [letter];
    }
    assert next[0] == className && |next| == 6;
    ExpandedClass(next, date, grade, [letter]);
    var expanded := Expansion(next, grade, [letter], date);
    assert expanded[0] == Record(next, className, date);
    assert Record(next, className, date) == Record(cells, className, date) by {
      assert next[1..] == cells[1..];
    }
    assert expanded == [Record(cells, className, date)];
  }

  /** The header row is never read: whatever it holds, the table is the same. */
  lemma HeaderRowIgnored(header: Option<string>, first: seq<string>, other: seq<string>,
                         body: seq<seq<string>>, blocks: seq<NewsBlock>)
    ensures SubstitutionTable(MainCell(Some(DailyTable(header, Some([first] + body))), blocks))
         == SubstitutionTable(MainCell(Some(DailyTable(header, Some([other] + body))), blocks))
  {
    assert ([first] + body)[1..] == body == ([other] + body)[1..];
  }

  /** Every record of a table carries the valid date of its heading. */
  lemma SubstitutionTableDates(cell: MainCell)
    requires cell.dailyTable.Some? && cell.dailyTable.value.header.Some?
    ensures var r := SubstitutionTable(cell);
      var d := TableDate(Trim(cell.dailyTable.value.header.value));
      && (d.Err? ==> r == Err(d.error))
      && (r.Ok? ==> d.Ok? && ValidDate(d.value) && forall s :: s in r.value ==> s.date == d.value)
  {
    var d := TableDate(Trim(cell.dailyTable.value.header.value));
    if d.Ok? {
      var rows := cell.dailyTable.value.rows.GetOr([]);
      ConvertRowsDate(if rows == [] then [] else rows[1..], d.value);
    }
  }

  /** `_parse_substitution_table`: nothing without a daily table or a date
      heading; the heading's date; the rows after the header row. */
  function SubstitutionTable(cell: MainCell): (r: Result<seq<Substitution>>) {
    match cell.dailyTable
    case None => Ok([])
    case Some(daily) =>
      match daily.header
      case None => Ok([])
      case Some(h) =>
        match TableDate(Trim(h))
        case Err(e) => Err(e)
        case Ok(date) =>
          var rows := daily.rows.GetOr([]);
          ConvertRows(if rows == [] then [] else rows[1..], date)
  }

  /** The outcome of each day column, in column order. */
  function TableResults(cells: seq<MainCell>): seq<Result<seq<Substitution>>> {
    Map(SubstitutionTable, cells)
  }

  /** `parse_substitutions` over the day columns: the tables' results
      concatenated in column order; the first error ends the loop. */
  function AllTables(cells: seq<MainCell>): Result<seq<Substitution>> {
    Concat(TableResults(cells))
  }

  /** Substitutions of consecutive column groups are concatenated. */
  lemma AllTablesAppend(a: seq<MainCell>, b: seq<MainCell>)
    requires AllTables(a).Ok? && AllTables(b).Ok?
    ensures AllTables(a + b) == Ok(AllTables(a).value + AllTables(b).value)
  {
    MapAppend(SubstitutionTable, a, b);
    var ra, rb := TableResults(a), TableResults(b);
    ConcatAppend(ra, rb);
  }

  // ---------------------------------------------------------------------
  // News
  // ---------------------------------------------------------------------

  /** The paragraphs of a news body: stripped, every `*` removed, stripped
      again, split at blank lines. */
  function Paragraphs(body: string): seq<string> {
    Split(Trim(Remove(Trim(body), '*')), "\n\n")
  }

  /** One message per paragraph, stripped, dated with the block's date. */
  function BlockMessages(body: string, date: Date): (r: seq<NewsMessage>)
    ensures |r| == |Paragraphs(body)| >= 1
    ensures forall i :: 0 <= i < |r| ==> r[i] == NewsMessage(Trim(Paragraphs(body)[i]), date)
  {
    Messages(Paragraphs(body), date)
  }

  function Messages(paragraphs: seq<string>, date: Date): (r: seq<NewsMessage>)
    ensures |r| == |paragraphs|
  {
    seq(|paragraphs|, i requires 0 <= i < |paragraphs| => NewsMessage(Trim(paragraphs[i]), date))
  }

  /** Every message is free of `*`, blank lines and surrounding whitespace,
      and carries the block's date. */
  lemma BlockMessagesShape(body: string, date: Date)
    ensures forall i :: 0 <= i < |BlockMessages(body, date)| ==>
      BlockMessages(body, date)[i].date == date && MessageShape(BlockMessages(body, date)[i].message)
  {
    var text := Trim(Remove(Trim(body), '*'));
    assert '*' !in text by {
      if '*' in text { TrimSubset(Remove(Trim(body), '*'), '*'); }
    }
    assert Paragraphs(body) == Split(text, "\n\n");
    var ms := BlockMessages(body, date);
    forall i | 0 <= i < |ms| ensures ms[i].date == date && MessageShape(ms[i].message) {
      PieceShape(text, i);
    }
  }

  /** The paragraphs joined again at blank lines give back the star-free body. */
  lemma ParagraphsJoin(body: string)
    ensures Join(Paragraphs(body), "\n\n") == Trim(Remove(Trim(body), '*'))
  {
    JoinSplit(Trim(Remove(Trim(body), '*')), "\n\n");
  }

  /** A news message: no `*`, no blank line, no whitespace at either end. */
  predicate MessageShape(m: string) {
    '*' !in m && Free(m, "\n\n") && (m == [] || (!IsSpace(m[0]) && !IsSpace(m[|m| - 1])))
  }

  lemma PieceShape(text: string, i: nat)
    requires '*' !in text && i < |Split(text, "\n\n")|
    ensures MessageShape(Trim(Split(text, "\n\n")[i]))
  {
    var p := Split(text, "\n\n")[i];
    StarFreePieces(text, i);
    if '*' in Trim(p) { TrimSubset(p, '*'); }
    assert Free(p, "\n\n");
    TrimFree(p, "\n\n");
  }

  lemma StarFreePieces(text: string, i: nat)
    requires '*' !in text && i < |Split(text, "\n\n")|
    ensures '*' !in Split(text, "\n\n")[i]
    decreases |text|
  {
    match IndexOf(text, "\n\n")
    case None =>
    case Some(k) =>
      if i > 0 {
        SliceNotIn(text, '*', k + 2, |text|);
        StarFreePieces(text[k + 2..], i - 1);
      } else {
        SliceNotIn(text, '*', 0, k);
      }
  }

  /** A slice of a text without `c` has no `c` either. */
  lemma SliceNotIn(s: string, c: char, a: nat, b: nat)
    requires c !in s && a <= b <= |s|
    ensures c !in s[a..b]
  {
  }

  lemma TrimFree(s: string, sep: string)
    requires Free(s, sep)
    ensures Free(Trim(s), sep)
  {
    var off := LeadingSpaces(s);
    SliceFree(s, sep, off, off + |Trim(s)|);
  }

  /** A slice of a text without `sep` has no `sep` either. */
  lemma SliceFree(s: string, sep: string, a: nat, b: nat)
    requires Free(s, sep) && a <= b <= |s|
    ensures Free(s[a..b], sep)
  {
    var t := s[a..b];
    forall k | 0 <= k <= |t| ensures !OccursAt(t, sep, k) {
      if k + |sep| <= |t| {
        var u, v := t[k..k + |sep|], s[a + k..a + k + |sep|];
        assert forall j :: 0 <= j < |u| ==> u[j] == v[j];
        assert u == v;
        assert !OccursAt(s, sep, a + k);
      }
    }
  }

  /** What one news block contributes. The headline date is read before
      the body is looked up, so an unreadable date raises even for a block
      without a body. */
  function BlockResult(block: NewsBlock): Result<seq<NewsMessage>> {
    match block.headline
    case None => Ok([])
    case Some(h) =>
      match ParseDate(Trim(h))
      case Err(e) => Err(e)
      case Ok(date) =>
        match block.body
        case None => Ok([])
        case Some(b) => Ok(BlockMessages(b, date))
  }

  function BlockResults(blocks: seq<NewsBlock>): seq<Result<seq<NewsMessage>>> {
    Map(BlockResult, blocks)
  }

  /** `_parse_news_table` over the news blocks, in document order. */
  function NewsBlocks(blocks: seq<NewsBlock>): Result<seq<NewsMessage>> {
    Concat(BlockResults(blocks))
  }

  /** Blocks without a headline, or with a valid headline and no body, add
      nothing; a block with both adds its paragraphs; an invalid headline
      date raises `ValueError`. */
  lemma NewsBlocksStep(blocks: seq<NewsBlock>, block: NewsBlock)
    requires NewsBlocks(blocks).Ok?
    ensures block.headline.None? ==> NewsBlocks(blocks + [block]) == NewsBlocks(blocks)
    ensures block.headline.Some? && ParseDate(Trim(block.headline.value)).Err? ==>
      NewsBlocks(blocks + [block]) == Err(ValueError)
    ensures block.headline.Some? && ParseDate(Trim(block.headline.value)).Ok? ==>
      NewsBlocks(blocks + [block]) == Ok(NewsBlocks(blocks).value
        + (if block.body.None? then []
           else BlockMessages(block.body.value, ParseDate(Trim(block.headline.value)).value)))
  {
    var rs := BlockResults(blocks + [block]);
    assert rs[..|rs| - 1] == BlockResults(blocks);
    assert rs[|rs| - 1] == BlockResult(block);
    var acc := NewsBlocks(blocks).value;
    assert acc + [] == acc;
  }

  /** Every news message is dated with a valid calendar date. */
  lemma {:induction false} NewsBlocksDates(blocks: seq<NewsBlock>)
    ensures NewsBlocks(blocks).Ok? ==> forall m :: m in NewsBlocks(blocks).value ==> ValidDate(m.date)
    decreases |blocks|
  {
    if blocks != [] {
      var init := blocks[..|blocks| - 1];
      NewsBlocksDates(init);
      var rs := BlockResults(blocks);
      assert rs[..|rs| - 1] == BlockResults(init);
    }
  }

  // ---------------------------------------------------------------------
  // Last update
  // ---------------------------------------------------------------------

  const UpdateLabel := "Letzte Aktualisierung:"

  /** The timestamp the pattern `<marker>\s*(DD.MM.YYYY\sHH:MM:SS)` captures
      when matched at index `i`. */
  function TimestampAt(text: string, marker: string, i: nat): (r: Option<string>)
    ensures r.Some? ==> TimestampShape(r.value)
  {
    if i + |marker| <= |text| && text[i..i + |marker|] == marker then
      var j := i + |marker| + LeadingSpaces(text[i + |marker|..]);
      if j + 19 <= |text| && TimestampShape(text[j..j + 19]) then Some(text[j..j + 19]) else None
    else None
  }

  /** `re.search`: the first index from `from` on where the pattern matches. */
  function FindTimestamp(text: string, marker: string, from: nat): (r: Option<nat>)
    ensures r.Some? ==> from <= r.value <= |text| && TimestampAt(text, marker, r.value).Some?
    ensures r.Some? ==> forall k :: from <= k < r.value ==> TimestampAt(text, marker, k).None?
    ensures r.None? ==> forall k :: from <= k <= |text| ==> TimestampAt(text, marker, k).None?
    decreases |text| - from
  {
    if from > |text| then None
    else if TimestampAt(text, marker, from).Some? then Some(from)
    else FindTimestamp(text, marker, from + 1)
  }

  function SearchTimestamp(text: string, marker: string): (r: Option<string>)
    ensures r.Some? ==> TimestampShape(r.value)
  {
    match FindTimestamp(text, marker, 0)
    case None => None
    case Some(i) => TimestampAt(text, marker, i)
  }

  /** Wherever the marker is followed by whitespace and a timestamp, the
      search succeeds, at that place or at an earlier one. */
  lemma SearchFindsTimestamp(pre: string, marker: string, ws: string, g: string, post: string)
    requires AllSpace(ws) && TimestampShape(g)
    ensures FindTimestamp(pre + marker + ws + g + post, marker, 0).Some?
    ensures FindTimestamp(pre + marker + ws + g + post, marker, 0).value <= |pre|
  {
    TimestampAfterMarker(pre, marker, ws, g, post);
  }

  /** The pattern matches right at the marker. */
  lemma TimestampAfterMarker(pre: string, marker: string, ws: string, g: string, post: string)
    requires AllSpace(ws) && TimestampShape(g)
    ensures TimestampAt(pre + marker + ws + g + post, marker, |pre|) == Some(g)
  {
    var text := pre + marker + ws + g + post;
    var i := |pre|;
    assert text[i..i + |marker|] == marker;
    assert text[i + |marker|..] == ws + (g + post);
    assert !IsSpace(g[0]) by { assert IsDigit(g[0]); }
    LeadingSpacesOf(ws, g + post);
    assert text[i + |marker| + |ws|..i + |marker| + |ws| + 19] == g;
  }

  lemma LeadingSpacesOf(ws: string, rest: string)
    requires AllSpace(ws) && rest != [] && !IsSpace(rest[0])
    ensures LeadingSpaces(ws + rest) == |ws|
  {
    assert (ws + rest)[..|ws|] == ws;
    LeadingSpacesExact(ws + rest, |ws|);
  }

  /** The text the copyright block offers: its inner `<div>` first, else its
      `<p>`, stripped. */
  function CopyrightText(c: Copyright): Option<string> {
    if c.innerDiv.Some? then Some(Trim(c.innerDiv.value))
    else if c.paragraph.Some? then Some(Trim(c.paragraph.value))
    else None
  }

  /** `parse_last_updated` on a page: `None` when the copyright block, its
      text or the labelled timestamp is missing; the parsed timestamp
      otherwise, or `ValueError` when it names no existing moment. */
  function LastUpdatedOf(page: Page): (r: Result<Option<DateTime>>)
    ensures page.copyright.None? ==> r == Ok(None)
    ensures page.copyright.Some? && CopyrightText(page.copyright.value).None? ==> r == Ok(None)
    ensures page.copyright.Some? && CopyrightText(page.copyright.value).Some? ==>
      SearchTimestamp(CopyrightText(page.copyright.value).value, UpdateLabel).None? ==> r == Ok(None)
    ensures r.Ok? && r.value.Some? ==> ValidDateTime(r.value.value)
    ensures r.Err? ==> r.error == ValueError
  {
    match page.copyright
    case None => Ok(None)
    case Some(c) =>
      match CopyrightText(c)
      case None => Ok(None)
      case Some(text) =>
        match SearchTimestamp(text, UpdateLabel)
        case None => Ok(None)
        case Some(g) =>
          match ParseDateTime(g)
          case Ok(t) => Ok(Some(t))
          case Err(e) => Err(e)
  }

  /** A copyright text in which the label is followed by whitespace and a
      timestamp never reads as "no timestamp": the result is a timestamp,
      or `ValueError` for one that names no existing moment. */
  lemma LastUpdatedFound(page: Page, pre: string, ws: string, g: string, post: string)
    requires page.copyright.Some?
    requires CopyrightText(page.copyright.value) == Some(pre + UpdateLabel + ws + g + post)
    requires AllSpace(ws) && TimestampShape(g)
    ensures LastUpdatedOf(page) != Ok(None)
  {
    SearchFindsTimestamp(pre, UpdateLabel, ws, g, post);
  }

  /** The timestamp returned is the moment written after the label: for a
      copyright text `pre` + label + whitespace + `DD.MM.YYYY HH:MM:SS` +
      `post` with no match starting inside `pre`, the result is that moment. */
  lemma LastUpdatedReads(page: Page, pre: string, ws: string, t: DateTime, post: string)
    requires ValidDateTime(t) && AllSpace(ws)
    requires page.copyright.Some?
    requires CopyrightText(page.copyright.value) == Some(pre + UpdateLabel + ws + FormatDateTime(t) + post)
    requires forall k :: 0 <= k < |pre| ==>
      TimestampAt(pre + UpdateLabel + ws + FormatDateTime(t) + post, UpdateLabel, k).None?
    ensures LastUpdatedOf(page) == Ok(Some(t))
  {
    var g := FormatDateTime(t);
    var text := pre + UpdateLabel + ws + g + post;
    ParseFormatDateTime(t);
    TimestampAfterMarker(pre, UpdateLabel, ws, g, post);
    assert FindTimestamp(text, UpdateLabel, 0) == Some(|pre|);
  }

  /** Once a prefix of the rows raises, the table raises the same way. */
  lemma {:induction false} ConvertRowsPrefixErr(rows: seq<seq<string>>, k: nat, date: Date)
    requires k <= |rows| && ConvertRows(rows[..k], date).Err?
    ensures ConvertRows(rows, date) == ConvertRows(rows[..k], date)
    decreases |rows|
  {
    if k < |rows| {
      var init := rows[..|rows| - 1];
      assert init[..k] == rows[..k];
      ConvertRowsPrefixErr(init, k, date);
    } else {
      assert rows[..k] == rows;
    }
  }

  // ---------------------------------------------------------------------
  // The parser object and its loops
  // ---------------------------------------------------------------------

  /** The state `Parser` keeps between `setup_parsing` and the `parse_*`
      calls: the parsed page, the day columns and the news column. */
  class Parser {
    const config: Config
    var soup: Option<Page>
    var substitutionTables: Option<seq<MainCell>>
    var newsTable: Option<MainCell>

    constructor (config: Config)
      ensures this.config == config
      ensures soup == None && substitutionTables == None && newsTable == None
    {
      this.config := config;
      soup := None;
      substitutionTables := None;
      newsTable := None;
    }

    /** `setup_parsing`: keeps the page; without a main table reports false
        and leaves the columns as they were; otherwise splits the first row
        of the main table into day columns and the news column. */
    method SetupParsing(page: Page) returns (r: Result<bool>)
      modifies this
      ensures soup == Some(page)
      ensures page.mainTable.None? ==>
        r == Ok(false) && substitutionTables == old(substitutionTables) && newsTable == old(newsTable)
      ensures page.mainTable.Some? && page.mainTable.value.firstRow.None? ==>
        r == Err(AttributeError) && substitutionTables == old(substitutionTables) && newsTable == old(newsTable)
      ensures page.mainTable.Some? && page.mainTable.value.firstRow.Some? ==>
        var cells := page.mainTable.value.firstRow.value;
        var news := NewsCell(cells, config.showNews);
        && substitutionTables == Some(DayBlocks(cells, config.showNews))
        && (news.Err? ==> r == Err(news.error) && newsTable == old(newsTable))
        && (news.Ok? ==> r == Ok(true) && newsTable == news.value)
    {
      soup := Some(page);
      if page.mainTable.None? {
        return Ok(false);
      }
      var mainRow := page.mainTable.value.firstRow;
      if mainRow.None? {
        return Err(AttributeError);
      }
      var cells := mainRow.value;
      substitutionTables := Some(if config.showNews then (if cells == [] then [] else cells[..|cells| - 1]) else cells);
      if config.showNews {
        if cells == [] {
          return Err(IndexError);
        }
        newsTable := Some(cells[|cells| - 1]);
      } else {
        newsTable := None;
      }
      return Ok(true);
    }

    /** `parse_substitutions`: no substitutions before a successful set-up;
        otherwise the day columns' tables, concatenated in column order. */
    method ParseSubstitutions() returns (r: Result<seq<Substitution>>)
      ensures r == if substitutionTables.None? then Ok([]) else AllTables(substitutionTables.value)
    {
      if substitutionTables.None? || substitutionTables.value == [] {
        return Ok([]);
      }
      var tables := substitutionTables.value;
      var subs: seq<Substitution> := [];
      var i := 0;
      while i < |tables|
        invariant 0 <= i <= |tables|
        invariant Concat(Map(SubstitutionTable, tables[..i])) == Ok(subs)
      {
        var part := ParseSubstitutionTable(tables[i]);
        ConcatMapStep(SubstitutionTable, tables, i);
        if part.Err? {
          return Err(part.error);
        }
        subs := subs + part.value;
        i := i + 1;
      }
      assert tables[..i] == tables;
      return Ok(subs);
    }

    /** `parse_news`: the news column's messages, none without one. */
    method ParseNews() returns (r: Result<seq<NewsMessage>>)
      ensures r == if newsTable.None? then Ok([]) else NewsBlocks(newsTable.value.newsBlocks)
    {
      if newsTable.None? {
        return Ok([]);
      }
      r := ParseNewsTable(newsTable.value);
    }

    /** `parse_last_updated`: nothing before a page was set up. */
    function ParseLastUpdated(): (r: Result<Option<DateTime>>)
      reads this
      ensures soup.None? ==> r == Ok(None)
      ensures soup.Some? ==> r == LastUpdatedOf(soup.value)
    {
      if soup.None? then Ok(None) else LastUpdatedOf(soup.value)
    }

    /** `_parse_substitution_table` on one day column. */
    method ParseSubstitutionTable(table: MainCell) returns (r: Result<seq<Substitution>>)
      ensures r == SubstitutionTable(table)
    {
      if table.dailyTable.None? {
        return Ok([]);
      }
      var daily := table.dailyTable.value;
      if daily.header.None? {
        return Ok([]);
      }
      var parsed := TableDate(Trim(daily.header.value));
      if parsed.Err? {
        return Err(parsed.error);
      }
      var rows := if daily.rows.Some? then daily.rows.value else [];
      r := ParseRows(if rows == [] then [] else rows[1..], parsed.value);
    }

    /** The row loop of `_parse_substitution_table`: rows without six cells
        are skipped, a row with a blank class continues the class of the
        last record produced so far. */
    method ParseRows(body: seq<seq<string>>, date: Date) returns (r: Result<seq<Substitution>>)
      ensures r == ConvertRows(body, date)
    {
      var subs: seq<Substitution> := [];
      var i := 0;
      while i < |body|
        invariant 0 <= i <= |body|
        invariant ConvertRows(body[..i], date) == Ok(subs)
      {
        var cells := TrimAll(body[i]);
        assert body[..i + 1] == body[..i] + [body[i]];
        ConvertRowsSnoc(body[..i], body[i], date);
        if |cells| == 6 {
          var more;
          if cells[0] == "" {
            if subs == [] {
              ConvertRowsPrefixErr(body, i + 1, date);
              return Err(IndexError);
            }
            more := ConvertCellsToSubstitutions([subs[|subs| - 1].className] + cells[1..], date);
          } else {
            more := ConvertCellsToSubstitutions(cells, date);
          }
          subs := subs + more.value;
        }
        i := i + 1;
      }
      assert body[..i] == body;
      return Ok(subs);
    }

    /** `_convert_cells_to_substitutions`: nothing for a blank class, one
        record per letter of a `<grade><letters>` class, otherwise the single
        record of the raw cells. */
    method ConvertCellsToSubstitutions(cells: seq<string>, date: Date) returns (r: Result<seq<Substitution>>)
      ensures r == ConvertCells(cells, date)
    {
      if |cells| == 0 {
        return Err(IndexError);
      }
      var className := cells[0];
      if Trim(className) == [] {
        return Ok([]);
      }
      if IsDigit(className[0]) {
        var found := SplitClassName(className);
        if found.Some? {
          r := ExpandClass(cells, found.value.0, found.value.1, date);
          return;
        }
      }
      var single := FromArray(cells, date);
      if single.Err? {
        return Err(single.error);
      }
      return Ok([single.value]);
    }

    /** The loop over the letters of a matched class name: one record per
        letter, or the `ValueError` of a short row. */
    method ExpandClass(cells: seq<string>, grade: string, letters: string, date: Date)
      returns (r: Result<seq<Substitution>>)
      requires |letters| > 0
      ensures |cells| < 6 ==> r == Err(ValueError)
      ensures |cells| >= 6 ==> r == Ok(Expansion(cells, grade, letters, date))
    {
      var subs: seq<Substitution> := [];
      var i := 0;
      while i < |letters|
        invariant 0 <= i <= |letters|
        invariant |cells| >= 6 || i == 0
        invariant |cells| >= 6 ==> subs == Expansion(cells, grade, letters, date)[..i]
      {
        var s := FromArrayWithClassName(cells, grade + [letters[i]], date);
        if s.Err? {
          return Err(s.error);
        }
        subs := subs + [s.value];
        i := i + 1;
      }
      assert Expansion(cells, grade, letters, date)[..i] == Expansion(cells, grade, letters, date);
      return Ok(subs);
    }

    /** The inner loop of `_parse_news_table`: one stripped message per
        paragraph, all carrying the block's date. */
    method ParagraphMessages(paragraphs: seq<string>, date: Date) returns (messages: seq<NewsMessage>)
      ensures messages == Messages(paragraphs, date)
    {
      ghost var expected := Messages(paragraphs, date);
      messages := [];
      var j := 0;
      while j < |paragraphs|
        invariant 0 <= j <= |paragraphs|
        invariant messages == expected[..j]
      {
        var message := NewsMessage(Trim(paragraphs[j]), date);
        assert expected[..j + 1] == expected[..j] + [message];
        messages := messages + [message];
        j := j + 1;
      }
      assert expected[..j] == expected;
    }

    /** `_parse_news_table`: for each news block with a headline, its date;
        for each with a body as well, one message per paragraph. */
    method ParseNewsTable(newsCell: MainCell) returns (r: Result<seq<NewsMessage>>)
      ensures r == NewsBlocks(newsCell.newsBlocks)
    {
      var blocks := newsCell.newsBlocks;
      var news: seq<NewsMessage> := [];
      var i := 0;
      while i < |blocks|
        invariant 0 <= i <= |blocks|
        invariant Concat(Map(BlockResult, blocks[..i])) == Ok(news)
      {
        var part := ParseNewsBlock(blocks[i]);
        ConcatMapStep(BlockResult, blocks, i);
        if part.Err? {
          return Err(part.error);
        }
        news := news + part.value;
        i := i + 1;
      }
      assert blocks[..i] == blocks;
      return Ok(news);
    }

    /** One pass of the loop over the news blocks. */
    method ParseNewsBlock(block: NewsBlock) returns (r: Result<seq<NewsMessage>>)
      ensures r == BlockResult(block)
    {
      if block.headline.None? {
        return Ok([]);
      }
      var date := ParseDate(Trim(block.headline.value));
      if date.Err? {
        return Err(date.error);
      }
      if block.body.None? {
        return Ok([]);
      }
      var messages := ParagraphMessages(Paragraphs(block.body.value), date.value);
      return Ok(messages);
    }
  }
}
