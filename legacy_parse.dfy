/** The older extractor (src/parse.py): the same page layout, read with
    simpler rules — no class expansion, no continuation rows, untrimmed
    news paragraphs — and handed to a `SubstitutionManager`. */
module LegacyParse {
  import opened Results
  import opened Text
  import opened Dates
  import opened Models
  import opened Dom
  import opened Parser
  import opened SubstitutionManagers

  // ---------------------------------------------------------------------
  // Last update
  // ---------------------------------------------------------------------

  /** The shorter label the older extractor searches for. */
  const LegacyLabel := "Aktualisierung:"

  /** `get_last_updated_date` as written: it searches the copyright
      paragraph and parses the timestamp, so an impossible timestamp raises
      `ValueError`, but it never returns the parsed value. */
  function GetLastUpdatedDateAsWritten(page: Page): (r: Result<Option<DateTime>>)
    ensures r.Ok? ==> r.value.None?
    ensures r.Err? ==> r.error == ValueError
  {
    match page.copyright
    case None => Ok(None)
    case Some(c) =>
      match c.paragraph
      case None => Ok(None)
      case Some(p) =>
        match SearchTimestamp(Trim(p), LegacyLabel)
        case None => Ok(None)
        case Some(g) =>
          match ParseDateTime(g)
          case Err(e) => Err(e)
          case Ok(_) => Ok(None)
  }

  /** `get_last_updated_date` as its result type and its log line intend:
      the parsed timestamp is returned. */
  function GetLastUpdatedDate(page: Page): (r: Result<Option<DateTime>>)
    ensures page.copyright.None? ==> r == Ok(None)
    ensures page.copyright.Some? && page.copyright.value.paragraph.None? ==> r == Ok(None)
    ensures r.Ok? && r.value.Some? ==> ValidDateTime(r.value.value)
    ensures r.Err? ==> r.error == ValueError
  {
    match page.copyright
    case None => Ok(None)
    case Some(c) =>
      match c.paragraph
      case None => Ok(None)
      case Some(p) =>
        match SearchTimestamp(Trim(p), LegacyLabel)
        case None => Ok(None)
        case Some(g) =>
          match ParseDateTime(g)
          case Err(e) => Err(e)
          case Ok(t) => Ok(Some(t))
  }

  /** Both versions raise on exactly the same pages; wherever the intended
      one finds a timestamp, the written one reports none. */
  lemma LastUpdatedDropped(page: Page)
    ensures GetLastUpdatedDateAsWritten(page).Err? <==> GetLastUpdatedDate(page).Err?
    ensures GetLastUpdatedDate(page).Ok? && GetLastUpdatedDate(page).value.Some? ==>
      GetLastUpdatedDateAsWritten(page) == Ok(None)
  {
  }

  /** A copyright paragraph `Aktualisierung: DD.MM.YYYY HH:MM:SS` naming any
      existing moment: the intended lookup returns that moment, the written
      one returns nothing. */
  lemma LastUpdatedExample(t: DateTime)
    requires ValidDateTime(t)
    ensures var page := Page(None, Some(Copyright(None, Some(LegacyLabel + " " + FormatDateTime(t)))));
      && GetLastUpdatedDate(page) == Ok(Some(t))
      && GetLastUpdatedDateAsWritten(page) == Ok(None)
  {
    var g := FormatDateTime(t);
    var text := LegacyLabel + " " + g;
    ParseFormatDateTime(t);
    assert text == "" + LegacyLabel + " " + g + "";
    TimestampAfterMarker("", LegacyLabel, " ", g, "");
    assert FindTimestamp(text, LegacyLabel, 0) == Some(0);
    assert text[0] == 'A' && text[|text| - 1] == g[18] && IsDigit(g[18]);
    TrimUntrimmed(text);
  }

  // ---------------------------------------------------------------------
  // Substitution tables
  // ---------------------------------------------------------------------

  /** The row loop of `parse_substitution_table`: each data row of exactly
      six cells gives one record of its stripped cells, any other row none. */
  function LegacyRows(rows: seq<seq<string>>, date: Date): (r: seq<Substitution>)
    ensures |r| <= |rows|
    ensures forall s :: s in r ==> s.date == date
    decreases |rows|
  {
    if rows == [] then []
    else
      var cells := TrimAll(rows[|rows| - 1]);
      LegacyRows(rows[..|rows| - 1], date) + (if |cells| == 6 then [FromArray(cells, date).value] else [])
  }

  /** Each further row of exactly six cells adds exactly one record, built
      by `from_array` from its stripped cells whatever its class (a blank
      class stays blank, `12ab` stays one record); any other row adds none. */
  lemma LegacyRowsSnoc(rows: seq<seq<string>>, row: seq<string>, date: Date)
    ensures |row| == 6 ==>
      LegacyRows(rows + [row], date) == LegacyRows(rows, date) + [Record(TrimAll(row), TrimAll(row)[0], date)]
    ensures |row| != 6 ==> LegacyRows(rows + [row], date) == LegacyRows(rows, date)
  {
    assert (rows + [row])[..|rows|] == rows;
  }

  /** A row the newer extractor handles without expansion or continuation:
      when it has six cells, its class is not blank and does not start with
      a digit. */
  predicate PlainRow(row: seq<string>) {
    var cells := TrimAll(row);
    |cells| == 6 ==> cells[0] != [] && !IsDigit(cells[0][0])
  }

  /** On tables made only of plain rows, both extractors produce the same
      records in the same order. */
  lemma {:induction false} LegacyRowsAgree(rows: seq<seq<string>>, date: Date)
    requires forall i :: 0 <= i < |rows| ==> PlainRow(rows[i])
    ensures ConvertRows(rows, date) == Ok(LegacyRows(rows, date))
    decreases |rows|
  {
    if rows != [] {
      var init := rows[..|rows| - 1];
      LegacyRowsAgree(init, date);
      var cells := TrimAll(rows[|rows| - 1]);
      if |cells| == 6 {
        assert PlainRow(rows[|rows| - 1]);
        TrimIdempotent(rows[|rows| - 1][0]);
        assert Trim(cells[0]) == cells[0];
        assert ConvertCells(cells, date) == SingleRecord(cells, date);
        assert FromArray(cells, date).value == Record(cells, cells[0], date);
        assert ConvertCells(cells, date) == Ok([FromArray(cells, date).value]);
      } else {
        assert LegacyRows(init, date) + [] == LegacyRows(init, date);
      }
    }
  }

  /** `parse_substitution_table` on one day column: nothing without a daily
      table or a date heading; the date is read before the inner table is
      looked up, so a column without an inner table still raises on an
      unreadable date. */
  function LegacyTable(cell: MainCell): (r: Result<seq<Substitution>>)
    ensures r.Ok? ==> forall s :: s in r.value ==> ValidDate(s.date)
    ensures r.Err? ==> r.error == IndexError || r.error == ValueError
  {
    match cell.dailyTable
    case None => Ok([])
    case Some(daily) =>
      match daily.header
      case None => Ok([])
      case Some(h) =>
        match TableDate(Trim(h))
        case Err(e) => Err(e)
        case Ok(date) =>
          match daily.rows
          case None => Ok([])
          case Some(rows) => Ok(LegacyRows(if rows == [] then [] else rows[1..], date))
  }

  function LegacyTableResults(cells: seq<MainCell>): seq<Result<seq<Substitution>>> {
    Map(LegacyTable, cells)
  }

  /** The tables of all day columns, concatenated in column order. */
  function LegacyTables(cells: seq<MainCell>): Result<seq<Substitution>> {
    Concat(LegacyTableResults(cells))
  }

  /** `parse_substitution_table`, with its row loop. */
  method ParseSubstitutionTable(cell: MainCell) returns (r: Result<seq<Substitution>>)
    ensures r == LegacyTable(cell)
  {
    if cell.dailyTable.None? {
      return Ok([]);
    }
    var daily := cell.dailyTable.value;
    if daily.header.None? {
      return Ok([]);
    }
    var parsed := TableDate(Trim(daily.header.value));
    if parsed.Err? {
      return Err(parsed.error);
    }
    var date := parsed.value;
    if daily.rows.None? {
      return Ok([]);
    }
    var rows := daily.rows.value;
    var subs := ParseRows(if rows == [] then [] else rows[1..], date);
    return Ok(subs);
  }

  /** The row loop of `parse_substitution_table`. */
  method ParseRows(body: seq<seq<string>>, date: Date) returns (subs: seq<Substitution>)
    ensures subs == LegacyRows(body, date)
  {
    subs := [];
    var i := 0;
    while i < |body|
      invariant 0 <= i <= |body|
      invariant subs == LegacyRows(body[..i], date)
    {
      var cells := TrimAll(body[i]);
      assert body[..i + 1][..i] == body[..i];
      if |cells| == 6 {
        var s := FromArray(cells, date);
        subs := subs + [s.value];
      }
      i := i + 1;
    }
    assert body[..i] == body;
  }

  // ---------------------------------------------------------------------
  // News
  // ---------------------------------------------------------------------

  /** One message per paragraph, not stripped, dated with the block's date. */
  function LegacyMessages(body: string, date: Date): (r: seq<NewsMessage>)
    ensures |r| == |Paragraphs(body)|
    ensures forall i :: 0 <= i < |r| ==> r[i] == NewsMessage(Paragraphs(body)[i], date)
  {
    UntrimmedMessages(Paragraphs(body), date)
  }

  function UntrimmedMessages(paragraphs: seq<string>, date: Date): (r: seq<NewsMessage>)
    ensures |r| == |paragraphs|
  {
    seq(|paragraphs|, i requires 0 <= i < |paragraphs| => NewsMessage(paragraphs[i], date))
  }

  /** The paragraph loop of `parse_news_table`: one message per paragraph,
      as split, all carrying the block's date. */
  method ParagraphMessages(paragraphs: seq<string>, date: Date) returns (messages: seq<NewsMessage>)
    ensures messages == UntrimmedMessages(paragraphs, date)
  {
    ghost var expected := UntrimmedMessages(paragraphs, date);
    messages := [];
    var j := 0;
    while j < |paragraphs|
      invariant 0 <= j <= |paragraphs|
      invariant messages == expected[..j]
    {
      var message := NewsMessage(paragraphs[j], date);
      assert expected[..j + 1] == expected[..j] + [message];
      messages := messages + [message];
      j := j + 1;
    }
    assert expected[..j] == expected;
  }

  function LegacyBlockResult(block: NewsBlock): Result<seq<NewsMessage>> {
    match block.headline
    case None => Ok([])
    case Some(h) =>
      match ParseDate(Trim(h))
      case Err(e) => Err(e)
      case Ok(date) =>
        match block.body
        case None => Ok([])
        case Some(b) => Ok(LegacyMessages(b, date))
  }

  function LegacyBlockResults(blocks: seq<NewsBlock>): seq<Result<seq<NewsMessage>>> {
    Map(LegacyBlockResult, blocks)
  }

  /** `parse_news_table` over the news blocks, in document order. */
  function LegacyNews(blocks: seq<NewsBlock>): Result<seq<NewsMessage>> {
    Concat(LegacyBlockResults(blocks))
  }

  function TrimMessages(ms: seq<NewsMessage>): (r: seq<NewsMessage>)
    ensures |r| == |ms|
  {
    seq(|ms|, i requires 0 <= i < |ms| => NewsMessage(Trim(ms[i].message), ms[i].date))
  }

  lemma TrimMessagesAppend(a: seq<NewsMessage>, b: seq<NewsMessage>)
    ensures TrimMessages(a + b) == TrimMessages(a) + TrimMessages(b)
  {
  }

  /** The newer extractor's news are the older one's with each paragraph
      stripped; both raise on the same blocks, with the same error. */
  lemma {:induction false} LegacyNewsTrimmed(blocks: seq<NewsBlock>)
    ensures NewsBlocks(blocks).Ok? <==> LegacyNews(blocks).Ok?
    ensures NewsBlocks(blocks).Err? ==> NewsBlocks(blocks) == LegacyNews(blocks)
    ensures NewsBlocks(blocks).Ok? ==> NewsBlocks(blocks).value == TrimMessages(LegacyNews(blocks).value)
    decreases |blocks|
  {
    if blocks != [] {
      var init := blocks[..|blocks| - 1];
      var last := blocks[|blocks| - 1];
      LegacyNewsTrimmed(init);
      var rs := BlockResults(blocks);
      var ls := LegacyBlockResults(blocks);
      assert rs[..|rs| - 1] == BlockResults(init);
      assert ls[..|ls| - 1] == LegacyBlockResults(init);
      if NewsBlocks(init).Ok? && LegacyBlockResult(last).Ok? {
        var more := LegacyBlockResult(last).value;
        assert BlockResult(last).value == TrimMessages(more);
        TrimMessagesAppend(LegacyNews(init).value, more);
      }
    }
  }

  /** `parse_news_table`, with its block loop and paragraph loop. */
  method ParseNewsTable(newsCell: MainCell) returns (r: Result<seq<NewsMessage>>)
    ensures r == LegacyNews(newsCell.newsBlocks)
  {
    var blocks := newsCell.newsBlocks;
    var news: seq<NewsMessage> := [];
    var i := 0;
    while i < |blocks|
      invariant 0 <= i <= |blocks|
      invariant Concat(Map(LegacyBlockResult, blocks[..i])) == Ok(news)
    {
      var part := ParseNewsBlock(blocks[i]);
      ConcatMapStep(LegacyBlockResult, blocks, i);
      if part.Err? {
        return Err(part.error);
      }
      news := news + part.value;
      i := i + 1;
    }
    assert blocks[..i] == blocks;
    return Ok(news);
  }

  /** One pass of the loop over the news blocks. */
  method ParseNewsBlock(block: NewsBlock) returns (r: Result<seq<NewsMessage>>)
    ensures r == LegacyBlockResult(block)
  {
    if block.headline.None? {
      return Ok([]);
    }
    var date := ParseDate(Trim(block.headline.value));
    if date.Err? {
      return Err(date.error);
    }
    if block.body.None? {
      return Ok([]);
    }
    var messages := ParagraphMessages(Paragraphs(block.body.value), date.value);
    return Ok(messages);
  }

  // ---------------------------------------------------------------------
  // Whole page
  // ---------------------------------------------------------------------

  /** What `parse_html` hands to the manager: nothing without a main table;
      otherwise the news of the last cell (when news are shown) and the
      records of the day columns. The last-update lookup runs first and can
      only raise; the news are read before the tables. The code calls its
      own lookup, whose value is dropped; the corrected lookup stands in for
      it here because `LastUpdatedDropped` shows that both raise on exactly
      the same pages, so the outcome is the same. */
  function LegacyRecords(page: Page, config: Config): (r: Result<Option<Records>>)
    ensures page.mainTable.None? && GetLastUpdatedDate(page).Ok? ==> r == Ok(None)
    ensures r.Ok? && r.value.Some? && !config.showNews ==> r.value.value.news == []
    ensures r.Ok? && r.value.Some? ==> forall s :: s in r.value.value.substitutions ==> ValidDate(s.date)
  {
    match GetLastUpdatedDate(page)
    case Err(e) => Err(e)
    case Ok(_) =>
      match page.mainTable
      case None => Ok(None)
      case Some(t) =>
        match t.firstRow
        case None => Err(AttributeError)
        case Some(cells) =>
          match NewsCell(cells, config.showNews)
          case Err(e) => Err(e)
          case Ok(newsCell) =>
            var news := if newsCell.None? then Ok([]) else LegacyNews(newsCell.value.newsBlocks);
            if news.Err? then Err(news.error)
            else
              var subs := LegacyTables(DayBlocks(cells, config.showNews));
              LegacyTablesDates(DayBlocks(cells, config.showNews));
              if subs.Err? then Err(subs.error)
              else Ok(Some(Records(subs.value, news.value)))
  }

  /** Every record of the day columns carries a valid calendar date. */
  lemma {:induction false} LegacyTablesDates(cells: seq<MainCell>)
    ensures LegacyTables(cells).Ok? ==> forall s :: s in LegacyTables(cells).value ==> ValidDate(s.date)
    decreases |cells|
  {
    if cells != [] {
      var init := cells[..|cells| - 1];
      LegacyTablesDates(init);
      var rs := LegacyTableResults(cells);
      assert rs[..|rs| - 1] == LegacyTableResults(init);
    }
  }

  /** `parse_html` on an already parsed page; the last-update lookup is the
      corrected one, for the reason given at `LegacyRecords`. */
  method ParseHtml(page: Page, config: Config) returns (r: Result<Option<SubstitutionManager>>)
    ensures var expected := LegacyRecords(page, config);
      && (expected.Err? ==> r == Err(expected.error))
      && (expected.Ok? && expected.value.None? ==> r == Ok(None))
      && (expected.Ok? && expected.value.Some? ==>
            && r.Ok? && r.value.Some? && fresh(r.value.value)
            && r.value.value.Valid()
            && (forall x :: x in r.value.value.substitutions <==> x in expected.value.value.substitutions)
            && r.value.value.news == expected.value.value.news)
  {
    var lastUpdate := GetLastUpdatedDate(page);
    if lastUpdate.Err? {
      return Err(lastUpdate.error);
    }
    if page.mainTable.None? {
      return Ok(None);
    }
    var mainRow := page.mainTable.value.firstRow;
    if mainRow.None? {
      return Err(AttributeError);
    }
    var cells := mainRow.value;
    var tables := if config.showNews then (if cells == [] then [] else cells[..|cells| - 1]) else cells;
    assert tables == DayBlocks(cells, config.showNews);
    var news: seq<NewsMessage> := [];
    if config.showNews {
      if cells == [] {
        return Err(IndexError);
      }
      var parsed := ParseNewsTable(cells[|cells| - 1]);
      if parsed.Err? {
        return Err(parsed.error);
      }
      news := parsed.value;
    }
    var subs := ParseTables(tables);
    if subs.Err? {
      return Err(subs.error);
    }
    var manager := new SubstitutionManager(subs.value, news);
    return Ok(Some(manager));
  }

  /** The table loop of `parse_html`: each day column's records, extended
      in column order. */
  method ParseTables(tables: seq<MainCell>) returns (r: Result<seq<Substitution>>)
    ensures r == LegacyTables(tables)
  {
    var subs: seq<Substitution> := [];
    var i := 0;
    while i < |tables|
      invariant 0 <= i <= |tables|
      invariant Concat(Map(LegacyTable, tables[..i])) == Ok(subs)
    {
      var part := ParseSubstitutionTable(tables[i]);
      ConcatMapStep(LegacyTable, tables, i);
      if part.Err? {
        return Err(part.error);
      }
      subs := subs + part.value;
      i := i + 1;
    }
    assert tables[..i] == tables;
    return Ok(subs);
  }
}
