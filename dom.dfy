/** What the extractors read from the parsed page. Each element lookup of
    the HTML tree is given here already done: a lookup that can fail is an
    `Option`, and a cell or heading is represented by its text. */
module Dom {
  import opened Results

  /** A `div.container.daily_table`: the text of its date heading (the
      `daily_date_hdl week_odd` one if present, else the `week_even` one),
      and, when it holds a `<table>`, that table's `<tr>` rows, each as the
      texts of its `<td>` cells (not yet stripped). */
  datatype DailyTable = DailyTable(header: Option<string>, rows: Option<seq<seq<string>>>)

  /** A `div.news.bb_border.bb_bg_weiss`: the text of its `p.news_headline_2`
      and of its `span.news_text`, each when present. */
  datatype NewsBlock = NewsBlock(headline: Option<string>, body: Option<string>)

  /** A direct `<td>` of the main table's first row. Whether it is read as a
      day column or as the news column depends on its position, so both
      views are given: its daily table, and its news blocks in document order. */
  datatype MainCell = MainCell(dailyTable: Option<DailyTable>, newsBlocks: seq<NewsBlock>)

  /** `table.main-table`, with the direct cells of its first `<tr>` when it has one. */
  datatype MainTable = MainTable(firstRow: Option<seq<MainCell>>)

  /** `div.copyright`: the text of its first inner `<div>` and of its first
      `<p>`, each when present. */
  datatype Copyright = Copyright(innerDiv: Option<string>, paragraph: Option<string>)

  datatype Page = Page(mainTable: Option<MainTable>, copyright: Option<Copyright>)
}
