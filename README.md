# Substitution plan extractor, manager and cache — a Dafny model

The service reads a school's "Infoscreen" page. The page has a main table with
one column per school day and, optionally, a news column. The service produces:

- **substitutions**: class, period, absent teacher, substitute teacher, room, info and date;
- **news messages**: text and date.

It keeps both per user account in a `SubstitutionManager`. The
`SubstitutionUpdater` caches up to ten managers, one per login name, in
insertion order.

This project models that core in Dafny 4.11:

| file | module | models |
|---|---|---|
| `results.dfy` | `Results` | `Option`/`Result` for `None` and for Python's exceptions (`ValueError`, `IndexError`, `AttributeError`); `Concat`, the "extend a list, let the first exception escape" fold |
| `text.dfy` | `Text` | `str.strip`, `str.split`, `str.join` and `str.replace(c, "")`, with the greedy runs `\s*`, `\d+` and `[a-zA-Z]+` |
| `dates.dfy` | `Dates` | `datetime.date`/`datetime.datetime`, calendar validity, and `strptime` for `%d.%m.%Y` and `%d.%m.%Y %H:%M:%S` |
| `models.dfy` | `Models` | the `Substitution` record with `from_array` and `from_array_with_class_name`, `NewsMessage`, `Config`, `LastUpdated` |
| `dom.dfy` | `Dom` | the located parts of the page: main-table row, daily table (header text, rows of cell texts), news blocks (headline, body), copyright block |
| `parser.dfy` | `Parser` | `src/parser.py`: the `Parser` class with its set-up and `parse_*` methods, and the specification functions they are proved against |
| `legacy_parse.dfy` | `LegacyParse` | `src/parse.py`, the older extractor, and how it relates to the newer one |
| `manager.dfy` | `SubstitutionManagers` | `SubstitutionManager`: deduplication, filters, the in-place stable sort of the news |
| `updater.dfy` | `SubstitutionUpdaters` | `SubstitutionUpdater`: the bounded per-user cache |

Modelling choices:

- **Page lookups.** Each BeautifulSoup lookup becomes an optional, already located element. Cell texts are kept raw, and the model applies `strip` where the source does.
- **Imperative code.** Methods that loop and append are Dafny methods with loops. Each method is proved equal to a specification function, and the properties are proved as lemmas about that function.
- **Parser state.** The parser's `_soup`, `_substitution_tables` and `_news_table` are fields of a class.
- **Manager state.** The manager's `substitutions` and `news` are fields that its methods reassign.
- **Cache.** The cache's deque is a bounded `seq`. A ghost history of every manager ever appended states which ten managers it holds.

## Model

| member | source | states |
|---|---|---|
| Parser.DayBlocks | src/parser.py:60-62 | with news shown, the day columns plus the last cell are the whole row; without news, every cell is a day column |
| Parser.NewsCell | src/parser.py:63 | the news column is the last cell when news are shown and absent otherwise; an empty row raises `IndexError` |
| Parser.TableDate | src/parser.py:124-126 | a heading without a comma raises `IndexError`, an unreadable date raises `ValueError` (for a day that does not exist: `Parser.TableDateInvalid`), and a success is a valid calendar date |
| Parser.TableDateInvalid | src/parser.py:124-126 | a heading `a, DD.MM.YYYY` whose two-digit fields name a day that does not exist (`31.02.2024`, `29.02.2023`, month `13`) raises `ValueError` |
| Parser.TableDateField | src/parser.py:125-126 | for `a,b` followed by nothing, a comma or a dash, the date read is `strptime` of the stripped text `b` |
| Parser.SplitClassNameExact | src/parser.py:187-188 | the regex groups are (grade, letters) exactly when the name starts with a maximal digit run followed by a maximal ASCII-letter run |
| Parser.ConvertCells | src/parser.py:179-205 | a blank class yields no record; an empty cell list raises `IndexError`; six or more cells never raise; every record produced carries the given date |
| Parser.ConvertExpands | src/parser.py:195-202 | a `<grade><letters>` class gives one record per letter, class grade+letter, other fields copied |
| Parser.ConvertSingle | src/parser.py:184-193 | a non-blank class that does not start with a digit, or whose digits are not followed by letters, gives exactly one record from the raw cells |
| Parser.ConvertRowsDate | src/parser.py:150-177 | every record of a table carries the table's date |
| Parser.ConvertRowsSkipsWrongWidth | src/parser.py:154-156 | a row whose cell count is not 6 changes nothing |
| Parser.ConvertRowsContinuation | src/parser.py:158-171 | a row with an empty first cell takes the class of the last record so far, and raises `IndexError` when there is none |
| Parser.ContinuationAfterExpansion | src/parser.py:158-171 | after an expanded row such as `12ab`, a continuation row inherits only the last letter's class (`12b`) |
| Parser.ConvertRowsPrefixErr | src/parser.py:151-175 | once a row raises, the whole table raises that exception |
| Parser.HeaderRowIgnored | src/parser.py:151 | the first row of a table never affects the result |
| Parser.SubstitutionTableDates | src/parser.py:128-177 | an unreadable heading date makes the table raise; otherwise every record carries that valid date |
| Parser.AllTablesAppend | src/parser.py:74-82 | substitutions of consecutive day columns are concatenated in column order |
| Parser.BlockMessages | src/parser.py:231-233 | one message per `"\n\n"` paragraph of the star-free body, stripped, dated with the block's date |
| Parser.BlockMessagesShape | src/parser.py:231-233 | each message has no `*`, no blank line and no surrounding whitespace |
| Parser.ParagraphsJoin | src/parser.py:231-232 | the paragraphs joined at blank lines give back the stripped, star-free body, so no text is lost |
| Parser.NewsBlocksStep | src/parser.py:216-233 | a block without a headline, or with a valid headline and no body, adds nothing; an invalid headline date raises `ValueError`; otherwise the block's messages are appended |
| Parser.NewsBlocksDates | src/parser.py:222-224 | every news message carries a valid calendar date |
| Parser.FindTimestamp | src/parser.py:113-116 | the search returns the first index where the label, optional whitespace and a `DD.MM.YYYY HH:MM:SS` timestamp match, and none when no index matches |
| Parser.SearchFindsTimestamp | src/parser.py:113-116 | whenever the label is followed by whitespace and a timestamp, the search succeeds at that place or earlier |
| Parser.LastUpdatedOf | src/parser.py:92-122 | no copyright block, neither inner div nor paragraph, or no labelled timestamp in the text gives `None`; a found timestamp is a valid date-time; only `ValueError` can escape |
| Parser.LastUpdatedReads | src/parser.py:113-122 | the result is the moment written after `Letzte Aktualisierung:` at the first match |
| Parser.LastUpdatedFound | src/parser.py:113-122 | a labelled timestamp in the copyright text never gives `None` |
| Parser.Parser.constructor | src/parser.py:19-24 | the parser starts with the configuration and no page, no day columns and no news column |
| Parser.Parser.SetupParsing | src/parser.py:48-65 | the page is stored; no main table gives `False` and leaves the columns alone; otherwise the day columns and the news column are split off the first row |
| Parser.Parser.ParseSubstitutions | src/parser.py:74-82 | empty before a successful set-up, otherwise the concatenated tables of the day columns |
| Parser.Parser.ParseNews | src/parser.py:84-85 | the news column's messages, or none without a news column |
| Parser.Parser.ParseLastUpdated | src/parser.py:87-90 | `None` before a page is set up, otherwise the page's last-update timestamp |
| Parser.Parser.ParseSubstitutionTable | src/parser.py:128-177 | a missing daily table or heading gives no records; otherwise the heading date is read and the rows after the header are converted, as `SubstitutionTable` specifies |
| Parser.Parser.ParseRows | src/parser.py:150-177 | the row loop equals the row specification, including skips, continuations and the escaping exception |
| Parser.Parser.ConvertCellsToSubstitutions | src/parser.py:179-205 | the method equals the cell-conversion specification |
| Parser.Parser.ExpandClass | src/parser.py:195-202 | the letter loop yields one record per letter, or `ValueError` for fewer than six cells |
| Parser.Parser.ParagraphMessages | src/parser.py:232-233 | one stripped message per paragraph, in order |
| Parser.Parser.ParseNewsTable | src/parser.py:207-235 | the block loop equals the news specification, including the escaping `ValueError` |
| Parser.Parser.ParseNewsBlock | src/parser.py:217-233 | one pass of the block loop equals that block's contribution |
| Dates.ParseDate | src/parser.py:126 | a success is a valid calendar date; any other text raises `ValueError` (a day that does not exist: `Dates.ParseDateInvalid`; valid dates read back: `Dates.ParseFormatDate`) |
| Dates.ParseDateInvalid | src/parser.py:126 | `DD.MM.YYYY` naming a day that does not exist raises `ValueError`; the date is never moved to another day |
| Dates.ParseFormatDate | src/parser.py:126 | reading back a date written `DD.MM.YYYY` gives the date itself |
| Dates.ParseDateTime | src/parser.py:122 | a success is a valid date and time of day; otherwise `ValueError` (the value is the fields as written: `Dates.FormatParseDateTime`) |
| Dates.FormatParseDateTime | src/parser.py:122 | a timestamp that reads successfully is the written form of the moment it reads as, field for field, so an hour `24`, a second `60` or an impossible day can never read as a moment |
| Dates.ParseFormatDateTime | src/parser.py:113-122 | a timestamp written `DD.MM.YYYY HH:MM:SS` has the shape the regex captures and reads back as itself |
| Dates.DateLeTotal | src/substitution_manager.py:35 | the sort key is a total order, and antisymmetric on dates |
| Text.Trim | src/parser.py:152 | `strip` gives the middle of the text, without whitespace at either end |
| Text.TrimIdempotent | src/parser.py:231 | stripping twice is stripping once |
| Text.Split | src/parser.py:232 | `split` gives at least one piece, and no piece contains the separator |
| Text.JoinSplit | src/parser.py:232 | joining the pieces with the separator gives back the text |
| Text.Remove | src/parser.py:231 | removing `*` leaves no `*` and keeps every other character's count |
| Text.RemoveAppend | src/parser.py:231 | removal goes character by character and keeps the remaining characters in their order: it distributes over concatenation, and a single character is dropped exactly when it is `*` |
| Results.ConcatOk | src/parser.py:78-82 | the extended list is produced exactly when no part raises |
| Results.ConcatMapStep | src/parser.py:79-80 | each pass of an extend loop either appends the part's items or ends the loop with the part's exception |
| Models.FromArray | src/models/substitution_model.py:20-32 | `ValueError` exactly for fewer than six values; otherwise values 0-5 become class, period, absent teacher, substitute, room and info |
| Models.FromArrayWithClassName | src/models/substitution_model.py:34-46 | the same, with the supplied class name |
| Models.ExtraValuesIgnored | src/models/substitution_model.py:20-46 | values after the sixth are never read by either constructor |
| Models.WithClassNameReplacesFirst | src/models/substitution_model.py:34-46 | the explicit class name replaces the first value, which is never read |
| SubstitutionManagers.Deduplicated | src/substitution_manager.py:22-23 | `list(set(s))` has no repeated record and the same records as `s` |
| SubstitutionManagers.DistinctCardinality | src/substitution_manager.py:23 | a list without repetitions is as long as its set of records |
| SubstitutionManagers.SameElementsSameLength | src/substitution_manager.py:22-23 | two repetition-free lists with the same records have the same length, so deduplicating again keeps the length |
| SubstitutionManagers.WithProperty | src/substitution_manager.py:12-14 | exactly the records whose chosen field equals the value |
| SubstitutionManagers.WithPropertyCount | src/substitution_manager.py:14 | each matching record is kept as often as it is stored, and others not at all |
| SubstitutionManagers.WithPropertyAppend | src/substitution_manager.py:14 | the filter keeps the stored order: it distributes over concatenation |
| SubstitutionManagers.OnDate | src/substitution_manager.py:29 | exactly the messages of the given date |
| SubstitutionManagers.OnDateCount | src/substitution_manager.py:29 | the messages of that date keep their multiplicities |
| SubstitutionManagers.InsertByDate | src/substitution_manager.py:35 | inserting adds exactly one message |
| SubstitutionManagers.InsertSorted | src/substitution_manager.py:35 | insertion into a date-ascending list keeps it ascending |
| SubstitutionManagers.SortByDate | src/substitution_manager.py:34-36 | the sort is date-ascending and a permutation of its input |
| SubstitutionManagers.InsertKeepsDateOrder | src/substitution_manager.py:35 | the inserted message goes ahead of the messages of its own date already in the list, and every other date keeps its messages in order |
| SubstitutionManagers.SortIsStable | src/substitution_manager.py:35 | the sort keeps the order of the messages of each date |
| SubstitutionManagers.SortSameDate | src/substitution_manager.py:35 | a list whose messages all carry one date is returned unchanged |
| SubstitutionManagers.SortSortedIdentity | src/substitution_manager.py:35 | sorting an already sorted list changes nothing |
| SubstitutionManagers.SortOnDate | src/substitution_manager.py:29 | sorting the messages of one date leaves them as filtered |
| SubstitutionManagers.SubstitutionManager.constructor | src/substitution_manager.py:7-10 | the stored substitutions hold no repetition and the same records as the input; the news are stored as given |
| SubstitutionManagers.SubstitutionManager.WithLogin | src/substitution_updater.py:23-27 | the same, and the manager belongs to the given login name |
| SubstitutionManagers.SubstitutionManager.RemoveDuplicates | src/substitution_manager.py:22-23 | afterwards there is no repetition and the same records; a second call keeps the length; news untouched |
| SubstitutionManagers.SubstitutionManager.GetSubstitutionsWithProperty | src/substitution_manager.py:12-14 | exactly the stored records whose field equals the value |
| SubstitutionManagers.SubstitutionManager.GetSubstitutionsForClass | src/substitution_manager.py:16-17 | exactly the stored records of that class |
| SubstitutionManagers.SubstitutionManager.GetAllSubstitutions | src/substitution_manager.py:19-20 | the stored list itself |
| SubstitutionManagers.SubstitutionManager.GetAllNewsMessages | src/substitution_manager.py:25-26 | the stored news are sorted in place: date-ascending, a permutation, stable per date; they are returned |
| SubstitutionManagers.SubstitutionManager.GetNewsMessagesForDate | src/substitution_manager.py:28-29 | the stored messages of that date, in stored order |
| SubstitutionManagers.SubstitutionManager.GetNewsMessagesForToday | src/substitution_manager.py:31-32 | the messages for the given date, which stands for today |
| SubstitutionManagers.SubstitutionManager.UpdateData | src/substitution_updater.py:34 | a refresh is recorded once; what it stores is left open |
| SubstitutionUpdaters.BoundedAppend | src/substitution_updater.py:47 | `append` on a deque of `maxlen` n: the new manager is newest; a full queue drops its oldest entry |
| SubstitutionUpdaters.Newest | src/substitution_updater.py:16 | the last n of everything appended, oldest first: exactly n of them once more than n were appended |
| SubstitutionUpdaters.NewestAppend | src/substitution_updater.py:16 | a bounded queue always holds the newest ten of all managers ever appended |
| SubstitutionUpdaters.FindByUsername | src/substitution_updater.py:29-30 | the first cached manager of the login name, or none when no cached manager has it |
| SubstitutionUpdaters.AppendKeepsUnique | src/substitution_updater.py:29-47 | appending a manager of a user not yet cached keeps login names unique |
| SubstitutionUpdaters.SubstitutionUpdater.constructor | src/substitution_updater.py:15-16 | the cache starts empty |
| SubstitutionUpdaters.SubstitutionUpdater.CreateSubstitutionManager | src/substitution_updater.py:40-48 | a failed `init` returns `None` and leaves the cache alone; a success appends the new manager as the newest entry and returns it |
| SubstitutionUpdaters.SubstitutionUpdater.GetSubstitutionManager | src/substitution_updater.py:18-38 | `example`/`example` gets a fresh manager and the cache is untouched; a hit returns the first manager of that user, refreshes it exactly when it says so, and does not reorder; no other cached manager changes; a miss creates; at most ten entries; unique names stay unique |
| LegacyParse.GetLastUpdatedDateAsWritten | src/parse.py:14-33 | the older timestamp lookup never returns a timestamp; it can only raise `ValueError` |
| LegacyParse.GetLastUpdatedDate | src/parse.py:14-33 | the corrected lookup returns the parsed timestamp, a valid date-time |
| LegacyParse.LastUpdatedDropped | src/parse.py:30-33 | both raise on the same pages, and wherever a timestamp exists the code as written reports none |
| LegacyParse.LastUpdatedExample | src/parse.py:22-33 | for a paragraph `Aktualisierung: <any existing moment>`, the corrected lookup returns that moment and the code as written returns `None` |
| LegacyParse.LegacyRows | src/parse.py:61-72 | at most one record per row, each with the table's date |
| LegacyParse.LegacyRowsSnoc | src/parse.py:63-70 | each six-cell row adds exactly its `from_array` record, with no expansion and no continuation; any other row adds nothing |
| LegacyParse.LegacyRowsAgree | src/parse.py:63-70 | on rows without expansion or continuation, the older and the newer extractor give the same records |
| LegacyParse.LegacyTable | src/parse.py:39-72 | each record carries a valid date; only `IndexError` and `ValueError` can escape |
| LegacyParse.ParseSubstitutionTable | src/parse.py:39-72 | the method equals the older table specification |
| LegacyParse.ParseRows | src/parse.py:61-72 | the row loop equals the older row specification |
| LegacyParse.LegacyMessages | src/parse.py:89-92 | one unstripped message per paragraph of the star-free body |
| LegacyParse.ParagraphMessages | src/parse.py:91-92 | the paragraph loop yields one unstripped message per paragraph |
| LegacyParse.LegacyNewsTrimmed | src/parse.py:74-94 | both extractors raise on the same news; otherwise the newer messages are the older ones stripped |
| LegacyParse.ParseNewsTable | src/parse.py:74-94 | the block loop equals the older news specification |
| LegacyParse.ParseNewsBlock | src/parse.py:79-92 | one pass of the block loop equals that block's contribution |
| LegacyParse.LegacyRecords | src/parse.py:96-129 | no main table gives `None`; without news shown there are no news; every record carries a valid date |
| LegacyParse.LegacyTablesDates | src/parse.py:126-127 | every record of the day columns carries a valid calendar date |
| LegacyParse.ParseHtml | src/parse.py:96-129 | `parse_html` returns a deduplicated manager over the page's records and news, `None` without a main table, or the escaping exception |
| LegacyParse.ParseTables | src/parse.py:126-127 | the table loop equals the concatenation of the day columns' tables |

## Left out

- Fetching the page over HTTP (`Parser.fetch_html`, `Parser.run`, src/parser.py:26-72) and `get_substitution_manager` in src/parse.py:132-164, which also reads environment variables. These are network I/O; the model starts from an already parsed page.
- HTML parsing and tree search by BeautifulSoup. Every lookup is an optional located element of `Dom`. A located element counts as present, because a bs4 tag is always truthy.
- Logging and `print` calls.
- pydantic validation and the `__str__` formatting of the records.
- `SubstitutionManager.init`, `update_data`, `check_updating_data` and `generate_random_*` have no source in the modelled files. `init` is a parameter `fetched: Option<Records>`; the model assumes that a successful `init` yields a manager carrying the requested login name and deduplicated records (`CreateSubstitutionManager` builds it with `WithLogin`), and the unique-login-name clause of `GetSubstitutionManager` rests on that assumption; and `check_updating_data` is a parameter `stale: bool`. `update_data` re-fetches the data; its contract counts the call in a ghost field and leaves the stored records and news open. The random example records are a parameter `examples`.
- The three-argument manager constructor the updater calls is not in the modelled files. It is modelled as `WithLogin`, which deduplicates like the two-argument constructor.
- src/substitution.py and src/news_message.py are not part of this model; the record definitions come from src/models/.
- SubstitutionManagers.Deduplicated: does not fix the order of `list(set(...))`, because the order of a Python set is unspecified.
- SubstitutionManagers.SubstitutionManager.GetAllNewsMessages: returns a copy of the sorted list; the aliasing between the returned list and `self.news` is not modelled.
- `getattr(sub, prop)` with a field name that does not exist (`AttributeError`) or with `date`: the field is an enum of the six text fields.
- `date.today()` is a parameter of `GetNewsMessagesForToday`.
- Unicode: `strip` and `\s` use ASCII and Latin-1 whitespace, `isdigit` and `\d` use ASCII digits.
- The `prev_sub is None` check in src/parser.py:161-163 cannot be reached; `substitutions[-1]` raises first, and the model has no branch for it.
- The cache is keyed by the login name only, as the code does; the password is not bound to a cached manager.

## Findings

| source | as written | input that shows it | evidently intended | confidence | as-written member | corrected member |
|---|---|---|---|---|---|---|
| src/parse.py:14-33 | `get_last_updated_date` parses the timestamp at line 30 but never returns it; every path yields `None` | a copyright `<p>` holding `Letzte Aktualisierung: 01.02.2024 10:20:30` | return the parsed `datetime`, as the `Optional[datetime]` return type says | high, not executed | LegacyParse.GetLastUpdatedDateAsWritten, LegacyParse.LastUpdatedExample | LegacyParse.GetLastUpdatedDate |
