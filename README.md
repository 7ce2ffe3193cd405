# KY karaoke crawler, modelled in Dafny

This project models the decision logic of the KY ("ikaraoke.kr") new-song
crawler in `karaokeserver/crawler/ky.py`:

- **Row extraction (`parse_trs`).** A listing page's table rows become
  `(number, title, singer)` records. Each row is filtered on its first cell.
  Its second, third and fourth cells are picked, and their text is stripped.
  Then the title/singer rule is applied. A title of several lines is a
  foreign-script entry whose lines are cross-spliced with the singer's. A
  singer of several lines under a one-line title keeps only its first line.
- **Page classification (`crawl_new`).** One fetched page puts items on the
  parse queue and on the crawl queue. The model also covers the `s_date`
  query value that names a month, and the run of pages crawled for one
  month.
- **Seeding (`crawl`).** The work items the crawl starts from: the target
  month, the current month, or every month from January 2004 on.

The modules follow the file's structure:

- `Text`: Python's `str.strip()`, `str.split('\n')` and the joining of
  lines.
- `Format`: Python's `'{0:0Nd}'` integer formatting.
- `Extract`: `parse_trs`.
- `Crawl`: `crawl_new`, `s_date` and the seeding branch of `crawl`.
- `Wrappers`: the `Option` type.

The HTML side is given as data:

- A row is the list of its `td` cells.
- A cell is the list of texts its `<br>` elements separate, plus its number
  of child elements.
- Rewriting every `<br>` tail to start with a newline (lines 42-43) makes a
  cell's text those texts joined by `'\n'`.
- A fetch is an outcome value: the rows found (header row first) and whether
  the "no results" cell is present, an HTTP error status, or any other
  exception.

## Model

| member | source | states |
|---|---|---|
| Text.Strip | karaokeserver/crawler/ky.py:46-48 | The stripped text has no whitespace at either end. It is empty exactly when the text is all whitespace, using CPython's `str.isspace` set. |
| Text.StripSplits | karaokeserver/crawler/ky.py:46-48 | Stripping removes exactly a whitespace prefix and a whitespace suffix: `s == a + Strip(s) + b`. |
| Text.StripUnique | karaokeserver/crawler/ky.py:46-48 | A string with no whitespace at its ends, surrounded by any whitespace, strips back to itself. |
| Text.StripIdempotent | karaokeserver/crawler/ky.py:52-53 | Stripping an already stripped line changes nothing. |
| Text.Split | karaokeserver/crawler/ky.py:52-53 | `split('\n')` always yields at least one piece, and no piece contains a newline. This is why `_title[0]`, `_title[-1]`, `_singer[0]` and `_singer[-1]` never fail. |
| Text.SplitMany | karaokeserver/crawler/ky.py:52-60 | The split has more than one piece exactly when the text contains a newline. |
| Text.SplitFirst | karaokeserver/crawler/ky.py:52-58 | The first piece is the text up to the first newline. |
| Text.SplitLast | karaokeserver/crawler/ky.py:52-58 | The last piece is the text after the last newline. |
| Text.JoinSplit | karaokeserver/crawler/ky.py:43-53 | Joining the pieces of a split with newlines gives back the text. |
| Text.SplitJoin | karaokeserver/crawler/ky.py:43-53 | Splitting lines that were joined with newlines gives back the lines, when none of them contains a newline. |
| Extract.CellText | karaokeserver/crawler/ky.py:42-48 | A cell's text, once every `<br>` tail starts with a newline, splits at newlines back into the texts the `<br>` elements separate, when none of them holds a newline itself. A cell with two or more such texts has a newline in its text. |
| Text.StripEach | karaokeserver/crawler/ky.py:52-53 | Mapping `strip` over the lines keeps their number and strips each one in place. |
| Text.CellLines | karaokeserver/crawler/ky.py:43-53 | Take a cell whose `<br>`-separated texts hold no newline and, when there are several, whose first and last are not blank. Stripping its joined text, splitting it and stripping each line gives exactly those texts stripped. |
| Format.Decimal | karaokeserver/crawler/ky.py:15 | A non-negative integer prints as at least one digit, with no leading zero except for 0. The digits read back as the number. |
| Format.DecimalWidth | karaokeserver/crawler/ky.py:15 | A number has at most `k` digits exactly when it is below 10^k. |
| Format.DecimalOfValue | karaokeserver/crawler/ky.py:15 | A digit string without a leading zero is what the number it reads as prints to. |
| Format.ValueAfterZeros | karaokeserver/crawler/ky.py:15 | Zeros added on the left do not change the value of a digit string. |
| Format.FormatInt | karaokeserver/crawler/ky.py:15 | `'{0:0Nd}'` gives at least `N` characters. A non-negative number gives digits that read back as the number. A negative one gives a minus sign followed by digits that read back as its absolute value. |
| Format.FormatFits | karaokeserver/crawler/ky.py:15 | `'{0:0Nd}'` on `0 <= n < 10^N` gives exactly `N` digits that read back as `n`. |
| Format.FormatOverflows | karaokeserver/crawler/ky.py:15 | A number too wide for the field is printed whole, not cut to the width. |
| Format.FormatNegative | karaokeserver/crawler/ky.py:15 | A negative number whose digits fit in `N-1` places prints as exactly `N` characters: the minus sign first, then zeros and digits reading back as its absolute value. |
| Crawl.SDate | karaokeserver/crawler/ky.py:15 | `s_date` has at least six characters. For a year of at most four digits and a month of at most two, it is exactly six digits reading as `100·year + month`. |
| Crawl.ParseSDate | karaokeserver/crawler/ky.py:15 | Reading an `s_date` succeeds exactly on six-digit strings, and gives a year of at most 4 digits and a month of at most 2. |
| Crawl.SDateRoundTrip | karaokeserver/crawler/ky.py:15 | For `0 <= year <= 9999` and `0 <= month <= 99`, `s_date` is exactly six digits that read back as that year and month. |
| Crawl.SDateInjective | karaokeserver/crawler/ky.py:15 | Different months in that range get different `s_date` values. |
| Crawl.FollowsUp | karaokeserver/crawler/ky.py:30-35 | The outcomes after which the next page of the month is crawled. A non-HTTP exception never leads on. The "no results" cell stops the month whatever rows came with it. Without it, a page leads on exactly when it has a row after the header. Of the HTTP errors, only status 500 leads on. |
| Crawl.CrawlNew | karaokeserver/crawler/ky.py:14-35 | Only a non-HTTP exception escapes. The crawl queue gets exactly `(year, month, page+1)` after a page with rows after the header and no "no results" cell, or after status 500. Otherwise it gets nothing, so the marker wins even when rows exist. A row group is queued only for such a fetched page, and it is the row list without its first row. An HTTP error never queues rows. |
| Crawl.MonthPages | karaokeserver/crawler/ky.py:30-35 | The pages crawled for one month are consecutive from the starting page. Every page but the last queued its successor, and the last did not. |
| Crawl.Sweep | karaokeserver/crawler/ky.py:115-118 | The full sweep has 12·(lastYear − 2003) items, or none before 2004. |
| Crawl.SweepAt | karaokeserver/crawler/ky.py:115-118 | Item `k` of the sweep is page 1 of the `k`-th month after December 2003. |
| Crawl.SweepOrdered | karaokeserver/crawler/ky.py:116-118 | The sweep is year-major and month-ascending, without repeats. |
| Crawl.SweepCovers | karaokeserver/crawler/ky.py:116-118 | Every month of every year from 2004 to the current year is in the sweep at its position, including months after today. Nothing else is in it. |
| Crawl.Seed | karaokeserver/crawler/ky.py:109-118 | The nested loops queue: the target month alone, if given, whatever `new` says; else, with `new`, the current month alone; else exactly the full sweep up to the current year. |
| Extract.Disambiguate | karaokeserver/crawler/ky.py:52-61 | If the title has a newline: title = stripped first title line + stripped last singer line, and singer = stripped first singer line + stripped last title line. If only the singer has one, the singer becomes its stripped first line. Otherwise both pass through. |
| Extract.ExtractRow | karaokeserver/crawler/ky.py:40-63 | A row raises exactly when it has no `td`. It is skipped exactly when its first `td` has no child element or it has fewer than four `td`. A yielded record's number is the stripped second cell. |
| Extract.Collect | karaokeserver/crawler/ky.py:38-41 | Consuming the generator row outcome by row outcome gives at most one record per row, and a raise position, if any, that is a row position. `CollectStops` and `CollectOrigins` pin down where it stops and where each record comes from. |
| Extract.Parse | karaokeserver/crawler/ky.py:38-41 | Iterating `parse_trs(rows)` gives at most one record per row. If it raises, the raise position is a row without any `td`. |
| Extract.ParseTrs | karaokeserver/crawler/ky.py:38-63 | The row loop yields the records of `Parse(rows)` in order. It stops at the row that raises and reports where. |
| Extract.CollectStops | karaokeserver/crawler/ky.py:39-41 | Collecting stops at the first raising row, and nowhere if no row raises. |
| Extract.ParseStops | karaokeserver/crawler/ky.py:39-41 | Iteration raises at the first row without any `td`, and only if one exists. The records yielded before the raise are kept: they are exactly what the rows before that row give on their own. |
| Extract.CollectOrigins | karaokeserver/crawler/ky.py:39-63 | Each collected record is the record of its own row, in row order. Every yielding row before the stop contributes one. |
| Extract.ParseOrigins | karaokeserver/crawler/ky.py:39-63 | At most one record per row, in row order, each from its own row before the stop. No record comes from the raising row or a row after it. Every row before the stop whose first `td` has children and that has four `td` gives one. |
| Extract.DisambiguateLines | karaokeserver/crawler/ky.py:52-61 | For a stripped title and singer with stripped lines `T` and `S`: several title lines give `(T[0]+S[-1], S[0]+T[-1])`, otherwise `(T[0], S[0])`. |
| Extract.CellsRule | karaokeserver/crawler/ky.py:43-61 | Take two cells whose `<br>`-separated texts hold no newline, and, when there are several, whose first and last texts are not blank. The rule applied to them is stated on their stripped texts `T` and `S`: `(T[0]+S[-1], S[0]+T[-1])` for several title texts, otherwise `(T[0], S[0])`. |
| Extract.RowRecord | karaokeserver/crawler/ky.py:40-63 | Take a row that passes the filter and whose title and singer cells have `<br>`-separated texts that hold no newline and, when there are several, whose first and last are not blank. With `T` and `S` those texts stripped, its record is (stripped number, T[0]+S[-1] or T[0], S[0]+T[-1] or S[0]). The middle lines are discarded. |
| Extract.RowPassThrough | karaokeserver/crawler/ky.py:46-63 | A title and a singer with no newline once stripped come through stripped and otherwise unchanged. This includes cells such as `A<br>`, whose only newline is stripped away. |

## Left out

- Network I/O is not modelled. This covers the request URL, `urlencode`, `urlopen` and reading the response (lines 16-25). A fetch is the `FetchOutcome` value.
- HTML parsing is not modelled. This covers lxml, the XPath/ElementPath queries (lines 26-28, 40-48) and `text_content()`. A row is its list of `td` cells, and the "no results" cell is a boolean.
- A cell's child-element count and its `<br>`-separated texts are independent inputs. The model does not require a cell holding `<br>` elements to have children.
- The `<br>` tail rewrite (lines 42-43) is taken as already applied, through joining a cell's texts with newlines. The model does not capture that it changes the tree in place, so parsing the same rows again adds a second newline per `<br>`.
- The threads, the two `queue.Queue`s and `task_done`/`join` are not modelled (lines 66-107, 120-121). Their interleaving across months is concurrency. `MonthPages` follows one month's chain, which is sequential because each page is queued by the one before it.
- The retry loops in `crawl_worker` and `parse_worker` are not modelled (lines 69-75, 82-88).
  - A non-HTTP exception is `Escaped` and ends the model's step. The worker retries it forever.
  - A row without `td` ends `ParseTrs` with the records so far and the failing position. `results +=` keeps those records, and each retry would append them again.
- `MonthPages`: each page is fetched once, with a fixed outcome per page number.
- `MonthPages` covers only month chains that reach a page that does not lead on. Its precondition names such a page. The source has no bound of its own: if every later page answers status 500, or keeps returning rows without the "no results" cell, it queues page after page forever. The model does not capture those runs.
- `datetime.date.today()` (line 109) is the `today` parameter of `Seed`. `target_month` is an `Option<Month>`, since a date object is always truthy.
- `print` (lines 22, 75, 88) and the `TSong` wrapper (lines 123-124) are not modelled. A record is a plain triple.
- `Format.FormatInt` covers only the `'0Nd'` integer format used at line 15.
- Strings are Python 3 `str` sequences of code points, with whitespace as CPython's `str.isspace` set. There is no other Unicode handling.
