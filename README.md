# bill-schedule, modelled in Dafny

The repository has two programs.

- `scraper.py` reads the Texas Legislature's lists of upcoming committee meetings, one for the House and one for the Senate. From each meeting page it reads the committee's name and the weekday of the meeting. From every table cell that links to a bill it reads the bill number, the author and the caption.
- After the scrape comes a last pass over the whole table. For each row, the words of a multi-word author after the first are taken out of that row's caption. The table, with empty "Stance" and "Action" columns added, is then saved as `bills.csv`.
- `app.py` is a dashboard over that file.
  - It loads the table only when all the columns it needs are there.
  - It offers the distinct chambers, days and committees as multi-select filters.
  - It shows the rows that pass every filter with a selection.

The model is split into modules.

- `Text` (`text.dfy`): the Python string operations the code relies on.
  - `str.strip` and the whitespace set of `str.isspace`.
  - `re.sub(r"\s+", " ", s).strip()`.
  - `str.split()` on whitespace and `str.split(c)`.
  - Left-to-right, non-overlapping `str.replace`.
  - The `in` test on substrings.
- `Seqs` (`seqs.dfy`): filtering and `unique()` on sequences.
- `Calendar` and `DateText` (`calendar.dfy`, `weekday.dfy`): `extract_weekday`.
  - The leftmost match of `[A-Za-z]+ \d{1,2}, \d{4}`.
  - Parsing it as `%B %d, %Y` (English month names, any letter case, and a date that must exist).
  - Naming the weekday of the proleptic Gregorian date.
- `Bills` (`bills.dfy`): what one table cell yields. This covers its text lines, the author, the caption and its clean-up, the bill number, and the two ways a cell stops the whole scrape:
  - a first link without `href` (a `KeyError`);
  - an author with no word in it (an `IndexError` on `split()[0]`).
- `Scraper` (`scraper.dfy`): the rest of the scraper.
  - How meeting links are chosen.
  - The committee and the day of a meeting page.
  - The scrape loop over chambers, links and cells, as a method proved against a recursive specification.
  - The caption pass after the scrape, as a method that updates an array of rows in place.
  - How the two are put together.
- `Dashboard` (`dashboard.dfy`): `load_data`, `update_table` and the dropdown options.
- `Pipeline` (`pipeline.dfy`): the table the scraper saves read back by the dashboard.

How I/O and HTML are handled:

- HTTP and HTML are not modelled. A chamber's listing is the sequence of `href` values of its links.
- A meeting page is the text of its `<p>` elements plus its `<td>` cells. Each cell is its first link (an optional `href`, and the link's text) and its `td.get_text("\n")`.
- Both come in as functions of the requested URL.
- The folds over pages and cells take the cell reader as a parameter (`Scraper.Reader`). `Scraper.Site` is the reader of the code.

For the cell with the lines `SB12 / Smith / Relating to / education funding`, the caption keeps "Relating to": it is "Relating to education funding" (`Bills.SmithExample`). Line 3 starts with "Relating to", so it is not added to the author. The caption then starts at line 3 (scraper.py lines 53 and 57-58), and nothing later removes a single "Relating to".

## Model

| member | source | states |
|---|---|---|
| `DateText.ExtractWeekday` | scraper.py:19-26 | The result is "Unknown" or one of the seven weekday names. |
| `DateText.ExtractWeekdayKnown` | scraper.py:19-26 | A weekday comes out exactly when the text has a match and the leftmost match parses as a real date. When it does, it is that date's weekday name. |
| `DateText.SearchFrom` | scraper.py:21 | The search finds the first position, from its start onwards, where the pattern matches, and reports no match only when the pattern matches at no position. |
| `DateText.SearchLeftmost` | scraper.py:21 | `re.search` finds span sp exactly when the pattern matches at sp and no match starts earlier. |
| `DateText.SearchNone` | scraper.py:21-22 | No match is found exactly when the pattern matches nowhere in the text. |
| `DateText.MatchAtIff` | scraper.py:21 | The match attempted at position i is sp exactly when sp starts at i and is a match of the pattern: one or more ASCII letters, a space, one or two digits, a comma, a space and four digits. |
| `DateText.MatchAt` | scraper.py:21 | The match that starts at one position. `MatchAtSound`, `MatchAtComplete` and `MatchAtIff` state exactly when it finds one. |
| `DateText.MatchAtSound` | scraper.py:21 | A match reported at i starts at i and satisfies the pattern. |
| `DateText.MatchAtComplete` | scraper.py:21 | Wherever the pattern holds, the matcher reports it. |
| `DateText.Groups` | scraper.py:21-23 | Group 1 splits into the month word, the day digits and the four year digits, cut from the text at the match's positions. |
| `DateText.MonthNumber` | scraper.py:23 | `%B` accepts a word exactly when it equals one of the twelve English month names up to letter case, and gives that month's number. |
| `DateText.MonthNumberOfName` | scraper.py:23 | Each month's own name gives its number. |
| `DateText.DistinctMonthNames` | scraper.py:23 | No two month names are equal up to case, so `%B` is unambiguous. |
| `DateText.MonthKeys` | scraper.py:23 | The month names have distinct keys (the fact behind `DistinctMonthNames`). |
| `DateText.ParseDate` | scraper.py:23 | `strptime` succeeds exactly when the month word is a month name and the year, month and day form a real date (no `ValueError`). It then gives that date. |
| `DateText.ExtractAtStart` | scraper.py:19-26 | For a match at the start of the text, the result is the weekday of the parsed date, or "Unknown" when it does not parse. |
| `DateText.ExtractUnknownMonth` | scraper.py:23-26 | A first match whose word is no month name gives "Unknown". |
| `DateText.ExtractMarchFourth` | scraper.py:19-26 | "March 4, 2025" gives "Tuesday". |
| `DateText.ExtractFirstMatchOnly` | scraper.py:21-26 | Only the first match counts: "Frob 4, 2025 March 4, 2025" gives "Unknown". |
| `DateText.ExtractThirtiethOfFebruary` | scraper.py:23-26 | A date that does not exist ("February 30, 2024") gives "Unknown". |
| `DateText.MatchOfParts` | scraper.py:21 | A word of letters, a space, one or two digits, ", " and four digits at the start of a text match, and the groups give back those three parts. |
| `DateText.LetterRunMaximal` | scraper.py:21 | `[A-Za-z]+` takes the longest run of letters. |
| `DateText.DigitRunMaximal` | scraper.py:21 | Runs of `\d` are maximal. |
| `Calendar.DaysInMonth` | scraper.py:23 | A month has 28 to 31 days, and 29 only for February of a leap year. |
| `Calendar.WeekdayName` | scraper.py:23 | `strftime("%A")` names one of the seven weekdays. |
| `Calendar.NextDay` | scraper.py:23 | The day after a valid date is a valid date. |
| `Calendar.NextDayOrdinal` | scraper.py:23 | The next day's ordinal is one more, and its weekday is the next one modulo 7. |
| `Calendar.Ordinal` | scraper.py:23 | The day number of a valid date, from 1 for 1 January of year 1; `NextDayOrdinal` shows it counts days. |
| `Calendar.Weekday` | scraper.py:23 | The weekday of a valid date, 0 for Monday to 6 for Sunday; `FirstDayIsMonday` and `NextDayOrdinal` tie it to the calendar. |
| `Calendar.DaysBeforeYearStep` | scraper.py:23 | The closed form for the days before a year grows by one year's length from year to year. |
| `Calendar.FirstDayIsMonday` | scraper.py:23 | 1 January of year 1 is day 1 and a Monday, as in Python's `datetime`. |
| `Scraper.ListingUrl` | scraper.py:8-12 | A chamber's listing is the upcoming-meetings page under the base address, with the chamber's initial as its `Chamber` parameter. |
| `Scraper.ListingUrlsDiffer` | scraper.py:9-12 | The House and the Senate listings are different addresses. |
| `Scraper.MeetingLinks` | scraper.py:34 | There are no more meeting links than `href`s. `MeetingLinksFilter` states which links, in which order. |
| `Scraper.MeetingLinksFilter` | scraper.py:34 | The links are exactly the `href`s that end in ".HTM", kept in the listing's order and with its repetitions, each after the base address. |
| `Scraper.MeetingLinksMembership` | scraper.py:34 | A link is a meeting link exactly when it is the base address followed by some `href` that ends in ".HTM". |
| `Scraper.FirstWith` | scraper.py:40 | `next(...)` picks the first paragraph containing the marker, or none when no paragraph contains it. |
| `Scraper.FirstWithIs` | scraper.py:40 | The first paragraph holding the marker is the one `next` picks. |
| `Scraper.CommitteeName` | scraper.py:40-41 | The committee name has no leading, trailing or repeated whitespace. |
| `Scraper.CommitteeOfFirst` | scraper.py:40-41 | The name is the normalised text after the last colon of the first paragraph holding "COMMITTEE:". |
| `Scraper.CommitteeWords` | scraper.py:40-41 | The committee name is the whitespace-separated words after the last colon of the first paragraph holding "COMMITTEE:", in order, joined by single spaces. |
| `Scraper.CommitteeUnknown` | scraper.py:40 | With no such paragraph the name is "Unknown Committee". |
| `Scraper.CommitteeHasNoColon` | scraper.py:40-41 | A committee name never contains a colon. |
| `Scraper.MeetingDay` | scraper.py:43 | The day is "Unknown" or a weekday name. |
| `Scraper.MeetingDayOfFirst` | scraper.py:43 | The day is read only from the first paragraph holding "TIME & DATE:". |
| `Scraper.MeetingDayUnknown` | scraper.py:43 | With no such paragraph the day is "Unknown". |
| `Bills.TextParts` | scraper.py:49-50 | The text lines of a cell are never empty. |
| `Bills.TextPartsAreLines` | scraper.py:49-50 | No text line holds a newline. |
| `Bills.TextPartsOfLines` | scraper.py:49-50 | The lines of a stripped text made of non-empty lines joined by newlines come back as they were. |
| `Bills.Author` | scraper.py:52-55 | The author is whitespace-normalised, and it is "Unknown" for a cell with fewer than two lines. |
| `Bills.LinesWords` | scraper.py:54 | Two stripped lines joined by a space hold the words of both lines, in order. |
| `Bills.AuthorWords` | scraper.py:52-55 | For two or more lines, the author is the words of line 2, followed by the words of line 3 when line 3 does not start with "Relating to", joined by single spaces. |
| `Bills.AuthorEmptyIff` | scraper.py:52-55 | The author is empty exactly when line 2, and line 3 if it is added, hold only whitespace. |
| `Bills.AuthorIsSecondLine` | scraper.py:52-55 | When line 3 begins with "Relating to", a normalised line 2 is the author. |
| `Bills.CaptionLines` | scraper.py:57-58 | The caption lines are stripped, and they are empty when no line follows the author. |
| `Bills.CaptionLinesTrimmed` | scraper.py:57-58 | For a known author, the caption lines are the lines after the author joined by spaces, as long as that join is already stripped. |
| `Bills.StripLeading` | scraper.py:60-64 | Taking a leading word off gives a stripped text that is no longer than the original. |
| `Bills.StripLeadingOnce` | scraper.py:60-64 | A caption made of the word, whitespace and a stripped rest becomes that rest. |
| `Bills.StripLeadingAbsent` | scraper.py:60-64 | A caption that does not begin with the word is only stripped. |
| `Bills.Caption` | scraper.py:57-69 | The caption is normalised. It is an error exactly when the author has no word: the `IndexError` of line 63. `TidySpacesIsNormalize`, `TidyDoubled`, `CaptionUnchanged` and `OneLineCell` state its text. |
| `Bills.OneLineCell` | scraper.py:52-69 | A cell with only the bill number has the author "Unknown" and an empty caption. |
| `Bills.CaptionUnchanged` | scraper.py:57-69 | Caption lines that are already normal, and that begin with neither the author nor its first word and hold no doubled "Relating to", are the caption as they are. |
| `Bills.TidySpaces` | scraper.py:66-67 | After lines 66 and 67 the caption is normalised. `TidySpacesIsNormalize` states its text. |
| `Bills.TidySpacesIsNormalize` | scraper.py:66-67 | Lines 66 and 67 give exactly the normalised caption: runs of whitespace become one space and the ends are stripped. The no-break space step changes nothing. |
| `Bills.NoBreakSpaceAbsent` | scraper.py:66-67 | After `\s+` has been collapsed no no-break space is left, so line 67's replacement changes nothing. |
| `Bills.TidySpacesFixed` | scraper.py:66-67 | Lines 66 and 67 leave a normalised caption unchanged. |
| `Bills.Tidy` | scraper.py:66-69 | The tidied caption is normalised. `TidyFixed` and `TidyDoubled` state its text. |
| `Bills.TidyDoubled` | scraper.py:68-69 | A doubled "Relating to" becomes a single one. The text before it and the rest after it are kept, when the rest has no other doubled phrase. |
| `Bills.TidyFixed` | scraper.py:66-69 | A normalised caption without a doubled "Relating to" is unchanged. |
| `Bills.RelatingToTripled` | scraper.py:69 | One left-to-right replacement leaves a tripled "Relating to" doubled. |
| `Bills.CellBill` | scraper.py:45-69 | A cell held a bill exactly when its first link's `href` holds "Bill=". A first link without `href` is the `KeyError`. A bill's number is the stripped link text, and its author and caption are normalised. |
| `Bills.CellBillFails` | scraper.py:52-63 | A bill cell stops the scrape exactly when its author is empty. |
| `Bills.SmithExample` | scraper.py:52-69 | The lines "SB12", "Smith", "Relating to", "education funding" give the author "Smith" and the caption "Relating to education funding". |
| `Scraper.Then` | scraper.py:71 | Appending to the record list succeeds when both parts do, gives their concatenation, and keeps the first error. |
| `Scraper.ThenAssociative` | scraper.py:71 | Appending groups freely, so the loops may be folded either way. |
| `Scraper.ThenUnit` | scraper.py:29 | An empty list changes nothing when appended. |
| `Scraper.CellsRecordsOk` | scraper.py:45-71 | A page yields one record per bill cell, in cell order. Each record carries the page's chamber, day and committee and that cell's bill. |
| `Scraper.CellsRecords` | scraper.py:45-71 | The loop over a page's cells yields at most one record per cell. `CellsRecordsOk` and `CellsRecordsErr` state exactly what it yields. |
| `Scraper.PageRecords` | scraper.py:40-71 | A meeting page yields at most one record per cell. |
| `Scraper.PageRecordsErr` | scraper.py:45-71 | A meeting page fails exactly when one of its cells stops the scrape. |
| `Scraper.LinksRecords` | scraper.py:36-71 | The loop over a chamber's meeting links. `LinksRecordsOkIff`, `LinksRecordsOrigin` and `LinksRecordsChamber` state what it yields. |
| `Scraper.LinksRecordsOkIff` | scraper.py:36-71 | A chamber's meetings are read through exactly when every one of its pages is. |
| `Scraper.ChambersRecords` | scraper.py:30-71 | The loop over the chambers, in order. `ChambersRecordsOkIff` and `ScrapeAllSplit` state what it yields. |
| `Scraper.ChambersRecordsOkIff` | scraper.py:30-71 | The loop over the chambers gets through exactly when every chamber's links do. |
| `Scraper.ScrapeAll` | scraper.py:29-71 | The records of the whole scrape. `ScrapeAllSplit`, `ScrapeAllOk`, `HouseBeforeSenate` and `ScrapedRecordOrigin` state what they are. |
| `Scraper.ScrapeAllOk` | scraper.py:29-71 | The scrape gets through exactly when both the House's and the Senate's meeting pages do. |
| `Scraper.CellsRecordsErr` | scraper.py:45-71 | A page fails exactly when one of its cells stops the scrape. The error is that of the first such cell, and every earlier cell reads cleanly. |
| `Scraper.CellsRecordsFrom` | scraper.py:45-71 | Every record of a page comes from one of its cells. |
| `Scraper.LinksRecordsOrigin` | scraper.py:36-71 | Every record of a chamber names that chamber and comes from one of its meeting pages. |
| `Scraper.LinksRecordsChamber` | scraper.py:36-71 | Every record read from a chamber's links names that chamber. |
| `Scraper.ScrapeAllSplit` | scraper.py:29-71 | The scrape is the House's records followed by the Senate's. |
| `Scraper.HouseBeforeSenate` | scraper.py:29-71 | Every House record comes before every Senate record. |
| `Scraper.ScrapedRecordOrigin` | scraper.py:29-71 | Every scraped record comes from a meeting page listed for its chamber. |
| `Scraper.SiteRecordsClean` | scraper.py:29-71 | In every scraped record, the chamber is "House" or "Senate" and the day is "Unknown" or a weekday. The committee is normalised and has no colon. The author and caption are normalised. |
| `Scraper.AppendPage` | scraper.py:45-71 | The loop over a page's cells appends that page's records to the list, or stops with the first cell's error. |
| `Scraper.Scrape` | scraper.py:29-71 | The nested loops over chambers, links and cells compute the specified scrape. |
| `Scraper.LaterNames` | scraper.py:79-81 | The author's words after the first are non-empty and hold no whitespace. |
| `Scraper.StripTokensRemoves` | scraper.py:82-84 | After the pass, no later word of the author is left in the caption. |
| `Scraper.StripToken` | scraper.py:83-84 | One step of the pass: a word without whitespace is no longer in the caption afterwards, and a caption that held it comes out stripped. `StripTokenFirst` states what else survives. |
| `Scraper.StripTokenFirst` | scraper.py:83-84 | The text before the word's first occurrence is kept. That occurrence becomes a space, the later ones are replaced in the rest, and the whole is stripped. |
| `Scraper.StripTokens` | scraper.py:82-84 | The steps for each of the words, in order. `StripTokensRemoves`, `StripTokensAbsent` and, step by step, `StripTokenFirst` state what it does. |
| `Scraper.StripTokenKeepsOut` | scraper.py:82-84 | Replacing one word by a space and stripping brings back no word that was already gone. |
| `Scraper.StripTokensAbsent` | scraper.py:82-84 | A caption containing none of the words is unchanged. |
| `Scraper.CleanRow` | scraper.py:78-84 | The pass changes only the caption, and only for an author containing a space. `CleanRowRemoves`, `CleanRowKeeps` and `CleanRowSecondName` state the new caption. |
| `Scraper.CleanRowSecondName` | scraper.py:78-84 | For an author of two words, the caption keeps its text before the first occurrence of the second word. A space takes that word's place, every later occurrence is replaced, and the ends are stripped. |
| `Scraper.CleanRowRemoves` | scraper.py:78-84 | Every other column is kept, and the author's later words are gone from the caption. |
| `Scraper.CleanRowKeeps` | scraper.py:78-84 | A row whose caption holds none of those words is unchanged. |
| `Scraper.StripNames` | scraper.py:81-84 | The loop over the later words computes the specified caption. |
| `Scraper.CleanCaptions` | scraper.py:78-84 | The loop over the table's rows replaces each row with its cleaned row, in place. |
| `Scraper.FinalTable` | scraper.py:74-84 | The saved table has one row per scraped record, with blank "Stance" and "Action" added and the caption pass applied. There is none when the scrape stopped. |
| `Scraper.Run` | scraper.py:29-86 | The whole script: scrape, build the table, then the caption pass. |
| `Text.Strip` | scraper.py:48 | `str.strip()` gives a text with no whitespace at either end, cut from the original. |
| `Text.StripEdges` | scraper.py:48 | What `str.strip()` removes is whitespace only, at the two ends. |
| `Text.StripEmptyIffAllSpace` | scraper.py:49 | A text strips to nothing exactly when it is all whitespace. |
| `Text.Normalize` | scraper.py:41 | `re.sub(r"\s+", " ", s).strip()` has no leading, trailing or repeated whitespace, and it is empty exactly when the text was all whitespace. |
| `Text.NormalizeIsJoin` | scraper.py:41 | `re.sub(r"\s+", " ", s).strip()` is the words of s, in order, joined by single spaces, so it has the same words as s. |
| `Text.NormalIsJoin` | scraper.py:41 | A text with no leading, trailing or repeated whitespace is its words joined by single spaces. |
| `Text.NormalizeFixed` | scraper.py:55 | A normalised text is unchanged by normalising. |
| `Text.NormalizeIdempotent` | scraper.py:55 | Normalising twice is normalising once. |
| `Text.NormalizeKeepsOut` | scraper.py:41 | Normalising adds no character that is not whitespace. |
| `Text.CollapseSpaces` | scraper.py:66 | `re.sub(r"\s+", " ", s)` leaves no two whitespace characters in a row. It is all whitespace exactly when the text was. |
| `Text.TokensCollapse` | scraper.py:66 | `re.sub(r"\s+", " ", s)` keeps the words of s, in order: only the whitespace between them changes. |
| `Text.Tokens` | scraper.py:63 | `str.split()` gives non-empty words without whitespace, and none exactly when the text is all whitespace. |
| `Text.TokensLeading` | scraper.py:63 | After leading whitespace, the first word of `str.split()` is the whole run of non-whitespace characters up to the next whitespace or the end, and the rest are the words of what follows. |
| `Text.TokensVisible` | scraper.py:63 | The words laid end to end are exactly the text's non-whitespace characters, in order. |
| `Text.TokensAround` | scraper.py:54 | Text, whitespace, text: the words are those of the left part followed by those of the right part. |
| `Text.TokensLeadingSpace` | scraper.py:63 | Leading whitespace gives no word. |
| `Text.TokensOfJoin` | scraper.py:63 | Splitting non-empty whitespace-free words joined by single spaces gives the words back. |
| `Text.TokensStrip` | scraper.py:48-49 | `str.strip()` keeps every word. |
| `Text.ReplaceAllAbsent` | scraper.py:67 | `str.replace` leaves a text that does not contain the pattern unchanged. |
| `Text.ReplaceAll` | scraper.py:67-69 | `str.replace`: non-overlapping occurrences, found left to right, are replaced. The partners `ReplaceAllAbsent`, `ReplaceAllRemoves`, `ReplaceAllKeepsAbsent`, `ReplaceAllKeepsCollapsed`, `ReplaceAllFirst` and `RelatingToTripled` state what it does. |
| `Text.ReplaceAllFirst` | scraper.py:67-69 | The text before the first occurrence of the pattern is kept. That occurrence becomes the replacement, and the replacing goes on after it. |
| `Text.ReplaceAllKeepsCollapsed` | scraper.py:69 | Replacing with a word that has no whitespace at its ends keeps a collapsed text collapsed. |
| `Text.ReplaceAllRemoves` | scraper.py:84 | Replacing a word without whitespace by whitespace leaves no occurrence of it. |
| `Text.ReplaceAllKeepsAbsent` | scraper.py:84 | Replacing some word by whitespace brings in no word that was absent. |
| `Text.SplitOn` | scraper.py:40 | `str.split(c)` gives at least one part, no part holding c, and the parts join back to the text. |
| `Text.SplitOnJoin` | scraper.py:40 | Splitting the join of parts that hold no c gives the parts back. |
| `Text.AfterLast` | scraper.py:40 | `split(c)[-1]` holds no c. |
| `Text.AfterLastSplits` | scraper.py:40 | When c occurs, the text is what comes before its last c, then the c, then `split(c)[-1]`. |
| `Text.AfterLastAbsent` | scraper.py:40 | Without c, `split(c)[-1]` is the whole text. |
| `Seqs.Distinct` | app.py:38 | `unique()` has no repeats and holds exactly the values of the column. |
| `Seqs.DistinctFirstAppearanceOrder` | app.py:38 | `unique()` lists values in the order of their first appearance. |
| `Seqs.FilterMembership` | app.py:98 | A boolean mask keeps exactly the rows satisfying it. |
| `Seqs.Filter` | scraper.py:50 | `filter` and boolean masks: the result is no longer than the input, and every kept element passes. The partners `FilterMembership`, `FilterMultiplicity` and `FilterIsSubsequence` state what is kept and in which order. |
| `Seqs.FilterMultiplicity` | app.py:98 | A mask keeps every copy of a row that satisfies it and no copy of one that fails it. |
| `Seqs.FilterIsSubsequence` | app.py:98 | A mask keeps the rows in order. |
| `Seqs.FilterFilter` | app.py:97-101 | Two masks applied in turn keep the rows that satisfy both. |
| `Dashboard.LoadData` | app.py:10-21 | The loaded table always has the required columns. It is the stored table when that has them all, and otherwise an empty table with just those columns. |
| `Dashboard.LoadDataAccepts` | app.py:10-21 | The loaded table has rows only when the stored table was accepted as it is. A stored table missing a column loads empty. |
| `Dashboard.ColumnValues` | app.py:38 | The values of a column are exactly the cells of the rows that have it. |
| `Dashboard.NarrowFilter` | app.py:97-104 | One `if selected:` step narrows a filtered table to the rows that also satisfy that selection. |
| `Dashboard.UpdateTableIsConjunction` | app.py:90-106 | `update_table` gives no rows for an empty table. Otherwise it gives the table's rows that meet every selection that picks something, as one filter. |
| `Dashboard.UpdateTable` | app.py:90-106 | The callback returns no more rows than the loaded table holds, and none for an empty table. The partners `UpdateTableIsConjunction`, `UpdateTableMembership` and `UpdateTableOrder` state which rows and in which order. |
| `Dashboard.UpdateTableMembership` | app.py:90-106 | A row is shown exactly when the loaded table is not empty, holds the row, and the row meets every active selection. |
| `Dashboard.UpdateTableOrder` | app.py:95-106 | Shown rows keep the table's order, and each selected row appears as often as in the table. |
| `Dashboard.UpdateTableUnfiltered` | app.py:97-106 | With nothing picked, every loaded row is shown. |
| `Dashboard.UpdateTableEmpty` | app.py:91-93 | An empty table shows nothing. |
| `Dashboard.OptionsOf` | app.py:38 | Each value gives the option whose label and value are that value. |
| `Dashboard.OptionsDistinct` | app.py:38 | The options of a non-empty table each appear once, each is labelled by its value, and together they cover exactly the column's values. |
| `Dashboard.Options` | app.py:38 | An empty table offers nothing. Each option is labelled by its value, and that value occurs in the column. |
| `Dashboard.OptionsInTableOrder` | app.py:45 | Options come in the order in which their values first appear in the column. |
| `Dashboard.OptionsEmpty` | app.py:52 | An empty table offers no options. |
| `Pipeline.SavedRow` | scraper.py:74-76 | A saved row holds the record's chamber, day and committee under the dashboard's column names. |
| `Pipeline.SavedTable` | scraper.py:74-86 | The saved table has the scraper's eight columns and one row per table row. |
| `Pipeline.SavedTableLoads` | app.py:10-15 | The dashboard accepts the saved table as it is. |
| `Pipeline.ScriptOptions` | app.py:38-45 | After a scrape that gets through, the chamber dropdown offers only "House" and "Senate", and the day dropdown only weekday names and "Unknown". |

## Left out

- HTTP requests and BeautifulSoup (scraper.py lines 31-32 and 37-38) are not modelled. A listing is given as the `href` values of its links. A meeting page is given as the texts of its `<p>` elements and its `<td>` cells: each cell's first `<a>` and the cell's `get_text("\n")`. How BeautifulSoup flattens nested tags into that text is not modelled.
- `normalize_text` (scraper.py lines 15-16) is never called, so it is not modelled.
- Writing and reading `bills.csv` (scraper.py line 86; app.py lines 11-12) are not modelled. The checks that the file exists and is not empty are not modelled either: the stored table reaches `load_data` as `None` when the file is missing or empty, and otherwise as the parsed table.
- pandas' type inference and its reading of blank cells as NaN are not modelled: every cell is text. Read back from the file, the blank "Stance" and "Action" cells would be NaN.
- The Dash layout and styling are not modelled. Neither are the table's own editing, sorting, native filtering and row selection, the save button and download component (they have no callback), the server start-up, or the printed warnings.
- `\d` in Python matches every Unicode decimal digit, both in the search pattern and in the pattern `strptime` builds for `%d` and `%Y`, and `int()` reads every such digit. The model accepts only the ASCII digits '0' to '9'. So a date written with other decimal digits, such as full-width ones, gives a weekday in the code but "Unknown" in the model.
- `%B` and `%A` follow the locale. The model uses English month names, matched regardless of letter case, and English weekday names, as in the C locale.
- `df['Caption'][i] = ...` (scraper.py line 84) is chained assignment. The model takes it as the in-place update of row i that the code intends; under pandas copy-on-write the assignment would leave the table unchanged.
- The dropdown option's "label" is named `display`, because `label` is a reserved word in Dafny.
- A `KeyError` or `IndexError` in a cell ends the whole script. The model returns it as an error result of the scrape, and no table is written.
