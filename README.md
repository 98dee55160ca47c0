# Recipe diary: a Dafny model of the browser app's logic

The app is a food diary that runs in the browser. Each entry (a `Record`) has an
`id`, a `date` string, a dish `name`, a list of photos and a `createdAt` time.
Entries live in an IndexedDB object store whose key path is `id`.

The model covers the logic of `public/app.js` that does not depend on the DOM:

- the object store, as a class holding a map from id to record, with put,
  delete, clear and read-all;
- the search filter of `render`;
- the in-place sort of `renderList`;
- the month grid of `renderMonth`: the Gregorian calendar in integers, the
  Monday-first layout, the `YYYY-MM-DD` keys, the bucketing of records by date,
  the badge count and the three-thumbnail cap;
- the CSV text of `exportCSV`, with a reader for that format. Reading the
  export back gives every row and field exactly. The photo column splits back
  into its URLs only when the record has a photo and no URL contains `|`;
- the id-filling and upsert loop of `importJSON`.

Files:

- `wrappers.dfy`: `Option` and `Result`.
- `records.dfy`: the record and photo values.
- `text.dfy`: the string operations the app uses. These are `trim`, `includes`,
  `localeCompare` (as lexicographic order), `join`, `String(n)` and `padStart`.
- `store.dfy`: the object store.
- `query.dfy`: the filter.
- `ordering.dfy`: the sort.
- `calendar.dfy`: the calendar that `Date` implements.
- `month_view.dfy`: the month grid.
- `csv_export.dfy`: the CSV export.
- `json_import.dfy`: the JSON import.

Absent fields are normalised: an absent `date` or `name` is `""`, an absent
`createdAt` is `0`, and a falsy `id` is `""`. These are the values the sort
(`|| ''`, `|| 0`), the CSV export (`?? ''`) and the import's `!r.id` read. The
month view's template strings read an absent field differently (see
"## Left out").

Three things that are I/O or nondeterminism in the app are parameters here:

- the records the views receive;
- the cursor's year and month;
- the ids that `uuid()` would return, given as a sequence consumed in order.

## Model

| member | source | states |
|---|---|---|
| Store.RecordStore.constructor | public/app.js:14-17 | A new store is empty, and every record is filed under its own id (`keyPath: 'id'`). |
| Store.RecordStore.Put | public/app.js:36-44 | `put` is an upsert: the map gains or replaces the entry for `r.id` with `r`; nothing else changes. |
| Store.RecordStore.Delete | public/app.js:45-53 | `delete(id)` removes only that key; when the key is absent the store is unchanged. |
| Store.RecordStore.Clear | public/app.js:54-62 | `clear()` leaves the store empty. |
| Store.RecordStore.GetAll | public/app.js:27-35 | `getAll` returns every stored record exactly once, each equal to the stored value, with distinct ids. |
| Store.SnapshotSize | public/app.js:31-32 | A read of the store has as many records as the store has keys. |
| Store.SnapshotAfterPut | public/app.js:40 | After `put(r)`, a read holds exactly one record with `r.id`, and it equals `r`: the last write wins. |
| Store.SnapshotAfterDelete | public/app.js:49 | After `delete(id)`, a read holds no record with that id and exactly one record for every other stored id. |
| Store.SnapshotAfterClear | public/app.js:58 | After `clear()`, a read is empty. |
| Store.CountIdDistinct | public/app.js:31-32 | With distinct ids, an id occurs once in a read if it occurs at all. |
| Text.Trim | public/app.js:140 | `trim` returns the slice of the query with only white space around it; the slice neither starts nor ends with white space. |
| Text.TrimEmptyIff | public/app.js:140-142 | The trimmed query is empty exactly when the query is all white space, which is when the filter is skipped. |
| Text.Includes | public/app.js:142 | `includes` always finds the empty query, and finds no query longer than the string. Its exact meaning is stated by `Text.IncludesIff` and `Text.IncludesChar`. |
| Text.IncludesIff | public/app.js:142 | `includes` holds exactly when the query occurs at some position of the string. |
| Text.IncludesChar | public/app.js:142 | A one-character query is found exactly when that character occurs in the string. |
| Query.Matches | public/app.js:142 | Definition of the test the filter applies to each record: the query is a case-sensitive substring of the name or of the date. Its properties are stated by `Query.KeepMatching`, `Query.Filter` and `Query.FilterKeepsOnlyMatches`. |
| Query.Filter | public/app.js:140-142 | A blank query returns the list unchanged. Otherwise the result keeps, in original order, exactly the records whose name or date contains the trimmed query, each as often as in the input. |
| Query.KeepMatching | public/app.js:142 | `filter` keeps a subsequence of the list, with each matching record as often as it occurs and no other record. |
| Query.FilterKeepsOnlyMatches | public/app.js:140-142 | For a non-blank query, a record is shown exactly when it is in the list and its name or date contains the trimmed query. |
| Query.FilterExample | public/app.js:140-142 | The query " 鸡 " is trimmed, keeps 口水鸡 and drops 番茄炒蛋 dated 2025-01-01. |
| Text.Compare | public/app.js:151 | `localeCompare`, modelled as lexicographic order by character code, returns -1, 0 or 1. Its sign is characterised by `Text.CompareNegativeIff`, `Text.CompareZeroIff`, `Text.CompareAntisymmetric` and `Text.CompareTransitive`. |
| Text.CompareAntisymmetric | public/app.js:151 | Swapping the operands of `localeCompare` (as lexicographic order) negates the result. |
| Text.CompareZeroIff | public/app.js:151 | The comparison is 0 exactly for equal strings. |
| Text.CompareTransitive | public/app.js:151 | The comparison is transitive. |
| Text.CompareNegativeIff | public/app.js:151 | A string sorts first exactly when it is a proper prefix of the other or has the smaller character at the first difference. |
| Ordering.SortCompare | public/app.js:151 | The comparator is 0 exactly for two records with the same date and the same `createdAt`. Its order is stated by `Ordering.SortCompareAntisymmetric` and `Ordering.InListOrderIff`. |
| Ordering.SortCompareAntisymmetric | public/app.js:151 | Swapping the two records negates the comparator, so it is a consistent comparator for `sort`. |
| Ordering.InListOrderIff | public/app.js:151 | `a` may precede `b` exactly when `a`'s date is later, or the dates are equal and `a.createdAt >= b.createdAt`. |
| Ordering.InListOrderTotal | public/app.js:151 | Of any two records, one may precede the other. |
| Ordering.InListOrderTransitive | public/app.js:151 | The list order is transitive. |
| Ordering.SortedPairwise | public/app.js:151 | In a sorted list every pair, not only every adjacent pair, is in list order. |
| Ordering.Insert | public/app.js:151 | Definition of one step of the stable sort: the next record moves left past every element that must follow it. Its properties are stated by `Ordering.InsertPermutes`, `Ordering.InsertSorted` and `Ordering.InsertAt`. |
| Ordering.InsertPermutes | public/app.js:151 | One insertion step adds exactly the inserted record to the multiset. |
| Ordering.InsertSorted | public/app.js:151 | Inserting into a sorted list keeps it sorted. |
| Ordering.ListOrder | public/app.js:151 | Definition of the order `list.sort(...)` produces, the list order. Its properties are stated by `Ordering.ListOrderPermutes`, `Ordering.ListOrderSorted`, `Ordering.InsertAt` and `Ordering.ListOrderExample`; `Ordering.SortForList` shows the in-place sort reaches it. |
| Ordering.ListOrderPermutes | public/app.js:151 | The sorted list is a permutation of its input. |
| Ordering.ListOrderSorted | public/app.js:151 | The sorted list has every adjacent pair in list order. |
| Ordering.InsertAt | public/app.js:151 | The insertion places the record right after the last element that may precede it. Records that compare equal keep their input order. |
| Ordering.InsertInto | public/app.js:151 | Shifting the larger elements right and dropping `a[i]` into the hole turns the prefix `a[..i+1]` into the sorted insertion; later elements are untouched. |
| Ordering.ShiftFollowers | public/app.js:151 | The shifting loop moves right exactly the elements that must follow the new one, and stops at an element that may precede it. |
| Ordering.SortForList | public/app.js:151 | `list.sort(...)` turns the array, in place, into the list order of its old contents. |
| Ordering.RenderList | public/app.js:146-151 | For an empty list, the empty-state case is reported. Otherwise the array becomes sorted in list order and a permutation of its old contents. |
| Ordering.ListOrderExample | public/app.js:151 | Of two entries on the same day, the one created later is listed first; an entry of a later day comes before both. |
| Calendar.IsLeapYear | public/app.js:195-196 | Definition of the Gregorian leap-year rule (divisible by 4, not by 100 unless by 400). Its consequences are stated by `Calendar.DaysInMonth`, `Calendar.MonthsFillYear` and `Calendar.FourHundredYearCycle`. |
| Calendar.DayNumber | public/app.js:195-196 | Definition of the serial day number that `Date` counts in. Its properties are stated by `Calendar.DaysBeforeNextYear`, `Calendar.MonthLength`, `Calendar.WeekdayOfNextMonth` and `Calendar.FourHundredYearCycle`. |
| Calendar.DaysInMonth | public/app.js:196 | A month has 28 to 31 days, and 29 only for February of a leap year. |
| Calendar.Weekday | public/app.js:195 | `getDay()` is 0 (Sunday) to 6 (Saturday). |
| Calendar.DaysBeforeNextYear | public/app.js:195-196 | The closed form for the days before a year agrees with the leap-year rule. |
| Calendar.MonthsFillYear | public/app.js:196 | The twelve month lengths add up to the year's length. |
| Calendar.MonthLength | public/app.js:196 | Day 0 of the next month, `new Date(y, m+1, 0)`, is the last day of month `m`, December included. |
| Calendar.WeekdayOfNextMonth | public/app.js:195-196 | The next month starts `DaysInMonth` weekdays later. |
| Calendar.FourHundredYearCycle | public/app.js:195 | The calendar and its weekdays repeat every 400 years. |
| Calendar.KnownWeekdays | public/app.js:195 | 1 January 1970 is a Thursday and 1 January 2025 a Wednesday. |
| MonthView.DisplayedYear | public/app.js:188-189 | The year shown is never one from 0 to 99, which `new Date` would remap. It is the cursor's year exactly when that year is outside 0 to 99, and that year plus 1900 otherwise. |
| MonthView.DisplayedYearFixed | public/app.js:188-196 | Passing the shown year to `new Date(y, m, 1)` and `new Date(y, m+1, 0)` again does not remap it, so the layout may use `y` as it is. |
| MonthView.FirstDay | public/app.js:195 | `getDay() \|\| 7` is 1 to 7, Monday first, congruent to the weekday of the first of the month. |
| MonthView.CellCount | public/app.js:198 | The grid size is a multiple of 7 with room for the leading blanks and every day. `MonthView.CellCountIsLeastWeeks` shows it is the least such multiple. |
| MonthView.CellCountIsLeastWeeks | public/app.js:198 | The cell count is a multiple of 7 and the least one that holds `firstDay - 1 + days` cells; it is 28 to 42. |
| MonthView.DayAt | public/app.js:201 | Definition of the day number of cell `i` of a month's grid, the one formula `MonthView.CellAt`, `MonthView.RenderCell` and the cell loop's day count use. Its properties are stated by `MonthView.DayAtLayout` and `MonthView.CellAtDay`. |
| MonthView.DayAtLayout | public/app.js:200-204 | Exactly `firstDay - 1` cells precede day 1, and the cells run through the days in order. |
| MonthView.January2025 | public/app.js:195-198 | January 2025 starts on a Wednesday: 2 leading blanks and 35 cells. |
| Text.PadStart | public/app.js:205 | `padStart(width, fill)` gives at least `width` characters, ends with the input and has only the fill character before it. |
| Text.IntDecimalRoundTrip | public/app.js:205 | `String(y)` is a minus sign exactly for negative years, then digits, and reads back as `y`. |
| MonthView.Pad2 | public/app.js:205 | Definition of a month or day number written in two digits. Its properties are stated by `MonthView.Pad2Digits` and `MonthView.DateKeyRoundTrip`. |
| MonthView.Pad2Digits | public/app.js:205 | `String(n).padStart(2, '0')` for 1 to 99 is two digits that read back as `n`. |
| Text.IntToDecimal | public/app.js:205 | Definition of `String(y)` for an integer year. Its properties are stated by `Text.IntDecimalRoundTrip`. |
| MonthView.DateKey | public/app.js:205 | Definition of the `${y}-MM-DD` key. Its properties are stated by `MonthView.DateKeyRoundTrip`, `MonthView.DateKeyInjective` and `MonthView.DateKeyIsoLength`. |
| MonthView.DateKeyRoundTrip | public/app.js:205 | The key `${y}-${MM}-${DD}` reads back as the year, month and day it was made from. |
| MonthView.DateKeyInjective | public/app.js:205 | Different dates have different keys. |
| MonthView.DateKeyIsoLength | public/app.js:205 | For four-digit years the key has the ten characters of `YYYY-MM-DD`. |
| MonthView.RecordsOn | public/app.js:193 | Definition of a bucket's contents: the records whose date is exactly the key, in list order. Its properties are stated by `MonthView.RecordsOnCounts`, `MonthView.BucketByDate` and `MonthView.CellAtDay`. |
| MonthView.RecordsOnCounts | public/app.js:192-193 | A day's bucket holds each record with exactly that date, as often as it occurs in the list, and nothing else. |
| MonthView.IsObjectPrototypeKey | public/app.js:192-193 | Definition of the twelve property names every `{}` inherits from `Object.prototype`, the dates on which `(map[r.date] \|\|= []).push(r)` throws. Its properties are stated by `MonthView.BucketingThrows`, `MonthView.BucketByDateAsWritten` and `MonthView.ToStringDateThrows`. |
| MonthView.BucketingThrows | public/app.js:192-193 | The bucketing throws exactly when the intended bucketing would give one of the names `{}` inherits a non-empty bucket, that is, when such a name is some record's date. `MonthView.BucketByDateAsWritten` and `MonthView.RenderMonthAsWritten` fail exactly in this case. |
| MonthView.BucketByDateAsWritten | public/app.js:192-193 | With a plain object as the map, the loop fails exactly when some date names an inherited property. Otherwise every bucket is the list of records with that date, in list order. |
| MonthView.ToStringDateThrows | public/app.js:192-193 | One record dated "toString" makes the bucketing throw. |
| MonthView.BucketByDate | public/app.js:192-193 | The bucketing as intended: every key's bucket is the list of records with that date, in list order, and no bucket is empty. |
| MonthView.Lookup | public/app.js:206 | Definition of `map[date] \|\| []`: a day's bucket, or the empty list when no record has that date. Its properties are stated by `MonthView.BucketByDate`, `MonthView.BucketByDateAsWritten` and `MonthView.RenderCell`. |
| MonthView.AllThumbs | public/app.js:207-214 | Definition of every thumbnail of a day's records, in record order and then photo order. Its properties are stated by `MonthView.AllThumbsPrefix` and `MonthView.CollectThumbs`. |
| MonthView.AllThumbsPrefix | public/app.js:207-214 | The thumbnails of the first records start the thumbnails of all of them. |
| MonthView.CollectThumbs | public/app.js:207-214 | The nested loop with its two `break`s collects `min(3, total photos)` thumbnails. They are the first ones in record order, then photo order. |
| MonthView.FirstThumbs | public/app.js:207-214 | Definition of the thumbnails a day cell shows: the first `min(3, total)` of `AllThumbs`. Its properties are stated by `MonthView.CollectThumbs` and `MonthView.CellAtDay`. |
| MonthView.MonthLayout | public/app.js:195-196 | The grid of a month starts at position 1 to 7 and has 28 to 31 days. |
| MonthView.CellAt | public/app.js:200-217 | Definition of the cell at grid position `i`: blank outside the month, else `DayCellOf` that day. Its properties are stated by `MonthView.CellAtDay` and `MonthView.RenderCell`. |
| MonthView.DayCellOf | public/app.js:203-215 | Definition of a day cell: day number, key, badge count and first three thumbnails. Its properties are stated by `MonthView.CellAtDay`. |
| MonthView.RenderCell | public/app.js:201-219 | A cell outside 1..days is blank. Otherwise it shows the day number, its key, the bucket's size as the badge and the bucket's first three thumbnails. |
| MonthView.RenderCells | public/app.js:197-221 | Given buckets that hold each date's records, the cell loop yields `CellCount` cells, exactly `days` of them day cells, and cell `i` is the cell `CellAt` describes. |
| MonthView.RenderMonth | public/app.js:185-222 | With the corrected bucketing: the month shown is the cursor's, the grid has `CellCount` cells, exactly `days` of them are day cells, and cell `i` is the cell `CellAt` describes. |
| MonthView.RenderMonthAsWritten | public/app.js:185-222 | As written: the render fails, before any cell is drawn, exactly when some date names an inherited property of `{}`. Otherwise its cells are those of `RenderMonth`. |
| MonthView.CellAtDay | public/app.js:200-216 | Cell `i` is a day exactly when `i - firstDay + 2` lies in 1..days. A day cell shows that day, its key and the number of records with exactly that date. It also shows `min(3, total photos)` thumbnails, the first ones in order. |
| CsvExport.Quote | public/app.js:237 | A quoted field is at least two characters longer than its value and starts and ends with `"`. `CsvExport.FieldRoundTrip` shows it reads back as the value. |
| CsvExport.DoubleQuotes | public/app.js:237 | `replace(/"/g, '""')` never shortens a value and leaves a value without quotes as it is. |
| Text.Join | public/app.js:236-237 | Definition of `Array.prototype.join`. Its properties are stated by `CsvExport.SplitJoin`, `CsvExport.RowsRoundTrip` and `CsvExport.ExportStartsWithHeader`. |
| CsvExport.PhotoUrls | public/app.js:236 | Definition of the `\|`-joined photo column. Its properties are stated by `CsvExport.PhotoUrlsRoundTrip` and `CsvExport.PhotoColumnLimits`. |
| CsvExport.RecordRow | public/app.js:236 | Definition of a record's row: date, name, photo column. Its properties are stated by `CsvExport.Rows`. |
| CsvExport.EncodeRow | public/app.js:237 | Definition of one line: the row's quoted fields joined by `,`. Its properties are stated by `CsvExport.RowRoundTrip` and `CsvExport.HeaderLine`. |
| CsvExport.ExportCsv | public/app.js:237 | Definition of the file text: the lines joined by `\n`. Its properties are stated by `CsvExport.ExportRoundTrip` and `CsvExport.ExportStartsWithHeader`. |
| CsvExport.QuoteAll | public/app.js:237 | `row.map(quote)` keeps the number of fields, and each quoted field reads back as exactly its value. |
| CsvExport.Rows | public/app.js:235-236 | There is one row more than records. The first row is the header, every row is as wide as the header, and row `i+1` starts with record `i`'s date and name. |
| CsvExport.EncodeRows | public/app.js:237 | There is one line per row, and each line of a non-empty row reads back as exactly that row. |
| CsvExport.QuotedBodyRoundTrip | public/app.js:237 | Un-doubling the quotes of an escaped value, up to the closing quote, recovers the value and leaves what follows untouched. |
| CsvExport.FieldRoundTrip | public/app.js:237 | A quoted field reads back as its value. |
| CsvExport.RowRoundTrip | public/app.js:237 | A row joined with `,` reads back as its values. |
| CsvExport.RowsRoundTrip | public/app.js:237 | Rows joined with `\n` read back as the rows. |
| CsvExport.ExportRoundTrip | public/app.js:234-237 | Reading the exported text gives back the header and each record's date, name and `\|`-joined photo column, in list order. The export writes no `id`, `createdAt` or thumbnail. |
| CsvExport.Header | public/app.js:235 | Definition of the three column names `date`, `name`, `photo_urls`, in order. Its properties are stated by `CsvExport.Rows`, `CsvExport.HeaderLine` and `CsvExport.HeaderUnescaped`. |
| CsvExport.HeaderLine | public/app.js:235-237 | The first line is the three header names, each quoted, separated by `,`. |
| CsvExport.HeaderUnescaped | public/app.js:235-237 | The header names contain no quote and are written as `"date"`, `"name"`, `"photo_urls"`. |
| CsvExport.ExportStartsWithHeader | public/app.js:235-237 | The exported text starts with the header line. |
| CsvExport.SplitJoin | public/app.js:236 | Splitting the `\|`-joined URLs on `\|` gives them back, as long as none contains `\|`. |
| CsvExport.PhotoUrlsRoundTrip | public/app.js:236 | A photo column with at least one URL, and no `\|` in any of them, splits back into its photo URLs. |
| CsvExport.PhotoColumnLimits | public/app.js:236 | A record without photos and one whose only URL is empty write the same column. A URL holding a `\|` splits back as two. |
| JsonImport.Missing | public/app.js:252 | The number of elements that need a new id is at most the number of elements. |
| JsonImport.AssignIds | public/app.js:252 | Filling in the ids keeps the number of elements. |
| JsonImport.AssignIdsElement | public/app.js:252 | Each element keeps every field but its id. A truthy id is kept; a falsy one becomes the next unused new id. |
| JsonImport.EveryElementGetsAnId | public/app.js:252 | With non-empty new ids, every imported element has an id, and elements that had one are imported unchanged. |
| JsonImport.AssignedIdsDistinct | public/app.js:252 | With a supply of pairwise different new ids, two elements that had no id are given different ids. |
| JsonImport.AssignedIdsAvoidExisting | public/app.js:252 | With a supply whose ids are not in the store and not carried by any element, an element that had no id gets an id that no stored record and no element with its own id has. |
| JsonImport.NothingMissing | public/app.js:252 | When every element has an id, no new id is used and the elements are imported as they are. |
| JsonImport.LastWithIdIsLast | public/app.js:252 | The record found for an id is the last element carrying it; none is found when no element carries it. |
| JsonImport.PutAll | public/app.js:252 | Putting records one after another keeps every old key and adds the id of every record put. `JsonImport.PutAllLookup` gives the value each id ends up with. |
| JsonImport.PutAllLookup | public/app.js:252 | After the puts, an id holds the last element put under it, or its old record if none was put. No other id appears. |
| JsonImport.PutAllKeyedById | public/app.js:252 | The puts keep every record filed under its own id. |
| JsonImport.Import | public/app.js:248-253 | A value that is not an array is rejected and changes nothing. Otherwise the store becomes the old store after putting each element, in order, with its missing id filled in. |
| JsonImport.BackupRestores | public/app.js:242-252 | Importing a backup of the store over any store overlays exactly the backed-up records. |
| JsonImport.BackupNeedsNoIds | public/app.js:242-252 | A backup already has an id on every element, so importing it consumes no new id. |

## Left out

- The IndexedDB layer (`openDB`, transactions, promises, `onerror`): each store operation is one atomic map update, and a failed transaction is not modelled.
- Store.RecordStore.GetAll: the order IndexedDB returns (ascending key order) is not fixed; the contract holds for every order.
- `uploadOriginalSafe` and `api/upload.js`: network I/O over a foreign blob library.
- `compressToThumb`: image decoding, canvas drawing and floating-point scaling.
- DOM output: the HTML strings, the event handlers, `applyView`, the lightbox and the album. A cell is modelled by the values it shows (day, key, badge count, thumbnails), not by its HTML.
- The month title text (public/app.js:190).
- `uuid()`, `Date.now()` and `fmt`: randomness, the clock and the time zone. New ids are a parameter of the import.
- `load()` after delete, clear and import: it re-reads the store, which is `GetAll` again.
- The aliasing between `render` and `renderList` (public/app.js:141, 151). With a blank query, `filtered` is `state.list` itself, so the sort reorders `state.list` in place. Until the next `load()`, the month view then receives the records in list order, not in the order `getAll` returned, and that order decides which three thumbnails a day shows. The model passes each view its records by value and takes the month view's input as a parameter, so it does not capture this shared state.
- CsvExport.PhotoUrlsRoundTrip: the photo column is recovered only for records with at least one photo and no `|` in any URL. `PhotoColumnLimits` shows the two cases that collide or split wrongly; the export cannot tell them apart.
- Stepping the month cursor with `setMonth` (public/app.js:262-263): the model takes the cursor's year and month as given.
- `Date` limits: years outside the range `Date` can represent are not excluded. Years 0 to 99 are mapped to 1900 + Y, as `new Date(Y, M, 1)` does.
- Ordering.SortCompare: `localeCompare` is modelled as lexicographic order by character code. That agrees with it on ASCII `YYYY-MM-DD` dates but not on arbitrary text.
- Text.Includes: strings are sequences of code points, not UTF-16 code units. `includes` and `trim` agree except on unpaired surrogates.
- Records: ids are modelled as strings and `createdAt` as integer milliseconds, the values `uuid()` and `Date.now()` produce. An imported backup can carry other values: a numeric `id` is a different IndexedDB key from its string form, and a fractional or non-numeric `createdAt` makes the comparator at line 151 yield NaN, so it is no longer consistent. Neither case is modelled.
- Records: where the month view interpolates an absent field, the page shows the text `undefined` and the model has `""`. This covers `title="${rec.name}"`, `src="${p.thumb}"` and `data-url="${p.url}"` at line 210, so `MonthView.Thumb`, `MonthView.DayCellOf` and `MonthView.CollectThumbs` hold `""` there. Likewise `map[r.date]` at line 193 files a record without a date under the key `"undefined"` rather than `""`; no cell key has either form, so the badge counts and thumbnails are the same.
- Records: where the JavaScript would throw, the model reads absent fields as normalised values. Examples are a filter over a record without `name`, `rec.photos.map` without `photos`, and an import element that is not an object. `(v ?? '').toString()` in the CSV export is therefore the identity on the model's strings.
- `JSON.parse` failing on malformed text: the import starts from the parsed value.
- CsvExport.HeaderLine: the literal header text is stated through `Quote(Header()[k])` and `HeaderUnescaped` rather than as one string literal.
- CsvExport.RowRoundTrip: the round trip is stated for the reader defined here, which accepts exactly the quoted fields the export writes. It does not cover RFC 4180 readers in general (unquoted fields, CRLF).
- The entry form (`bindRecordOnce`, saving a new record with uploaded photos): it is UI flow over upload and thumbnail code that is not part of this model.

## Findings

| source | as written | input that shows it | evidently intended | confidence | as-written member | corrected member |
|---|---|---|---|---|---|---|
| public/app.js:192-193 | `const map = {}` and `(map[r.date] \|\|= []).push(r)`: looking a date up on a plain object also finds inherited properties | one record whose `date` is `"toString"` (an imported backup can hold any text), so `map["toString"]` is a function and `.push` throws a TypeError; the title has already been updated (line 190), but the grid is not redrawn and the previous one stays under the new title | every date string gets its own bucket, as with `Object.create(null)` or a `Map` | not executed | MonthView.BucketByDateAsWritten | MonthView.BucketByDate |
