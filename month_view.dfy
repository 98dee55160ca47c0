/**
 * The month view (`renderMonth`): a Monday-first grid of day cells for the
 * month under the cursor, each day showing how many of the given records fall
 * on it and up to three of their thumbnails.
 */
module MonthView {
  import opened Wrappers
  import opened Records
  import opened Text
  import opened Calendar

  // ---------------------------------------------------------------- grid shape

  /** `new Date(Y, M, 1)` reads a year from 0 to 99 as 1900 + Y, so the month
      shown for such a cursor is the one in the twentieth century. */
  function DisplayedYear(cursorYear: int): (y: int)
    ensures !(0 <= y <= 99)
    ensures y == cursorYear || y == 1900 + cursorYear
    ensures (y == cursorYear) == !(0 <= cursorYear <= 99)
  {
    if 0 <= cursorYear <= 99 then 1900 + cursorYear else cursorYear
  }

  /** The year shown is no longer one that `Date` remaps, so the later
      `new Date(y, m, 1)` and `new Date(y, m + 1, 0)` read it as it is. */
  lemma DisplayedYearFixed(cursorYear: int)
    ensures DisplayedYear(DisplayedYear(cursorYear)) == DisplayedYear(cursorYear)
  {
  }

  /** `getDay() || 7` of the first of the month: its position in a Monday-first
      week, from 1 (Monday) to 7 (Sunday). */
  function FirstDay(y: int, m: int): (f: int)
    requires 0 <= m < 12
    ensures 1 <= f <= 7
    ensures f % 7 == Weekday(y, m, 1)
  {
    var w := Weekday(y, m, 1);
    if w == 0 then 7 else w
  }

  /** `Math.ceil((firstDay - 1 + days) / 7) * 7`, the number of cells. */
  function CellCount(y: int, m: int): (c: nat)
    requires 0 <= m < 12
    ensures c % 7 == 0 && FirstDay(y, m) - 1 + DaysInMonth(y, m) <= c
  {
    (FirstDay(y, m) - 1 + DaysInMonth(y, m) + 6) / 7 * 7
  }

  /** The day of the month cell `i` of the grid `L` shows, when it lies in
      1 .. `L.days`. */
  function DayAt(L: Layout, i: int): int {
    i - (L.firstDay - 1) + 1
  }

  /** The grid is whole weeks, and the fewest whole weeks that hold the leading
      blanks and all the days. */
  lemma CellCountIsLeastWeeks(y: int, m: int)
    requires 0 <= m < 12
    ensures var n := FirstDay(y, m) - 1 + DaysInMonth(y, m);
      CellCount(y, m) % 7 == 0 && n <= CellCount(y, m) < n + 7
    ensures 28 <= CellCount(y, m) <= 42
  {
    var n := FirstDay(y, m) - 1 + DaysInMonth(y, m);
    var q := (n + 6) / 7;
    assert n + 6 == 7 * q + (n + 6) % 7;
  }

  /** Exactly `FirstDay - 1` blank cells come before day 1, and cells run through
      the days in order. */
  lemma DayAtLayout(y: int, m: int)
    requires 0 <= m < 12
    ensures forall i :: 0 <= i < FirstDay(y, m) - 1 ==> DayAt(MonthLayout(y, m), i) < 1
    ensures DayAt(MonthLayout(y, m), FirstDay(y, m) - 1) == 1
    ensures forall i :: DayAt(MonthLayout(y, m), i + 1) == DayAt(MonthLayout(y, m), i) + 1
  {
  }

  /** January 2025 starts on a Wednesday: two leading blanks, five weeks. */
  lemma January2025()
    ensures FirstDay(2025, 0) == 3
    ensures DaysInMonth(2025, 0) == 31
    ensures CellCount(2025, 0) == 35
  {
    KnownWeekdays();
  }

  // ------------------------------------------------------------------ date key

  /** The key of day `d` of month `m`: `${y}-${MM}-${DD}`, month and day padded
      to two digits; the year is written as `String(y)` does, unpadded. */
  function DateKey(y: int, m: int, d: int): string
    requires 0 <= m < 12 && 1 <= d <= 31
  {
    IntToDecimal(y) + "-" + Pad2(m + 1) + "-" + Pad2(d)
  }

  /** A month or day number in two digits (`Pad2Digits` shows it is
      `String(n).padStart(2, '0')`). */
  function Pad2(n: int): string
    requires 1 <= n < 100
  {
    [DigitChar(n / 10), DigitChar(n % 10)]
  }

  /** Reads a key back: the year is everything before the last six characters,
      which are `-MM-DD`. */
  function DecodeDateKey(k: string): Option<(int, int, int)> {
    if |k| < 7 || k[|k| - 6] != '-' || k[|k| - 3] != '-' then None
    else DecodeFields(k[..|k| - 6], k[|k| - 5..|k| - 3], k[|k| - 2..])
  }

  /** `String(y)` for some integer `y`: an optional minus sign, then digits. */
  predicate IsYearText(ys: string) {
    && ys != []
    && (ys[0] == '-' ==> forall i :: 1 <= i < |ys| ==> IsDigit(ys[i]))
    && (ys[0] != '-' ==> forall i :: 0 <= i < |ys| ==> IsDigit(ys[i]))
  }

  predicate IsTwoDigits(s: string) {
    |s| == 2 && IsDigit(s[0]) && IsDigit(s[1])
  }

  function DecodeFields(ys: string, ms: string, ds: string): Option<(int, int, int)> {
    if IsYearText(ys) && IsTwoDigits(ms) && IsTwoDigits(ds)
    then Some((SignedDecimalValue(ys), DecimalValue(ms) - 1, DecimalValue(ds)))
    else None
  }

  lemma TwoDigitValue(a: char, b: char)
    requires IsDigit(a) && IsDigit(b)
    ensures DecimalValue([a, b]) == DigitValue(a) * 10 + DigitValue(b)
  {
    assert [a, b][..1] == [a];
    assert [a][..0] == [];
    assert DecimalValue([a]) == DigitValue(a);
  }

  /** `Pad2` is `String(n).padStart(2, '0')` for a number from 1 to 99, and its
      two digits read back as the number. */
  lemma Pad2Digits(n: int)
    requires 1 <= n < 100
    ensures Pad2(n) == PadStart(NatToDecimal(n), 2, '0')
    ensures IsTwoDigits(Pad2(n)) && DecimalValue(Pad2(n)) == n
  {
    var p := PadStart(NatToDecimal(n), 2, '0');
    if n < 10 {
      assert NatToDecimal(n) == [DigitChar(n)];
      assert p == ['0', DigitChar(n)];
    } else {
      assert NatToDecimal(n / 10) == [DigitChar(n / 10)];
      assert p == [DigitChar(n / 10), DigitChar(n % 10)];
    }
    TwoDigitValue(DigitChar(n / 10), DigitChar(n % 10));
  }

  /** Splitting a key at its last two dashes gives back its three parts. */
  lemma DecodeParts(k: string, ys: string, ms: string, ds: string)
    requires IsYearText(ys) && IsTwoDigits(ms) && IsTwoDigits(ds)
    requires k == ys + "-" + ms + "-" + ds
    ensures DecodeDateKey(k) == Some((SignedDecimalValue(ys), DecimalValue(ms) - 1, DecimalValue(ds)))
  {
    assert |k| == |ys| + 6;
    assert k[|k| - 6] == '-' && k[|k| - 3] == '-';
    assert k[..|k| - 6] == ys;
    assert k[|k| - 5..|k| - 3] == ms;
    assert k[|k| - 2..] == ds;
  }

  /** A date key determines its date: reading it back gives the year, month and
      day it was made from. */
  lemma DateKeyRoundTrip(y: int, m: int, d: int)
    requires 0 <= m < 12 && 1 <= d <= 31
    ensures DecodeDateKey(DateKey(y, m, d)) == Some((y, m, d))
  {
    YearText(y);
    Pad2Digits(m + 1);
    Pad2Digits(d);
    KeyDecodes(DateKey(y, m, d), y, m, d, IntToDecimal(y), Pad2(m + 1), Pad2(d));
  }

  /** The decoding step, with the three parts of the key already known to read
      back as the year, the month number and the day. */
  lemma KeyDecodes(k: string, y: int, m: int, d: int, ys: string, ms: string, ds: string)
    requires k == ys + "-" + ms + "-" + ds
    requires IsYearText(ys) && SignedDecimalValue(ys) == y
    requires IsTwoDigits(ms) && DecimalValue(ms) == m + 1
    requires IsTwoDigits(ds) && DecimalValue(ds) == d
    ensures DecodeDateKey(k) == Some((y, m, d))
  {
    DecodeParts(k, ys, ms, ds);
  }

  lemma YearText(y: int)
    ensures IsYearText(IntToDecimal(y)) && SignedDecimalValue(IntToDecimal(y)) == y
  {
    IntDecimalRoundTrip(y);
    if y < 0 {
      assert |IntToDecimal(y)| == 1 + |NatToDecimal(-y)|;
    }
  }

  /** Different days of a month have different keys. */
  lemma DateKeyInjective(y: int, m: int, d: int, y': int, m': int, d': int)
    requires 0 <= m < 12 && 1 <= d <= 31 && 0 <= m' < 12 && 1 <= d' <= 31
    requires DateKey(y, m, d) == DateKey(y', m', d')
    ensures y == y' && m == m' && d == d'
  {
    DateKeyRoundTrip(y, m, d);
    DateKeyRoundTrip(y', m', d');
  }

  /** For four-digit years the key is the ISO form `YYYY-MM-DD`. */
  lemma DateKeyIsoLength(y: int, m: int, d: int)
    requires 1000 <= y <= 9999 && 0 <= m < 12 && 1 <= d <= 31
    ensures |DateKey(y, m, d)| == 10
  {
    FourDigits(y);
  }

  lemma FourDigits(n: nat)
    requires 1000 <= n <= 9999
    ensures |NatToDecimal(n)| == 4
  {
    var a := n / 10;
    var b := a / 10;
    var c := b / 10;
    assert 100 <= a <= 999 && 10 <= b <= 99 && 1 <= c <= 9;
    assert |NatToDecimal(c)| == 1;
    assert |NatToDecimal(b)| == 2;
    assert |NatToDecimal(a)| == 3;
  }

  // ------------------------------------------------------------------- buckets

  /** The records whose `date` is exactly `key`, in list order. */
  function RecordsOn(list: seq<Record>, key: string): seq<Record> {
    if list == [] then []
    else RecordsOn(list[..|list| - 1], key) + (if list[|list| - 1].date == key then [list[|list| - 1]] else [])
  }

  /** `RecordsOn` keeps each record with that date, as often as it occurs, and
      nothing else. */
  lemma {:induction false} RecordsOnCounts(list: seq<Record>, key: string)
    ensures forall x :: multiset(RecordsOn(list, key))[x] == if x.date == key then multiset(list)[x] else 0
    decreases |list|
  {
    if list != [] {
      RecordsOnCounts(list[..|list| - 1], key);
      assert list == list[..|list| - 1] + [list[|list| - 1]];
    }
  }

  /** `map[date] || []`: the bucket for a key, empty when there is none. */
  function Lookup(buckets: map<string, seq<Record>>, key: string): seq<Record> {
    if key in buckets then buckets[key] else []
  }

  /** The names every plain object inherits from `Object.prototype`. Reading one
      of them from `{}` yields a function or, for `__proto__`, the prototype
      itself: a truthy value that has no `push`. */
  predicate IsObjectPrototypeKey(k: string) {
    || k == "constructor" || k == "hasOwnProperty" || k == "isPrototypeOf"
    || k == "propertyIsEnumerable" || k == "toLocaleString" || k == "toString"
    || k == "valueOf" || k == "__defineGetter__" || k == "__defineSetter__"
    || k == "__lookupGetter__" || k == "__lookupSetter__" || k == "__proto__"
  }

  /** Some record's date makes `(map[r.date] ||= []).push(r)` throw: exactly
      when one of the inherited names would get a non-empty bucket under the
      intended bucketing. */
  predicate BucketingThrows(list: seq<Record>)
    ensures BucketingThrows(list) <==> exists key :: IsObjectPrototypeKey(key) && RecordsOn(list, key) != []
  {
    PrototypeDateHasBucket(list);
    exists i :: 0 <= i < |list| && IsObjectPrototypeKey(list[i].date)
  }

  /** A record with an inherited name as its date is the same thing as a
      non-empty bucket for that name. */
  lemma PrototypeDateHasBucket(list: seq<Record>)
    ensures (exists i :: 0 <= i < |list| && IsObjectPrototypeKey(list[i].date))
      <==> exists key :: IsObjectPrototypeKey(key) && RecordsOn(list, key) != []
  {
    if i :| 0 <= i < |list| && IsObjectPrototypeKey(list[i].date) {
      var key := list[i].date;
      RecordsOnCounts(list, key);
      assert list[i] in multiset(list);
      assert multiset(RecordsOn(list, key))[list[i]] > 0;
    }
    if key :| IsObjectPrototypeKey(key) && RecordsOn(list, key) != [] {
      RecordsOnCounts(list, key);
      var x := RecordsOn(list, key)[0];
      assert x in multiset(RecordsOn(list, key));
      assert x in multiset(list);
      var i :| 0 <= i < |list| && list[i] == x;
      assert IsObjectPrototypeKey(list[i].date);
    }
  }

  datatype BucketError = PushIsNotAFunction(date: string)

  /** Appending the next record to its bucket keeps every bucket equal to the
      records of the prefix read so far that carry its date. */
  lemma BucketStep(buckets: map<string, seq<Record>>, list: seq<Record>, i: int, next: map<string, seq<Record>>)
    requires 0 <= i < |list|
    requires forall key :: Lookup(buckets, key) == RecordsOn(list[..i], key)
    requires next == buckets[list[i].date := Lookup(buckets, list[i].date) + [list[i]]]
    ensures forall key :: Lookup(next, key) == RecordsOn(list[..i + 1], key)
  {
    assert list[..i + 1][..i] == list[..i];
  }

  /** The bucketing loop as written, with `map = {}` a plain object: the first
      record whose date names an inherited property raises a TypeError. */
  method BucketByDateAsWritten(list: seq<Record>) returns (result: Result<map<string, seq<Record>>, BucketError>)
    ensures result.Failure? <==> BucketingThrows(list)
    ensures result.Success? ==> forall key :: Lookup(result.value, key) == RecordsOn(list, key)
  {
    var buckets: map<string, seq<Record>> := map[];
    var i := 0;
    while i < |list|
      invariant 0 <= i <= |list|
      invariant forall j :: 0 <= j < i ==> !IsObjectPrototypeKey(list[j].date)
      invariant forall key :: Lookup(buckets, key) == RecordsOn(list[..i], key)
    {
      var r := list[i];
      if IsObjectPrototypeKey(r.date) {
        return Failure(PushIsNotAFunction(r.date));
      }
      BucketStep(buckets, list, i, buckets[r.date := Lookup(buckets, r.date) + [r]]);
      buckets := buckets[r.date := Lookup(buckets, r.date) + [r]];
      i := i + 1;
    }
    assert list[..|list|] == list;
    return Success(buckets);
  }

  /** A record imported with the date "toString" is enough to make the month view
      throw. */
  lemma ToStringDateThrows(r: Record)
    requires r.date == "toString"
    ensures BucketingThrows([r])
  {
    assert [r][0].date == "toString";
  }

  /** The bucketing loop as intended: every date, whatever its text, gets its own
      bucket (as a `Map` or an `Object.create(null)` would give). */
  method BucketByDate(list: seq<Record>) returns (buckets: map<string, seq<Record>>)
    ensures forall key :: Lookup(buckets, key) == RecordsOn(list, key)
    ensures forall key :: key in buckets ==> buckets[key] != []
  {
    buckets := map[];
    for i := 0 to |list|
      invariant forall key :: Lookup(buckets, key) == RecordsOn(list[..i], key)
      invariant forall key :: key in buckets ==> buckets[key] != []
    {
      var r := list[i];
      BucketStep(buckets, list, i, buckets[r.date := Lookup(buckets, r.date) + [r]]);
      buckets := buckets[r.date := Lookup(buckets, r.date) + [r]];
    }
    assert list[..|list|] == list;
  }

  // ---------------------------------------------------------------- thumbnails

  /** One `<img class="mini">` of a cell: the thumbnail, the original's URL and the
      record's name as its title. */
  datatype Thumb = Thumb(src: string, url: string, title: string)

  function PhotoThumbs(r: Record): (t: seq<Thumb>)
    ensures |t| == |r.photos|
  {
    seq(|r.photos|, k requires 0 <= k < |r.photos| => Thumb(r.photos[k].thumb, r.photos[k].url, r.name))
  }

  /** Every thumbnail of the records, in record order and then photo order. */
  function AllThumbs(recs: seq<Record>): seq<Thumb> {
    if recs == [] then [] else AllThumbs(recs[..|recs| - 1]) + PhotoThumbs(recs[|recs| - 1])
  }

  lemma {:induction false} AllThumbsPrefix(recs: seq<Record>, i: int)
    requires 0 <= i <= |recs|
    ensures |AllThumbs(recs[..i])| <= |AllThumbs(recs)|
    ensures AllThumbs(recs[..i]) == AllThumbs(recs)[..|AllThumbs(recs[..i])|]
    decreases |recs|
  {
    if i < |recs| {
      var init := recs[..|recs| - 1];
      assert init[..i] == recs[..i];
      AllThumbsPrefix(init, i);
    } else {
      assert recs[..i] == recs;
    }
  }

  function Min(a: int, b: int): int {
    if a <= b then a else b
  }

  /** The thumbnails a day cell shows. */
  function FirstThumbs(recs: seq<Record>): seq<Thumb> {
    AllThumbs(recs)[..Min(3, |AllThumbs(recs)|)]
  }

  /** The thumbnails of the first `i` records and the first `j` photos of the
      next one start the thumbnails of all the records. */
  lemma ThumbsSoFar(recs: seq<Record>, i: int, j: int)
    requires 0 <= i < |recs| && 0 <= j <= |recs[i].photos|
    ensures var t := AllThumbs(recs[..i]) + PhotoThumbs(recs[i])[..j];
      |t| <= |AllThumbs(recs)| && t == AllThumbs(recs)[..|t|]
  {
    AllThumbsPrefix(recs, i + 1);
    assert recs[..i + 1][..i] == recs[..i];
    var a := AllThumbs(recs[..i]);
    var b := PhotoThumbs(recs[i]);
    assert AllThumbs(recs[..i + 1]) == a + b;
    assert a + b[..j] == (a + b)[..|a| + j];
  }

  /** The thumbnail loop of a cell: at most three thumbnails, taken in order from
      the records' photos. */
  method CollectThumbs(recs: seq<Record>) returns (thumbs: seq<Thumb>)
    ensures |thumbs| == Min(3, |AllThumbs(recs)|)
    ensures thumbs == AllThumbs(recs)[..|thumbs|]
  {
    thumbs := [];
    var i := 0;
    while i < |recs|
      invariant 0 <= i <= |recs|
      invariant thumbs == AllThumbs(recs[..i]) && |thumbs| < 3
    {
      var rec := recs[i];
      assert recs[..i + 1][..i] == recs[..i];
      var j := 0;
      while j < |rec.photos|
        invariant 0 <= j <= |rec.photos|
        invariant thumbs == AllThumbs(recs[..i]) + PhotoThumbs(rec)[..j] && |thumbs| < 3
      {
        var p := rec.photos[j];
        assert PhotoThumbs(rec)[..j + 1] == PhotoThumbs(rec)[..j] + [Thumb(p.thumb, p.url, rec.name)];
        thumbs := thumbs + [Thumb(p.thumb, p.url, rec.name)];
        j := j + 1;
        if |thumbs| >= 3 {
          break;
        }
      }
      if |thumbs| >= 3 {
        ThumbsSoFar(recs, i, j);
        break;
      }
      assert PhotoThumbs(rec)[..j] == PhotoThumbs(rec);
      i := i + 1;
    }
    assert i == |recs| ==> recs[..i] == recs;
  }

  // ---------------------------------------------------------------- the cells

  /** One cell of the grid: a blank, or a day with its key, its record count (the
      badge, shown when not 0) and its thumbnails. */
  datatype Cell = Blank | Day(day: int, key: string, count: nat, thumbs: seq<Thumb>)

  /** How many cells are days. */
  function CountDays(cells: seq<Cell>): nat {
    if cells == [] then 0 else CountDays(cells[..|cells| - 1]) + (if cells[|cells| - 1].Day? then 1 else 0)
  }

  lemma CountDaysAppend(cells: seq<Cell>, c: Cell)
    ensures CountDays(cells + [c]) == CountDays(cells) + (if c.Day? then 1 else 0)
  {
    assert (cells + [c])[..|cells|] == cells;
  }

  /** What the cell loop needs to know of the month: its year and month, the
      Monday-first position of its first day and its length. */
  datatype Layout = Layout(year: int, month: int, firstDay: int, days: int)

  predicate ValidLayout(L: Layout) {
    0 <= L.month < 12 && L.days <= 31
  }

  /** The layout of month `m` of year `y`. */
  function MonthLayout(y: int, m: int): (L: Layout)
    requires 0 <= m < 12
    ensures ValidLayout(L) && L.year == y && L.month == m
    ensures 1 <= L.firstDay <= 7 && 28 <= L.days <= 31
  {
    Layout(y, m, FirstDay(y, m), DaysInMonth(y, m))
  }

  /** Cell `i` of the grid: the day it falls on, with the records of that day,
      or a blank outside the month. */
  function CellAt(list: seq<Record>, L: Layout, i: int): Cell
    requires ValidLayout(L)
  {
    var d := DayAt(L, i);
    if 1 <= d <= L.days then DayCellOf(list, L.year, L.month, d) else Blank
  }

  /** The cell of day `d` of month `m` of year `y`: its key, the number of
      records filed under it and their first three thumbnails. */
  function DayCellOf(list: seq<Record>, y: int, m: int, d: int): Cell
    requires 0 <= m < 12 && 1 <= d <= 31
  {
    var key := DateKey(y, m, d);
    Day(d, key, |RecordsOn(list, key)|, FirstThumbs(RecordsOn(list, key)))
  }

  /** The body of the cell loop: a blank before the first and after the last day,
      otherwise the day's number, key, badge count and thumbnails. */
  method RenderCell(buckets: map<string, seq<Record>>, list: seq<Record>, L: Layout, i: int) returns (cell: Cell)
    requires ValidLayout(L)
    requires forall key :: Lookup(buckets, key) == RecordsOn(list, key)
    ensures cell == CellAt(list, L, i)
  {
    var dayNum := DayAt(L, i);
    if 1 <= dayNum <= L.days {
      var key := DateKey(L.year, L.month, dayNum);
      var recs := Lookup(buckets, key);
      var thumbs := CollectThumbs(recs);
      cell := Day(dayNum, key, |recs|, thumbs);
      DayCell(list, L, i, dayNum, key, recs, thumbs);
    } else {
      cell := Blank;
    }
  }

  /** A day cell built from its parts is the cell `CellAt` describes. */
  lemma DayCell(list: seq<Record>, L: Layout, i: int, d: int, key: string, recs: seq<Record>, thumbs: seq<Thumb>)
    requires ValidLayout(L) && d == DayAt(L, i) && 1 <= d <= L.days
    requires key == DateKey(L.year, L.month, d) && recs == RecordsOn(list, key)
    requires |thumbs| == Min(3, |AllThumbs(recs)|) && thumbs == AllThumbs(recs)[..|thumbs|]
    ensures Day(d, key, |recs|, thumbs) == CellAt(list, L, i)
  {
    assert CellAt(list, L, i) == DayCellOf(list, L.year, L.month, d);
    assert thumbs == FirstThumbs(recs);
  }

  /** How many of the first `i` cells are days. */
  function DaysSoFar(L: Layout, i: int): int {
    Min(L.days, if DayAt(L, i) < 1 then 0 else DayAt(L, i) - 1)
  }

  lemma DaysSoFarStep(list: seq<Record>, L: Layout, i: int)
    requires ValidLayout(L)
    ensures DaysSoFar(L, i + 1) == DaysSoFar(L, i) + (if CellAt(list, L, i).Day? then 1 else 0)
  {
  }

  lemma AppendCell(cells: seq<Cell>, cell: Cell, list: seq<Record>, L: Layout)
    requires ValidLayout(L)
    requires forall k :: 0 <= k < |cells| ==> cells[k] == CellAt(list, L, k)
    requires cell == CellAt(list, L, |cells|)
    ensures forall k :: 0 <= k < |cells| + 1 ==> (cells + [cell])[k] == CellAt(list, L, k)
  {
  }

  /** The cell loop of `renderMonth` over the month `L`, reading each day's
      records from `buckets`. */
  method RenderCells(buckets: map<string, seq<Record>>, list: seq<Record>, L: Layout) returns (cells: seq<Cell>)
    requires ValidLayout(L) && L == MonthLayout(L.year, L.month)
    requires forall key :: Lookup(buckets, key) == RecordsOn(list, key)
    ensures |cells| == CellCount(L.year, L.month)
    ensures CountDays(cells) == DaysInMonth(L.year, L.month)
    ensures forall i :: 0 <= i < |cells| ==> cells[i] == CellAt(list, L, i)
  {
    var firstDay := L.firstDay;
    var days := L.days;
    var total := (firstDay - 1 + days + 6) / 7 * 7;
    CellCountIsLeastWeeks(L.year, L.month);
    cells := [];
    var i := 0;
    while i < total
      invariant 0 <= i <= total && |cells| == i
      invariant CountDays(cells) == DaysSoFar(L, i)
      invariant forall k :: 0 <= k < i ==> cells[k] == CellAt(list, L, k)
    {
      var cell := RenderCell(buckets, list, L, i);
      CountDaysAppend(cells, cell);
      DaysSoFarStep(list, L, i);
      AppendCell(cells, cell, list, L);
      cells := cells + [cell];
      i := i + 1;
    }
  }

  /** `renderMonth` for the month `cursorMonth` of `cursorYear`, given the records
      `render` passed on, with the bucketing as intended (`BucketByDate`).
      Returns the year shown and the cells in grid order. */
  method RenderMonth(list: seq<Record>, cursorYear: int, cursorMonth: int) returns (y: int, cells: seq<Cell>)
    requires 0 <= cursorMonth < 12
    ensures y == DisplayedYear(cursorYear)
    ensures |cells| == CellCount(y, cursorMonth)
    ensures CountDays(cells) == DaysInMonth(y, cursorMonth)
    ensures forall i :: 0 <= i < |cells| ==> cells[i] == CellAt(list, MonthLayout(y, cursorMonth), i)
  {
    y := DisplayedYear(cursorYear);
    var L := MonthLayout(y, cursorMonth);
    var buckets := BucketByDate(list);
    cells := RenderCells(buckets, list, L);
  }

  /** `renderMonth` as written: the bucketing runs on a plain object before the
      grid is cleared, so a date naming an inherited property throws and no cell
      is drawn. Otherwise the cells are those of `RenderMonth`. */
  method RenderMonthAsWritten(list: seq<Record>, cursorYear: int, cursorMonth: int)
    returns (y: int, result: Result<seq<Cell>, BucketError>)
    requires 0 <= cursorMonth < 12
    ensures y == DisplayedYear(cursorYear)
    ensures result.Failure? <==> BucketingThrows(list)
    ensures result.Success? ==>
      var cells := result.value;
      && |cells| == CellCount(y, cursorMonth)
      && CountDays(cells) == DaysInMonth(y, cursorMonth)
      && forall i :: 0 <= i < |cells| ==> cells[i] == CellAt(list, MonthLayout(y, cursorMonth), i)
  {
    y := DisplayedYear(cursorYear);
    var L := MonthLayout(y, cursorMonth);
    var bucketed := BucketByDateAsWritten(list);
    if bucketed.Failure? {
      return y, Failure(bucketed.error);
    }
    var cells := RenderCells(bucketed.value, list, L);
    result := Success(cells);
  }

  /** A cell is a day exactly when it falls inside the month, and a day cell
      shows that day's date key, its number of records and its first three
      thumbnails. */
  lemma CellAtDay(list: seq<Record>, y: int, m: int, i: int, L: Layout)
    requires 0 <= m < 12 && L == MonthLayout(y, m)
    ensures CellAt(list, L, i).Day? <==> 1 <= DayAt(L, i) <= DaysInMonth(y, m)
    ensures CellAt(list, L, i).Day? ==>
      var c := CellAt(list, L, i);
      c.day == DayAt(L, i) && c.key == DateKey(y, m, c.day)
      && c.count == |RecordsOn(list, c.key)| && |c.thumbs| == Min(3, |AllThumbs(RecordsOn(list, c.key))|)
      && c.thumbs == AllThumbs(RecordsOn(list, c.key))[..|c.thumbs|]
  {
  }
}
