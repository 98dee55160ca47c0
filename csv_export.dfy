/**
 * `exportCSV`: a header row and one row per record, every field quoted and every
 * `"` inside it doubled (the quoting rule of section 2 of RFC 4180), fields
 * separated by `,` and rows by `\n`. A reader of that format is defined here as
 * well, so that the rows it writes can be shown to read back exactly.
 */
module CsvExport {
  import opened Wrappers
  import opened Records
  import opened Text

  /** `replace(/"/g, '""')`: every double quote doubled, nothing else changed. */
  function DoubleQuotes(v: string): (e: string)
    ensures |e| >= |v|
    ensures (forall k :: 0 <= k < |v| ==> v[k] != '"') ==> e == v
  {
    if v == [] then []
    else (if v[0] == '"' then "\"\"" else [v[0]]) + DoubleQuotes(v[1..])
  }

  /** One field as written: `"` + the value with its quotes doubled + `"`. */
  function Quote(v: string): (q: string)
    ensures |q| >= |v| + 2 && q[0] == '"' && q[|q| - 1] == '"'
  {
    "\"" + DoubleQuotes(v) + "\""
  }

  /** `row.map(quote)`: every field of the row, quoted, reads back as itself. */
  function QuoteAll(row: seq<string>): (q: seq<string>)
    ensures |q| == |row|
    ensures forall k :: 0 <= k < |row| ==> ParseField(q[k]) == Some((row[k], ""))
  {
    FieldsReadBack(row);
    seq(|row|, k requires 0 <= k < |row| => Quote(row[k]))
  }

  lemma FieldsReadBack(row: seq<string>)
    ensures forall k :: 0 <= k < |row| ==> ParseField(Quote(row[k])) == Some((row[k], ""))
  {
    forall k | 0 <= k < |row|
      ensures ParseField(Quote(row[k])) == Some((row[k], ""))
    {
      FieldRoundTrip(row[k], "");
      assert Quote(row[k]) + "" == Quote(row[k]);
    }
  }

  /** `r.photos.map(p => p.url).join('|')`. */
  function PhotoUrls(photos: seq<Photo>): string {
    Join(seq(|photos|, k requires 0 <= k < |photos| => photos[k].url), "|")
  }

  /** The names of the three columns, in order. */
  function Header(): seq<string> {
    ["date", "name", "photo_urls"]
  }

  /** The three values exported for a record. */
  function RecordRow(r: Record): seq<string> {
    [r.date, r.name, PhotoUrls(r.photos)]
  }

  /** The rows of the file: the header, then one row per record in list order,
      each as wide as the header and starting with the record's date and name. */
  function Rows(list: seq<Record>): (rows: seq<seq<string>>)
    ensures |rows| == |list| + 1 && rows[0] == Header()
    ensures forall i :: 0 <= i < |rows| ==> |rows[i]| == |Header()|
    ensures forall i :: 0 <= i < |list| ==> rows[i + 1][0] == list[i].date && rows[i + 1][1] == list[i].name
  {
    [Header()] + seq(|list|, i requires 0 <= i < |list| => RecordRow(list[i]))
  }

  /** `row.map(quote).join(',')`. */
  function EncodeRow(row: seq<string>): string {
    Join(QuoteAll(row), ",")
  }

  /** `rows.map(row => row.map(quote).join(','))`: each non-empty row becomes a
      line that reads back as that row. */
  function EncodeRows(rows: seq<seq<string>>): (lines: seq<string>)
    ensures |lines| == |rows|
    ensures forall i :: 0 <= i < |rows| && rows[i] != [] ==> ParseRow(lines[i]) == Some((rows[i], ""))
  {
    LinesReadBack(rows);
    seq(|rows|, i requires 0 <= i < |rows| => EncodeRow(rows[i]))
  }

  lemma LinesReadBack(rows: seq<seq<string>>)
    ensures forall i :: 0 <= i < |rows| && rows[i] != [] ==> ParseRow(EncodeRow(rows[i])) == Some((rows[i], ""))
  {
    forall i | 0 <= i < |rows| && rows[i] != []
      ensures ParseRow(EncodeRow(rows[i])) == Some((rows[i], ""))
    {
      RowRoundTrip(rows[i], "");
      assert EncodeRow(rows[i]) + "" == EncodeRow(rows[i]);
    }
  }

  /** The text of the exported file. */
  function ExportCsv(list: seq<Record>): string {
    Join(EncodeRows(Rows(list)), "\n")
  }

  // ------------------------------------------------------------------- reading

  /** Reads the inside of a quoted field up to its closing quote, turning each
      `""` back into `"`; returns the value and what follows the closing quote. */
  function ParseQuotedBody(s: string): (r: Option<(string, string)>)
    ensures r.Some? ==> |r.value.1| < |s|
    decreases |s|
  {
    if s == [] then None
    else if s[0] == '"' then
      if |s| >= 2 && s[1] == '"' then
        match ParseQuotedBody(s[2..])
        case None => None
        case Some((v, rest)) => Some(("\"" + v, rest))
      else Some(([], s[1..]))
    else
      match ParseQuotedBody(s[1..])
      case None => None
      case Some((v, rest)) => Some(([s[0]] + v, rest))
  }

  /** One quoted field. */
  function ParseField(s: string): (r: Option<(string, string)>)
    ensures r.Some? ==> |r.value.1| < |s|
  {
    if s == [] || s[0] != '"' then None else ParseQuotedBody(s[1..])
  }

  /** The fields of one row, up to the first character after a field that is not
      a `,`. */
  function ParseRow(s: string): (r: Option<(seq<string>, string)>)
    ensures r.Some? ==> |r.value.1| < |s| && r.value.0 != []
    decreases |s|
  {
    match ParseField(s)
    case None => None
    case Some((v, rest)) =>
      if rest != [] && rest[0] == ',' then
        match ParseRow(rest[1..])
        case None => None
        case Some((vs, rest')) => Some(([v] + vs, rest'))
      else Some(([v], rest))
  }

  /** A whole file of quoted fields: rows separated by `\n`. */
  function ParseCsv(s: string): Option<seq<seq<string>>>
    decreases |s|
  {
    match ParseRow(s)
    case None => None
    case Some((row, rest)) =>
      if rest == [] then Some([row])
      else if rest[0] == '\n' then
        match ParseCsv(rest[1..])
        case None => None
        case Some(rows) => Some([row] + rows)
      else None
  }

  // ---------------------------------------------------------------- round trip

  /** Un-doubling the quotes of an escaped value, up to the closing quote, gives
      the value back and leaves what follows untouched, as long as what follows
      does not start with another quote. */
  lemma {:induction false} QuotedBodyRoundTrip(v: string, rest: string)
    requires rest == [] || rest[0] != '"'
    ensures ParseQuotedBody(DoubleQuotes(v) + "\"" + rest) == Some((v, rest))
    decreases |v|
  {
    if v == [] {
      DropPrefix("\"", rest);
    } else {
      QuotedBodyRoundTrip(v[1..], rest);
      var p := if v[0] == '"' then "\"\"" else [v[0]];
      var d := DoubleQuotes(v[1..]);
      assert DoubleQuotes(v) == p + d;
      AppendAssoc(p, d, "\"");
      AppendAssoc(p, d + "\"", rest);
      DropPrefix(p, d + "\"" + rest);
      HeadTail(v);
    }
  }

  lemma FieldRoundTrip(v: string, rest: string)
    requires rest == [] || rest[0] != '"'
    ensures ParseField(Quote(v) + rest) == Some((v, rest))
  {
    QuotedBodyRoundTrip(v, rest);
    assert (Quote(v) + rest)[1..] == DoubleQuotes(v) + "\"" + rest;
  }

  lemma EncodeRowCons(row: seq<string>)
    requires |row| >= 2
    ensures EncodeRow(row) == Quote(row[0]) + ("," + EncodeRow(row[1..]))
  {
    assert QuoteAll(row[1..]) == QuoteAll(row)[1..];
  }

  /** A row reads back as its values, provided what follows it starts with
      neither a `,` nor a `"`. */
  lemma {:induction false} RowRoundTrip(row: seq<string>, rest: string)
    requires row != []
    requires rest == [] || (rest[0] != ',' && rest[0] != '"')
    ensures ParseRow(EncodeRow(row) + rest) == Some((row, rest))
    decreases |row|
  {
    if |row| == 1 {
      assert QuoteAll(row) == [Quote(row[0])];
      assert EncodeRow(row) == Quote(row[0]);
      FieldRoundTrip(row[0], rest);
      LastRow(EncodeRow(row) + rest, row, rest);
    } else {
      var tail := row[1..];
      EncodeRowCons(row);
      RowRoundTrip(tail, rest);
      var more := EncodeRow(tail) + rest;
      AppendAssoc(Quote(row[0]), "," + EncodeRow(tail), rest);
      AppendAssoc(",", EncodeRow(tail), rest);
      FieldRoundTrip(row[0], "," + more);
      NextField(EncodeRow(row) + rest, row, "," + more, more, rest);
    }
  }

  /** The last field of a row. */
  lemma LastRow(s: string, row: seq<string>, rest: string)
    requires |row| == 1 && ParseField(s) == Some((row[0], rest))
    requires rest == [] || rest[0] != ','
    ensures ParseRow(s) == Some((row, rest))
  {
    assert row == [row[0]];
  }

  /** A field followed by `,` and the rest of the row. */
  lemma NextField(s: string, row: seq<string>, after: string, more: string, rest: string)
    requires row != [] && ParseField(s) == Some((row[0], after))
    requires after == "," + more && ParseRow(more) == Some((row[1..], rest))
    ensures ParseRow(s) == Some((row, rest))
  {
    assert after[1..] == more;
    assert [row[0]] + row[1..] == row;
  }

  lemma {:induction false} RowsRoundTrip(rows: seq<seq<string>>)
    requires rows != []
    requires forall i :: 0 <= i < |rows| ==> rows[i] != []
    ensures ParseCsv(Join(EncodeRows(rows), "\n")) == Some(rows)
    decreases |rows|
  {
    var lines := EncodeRows(rows);
    if |rows| == 1 {
      RowRoundTrip(rows[0], []);
      assert EncodeRow(rows[0]) + [] == EncodeRow(rows[0]);
      assert Join(lines, "\n") == EncodeRow(rows[0]);
      assert rows == [rows[0]];
    } else {
      var tail := rows[1..];
      EncodeRowsTail(rows);
      RowsRoundTrip(tail);
      var more := Join(EncodeRows(tail), "\n");
      JoinCons(lines, "\n");
      RowRoundTrip(rows[0], "\n" + more);
      NextRow(Join(lines, "\n"), rows, "\n" + more, more);
    }
  }

  lemma EncodeRowsTail(rows: seq<seq<string>>)
    requires rows != []
    ensures EncodeRows(rows[1..]) == EncodeRows(rows)[1..]
  {
  }

  lemma JoinCons(parts: seq<string>, sep: string)
    requires |parts| >= 2
    ensures Join(parts, sep) == parts[0] + (sep + Join(parts[1..], sep))
  {
    AppendAssoc(parts[0], sep, Join(parts[1..], sep));
  }

  /** A row followed by `\n` and the rest of the file. */
  lemma NextRow(s: string, rows: seq<seq<string>>, after: string, more: string)
    requires rows != [] && ParseRow(s) == Some((rows[0], after))
    requires after == "\n" + more && ParseCsv(more) == Some(rows[1..])
    ensures ParseCsv(s) == Some(rows)
  {
    assert after[1..] == more;
    assert [rows[0]] + rows[1..] == rows;
  }

  /** Reading the exported file gives back the header and, row by row, each
      record's date, name and photo column. */
  lemma ExportRoundTrip(list: seq<Record>)
    ensures ParseCsv(ExportCsv(list)) == Some(Rows(list))
  {
    RowsRoundTrip(Rows(list));
  }

  /** A value without quotes is written as itself between quotes. */
  lemma NoQuoteField(v: string)
    requires forall k :: 0 <= k < |v| ==> v[k] != '"'
    ensures Quote(v) == "\"" + v + "\""
  {
  }

  lemma JoinThree(a: string, b: string, c: string, sep: string)
    ensures Join([a, b, c], sep) == a + sep + b + sep + c
  {
    assert [a, b, c][1..] == [b, c];
    assert [b, c][1..] == [c];
    assert Join([c], sep) == c;
    assert Join([b, c], sep) == b + sep + c;
    assert a + sep + (b + sep + c) == a + sep + b + sep + c;
  }

  lemma QuoteAllThree(row: seq<string>)
    requires |row| == 3
    ensures QuoteAll(row) == [Quote(row[0]), Quote(row[1]), Quote(row[2])]
  {
  }

  /** The header line is `"date","name","photo_urls"`: three quoted fields. */
  lemma HeaderLine()
    ensures EncodeRow(Header()) == Quote(Header()[0]) + "," + Quote(Header()[1]) + "," + Quote(Header()[2])
  {
    QuoteAllThree(Header());
    JoinThree(Quote(Header()[0]), Quote(Header()[1]), Quote(Header()[2]), ",");
  }

  /** The header names contain no quote, so each is written as itself between
      quotes. */
  lemma HeaderUnescaped()
    ensures forall k :: 0 <= k < |Header()| ==> Quote(Header()[k]) == "\"" + Header()[k] + "\""
  {
    forall k | 0 <= k < |Header()|
      ensures Quote(Header()[k]) == "\"" + Header()[k] + "\""
    {
      var h := Header()[k];
      assert forall j :: 0 <= j < |h| ==> h[j] != '"';
      NoQuoteField(h);
    }
  }

  lemma JoinStartsWithFirst(parts: seq<string>, sep: string)
    requires |parts| >= 1
    ensures |parts[0]| <= |Join(parts, sep)| && Join(parts, sep)[..|parts[0]|] == parts[0]
  {
    if |parts| > 1 {
      assert Join(parts, sep) == parts[0] + (sep + Join(parts[1..], sep));
    }
  }

  /** The file starts with the header line. */
  lemma ExportStartsWithHeader(list: seq<Record>)
    ensures var h := EncodeRow(Header());
      |h| <= |ExportCsv(list)| && ExportCsv(list)[..|h|] == h
  {
    JoinStartsWithFirst(EncodeRows(Rows(list)), "\n");
  }

  // ------------------------------------------------------------- photo column

  /** `s.split(c)` for one character `c`. */
  function SplitOn(s: string, c: char): (parts: seq<string>)
    ensures |parts| >= 1
    decreases |s|
  {
    if s == [] then [""]
    else if s[0] == c then [""] + SplitOn(s[1..], c)
    else
      var t := SplitOn(s[1..], c);
      [[s[0]] + t[0]] + t[1..]
  }

  lemma {:induction false} SplitPart(p: string, c: char, rest: string)
    requires !Includes(p, [c])
    ensures SplitOn(p + [c] + rest, c) == [p] + SplitOn(rest, c)
    ensures SplitOn(p, c) == [p]
    decreases |p|
  {
    IncludesChar(p, c);
    if p != [] {
      assert forall k :: 0 <= k < |p| - 1 ==> p[1..][k] == p[k + 1];
      IncludesChar(p[1..], c);
      SplitPart(p[1..], c, rest);
      assert (p + [c] + rest)[1..] == p[1..] + [c] + rest;
      assert [p[0]] + p[1..] == p;
    } else {
      assert p + [c] + rest == [c] + rest;
    }
  }

  /** Joining with `c` and splitting on `c` gives the parts back, as long as no
      part contains `c` and there is at least one part. */
  lemma {:induction false} SplitJoin(parts: seq<string>, c: char)
    requires |parts| >= 1
    requires forall i :: 0 <= i < |parts| ==> !Includes(parts[i], [c])
    ensures SplitOn(Join(parts, [c]), c) == parts
    decreases |parts|
  {
    if |parts| == 1 {
      SplitPart(parts[0], c, []);
    } else {
      SplitJoin(parts[1..], c);
      SplitPart(parts[0], c, Join(parts[1..], [c]));
      assert [parts[0]] + parts[1..] == parts;
    }
  }

  /** The photo column of a record with photos splits on `|` into its URLs, as
      long as no URL contains a `|`. */
  lemma PhotoUrlsRoundTrip(photos: seq<Photo>)
    requires |photos| >= 1
    requires forall k :: 0 <= k < |photos| ==> !Includes(photos[k].url, "|")
    ensures SplitOn(PhotoUrls(photos), '|') == seq(|photos|, k requires 0 <= k < |photos| => photos[k].url)
  {
    var urls := seq(|photos|, k requires 0 <= k < |photos| => photos[k].url);
    assert forall i :: 0 <= i < |urls| ==> urls[i] == photos[i].url;
    SplitJoin(urls, '|');
  }

  /** Where the photo column cannot be split back: a record without photos and
      one whose only URL is empty write the same column, and a URL holding a `|`
      comes back as two. */
  lemma PhotoColumnLimits(t: string)
    ensures PhotoUrls([]) == PhotoUrls([Photo("", t)]) == ""
    ensures SplitOn(PhotoUrls([Photo("a|b", t)]), '|') == ["a", "b"]
  {
    var urls := seq(1, k requires 0 <= k < 1 => [Photo("a|b", t)][k].url);
    assert urls == ["a|b"];
    var empty := seq(1, k requires 0 <= k < 1 => [Photo("", t)][k].url);
    assert empty == [""];
    IncludesChar("a", '|');
    IncludesChar("b", '|');
    SplitPart("a", '|', "b");
    SplitPart("b", '|', "");
    assert "a" + ['|'] + "b" == "a|b";
  }
}
