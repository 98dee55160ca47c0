/**
 * The JavaScript string operations the app relies on, over `string` (a
 * sequence of `char`): `trim`, `includes`, `localeCompare` (as plain
 * lexicographic order), `Array.prototype.join`, `String(n)` for integers and
 * `padStart`.
 */
module Text {

  /** WhiteSpace and LineTerminator code points (ECMA-262, sections 12.2 and 12.3),
      the characters `String.prototype.trim` removes. */
  predicate IsJsWhiteSpace(c: char) {
    || c == '\t' || c == '\n' || c == '\U{000B}' || c == '\U{000C}' || c == '\r'
    || c == ' ' || c == '\U{00A0}' || c == '\U{1680}'
    || ('\U{2000}' <= c <= '\U{200A}')
    || c == '\U{2028}' || c == '\U{2029}' || c == '\U{202F}' || c == '\U{205F}'
    || c == '\U{3000}' || c == '\U{FEFF}'
  }

  /** Drops leading white space: the result is a suffix of `s` that starts with a
      non-space, and everything dropped is white space. */
  function TrimStart(s: string): (r: string)
    ensures |r| <= |s| && r == s[|s| - |r|..]
    ensures forall k :: 0 <= k < |s| - |r| ==> IsJsWhiteSpace(s[k])
    ensures r != [] ==> !IsJsWhiteSpace(r[0])
    decreases |s|
  {
    if s != [] && IsJsWhiteSpace(s[0]) then TrimStart(s[1..]) else s
  }

  /** Drops trailing white space: the result is a prefix of `s` that ends with a
      non-space, and everything dropped is white space. */
  function TrimEnd(s: string): (r: string)
    ensures |r| <= |s| && r == s[..|r|]
    ensures forall k :: |r| <= k < |s| ==> IsJsWhiteSpace(s[k])
    ensures r != [] ==> !IsJsWhiteSpace(r[|r| - 1])
    decreases |s|
  {
    if s != [] && IsJsWhiteSpace(s[|s| - 1]) then TrimEnd(s[..|s| - 1]) else s
  }

  /** `r` is the slice of `s` starting at `i`, and only white space lies around it. */
  ghost predicate IsTrimOf(s: string, r: string, i: int) {
    && 0 <= i <= |s| - |r|
    && r == s[i..i + |r|]
    && (forall k :: 0 <= k < i ==> IsJsWhiteSpace(s[k]))
    && (forall k :: i + |r| <= k < |s| ==> IsJsWhiteSpace(s[k]))
  }

  /** `String.prototype.trim`: the slice of `s` that neither starts nor ends with
      white space, with only white space around it. */
  function Trim(s: string): (r: string)
    ensures exists i :: IsTrimOf(s, r, i)
    ensures r != [] ==> !IsJsWhiteSpace(r[0]) && !IsJsWhiteSpace(r[|r| - 1])
  {
    var t := TrimStart(s);
    var r := TrimEnd(t);
    assert IsTrimOf(s, r, |s| - |t|);
    r
  }

  /** The trimmed string is empty exactly when the input is all white space. */
  lemma TrimEmptyIff(s: string)
    ensures Trim(s) == [] <==> forall k :: 0 <= k < |s| ==> IsJsWhiteSpace(s[k])
  {
    var r := Trim(s);
    var i :| IsTrimOf(s, r, i);
    if r != [] {
      assert s[i] == r[0];
    }
  }

  predicate StartsWith(s: string, p: string) {
    |p| <= |s| && s[..|p|] == p
  }

  /** `String.prototype.includes`: case-sensitive substring test. */
  predicate Includes(s: string, q: string)
    ensures q == [] ==> Includes(s, q)
    ensures Includes(s, q) ==> |q| <= |s|
    decreases |s|
  {
    StartsWith(s, q) || (s != [] && Includes(s[1..], q))
  }

  /** `q` occurs in `s` at position `i`. */
  ghost predicate OccursAt(s: string, q: string, i: int) {
    0 <= i <= |s| - |q| && s[i..i + |q|] == q
  }

  lemma {:induction false} OccursAtIncludes(s: string, q: string, i: int)
    requires OccursAt(s, q, i)
    ensures Includes(s, q)
    decreases i
  {
    if i > 0 {
      assert OccursAt(s[1..], q, i - 1);
      OccursAtIncludes(s[1..], q, i - 1);
    }
  }

  lemma {:induction false} IncludesOccursAt(s: string, q: string)
    requires Includes(s, q)
    ensures exists i :: OccursAt(s, q, i)
    decreases |s|
  {
    if StartsWith(s, q) {
      assert OccursAt(s, q, 0);
    } else {
      IncludesOccursAt(s[1..], q);
      var i :| OccursAt(s[1..], q, i);
      assert OccursAt(s, q, i + 1);
    }
  }

  /** `Includes` agrees with the definition of "q occurs at some position of s". */
  lemma IncludesIff(s: string, q: string)
    ensures Includes(s, q) <==> exists i :: OccursAt(s, q, i)
  {
    if Includes(s, q) {
      IncludesOccursAt(s, q);
    }
    if i :| OccursAt(s, q, i) {
      OccursAtIncludes(s, q, i);
    }
  }

  /** A one-character query is found exactly where that character occurs. */
  lemma {:induction false} IncludesChar(s: string, c: char)
    ensures Includes(s, [c]) <==> exists k :: 0 <= k < |s| && s[k] == c
    decreases |s|
  {
    if s != [] {
      IncludesChar(s[1..], c);
      assert forall k :: 0 <= k < |s| - 1 ==> s[1..][k] == s[k + 1];
      assert StartsWith(s, [c]) <==> s[0] == c;
      if exists k :: 0 <= k < |s| && s[k] == c {
        var k :| 0 <= k < |s| && s[k] == c;
        if k > 0 {
          assert s[1..][k - 1] == c;
        }
      }
    }
  }

  /** Lexicographic comparison by character code, with the sign convention of
      `localeCompare`: negative when `a` sorts first, 0 when equal. */
  function Compare(a: string, b: string): (c: int)
    ensures -1 <= c <= 1
  {
    if a == [] then (if b == [] then 0 else -1)
    else if b == [] then 1
    else if a[0] < b[0] then -1
    else if a[0] > b[0] then 1
    else Compare(a[1..], b[1..])
  }

  lemma {:induction false} CompareAntisymmetric(a: string, b: string)
    ensures Compare(a, b) == -Compare(b, a)
  {
    if a != [] && b != [] && a[0] == b[0] {
      CompareAntisymmetric(a[1..], b[1..]);
    }
  }

  lemma {:induction false} CompareZeroIff(a: string, b: string)
    ensures Compare(a, b) == 0 <==> a == b
  {
    if a != [] && b != [] && a[0] == b[0] {
      CompareZeroIff(a[1..], b[1..]);
      assert a == [a[0]] + a[1..] && b == [b[0]] + b[1..];
    }
  }

  lemma {:induction false} CompareTransitive(a: string, b: string, c: string)
    requires Compare(a, b) <= 0 && Compare(b, c) <= 0
    ensures Compare(a, c) <= 0
  {
    if a != [] && b != [] && c != [] && a[0] == b[0] == c[0] {
      CompareTransitive(a[1..], b[1..], c[1..]);
    }
  }

  /** `a` and `b` agree on their first `k` characters, after which `a` ends while
      `b` goes on, or `a` has the smaller character. */
  ghost predicate LexLessAt(a: string, b: string, k: int) {
    && 0 <= k <= |a| && k <= |b| && a[..k] == b[..k]
    && ((k == |a| && k < |b|) || (k < |a| && k < |b| && a[k] < b[k]))
  }

  lemma {:induction false} LexLessAtCompare(a: string, b: string, k: int)
    requires LexLessAt(a, b, k)
    ensures Compare(a, b) < 0
    decreases k
  {
    if k > 0 {
      assert a[0] == a[..k][0] && b[0] == b[..k][0];
      assert a[1..][..k - 1] == a[..k][1..] && b[1..][..k - 1] == b[..k][1..];
      LexLessAtCompare(a[1..], b[1..], k - 1);
    }
  }

  lemma {:induction false} CompareLexLessAt(a: string, b: string)
    requires Compare(a, b) < 0
    ensures exists k :: LexLessAt(a, b, k)
  {
    if a == [] || a[0] < b[0] {
      assert LexLessAt(a, b, 0);
    } else {
      CompareLexLessAt(a[1..], b[1..]);
      var k :| LexLessAt(a[1..], b[1..], k);
      assert a[..k + 1] == [a[0]] + a[1..][..k] && b[..k + 1] == [b[0]] + b[1..][..k];
      assert LexLessAt(a, b, k + 1);
    }
  }

  /** `Compare` is the usual lexicographic order: `a` sorts before `b` exactly when
      `a` is a proper prefix of `b` or, at the first position where they differ,
      `a` has the smaller character. */
  lemma CompareNegativeIff(a: string, b: string)
    ensures Compare(a, b) < 0 <==> exists k :: LexLessAt(a, b, k)
  {
    if Compare(a, b) < 0 {
      CompareLexLessAt(a, b);
    }
    if k :| LexLessAt(a, b, k) {
      LexLessAtCompare(a, b, k);
    }
  }

  // Sequence identities the proofs use in small, separate steps.

  lemma AppendAssoc<T>(a: seq<T>, b: seq<T>, c: seq<T>)
    ensures (a + b) + c == a + (b + c)
  {
  }

  lemma DropPrefix<T>(p: seq<T>, t: seq<T>)
    ensures (p + t)[|p|..] == t
  {
  }

  lemma HeadTail<T>(s: seq<T>)
    requires s != []
    ensures [s[0]] + s[1..] == s
  {
  }

  /** `Array.prototype.join` on strings. */
  function Join(parts: seq<string>, sep: string): string {
    if |parts| == 0 then ""
    else if |parts| == 1 then parts[0]
    else parts[0] + sep + Join(parts[1..], sep)
  }

  predicate IsDigit(c: char) {
    '0' <= c <= '9'
  }

  function DigitChar(d: nat): (c: char)
    requires d < 10
    ensures IsDigit(c) && c as int - '0' as int == d
  {
    ('0' as int + d) as char
  }

  /** Decimal digits of `n`, most significant first, with no leading zero. */
  function NatToDecimal(n: nat): (s: string)
    ensures |s| >= 1 && forall k :: 0 <= k < |s| ==> IsDigit(s[k])
    ensures (s[0] == '0') == (n == 0)
    decreases n
  {
    if n < 10 then [DigitChar(n)] else NatToDecimal(n / 10) + [DigitChar(n % 10)]
  }

  function DigitValue(c: char): (d: nat)
    requires IsDigit(c)
    ensures d < 10
  {
    c as int - '0' as int
  }

  /** The value of a string of decimal digits. */
  function DecimalValue(s: string): nat
    requires forall k :: 0 <= k < |s| ==> IsDigit(s[k])
  {
    if s == [] then 0
    else DecimalValue(s[..|s| - 1]) * 10 + DigitValue(s[|s| - 1])
  }

  lemma {:induction false} DecimalRoundTrip(n: nat)
    ensures DecimalValue(NatToDecimal(n)) == n
    decreases n
  {
    if n >= 10 {
      DecimalRoundTrip(n / 10);
      var s := NatToDecimal(n);
      assert s[..|s| - 1] == NatToDecimal(n / 10);
    }
  }

  /** `String(n)` for an integer: an optional minus sign, then its decimal digits. */
  function IntToDecimal(n: int): string {
    if n < 0 then "-" + NatToDecimal(-n) else NatToDecimal(n)
  }

  /** The value of `IntToDecimal`'s output. */
  function SignedDecimalValue(s: string): int
    requires (s != [] && s[0] == '-') ==> forall k :: 1 <= k < |s| ==> IsDigit(s[k])
    requires (s == [] || s[0] != '-') ==> forall k :: 0 <= k < |s| ==> IsDigit(s[k])
  {
    if s != [] && s[0] == '-' then -(DecimalValue(s[1..]) as int) else DecimalValue(s)
  }

  lemma IntDecimalRoundTrip(n: int)
    ensures var s := IntToDecimal(n);
      (s != [] && s[0] == '-') == (n < 0)
      && (n < 0 ==> forall k :: 1 <= k < |s| ==> IsDigit(s[k]))
      && (n >= 0 ==> forall k :: 0 <= k < |s| ==> IsDigit(s[k]))
      && SignedDecimalValue(s) == n
  {
    var s := IntToDecimal(n);
    if n < 0 {
      assert s[1..] == NatToDecimal(-n);
      DecimalRoundTrip(-n);
    } else {
      DecimalRoundTrip(n);
    }
  }

  /** `String.prototype.padStart(width, fill)` with a one-character fill. */
  function PadStart(s: string, width: nat, fill: char): (r: string)
    ensures |r| == if |s| >= width then |s| else width
    ensures r[|r| - |s|..] == s
    ensures forall k :: 0 <= k < |r| - |s| ==> r[k] == fill
  {
    if |s| >= width then s else seq(width - |s|, _ => fill) + s
  }
}
