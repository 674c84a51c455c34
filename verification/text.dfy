/** String rules the store, the server and the browser script rely on: JavaScript's
    white space (`\s`, `trim`), `\d`, `toLowerCase`, `includes`, `join`, the order
    `localeCompare` stands for, decimal numerals, and the phone pattern shared by
    server.js:23 and public/script.js:41. */
module Text {

  /** JavaScript's `\d`: an ASCII decimal digit. */
  predicate IsDigit(c: char) {
    '0' <= c <= '9'
  }

  predicate AllDigits(s: string) {
    forall k :: 0 <= k < |s| ==> IsDigit(s[k])
  }

  /** JavaScript's `\s`, which is also the set `String.prototype.trim` removes. */
  predicate IsSpace(c: char) {
    c == '\t' || c == '\n' || c == '\U{0B}' || c == '\U{0C}' || c == '\r' || c == ' ' ||
    c == '\U{A0}' || c == '\U{1680}' || ('\U{2000}' <= c <= '\U{200A}') ||
    c == '\U{2028}' || c == '\U{2029}' || c == '\U{202F}' || c == '\U{205F}' ||
    c == '\U{3000}' || c == '\U{FEFF}'
  }

  /** Empty or made of white space only. */
  predicate IsBlank(s: string) {
    forall k :: 0 <= k < |s| ==> IsSpace(s[k])
  }

  /** How many white-space characters `s` starts with. */
  function LeadingSpaces(s: string): (n: nat)
    ensures n <= |s|
    ensures forall k :: 0 <= k < n ==> IsSpace(s[k])
    ensures n < |s| ==> !IsSpace(s[n])
  {
    if s != [] && IsSpace(s[0]) then 1 + LeadingSpaces(s[1..]) else 0
  }

  /** How many white-space characters `s` ends with. */
  function TrailingSpaces(s: string): (n: nat)
    ensures n <= |s|
    ensures forall k :: |s| - n <= k < |s| ==> IsSpace(s[k])
    ensures n < |s| ==> !IsSpace(s[|s| - n - 1])
  {
    if s != [] && IsSpace(s[|s| - 1]) then 1 + TrailingSpaces(s[..|s| - 1]) else 0
  }

  /** `String.prototype.trim`: `s` without its leading and trailing white space. */
  function Trim(s: string): (r: string)
    ensures r == "" <==> IsBlank(s)
    ensures r != "" ==> !IsSpace(r[0]) && !IsSpace(r[|r| - 1])
    ensures exists i, j :: 0 <= i <= j <= |s| && r == s[i..j] && IsBlank(s[..i]) && IsBlank(s[j..])
  {
    var i := LeadingSpaces(s);
    var j := if i == |s| then |s| else |s| - TrailingSpaces(s);
    assert i < |s| ==> i < j;
    assert IsBlank(s[..i]);
    assert IsBlank(s[j..]);
    s[i..j]
  }

  /** `toLowerCase` on one character: ASCII and Latin-1 capitals. */
  function LowerChar(c: char): char {
    if 'A' <= c <= 'Z' || ('\U{C0}' <= c <= '\U{DE}' && c != '\U{D7}') then
      (c as int + 32) as char
    else
      c
  }

  /** `String.prototype.toLowerCase`, character by character. */
  function Lower(s: string): string {
    seq(|s|, k requires 0 <= k < |s| => LowerChar(s[k]))
  }

  /** Lower-casing twice is lower-casing once. */
  lemma LowerIdempotent(s: string)
    ensures Lower(Lower(s)) == Lower(s)
  {
  }

  /** `hay.includes(needle)`, scanning from the left. */
  predicate Contains(hay: string, needle: string)
    decreases |hay|
  {
    needle <= hay || (hay != [] && Contains(hay[1..], needle))
  }

  /** `needle` occurs in `hay` starting at position `k`. */
  predicate OccursAt(hay: string, needle: string, k: int) {
    0 <= k <= |hay| - |needle| && hay[k..k + |needle|] == needle
  }

  /** `includes` holds exactly when the needle occurs at some position of the hay. */
  lemma {:induction false} ContainsAt(hay: string, needle: string)
    ensures Contains(hay, needle) <==> exists k :: OccursAt(hay, needle, k)
    decreases |hay|
  {
    OccursAtStart(hay, needle);
    if hay != [] {
      ContainsAt(hay[1..], needle);
      if exists k :: OccursAt(hay[1..], needle, k) {
        var k :| OccursAt(hay[1..], needle, k);
        OccursAtShift(hay, needle, k);
      }
      if exists k :: OccursAt(hay, needle, k) && k != 0 {
        var k :| OccursAt(hay, needle, k) && k != 0;
        OccursAtShift(hay, needle, k - 1);
      }
    }
  }

  /** Occurring at the start is being a prefix. */
  lemma OccursAtStart(hay: string, needle: string)
    ensures OccursAt(hay, needle, 0) <==> needle <= hay
  {
  }

  /** Dropping the first character moves every occurrence one place left. */
  lemma OccursAtShift(hay: string, needle: string, k: int)
    requires hay != [] && 0 <= k
    ensures OccursAt(hay[1..], needle, k) <==> OccursAt(hay, needle, k + 1)
  {
    if 0 <= k <= |hay| - 1 - |needle| {
      assert hay[1..][k..k + |needle|] == hay[k + 1..k + 1 + |needle|];
    }
  }

  /** A string ends with, and so contains, what was appended to it. */
  lemma ContainsSuffix(a: string, b: string)
    ensures Contains(a + b, b)
  {
    assert OccursAt(a + b, b, |a|);
    ContainsAt(a + b, b);
  }

  /** Appending to a string keeps what it contains. */
  lemma ContainsExtend(a: string, b: string, needle: string)
    requires Contains(a, needle)
    ensures Contains(a + b, needle)
  {
    ContainsAt(a, needle);
    var k :| OccursAt(a, needle, k);
    assert (a + b)[k..k + |needle|] == a[k..k + |needle|];
    assert OccursAt(a + b, needle, k);
    ContainsAt(a + b, needle);
  }

  /** A needle holding a character the hay lacks is not contained in it. */
  lemma NotContainsMissingChar(hay: string, needle: string, c: char)
    requires c in needle && c !in hay
    ensures !Contains(hay, needle)
  {
    ContainsAt(hay, needle);
  }

  /** Code-point lexicographic order on strings: `LexLe(a, b)` stands for
      `a.localeCompare(b) <= 0`. */
  predicate LexLe(a: string, b: string) {
    a == [] || (b != [] && (a[0] < b[0] || (a[0] == b[0] && LexLe(a[1..], b[1..]))))
  }

  lemma {:induction false} LexLeTotal(a: string, b: string)
    ensures LexLe(a, b) || LexLe(b, a)
  {
    if a != [] && b != [] && a[0] == b[0] {
      LexLeTotal(a[1..], b[1..]);
    }
  }

  lemma {:induction false} LexLeTransitive(a: string, b: string, c: string)
    requires LexLe(a, b) && LexLe(b, c)
    ensures LexLe(a, c)
  {
    if a != [] && a[0] == b[0] && b[0] == c[0] {
      LexLeTransitive(a[1..], b[1..], c[1..]);
    }
  }

  lemma {:induction false} LexLeAntisymmetric(a: string, b: string)
    requires LexLe(a, b) && LexLe(b, a)
    ensures a == b
  {
    if a != [] {
      LexLeAntisymmetric(a[1..], b[1..]);
      assert a == [a[0]] + a[1..] && b == [b[0]] + b[1..];
    }
  }

  function DigitChar(d: nat): (c: char)
    requires d < 10
    ensures IsDigit(c) && c as int - '0' as int == d
  {
    ('0' as int + d) as char
  }

  /** The decimal numeral of `n`, as template literals print a number. */
  function NatToString(n: nat): (r: string)
    ensures r != [] && AllDigits(r)
    decreases n
  {
    if n < 10 then [DigitChar(n)] else NatToString(n / 10) + [DigitChar(n % 10)]
  }

  /** The value of a decimal numeral. */
  function ParseNat(s: string): nat
    requires AllDigits(s)
  {
    if s == [] then 0 else 10 * ParseNat(s[..|s| - 1]) + (s[|s| - 1] as int - '0' as int)
  }

  /** Printing a number and reading it back gives the number. */
  lemma {:induction false} ParseNatToString(n: nat)
    ensures ParseNat(NatToString(n)) == n
    decreases n
  {
    if n >= 10 {
      var s := NatToString(n);
      assert s[..|s| - 1] == NatToString(n / 10);
      ParseNatToString(n / 10);
    }
  }

  /** `Array.prototype.join(sep)`. */
  function Join(parts: seq<string>, sep: string): string {
    if parts == [] then ""
    else if |parts| == 1 then parts[0]
    else parts[0] + sep + Join(parts[1..], sep)
  }

  /** The pieces of `s` between the occurrences of `c`, as `String.prototype.split(c)`
      returns them (so `""` splits into `[""]`). */
  function Split(s: string, c: char): (r: seq<string>)
    ensures r != []
    decreases |s|
  {
    if c !in s then [s]
    else
      var i := FirstIndexOf(s, c);
      [s[..i]] + Split(s[i + 1..], c)
  }

  function FirstIndexOf(s: string, c: char): (i: nat)
    requires c in s
    ensures i < |s| && s[i] == c && c !in s[..i]
  {
    if s[0] == c then 0
    else
      assert c in s[1..] by { var k :| 0 <= k < |s| && s[k] == c; assert s[1..][k - 1] == c; }
      var j := FirstIndexOf(s[1..], c);
      assert s[..j + 1] == [s[0]] + s[1..][..j];
      j + 1
  }

  /** Splitting at a separator that follows a separator-free piece yields that piece
      first. */
  lemma SplitAtFirst(a: string, c: char, rest: string)
    requires c !in a
    ensures Split(a + [c] + rest, c) == [a] + Split(rest, c)
  {
    var s := a + [c] + rest;
    var n := |a|;
    assert s[n] == c && s[..n] == a && s[n + 1..] == rest;
    var i := FirstIndexOf(s, c);
  }

  /** Joining pieces that do not contain the separator and splitting again gives the pieces. */
  lemma {:induction false} SplitJoin(parts: seq<string>, c: char)
    requires parts != []
    requires forall part :: part in parts ==> c !in part
    ensures Split(Join(parts, [c]), c) == parts
  {
    if |parts| > 1 {
      var rest := Join(parts[1..], [c]);
      assert Join(parts, [c]) == parts[0] + [c] + rest;
      assert parts[0] in parts;
      assert forall part :: part in parts[1..] ==> part in parts;
      SplitAtFirst(parts[0], c, rest);
      SplitJoin(parts[1..], c);
      assert parts == [parts[0]] + parts[1..];
    }
  }

  /** The phone pattern `^\(\d{2}\) \d{4,5}-\d{4}$` of server.js:23 and
      public/script.js:41: a parenthesised two-digit area code, a space, four or
      five digits, a hyphen and four digits, and nothing else. */
  predicate MatchesPhonePattern(s: string) {
    && (|s| == 14 || |s| == 15)
    && s[0] == '(' && AllDigits(s[1..3]) && s[3] == ')' && s[4] == ' '
    && AllDigits(s[5..|s| - 5]) && s[|s| - 5] == '-' && AllDigits(s[|s| - 4..])
  }

  /** A string of the phone pattern is its area code, number and line put back
      between the pattern's punctuation. */
  lemma PhoneParts(s: string)
    requires MatchesPhonePattern(s)
    ensures s == "(" + s[1..3] + ") " + s[5..|s| - 5] + "-" + s[|s| - 4..]
  {
  }

  /** The phone pattern read as the language the regular expression denotes. */
  ghost predicate PhoneShape(s: string) {
    exists area: string, number: string, line: string ::
      && |area| == 2 && AllDigits(area)
      && (|number| == 4 || |number| == 5) && AllDigits(number)
      && |line| == 4 && AllDigits(line)
      && s == "(" + area + ") " + number + "-" + line
  }

  lemma MatchesPhonePatternIff(s: string)
    ensures MatchesPhonePattern(s) <==> PhoneShape(s)
  {
    if MatchesPhonePattern(s) {
      PhoneParts(s);
      var area, number, line := s[1..3], s[5..|s| - 5], s[|s| - 4..];
      assert s == "(" + area + ") " + number + "-" + line;
    }
    if PhoneShape(s) {
      var area: string, number: string, line: string :|
        && |area| == 2 && AllDigits(area)
        && (|number| == 4 || |number| == 5) && AllDigits(number)
        && |line| == 4 && AllDigits(line)
        && s == "(" + area + ") " + number + "-" + line;
      ShapeGivesPhonePattern(area, number, line);
    }
  }

  /** Digits put between the pattern's punctuation match it. */
  lemma ShapeGivesPhonePattern(area: string, number: string, line: string)
    requires |area| == 2 && AllDigits(area)
    requires (|number| == 4 || |number| == 5) && AllDigits(number)
    requires |line| == 4 && AllDigits(line)
    ensures MatchesPhonePattern("(" + area + ") " + number + "-" + line)
  {
    var s := "(" + area + ") " + number + "-" + line;
    assert s[1..3] == area;
    assert s[5..|s| - 5] == number;
    assert s[|s| - 4..] == line;
  }
}
