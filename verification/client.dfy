/** The browser script's string rules and its one piece of page state
    (public/script.js): the e-mail and phone format checks, the phone input mask, the
    query string of the offer list, and the active category of the category bar. */
module Client {
  import opened Seqs
  import opened Text
  import Server

  // ---------------------------------------------------------------------------
  // validateEmailFormat (public/script.js:36-39)

  /** A character of the class `[^\s@]`. */
  predicate PlainChar(c: char) {
    !IsSpace(c) && c != '@'
  }

  /** A match of `[^\s@]+`. */
  predicate PlainRun(s: string) {
    s != [] && forall c :: c in s ==> PlainChar(c)
  }

  /** The language of `^[^\s@]+@[^\s@]+\.[^\s@]+$`. */
  ghost predicate EmailShape(s: string) {
    exists local: string, host: string, tld: string ::
      PlainRun(local) && PlainRun(host) && PlainRun(tld) && s == local + "@" + host + "." + tld
  }

  /** The e-mail test: no white space, a non-empty part before the first `@`, no
      second `@`, and a `.` after it that is neither the first nor the last character
      of the domain. */
  function ValidateEmailFormat(email: string): bool {
    && (forall c :: c in email ==> !IsSpace(c))
    && '@' in email
    && var at := FirstIndexOf(email, '@');
       var domain := email[at + 1..];
       && 0 < at && '@' !in domain && 2 <= |domain|
       && '.' in domain[1..|domain| - 1]
  }

  /** The e-mail test accepts exactly the strings the regular expression matches. */
  lemma ValidateEmailFormatIff(email: string)
    ensures ValidateEmailFormat(email) <==> EmailShape(email)
  {
    if ValidateEmailFormat(email) {
      EmailTestGivesShape(email);
    }
    if EmailShape(email) {
      var local: string, host: string, tld: string :|
        PlainRun(local) && PlainRun(host) && PlainRun(tld) && email == local + "@" + host + "." + tld;
      ShapePassesEmailTest(local, host, tld);
    }
  }

  lemma EmailTestGivesShape(email: string)
    requires ValidateEmailFormat(email)
    ensures EmailShape(email)
  {
    var at := FirstIndexOf(email, '@');
    var domain := email[at + 1..];
    var p := DotInside(domain);
    var local, host, tld := email[..at], domain[..p], domain[p + 1..];
    SliceMembers(email, at + 1, |email|);
    SliceMembers(domain, 0, p);
    SliceMembers(domain, p + 1, |domain|);
    PlainSlice(email, 0, at);
    PlainSlice(domain, 0, p);
    PlainSlice(domain, p + 1, |domain|);
    assert email == local + "@" + domain;
    assert domain == host + "." + tld;
    ShapeWitness(email, local, host, tld);
  }

  lemma ShapeWitness(email: string, local: string, host: string, tld: string)
    requires PlainRun(local) && PlainRun(host) && PlainRun(tld)
    requires email == local + "@" + (host + "." + tld)
    ensures EmailShape(email)
  {
    assert email == local + "@" + host + "." + tld;
  }

  lemma SliceMembers(s: string, i: int, j: int)
    requires 0 <= i <= j <= |s|
    ensures forall c :: c in s[i..j] ==> c in s
  {
    forall c | c in s[i..j] ensures c in s {
      var k :| 0 <= k < j - i && s[i..j][k] == c;
      assert s[i + k] == c;
    }
  }

  /** A position of a `.` that is neither first nor last. */
  lemma DotInside(domain: string) returns (p: int)
    requires 2 <= |domain| && '.' in domain[1..|domain| - 1]
    ensures 1 <= p < |domain| - 1 && domain[p] == '.'
  {
    var middle := domain[1..|domain| - 1];
    var t :| 0 <= t < |middle| && middle[t] == '.';
    p := t + 1;
  }

  /** A non-empty stretch of a string without white space, `@` excepted, is a match
      of `[^\s@]+`. */
  lemma PlainSlice(s: string, i: int, j: int)
    requires 0 <= i < j <= |s|
    requires forall c :: c in s ==> !IsSpace(c)
    requires '@' !in s[i..j]
    ensures PlainRun(s[i..j])
  {
    SliceMembers(s, i, j);
  }

  lemma ShapePassesEmailTest(local: string, host: string, tld: string)
    requires PlainRun(local) && PlainRun(host) && PlainRun(tld)
    ensures ValidateEmailFormat(local + "@" + host + "." + tld)
  {
    var domain := host + "." + tld;
    var email := local + "@" + domain;
    assert email == local + "@" + host + "." + tld;
    assert '@' !in local && '@' !in domain;
    var n := |local|;
    assert email[n] == '@';
    var at := FirstIndexOf(email, '@');
    assert email[..n] == local;
    assert email[at + 1..] == domain;
    assert domain[1..|domain| - 1][|host| - 1] == '.';
  }

  // ---------------------------------------------------------------------------
  // validatePhoneFormat (public/script.js:40-43)

  /** The browser's phone test: the same pattern as the server's. */
  function ValidatePhoneFormat(phone: string): (ok: bool)
    ensures ok <==> PhoneShape(phone)
  {
    MatchesPhonePatternIff(phone);
    MatchesPhonePattern(phone)
  }

  /** A phone the browser accepts is one the server accepts, and a non-blank phone
      the browser rejects is one the server rejects. */
  lemma PhoneRulesAgree(phone: string)
    requires !IsBlank(phone)
    ensures ValidatePhoneFormat(phone) <==> Server.PhoneAccepted(Some(phone))
  {
  }

  // ---------------------------------------------------------------------------
  // phoneMask (public/script.js:44-49)

  /** `replace(/\D/g, '')`: the digits of `s`, in order. */
  function StripNonDigits(s: string): (r: string)
    ensures AllDigits(r) && |r| <= |s|
  {
    if s == [] then ""
    else (if IsDigit(s[0]) then [s[0]] else "") + StripNonDigits(s[1..])
  }

  /** Three digits start at position `i`. */
  predicate ThreeDigitsAt(s: string, i: int) {
    0 <= i && i + 3 <= |s| && IsDigit(s[i]) && IsDigit(s[i + 1]) && IsDigit(s[i + 2])
  }

  /** Where the leftmost match of `(\d{2})(\d)` at or after `from` starts, or -1. */
  function FirstThreeDigits(s: string, from: nat): (i: int)
    requires from <= |s|
    ensures i == -1 || (from <= i && ThreeDigitsAt(s, i))
    ensures forall j :: from <= j < (if i == -1 then |s| else i) ==> !ThreeDigitsAt(s, j)
    decreases |s| - from
  {
    if from + 3 > |s| then -1
    else if ThreeDigitsAt(s, from) then from
    else FirstThreeDigits(s, from + 1)
  }

  /** `replace(/(\d{2})(\d)/, "($1) $2")`: brackets the first two of the first three
      digits in a row and puts a space after them. */
  function GroupAreaCode(s: string): string {
    var i := FirstThreeDigits(s, 0);
    if i == -1 then s else s[..i] + "(" + s[i..i + 2] + ") " + s[i + 2..]
  }

  /** `replace(/(\d)(\d{4})$/, "$1-$2")`: the pattern is anchored at the end, so the
      only place it can match is the last five characters. */
  function HyphenateLine(s: string): string {
    if |s| >= 5 && AllDigits(s[|s| - 5..]) then s[..|s| - 4] + "-" + s[|s| - 4..] else s
  }

  /** The phone input mask. */
  function PhoneMask(value: string): string {
    if value == "" then "" else HyphenateLine(GroupAreaCode(StripNonDigits(value)))
  }

  /** What the mask makes of `n` digits: short input unchanged, a bracketed area code
      from three digits on, and the line hyphenated from seven digits on. */
  function MaskedDigits(d: string): string
    requires AllDigits(d)
  {
    var n := |d|;
    if n < 3 then d
    else if n < 7 then "(" + d[..2] + ") " + d[2..]
    else "(" + d[..2] + ") " + d[2..n - 4] + "-" + d[n - 4..]
  }

  lemma PhoneMaskClosedForm(value: string)
    ensures PhoneMask(value) == MaskedDigits(StripNonDigits(value))
  {
    var d := StripNonDigits(value);
    if value != "" && |d| >= 3 {
      GroupAreaCodeOfDigits(d);
      if |d| >= 7 {
        HyphenateLong(d);
      } else {
        HyphenateShort(d);
      }
    }
  }

  /** From three digits on, the area code is the first two. */
  lemma GroupAreaCodeOfDigits(d: string)
    requires AllDigits(d) && |d| >= 3
    ensures GroupAreaCode(d) == "(" + d[..2] + ") " + d[2..]
  {
    assert ThreeDigitsAt(d, 0);
    assert d[..0] == "";
  }

  lemma HyphenateLong(d: string)
    requires AllDigits(d) && |d| >= 7
    ensures HyphenateLine("(" + d[..2] + ") " + d[2..]) == MaskedDigits(d)
  {
    var n := |d|;
    var g := "(" + d[..2] + ") " + d[2..];
    assert |g| == n + 3;
    assert g[|g| - 5..] == d[n - 5..];
    assert g[..|g| - 4] == "(" + d[..2] + ") " + d[2..n - 4];
    assert g[|g| - 4..] == d[n - 4..];
  }

  lemma HyphenateShort(d: string)
    requires AllDigits(d) && 3 <= |d| < 7
    ensures HyphenateLine("(" + d[..2] + ") " + d[2..]) == MaskedDigits(d)
  {
    var n := |d|;
    var g := "(" + d[..2] + ") " + d[2..];
    assert g[4] == ' ';
    assert g[|g| - 5..][4 - (n - 2)] == ' ';
  }

  lemma {:induction false} StripConcat(a: string, b: string)
    ensures StripNonDigits(a + b) == StripNonDigits(a) + StripNonDigits(b)
  {
    if a != [] {
      assert (a + b)[1..] == a[1..] + b;
      StripConcat(a[1..], b);
    } else {
      assert a + b == b;
    }
  }

  lemma {:induction false} StripKeepsDigits(s: string)
    requires AllDigits(s)
    ensures StripNonDigits(s) == s
  {
    if s != [] {
      StripKeepsDigits(s[1..]);
    }
  }

  /** The characters the mask may add. */
  predicate MaskPunctuation(c: char) {
    c == '(' || c == ')' || c == ' ' || c == '-'
  }

  /** Mask punctuation carries no digits. */
  lemma {:induction false} StripPunctuation(s: string)
    requires forall k :: 0 <= k < |s| ==> MaskPunctuation(s[k])
    ensures StripNonDigits(s) == ""
  {
    if s != [] {
      StripPunctuation(s[1..]);
    }
  }

  /** The digits of `(AB) rest` are `AB` followed by those of `rest`. */
  lemma StripBracketed(area: string, rest: string)
    requires AllDigits(area)
    ensures StripNonDigits("(" + area + ") " + rest) == area + StripNonDigits(rest)
  {
    StripPunctuation("(");
    StripPunctuation(") ");
    StripKeepsDigits(area);
    StripConcat("(", area);
    StripConcat("(" + area, ") ");
    StripConcat("(" + area + ") ", rest);
  }

  /** The digits of `a-b` are those of `a` followed by those of `b`. */
  lemma StripHyphenated(a: string, b: string)
    ensures StripNonDigits(a + "-" + b) == StripNonDigits(a) + StripNonDigits(b)
  {
    StripPunctuation("-");
    StripConcat(a, "-");
    StripConcat(a + "-", b);
  }

  /** The mask keeps the input's digits in order and adds only `(`, `)`, space and
      `-`; an empty value stays empty. */
  lemma PhoneMaskKeepsDigits(value: string)
    ensures StripNonDigits(PhoneMask(value)) == StripNonDigits(value)
    ensures forall c :: c in PhoneMask(value) ==> IsDigit(c) || MaskPunctuation(c)
    ensures value == "" ==> PhoneMask(value) == ""
  {
    PhoneMaskClosedForm(value);
    MaskedDigitsKeepsDigits(StripNonDigits(value));
  }

  lemma MaskedDigitsKeepsDigits(d: string)
    requires AllDigits(d)
    ensures StripNonDigits(MaskedDigits(d)) == d
    ensures forall c :: c in MaskedDigits(d) ==> IsDigit(c) || MaskPunctuation(c)
  {
    var n := |d|;
    DigitMembers(d);
    if n < 3 {
      StripKeepsDigits(d);
    } else if n < 7 {
      StripKeepsDigits(d[2..]);
      StripBracketed(d[..2], d[2..]);
      assert d == d[..2] + d[2..];
      assert forall c :: c in d[..2] || c in d[2..] ==> c in d;
    } else {
      MaskedLongKeepsDigits(d);
    }
  }

  lemma MaskedLongKeepsDigits(d: string)
    requires AllDigits(d) && |d| >= 7
    ensures StripNonDigits(MaskedDigits(d)) == d
    ensures forall c :: c in MaskedDigits(d) ==> IsDigit(c) || MaskPunctuation(c)
  {
    var n := |d|;
    var area, number, line := d[..2], d[2..n - 4], d[n - 4..];
    var m := MaskedDigits(d);
    assert m == "(" + area + ") " + (number + "-" + line);
    calc {
      StripNonDigits(m);
      { StripBracketed(area, number + "-" + line); }
      area + StripNonDigits(number + "-" + line);
      { StripHyphenated(number, line); StripKeepsDigits(number); StripKeepsDigits(line); }
      area + (number + line);
      { assert d == area + (number + line); }
      d;
    }
    SliceMembers(d, 0, 2);
    SliceMembers(d, 2, n - 4);
    SliceMembers(d, n - 4, n);
    DigitMembers(d);
  }

  /** Every member of an all-digit string is a digit. */
  lemma DigitMembers(s: string)
    requires AllDigits(s)
    ensures forall c :: c in s ==> IsDigit(c)
  {
  }

  /** Fewer than three digits come back unchanged, as bare digits. */
  lemma PhoneMaskShort(value: string)
    requires |StripNonDigits(value)| < 3
    ensures PhoneMask(value) == StripNonDigits(value)
  {
    PhoneMaskClosedForm(value);
  }

  /** Ten or eleven digits come out in the format both phone tests accept. */
  lemma PhoneMaskFormatsPhones(value: string)
    requires |StripNonDigits(value)| == 10 || |StripNonDigits(value)| == 11
    ensures ValidatePhoneFormat(PhoneMask(value))
    ensures Server.PhoneAccepted(Some(PhoneMask(value)))
  {
    PhoneMaskClosedForm(value);
    MaskedPhonePattern(StripNonDigits(value));
  }

  /** Ten or eleven digits, masked, match the phone pattern. */
  lemma MaskedPhonePattern(d: string)
    requires AllDigits(d) && (|d| == 10 || |d| == 11)
    ensures MatchesPhonePattern(MaskedDigits(d))
  {
    var m := MaskedDigits(d);
    var n := |d|;
    assert m == "(" + d[..2] + ") " + d[2..n - 4] + "-" + d[n - 4..];
    assert m[1..3] == d[..2];
    assert m[5..|m| - 5] == d[2..n - 4];
    assert m[|m| - 4..] == d[n - 4..];
    assert AllDigits(d[..2]) && AllDigits(d[2..n - 4]) && AllDigits(d[n - 4..]);
  }

  /** A phone already in the accepted format is left as it is. */
  lemma PhoneMaskFixesFormatted(phone: string)
    requires ValidatePhoneFormat(phone)
    ensures PhoneMask(phone) == phone
  {
    PhoneParts(phone);
    MaskFixesParts(phone[1..3], phone[5..|phone| - 5], phone[|phone| - 4..]);
  }

  /** The mask leaves `(area) number-line` as it is. */
  lemma MaskFixesParts(area: string, number: string, line: string)
    requires AllDigits(area) && AllDigits(number) && AllDigits(line)
    requires |area| == 2 && (|number| == 4 || |number| == 5) && |line| == 4
    ensures PhoneMask("(" + area + ") " + number + "-" + line) == "(" + area + ") " + number + "-" + line
  {
    var phone := "(" + area + ") " + number + "-" + line;
    calc {
      PhoneMask(phone);
      { PhoneMaskClosedForm(phone); }
      MaskedDigits(StripNonDigits(phone));
      { assert phone == "(" + area + ") " + (number + "-" + line);
        StripFormatted(area, number, line); }
      MaskedDigits(area + (number + line));
      { MaskRebuilds(area, number, line); }
      phone;
    }
  }

  /** The digits of a formatted phone are its area code, number and line. */
  lemma StripFormatted(area: string, number: string, line: string)
    requires AllDigits(area) && AllDigits(number) && AllDigits(line)
    ensures StripNonDigits("(" + area + ") " + (number + "-" + line)) == area + (number + line)
  {
    StripKeepsDigits(number);
    StripKeepsDigits(line);
    StripHyphenated(number, line);
    StripBracketed(area, number + "-" + line);
  }

  /** The mask puts an area code, a number and a line back into the phone format. */
  lemma MaskRebuilds(area: string, number: string, line: string)
    requires AllDigits(area) && AllDigits(number) && AllDigits(line)
    requires |area| == 2 && (|number| == 4 || |number| == 5) && |line| == 4
    ensures AllDigits(area + (number + line))
    ensures MaskedDigits(area + (number + line)) == "(" + area + ") " + number + "-" + line
  {
    var d := area + (number + line);
    var n := |d|;
    assert d[..2] == area;
    assert d[2..n - 4] == number;
    assert d[n - 4..] == line;
  }

  // ---------------------------------------------------------------------------
  // encodeURIComponent and the offer-list URL (public/script.js:170-183)

  /** The characters `encodeURIComponent` leaves alone. */
  predicate Unreserved(c: char) {
    || ('A' <= c <= 'Z') || ('a' <= c <= 'z') || ('0' <= c <= '9')
    || c == '-' || c == '_' || c == '.' || c == '!' || c == '~' || c == '*'
    || c == '\'' || c == '(' || c == ')'
  }

  /** Upper-case hexadecimal digits, as the escapes are written. */
  function HexDigit(d: nat): (c: char)
    requires d < 16
    ensures Unreserved(c)
  {
    if d < 10 then ('0' as int + d) as char else ('A' as int + d - 10) as char
  }

  function HexValue(c: char): nat {
    if '0' <= c <= '9' then c as int - '0' as int
    else if 'A' <= c <= 'F' then c as int - 'A' as int + 10
    else 0
  }

  lemma HexValueOfDigit(d: nat)
    requires d < 16
    ensures HexValue(HexDigit(d)) == d
  {
  }

  /** The UTF-8 encoding of one code point. */
  function Utf8(c: char): (bytes: seq<nat>)
    ensures 1 <= |bytes| <= 4
    ensures forall k :: 0 <= k < |bytes| ==> bytes[k] < 256
  {
    var cp := c as int;
    if cp < 0x80 then [cp]
    else if cp < 0x800 then [0xC0 + cp / 64, 0x80 + cp % 64]
    else if cp < 0x10000 then [0xE0 + cp / 4096, 0x80 + (cp / 64) % 64, 0x80 + cp % 64]
    else [0xF0 + cp / 262144, 0x80 + (cp / 4096) % 64, 0x80 + (cp / 64) % 64, 0x80 + cp % 64]
  }

  /** The UTF-8 encoding of a string. */
  function Utf8String(s: string): seq<nat> {
    if s == [] then [] else Utf8(s[0]) + Utf8String(s[1..])
  }

  /** `%XY` for each byte. */
  function PercentBytes(bytes: seq<nat>): (r: string)
    requires forall k :: 0 <= k < |bytes| ==> bytes[k] < 256
    ensures forall c :: c in r ==> Unreserved(c) || c == '%'
  {
    if bytes == [] then ""
    else ['%', HexDigit(bytes[0] / 16), HexDigit(bytes[0] % 16)] + PercentBytes(bytes[1..])
  }

  function EncodeChar(c: char): (r: string)
    ensures forall c :: c in r ==> Unreserved(c) || c == '%'
  {
    if Unreserved(c) then [c] else PercentBytes(Utf8(c))
  }

  /** `encodeURIComponent`: unreserved characters as they are, every other character
      as the `%XY` escapes of its UTF-8 bytes. The result holds no `&`, `=` or space. */
  function EncodeUriComponent(s: string): (r: string)
    ensures forall c :: c in r ==> Unreserved(c) || c == '%'
  {
    if s == [] then "" else EncodeChar(s[0]) + EncodeUriComponent(s[1..])
  }

  /** The bytes a query-string parser recovers: `%XY` is a byte, any other character
      stands for its own code. */
  function PercentDecode(r: string): seq<nat>
    decreases |r|
  {
    if r == [] then []
    else if r[0] == '%' && |r| >= 3 then
      [16 * HexValue(r[1]) + HexValue(r[2])] + PercentDecode(r[3..])
    else [r[0] as int] + PercentDecode(r[1..])
  }

  lemma {:induction false} PercentBytesDecode(bytes: seq<nat>, rest: string)
    requires forall k :: 0 <= k < |bytes| ==> bytes[k] < 256
    ensures PercentDecode(PercentBytes(bytes) + rest) == bytes + PercentDecode(rest)
  {
    if bytes != [] {
      var b := bytes[0];
      var tail := PercentBytes(bytes[1..]) + rest;
      assert PercentBytes(bytes) + rest == ['%', HexDigit(b / 16), HexDigit(b % 16)] + tail;
      PercentByteDecode(b, tail);
      PercentBytesDecode(bytes[1..], rest);
      assert bytes == [b] + bytes[1..];
    } else {
      assert PercentBytes(bytes) + rest == rest;
    }
  }

  /** One escape decodes to its byte. */
  lemma PercentByteDecode(b: nat, tail: string)
    requires b < 256
    ensures PercentDecode(['%', HexDigit(b / 16), HexDigit(b % 16)] + tail) == [b] + PercentDecode(tail)
  {
    var r := ['%', HexDigit(b / 16), HexDigit(b % 16)] + tail;
    assert r[3..] == tail;
    HexValueOfDigit(b / 16);
    HexValueOfDigit(b % 16);
  }

  /** Decoding the encoded string recovers the UTF-8 bytes of the original. */
  lemma {:induction false} EncodeUriComponentDecodes(s: string)
    ensures PercentDecode(EncodeUriComponent(s)) == Utf8String(s)
  {
    if s != [] {
      var c := s[0];
      var rest := EncodeUriComponent(s[1..]);
      EncodeUriComponentDecodes(s[1..]);
      if Unreserved(c) {
        assert ([c] + rest)[1..] == rest;
      } else {
        PercentBytesDecode(Utf8(c), rest);
      }
    }
  }

  lemma EncodeCons(c: char, rest: string)
    ensures EncodeUriComponent([c] + rest) == EncodeChar(c) + EncodeUriComponent(rest)
  {
    assert ([c] + rest)[1..] == rest;
  }

  /** The offer type with a non-ASCII letter, as its category link sends it. */
  lemma EncodeServico()
    ensures EncodeUriComponent("servi\U{E7}o") == "servi%C3%A7o"
  {
    var tail := "\U{E7}o";
    calc {
      EncodeUriComponent("servi\U{E7}o");
      { assert "servi\U{E7}o" == "servi" + tail; }
      EncodeUriComponent("servi" + tail);
      { EncodeServi(tail); }
      "servi" + EncodeUriComponent(tail);
      { EncodeCedillaTail(); }
      "servi" + "%C3%A7o";
    }
  }

  /** The tail "ço": the escapes of `ç`, then `o` as it is. */
  lemma EncodeCedillaTail()
    ensures EncodeUriComponent("\U{E7}o") == "%C3%A7o"
  {
    EncodeCedilla();
    EncodeCons('o', "");
    assert EncodeUriComponent("o") == "o";
    EncodeCons('\U{E7}', "o");
  }

  /** The ASCII stem of "serviço" is copied through. */
  lemma EncodeServi(rest: string)
    ensures EncodeUriComponent("servi" + rest) == "servi" + EncodeUriComponent(rest)
  {
    assert forall c :: c in "servi" ==> Unreserved(c);
    EncodeAscii("servi", rest);
  }

  /** A prefix of unreserved characters is copied through. */
  lemma {:induction false} EncodeAscii(prefix: string, rest: string)
    requires forall c :: c in prefix ==> Unreserved(c)
    ensures EncodeUriComponent(prefix + rest) == prefix + EncodeUriComponent(rest)
  {
    if prefix != [] {
      var c, more, e := prefix[0], prefix[1..], EncodeUriComponent(rest);
      var s := prefix + rest;
      assert s[0] == c && s[1..] == more + rest;
      assert c in prefix && EncodeChar(c) == [c];
      EncodeAscii(more, rest);
      assert [c] + (more + e) == ([c] + more) + e;
      assert prefix == [c] + more;
    } else {
      assert prefix + rest == rest;
    }
  }

  /** `ç` is U+00E7, two UTF-8 bytes. */
  lemma EncodeCedilla()
    ensures EncodeChar('\U{E7}') == "%C3%A7"
  {
    assert Utf8('\U{E7}') == [195, 167];
    assert HexDigit(12) == 'C' && HexDigit(3) == '3' && HexDigit(10) == 'A' && HexDigit(7) == '7';
  }

  const OffersPath: string := "/api/offers?"

  /** The URL fetchAndDisplayOffers requests: a `search=` part only for a term that is
      not blank (sent trimmed), a `category=` part only for a truthy category, each
      value encoded, joined with `&`. `params` is the list it joins. */
  method OffersUrl(searchTerm: string, category: Option<string>)
    returns (apiUrl: string, params: seq<string>)
    ensures |params| == (if IsBlank(searchTerm) then 0 else 1) + (if Server.Truthy(category) then 1 else 0)
    ensures !IsBlank(searchTerm) ==> params[0] == "search=" + EncodeUriComponent(Trim(searchTerm))
    ensures Server.Truthy(category) ==>
              params[|params| - 1] == "category=" + EncodeUriComponent(category.value)
    ensures apiUrl == OffersPath + Join(params, "&")
    ensures params != [] ==> Split(Join(params, "&"), '&') == params
  {
    apiUrl := OffersPath;
    params := [];
    if searchTerm != "" && Trim(searchTerm) != "" {
      params := params + [QueryParam("search=", Trim(searchTerm))];
    }
    if category.Some? && category.value != "" {
      params := params + [QueryParam("category=", category.value)];
    }
    apiUrl := apiUrl + Join(params, "&");
    if params != [] {
      SplitJoin(params, '&');
    }
  }

  /** One `name=value` part of the query string, the value encoded. It holds no `&`,
      so it cannot be mistaken for two parts. */
  function QueryParam(name: string, value: string): (r: string)
    requires '&' !in name
    ensures '&' !in r
  {
    name + EncodeUriComponent(value)
  }

  // ---------------------------------------------------------------------------
  // activeCategory (public/script.js:27, 289, 298)

  /** The toggle: clicking the active category or one without a name clears the
      filter, clicking any other category selects it. */
  function NextActiveCategory(active: Option<string>, clicked: string): (next: Option<string>)
    ensures next.None? <==> clicked == "" || active == Some(clicked)
    ensures next.Some? ==> next.value == clicked
  {
    if Some(clicked) == active || clicked == "" then None else Some(clicked)
  }

  /** Clicking a category twice returns to where the first click started, when that
      was no filter or another category's. */
  lemma ClickTwiceClears(active: Option<string>, clicked: string)
    requires clicked != "" && active != Some(clicked)
    ensures NextActiveCategory(active, clicked) == Some(clicked)
    ensures NextActiveCategory(NextActiveCategory(active, clicked), clicked) == None
  {
  }

  /** The category bar of the offer page and the offer list it requests. */
  class CategoryBar {
    var activeCategory: Option<string>

    /** A selected category always has a name. */
    ghost predicate Valid()
      reads this
    {
      activeCategory != Some("")
    }

    /** Page load: the `category` query parameter, when truthy, is the active one. */
    constructor (initialCategory: Option<string>)
      ensures Valid()
      ensures activeCategory == if Server.Truthy(initialCategory) then initialCategory else None
    {
      if initialCategory.Some? && initialCategory.value != "" {
        activeCategory := initialCategory;
      } else {
        activeCategory := None;
      }
    }

    /** A click on a category: toggle, then request the list for the new category
      with no search term. */
    method Click(category: string) returns (apiUrl: string)
      requires Valid()
      modifies this
      ensures Valid()
      ensures activeCategory == NextActiveCategory(old(activeCategory), category)
      ensures apiUrl == OffersPath +
                        (if activeCategory.Some? then "category=" + EncodeUriComponent(activeCategory.value) else "")
    {
      if Some(category) == activeCategory || category == "" {
        activeCategory := None;
      } else {
        activeCategory := Some(category);
      }
      var params;
      apiUrl, params := OffersUrl("", activeCategory);
    }

    /** A search submit: the term with the active category, the state unchanged. */
    method Search(searchTerm: string) returns (apiUrl: string)
      requires Valid()
      ensures apiUrl == OffersPath + Join(
                (if IsBlank(searchTerm) then [] else ["search=" + EncodeUriComponent(Trim(searchTerm))]) +
                (if activeCategory.Some? then ["category=" + EncodeUriComponent(activeCategory.value)] else []),
                "&")
    {
      var params;
      apiUrl, params := OffersUrl(searchTerm, activeCategory);
    }
  }
}
