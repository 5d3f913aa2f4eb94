/** The string built-ins of PHP that the modelled code relies on, written out
    on sequences of characters (one `char` per byte of the source's strings).
    The slugifier alone reads its text with the `u` modifier, one `char` per
    Unicode code point; see the module `Slug`. */
module PhpString {
  import opened Wrappers

  /** The characters `\s` matches in the patterns of the source (PCRE2
      without Unicode properties): space, tab, line feed, vertical tab,
      form feed and carriage return. */
  const RegexSpaces: set<char> := {' ', '\t', '\n', '\U{0B}', '\U{0C}', '\r'}

  predicate IsRegexSpace(c: char) {
    c in RegexSpaces
  }

  /** A string matched by the pattern `^\s*$`. */
  predicate IsBlank(s: string) {
    forall i :: 0 <= i < |s| ==> IsRegexSpace(s[i])
  }

  /** The characters `trim()` strips when given no character list. */
  const TrimDefault: set<char> := {' ', '\t', '\n', '\r', '\0', '\U{0B}'}

  /** `ltrim($s, $chars)`: drops the longest prefix made of `chars`. */
  function TrimLeft(s: string, chars: set<char>): (r: string)
    ensures |r| <= |s| && r == s[|s| - |r|..]
    ensures r == [] || r[0] !in chars
    ensures forall i :: 0 <= i < |s| - |r| ==> s[i] in chars
  {
    if |s| > 0 && s[0] in chars then TrimLeft(s[1..], chars) else s
  }

  /** `ltrim` drops a blank prefix up to the first character it keeps. */
  lemma {:induction false} TrimLeftBlank(blank: string, s: string)
    requires IsBlank(blank)
    requires s == [] || !IsRegexSpace(s[0])
    ensures TrimLeft(blank + s, RegexSpaces) == s
    decreases |blank|
  {
    if blank == [] {
      assert blank + s == s;
    } else {
      assert (blank + s)[1..] == blank[1..] + s;
      TrimLeftBlank(blank[1..], s);
    }
  }

  /** `rtrim($s, $chars)`: drops the longest suffix made of `chars`. */
  function TrimRight(s: string, chars: set<char>): (r: string)
    ensures |r| <= |s| && r == s[..|r|]
    ensures r == [] || r[|r| - 1] !in chars
    ensures forall i :: |r| <= i < |s| ==> s[i] in chars
  {
    if |s| > 0 && s[|s| - 1] in chars then TrimRight(s[..|s| - 1], chars) else s
  }

  /** `trim($s, $chars)`. */
  function Trim(s: string, chars: set<char>): string {
    TrimRight(TrimLeft(s, chars), chars)
  }

  /** What `trim` keeps is a piece of its argument that neither starts nor
      ends with a stripped character, and it is empty exactly when every
      character of the argument is stripped. */
  lemma TrimShape(s: string, chars: set<char>)
    ensures var r := Trim(s, chars);
      |r| <= |s| &&
      (r == [] || (r[0] !in chars && r[|r| - 1] !in chars)) &&
      (r == [] <==> forall i :: 0 <= i < |s| ==> s[i] in chars)
  {
    var l := TrimLeft(s, chars);
    var r := TrimRight(l, chars);
    if r != [] {
      assert r[0] == l[0];
    }
  }

  /** What `trim` keeps is one contiguous piece of its argument. */
  lemma TrimSlice(s: string, chars: set<char>) returns (i: nat, j: nat)
    ensures i <= j <= |s| && Trim(s, chars) == s[i..j]
  {
    var l := TrimLeft(s, chars);
    i := |s| - |l|;
    j := i + |TrimRight(l, chars)|;
    assert s[i..j] == l[..j - i];
  }

  /** A string that neither starts nor ends with a stripped character is
      left as it is by `trim`. */
  lemma TrimKeeps(s: string, chars: set<char>)
    requires s == [] || (s[0] !in chars && s[|s| - 1] !in chars)
    ensures Trim(s, chars) == s
  {
  }

  /** `substr($s, $offset, $length)` of PHP 8: a negative offset counts from
      the end, a negative length leaves that many characters off the end,
      and an offset past the end gives "". */
  function Substr(s: string, offset: int, length: int): (r: string)
    ensures 0 <= offset <= |s| && 0 <= length ==>
      |r| == (if offset + length <= |s| then length else |s| - offset) &&
      r == s[offset..offset + |r|]
    ensures offset >= |s| ==> r == []
  {
    var start := if offset < 0 then (if |s| + offset < 0 then 0 else |s| + offset)
                 else if offset > |s| then |s| else offset;
    var end := if length < 0 then (if |s| + length < start then start else |s| + length)
               else if start + length > |s| then |s| else start + length;
    s[start..end]
  }

  /** `substr($s, $offset)`: everything from the offset on. */
  function SubstrFrom(s: string, offset: int): (r: string)
    ensures 0 <= offset <= |s| ==> r == s[offset..]
  {
    Substr(s, offset, |s|)
  }

  /** The position of the first `c` in `s` (`strpos` with a one-character
      needle). */
  function IndexOf<T(==)>(s: seq<T>, c: T): (r: Option<nat>)
    ensures r.None? <==> c !in s
    ensures r.Some? ==> r.value < |s| && s[r.value] == c && c !in s[..r.value]
  {
    if s == [] then None
    else if s[0] == c then Some(0)
    else match IndexOf(s[1..], c)
      case None => None
      case Some(i) => (assert s[..i + 1] == [s[0]] + s[1..][..i]; Some(i + 1))
  }

  /** The inverse of `explode`: the parts with the delimiter between them. */
  function Join(parts: seq<string>, d: char): string {
    if parts == [] then []
    else if |parts| == 1 then parts[0]
    else parts[0] + [d] + Join(parts[1..], d)
  }

  /** `explode($d, $s)` for a one-character delimiter: the pieces between
      the occurrences of `d`, empty pieces included. */
  function Explode(s: string, d: char): (parts: seq<string>)
    ensures |parts| >= 1
    ensures forall i :: 0 <= i < |parts| ==> d !in parts[i]
    ensures Join(parts, d) == s
    decreases |s|
  {
    match IndexOf(s, d)
    case None => [s]
    case Some(i) =>
      var rest := Explode(s[i + 1..], d);
      assert s == s[..i] + [d] + s[i + 1..];
      [s[..i]] + rest
  }

  /** Exploding what was joined gives the parts back, provided no part
      contains the delimiter. */
  lemma {:induction false} ExplodeJoin(parts: seq<string>, d: char)
    requires |parts| >= 1
    requires forall i :: 0 <= i < |parts| ==> d !in parts[i]
    ensures Explode(Join(parts, d), d) == parts
    decreases |parts|
  {
    if |parts| > 1 {
      var p, rest := parts[0], Join(parts[1..], d);
      var s := p + [d] + rest;
      assert Join(parts, d) == s;
      IndexOfAfter(p, d, rest);
      assert s[..|p|] == p && s[|p| + 1..] == rest;
      ExplodeJoin(parts[1..], d);
      assert parts == [p] + parts[1..];
    } else {
      assert Join(parts, d) == parts[0];
    }
  }

  /** The first delimiter after a piece without one is the one right
      behind it. */
  lemma {:induction false} IndexOfAfter<T>(p: seq<T>, d: T, rest: seq<T>)
    requires d !in p
    ensures IndexOf(p + [d] + rest, d) == Some(|p|)
  {
    if p != [] {
      IndexOfAfter(p[1..], d, rest);
      assert (p + [d] + rest)[1..] == p[1..] + [d] + rest;
    }
  }

  /** One piece of `preg_split` on the pattern `\s*d\s*`: the whitespace next to a
      delimiter belongs to the delimiter, the whitespace at either end of the
      whole string does not. */
  function StripAround(p: string, afterDelimiter: bool, beforeDelimiter: bool): string {
    var q := if afterDelimiter then TrimLeft(p, RegexSpaces) else p;
    if beforeDelimiter then TrimRight(q, RegexSpaces) else q
  }

  /** `preg_split` on the pattern `\s*d\s*` for a delimiter that is not whitespace. */
  function RegexSplit(s: string, d: char): (parts: seq<string>)
    ensures |parts| == |Explode(s, d)|
  {
    var raw := Explode(s, d);
    seq(|raw|, i requires 0 <= i < |raw| => StripAround(raw[i], i > 0, i < |raw| - 1))
  }

  /** The decimal digit `d` as a character. */
  function DigitChar(d: nat): (c: char)
    requires d < 10
    ensures '0' <= c <= '9' && c as int - '0' as int == d
  {
    (('0' as int) + d) as char
  }

  predicate IsDigit(c: char) {
    '0' <= c <= '9'
  }

  predicate AllDigits(s: string) {
    forall i :: 0 <= i < |s| ==> IsDigit(s[i])
  }

  /** The number a string of decimal digits denotes. */
  function DigitsValue(s: string): nat
    requires AllDigits(s)
  {
    if s == [] then 0
    else DigitsValue(s[..|s| - 1]) * 10 + (s[|s| - 1] as int - '0' as int)
  }

  /** The decimal form PHP gives a non-negative integer when it turns it into
      a string. */
  function NatToString(n: nat): (r: string)
    ensures |r| >= 1 && AllDigits(r)
    ensures (r[0] == '0') <==> (n == 0)
    decreases n
  {
    if n < 10 then [DigitChar(n)] else NatToString(n / 10) + [DigitChar(n % 10)]
  }

  /** Reading back the decimal form gives the number. */
  lemma {:induction false} NatToStringValue(n: nat)
    ensures DigitsValue(NatToString(n)) == n
    decreases n
  {
    if n >= 10 {
      var s := NatToString(n);
      assert s[..|s| - 1] == NatToString(n / 10);
      NatToStringValue(n / 10);
    }
  }

  /** `(string)$n` for an integer. */
  function IntToString(n: int): (r: string)
    ensures |r| >= 1 && (IsDigit(r[0]) || r[0] == '-') && IsDigit(r[|r| - 1])
    ensures forall i :: 0 <= i < |r| ==> IsDigit(r[i]) || (i == 0 && r[i] == '-')
  {
    if n < 0 then "-" + NatToString(-n) else NatToString(n)
  }

  /** PHP_INT_MIN and PHP_INT_MAX of a 64-bit build. */
  const PHP_INT_MIN: int := -0x8000_0000_0000_0000
  const PHP_INT_MAX: int := 0x7FFF_FFFF_FFFF_FFFF

  /** The characters `filter_var` strips before validating an integer. */
  const FilterTrim: set<char> := {' ', '\t', '\r', '\U{0B}', '\n'}

  /** `filter_var($s, FILTER_VALIDATE_INT)` without flags: an optional sign,
      then "0" or a decimal numeral without leading zeros, in the range of a
      PHP integer; `None` stands for FALSE. */
  function FilterValidateInt(s: string): (r: Option<int>)
    ensures r.Some? ==> PHP_INT_MIN <= r.value <= PHP_INT_MAX
  {
    var t := Trim(s, FilterTrim);
    if t == [] then None
    else
      var negative := t[0] == '-';
      var body := if t[0] == '-' || t[0] == '+' then t[1..] else t;
      if body == "0" then Some(0)
      else if body == [] || !('1' <= body[0] <= '9') || !AllDigits(body) then None
      else
        var v: int := DigitsValue(body);
        var signed: int := if negative then -v else v;
        if PHP_INT_MIN <= signed <= PHP_INT_MAX then Some(signed) else None
  }

  /** Validating the decimal form of a PHP integer gives the integer back. */
  lemma IntToStringValidates(n: int)
    requires PHP_INT_MIN <= n <= PHP_INT_MAX
    ensures FilterValidateInt(IntToString(n)) == Some(n)
  {
    var s := IntToString(n);
    NoFilterTrim(s);
    if n < 0 {
      NegativeValidates(n, s);
    } else if n > 0 {
      PositiveDigits(n);
      ValidatesBody(s, s, false);
    } else {
      assert s == "0";
    }
  }

  /** The decimal form of an integer has nothing for `filter_var` to strip. */
  lemma NoFilterTrim(s: string)
    requires |s| >= 1 && (IsDigit(s[0]) || s[0] == '-') && IsDigit(s[|s| - 1])
    ensures Trim(s, FilterTrim) == s
  {
    TrimKeeps(s, FilterTrim);
  }

  lemma NegativeValidates(n: int, s: string)
    requires PHP_INT_MIN <= n < 0 && s == IntToString(n) && Trim(s, FilterTrim) == s
    ensures FilterValidateInt(s) == Some(n)
  {
    var body := NegativeForm(n);
    PositiveDigits(-n);
    ValidatesBody(s, body, true);
  }

  /** A negative number is written as a minus sign and its magnitude. */
  lemma NegativeForm(n: int) returns (body: string)
    requires n < 0
    ensures body == NatToString(-n) && IntToString(n)[0] == '-' && IntToString(n)[1..] == body
  {
    body := NatToString(-n);
    assert IntToString(n) == "-" + body;
  }

  /** The decimal form of a positive number has no leading zero. */
  lemma PositiveDigits(m: nat)
    requires m > 0
    ensures var b := NatToString(m); '1' <= b[0] <= '9' && DigitsValue(b) == m
  {
    NatToStringValue(m);
  }

  lemma ValidatesBody(s: string, body: string, negative: bool)
    requires Trim(s, FilterTrim) == s && s != []
    requires body == (if negative then s[1..] else s)
    requires s[0] == '-' <==> negative
    requires s[0] != '+'
    requires body != [] && '1' <= body[0] <= '9' && AllDigits(body)
    requires var v: int := DigitsValue(body); PHP_INT_MIN <= (if negative then -v else v) <= PHP_INT_MAX
    ensures var v: int := DigitsValue(body); FilterValidateInt(s) == Some(if negative then -v else v)
  {
    assert body != "0";
  }
}
