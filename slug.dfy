/** The slugifier `toSlug` of private/common.php: free text to a URL-safe
    identifier, with the fixed sentinel "n-a" when nothing survives. Its
    patterns carry the `u` modifier and `iconv` reads UTF-8, so here one
    `char` is one Unicode code point, where the rest of the model has one
    `char` per byte; the text is taken as already decoded. */
module Slug {
  import opened PhpString

  /** What the slugifier needs from outside PHP's byte functions: which
      non-ASCII characters Unicode counts as letters or decimal digits (the
      `\pL` and `\d` of a pattern with the `u` modifier), and how `iconv`
      with `//TRANSLIT` writes a non-ASCII character in ASCII. */
  datatype SlugTables = SlugTables(isLetterOrDigit: char -> bool, transliterate: char -> string)

  /** The sentinel returned when nothing of the text survives. */
  const NotApplicable: string := "n-a"

  predicate IsAscii(c: char) {
    (c as int) < 128
  }

  predicate IsAsciiText(s: string) {
    forall i :: 0 <= i < |s| ==> IsAscii(s[i])
  }

  predicate IsAsciiAlnum(c: char) {
    'a' <= c <= 'z' || 'A' <= c <= 'Z' || '0' <= c <= '9'
  }

  /** `[\pL\d]` under the `u` modifier. */
  predicate IsLetterOrDigit(t: SlugTables, c: char) {
    if IsAscii(c) then IsAsciiAlnum(c) else t.isLetterOrDigit(c)
  }

  /** `[-\w]` without the `u` modifier: ASCII letters, digits, `_` and `-`. */
  predicate IsWordOrDash(c: char) {
    IsAsciiAlnum(c) || c == '_' || c == '-'
  }

  predicate IsAlnumOrDash(c: char) {
    IsAsciiAlnum(c) || c == '-'
  }

  /** The characters a slug of ASCII text is made of. */
  predicate IsSlugChar(c: char) {
    'a' <= c <= 'z' || '0' <= c <= '9' || c == '-'
  }

  predicate NoDoubleDash(s: string) {
    forall i :: 0 <= i < |s| - 1 ==> !(s[i] == '-' && s[i + 1] == '-')
  }

  /** Dash-separated ASCII letters and digits, with no dash at either end. */
  predicate IsDashSeparated(s: string) {
    (forall i :: 0 <= i < |s| ==> IsAlnumOrDash(s[i])) &&
    (s == [] || (s[0] != '-' && s[|s| - 1] != '-')) &&
    NoDoubleDash(s)
  }

  /** A string `toSlug` can return for ASCII text. */
  predicate IsSlug(s: string) {
    s != [] && s != "0" &&
    (forall i :: 0 <= i < |s| ==> IsSlugChar(s[i])) &&
    s[0] != '-' && s[|s| - 1] != '-' && NoDoubleDash(s)
  }

  /** The two character classes whose runs `toSlug` replaces by a dash. */
  datatype Runs = Separators(t: SlugTables) | Dashes

  /** `[^\pL\d]` for `Separators`, `-` for `Dashes`. */
  predicate InRun(k: Runs, c: char) {
    match k
    case Separators(t) => !IsLetterOrDigit(t, c)
    case Dashes => c == '-'
  }

  /** The text after its leading run. */
  function SkipRun(s: string, k: Runs): (r: string)
    ensures |r| <= |s| && r == s[|s| - |r|..]
    ensures r == [] || !InRun(k, r[0])
    ensures forall i :: 0 <= i < |s| - |r| ==> InRun(k, s[i])
  {
    if s != [] && InRun(k, s[0]) then SkipRun(s[1..], k) else s
  }

  /** `preg_replace('~[...]+~', '-', $s)`: every maximal run becomes a
      single `-`. */
  function ReplaceRuns(s: string, k: Runs): string
    decreases |s|
  {
    if s == [] then []
    else if InRun(k, s[0]) then "-" + ReplaceRuns(SkipRun(s[1..], k), k)
    else [s[0]] + ReplaceRuns(s[1..], k)
  }

  /** Step 2: `iconv('utf-8', 'us-ascii//TRANSLIT', $s)`; ASCII passes
      through unchanged. */
  function Transliterate(t: SlugTables, s: string): string {
    if s == [] then []
    else (if IsAscii(s[0]) then [s[0]] else t.transliterate(s[0])) + Transliterate(t, s[1..])
  }

  /** Step 3: `preg_replace('~[^-\w]+~', '', $s)`. */
  function KeepWordOrDash(s: string): string {
    if s == [] then []
    else (if IsWordOrDash(s[0]) then [s[0]] else []) + KeepWordOrDash(s[1..])
  }

  /** `strtolower`, which changes ASCII letters only. */
  function LowerChar(c: char): char {
    if 'A' <= c <= 'Z' then ((c as int) + 32) as char else c
  }

  function Lower(s: string): string {
    if s == [] then [] else [LowerChar(s[0])] + Lower(s[1..])
  }

  /** Steps 3 to 5: keep `[-\w]`, trim dashes, collapse runs of dashes. */
  function Squeeze(s2: string): string {
    ReplaceRuns(Trim(KeepWordOrDash(s2), {'-'}), Dashes)
  }

  /** `toSlug($text)`. The last test is PHP's `empty()`, which also holds of
      the string "0". */
  function ToSlug(t: SlugTables, text: string): string {
    var s6 := Lower(Squeeze(Transliterate(t, ReplaceRuns(text, Separators(t)))));
    if s6 == "" || s6 == "0" then NotApplicable else s6
  }

  // ---------------------------------------------------------------------
  // Facts about the steps

  /** Outside the runs, replacing keeps only characters of the text. */
  lemma {:induction false} ReplaceRunsWordChars(s: string, k: Runs)
    requires forall i :: 0 <= i < |s| && !InRun(k, s[i]) ==> IsWordOrDash(s[i])
    ensures forall i :: 0 <= i < |ReplaceRuns(s, k)| ==> IsWordOrDash(ReplaceRuns(s, k)[i])
    decreases |s|
  {
    if s != [] {
      var r := ReplaceRuns(s, k);
      if InRun(k, s[0]) {
        var rest := SkipRun(s[1..], k);
        assert forall i :: 0 <= i < |rest| ==> rest[i] == s[|s| - |rest| + i];
        ReplaceRunsWordChars(rest, k);
        assert r == "-" + ReplaceRuns(rest, k);
      } else {
        ReplaceRunsWordChars(s[1..], k);
        assert r == [s[0]] + ReplaceRuns(s[1..], k);
      }
    }
  }

  lemma {:induction false} ReplaceRunsAlnumChars(s: string, k: Runs)
    requires forall i :: 0 <= i < |s| && !InRun(k, s[i]) ==> IsAlnumOrDash(s[i])
    ensures forall i :: 0 <= i < |ReplaceRuns(s, k)| ==> IsAlnumOrDash(ReplaceRuns(s, k)[i])
    decreases |s|
  {
    if s != [] {
      var r := ReplaceRuns(s, k);
      if InRun(k, s[0]) {
        var rest := SkipRun(s[1..], k);
        assert forall i :: 0 <= i < |rest| ==> rest[i] == s[|s| - |rest| + i];
        ReplaceRunsAlnumChars(rest, k);
        assert r == "-" + ReplaceRuns(rest, k);
      } else {
        ReplaceRunsAlnumChars(s[1..], k);
        assert r == [s[0]] + ReplaceRuns(s[1..], k);
      }
    }
  }

  lemma {:induction false} ReplaceRunsNoDoubleDash(s: string, k: Runs)
    requires InRun(k, '-')
    ensures NoDoubleDash(ReplaceRuns(s, k))
    ensures s != [] && !InRun(k, s[0]) ==> ReplaceRuns(s, k)[0] == s[0]
    decreases |s|
  {
    if s != [] {
      var r := ReplaceRuns(s, k);
      if InRun(k, s[0]) {
        var rest := SkipRun(s[1..], k);
        ReplaceRunsNoDoubleDash(rest, k);
        assert r == "-" + ReplaceRuns(rest, k);
        if rest != [] {
          assert ReplaceRuns(rest, k)[0] == rest[0] != '-';
        }
      } else {
        ReplaceRunsNoDoubleDash(s[1..], k);
        assert r == [s[0]] + ReplaceRuns(s[1..], k);
      }
    }
  }

  lemma {:induction false} ReplaceRunsLast(s: string, k: Runs)
    requires s != [] && !InRun(k, s[|s| - 1])
    ensures ReplaceRuns(s, k) != [] && ReplaceRuns(s, k)[|ReplaceRuns(s, k)| - 1] == s[|s| - 1]
    decreases |s|
  {
    if InRun(k, s[0]) {
      var rest := SkipRun(s[1..], k);
      SkipRunKeepsLast(s[1..], k);
      ReplaceRunsLast(rest, k);
      assert ReplaceRuns(s, k) == "-" + ReplaceRuns(rest, k);
    } else if |s| > 1 {
      ReplaceRunsLast(s[1..], k);
      assert ReplaceRuns(s, k) == [s[0]] + ReplaceRuns(s[1..], k);
    }
  }

  /** Skipping a leading run stops before a last character outside it. */
  lemma SkipRunKeepsLast(s: string, k: Runs)
    requires s != [] && !InRun(k, s[|s| - 1])
    ensures var r := SkipRun(s, k); r != [] && r[|r| - 1] == s[|s| - 1]
  {
  }

  /** A text whose runs are already single dashes is left unchanged. */
  lemma {:induction false} ReplaceRunsKeeps(s: string, k: Runs)
    requires forall i :: 0 <= i < |s| && InRun(k, s[i]) ==> s[i] == '-'
    requires forall i :: 0 <= i < |s| - 1 ==> !(InRun(k, s[i]) && InRun(k, s[i + 1]))
    ensures ReplaceRuns(s, k) == s
    decreases |s|
  {
    if s != [] {
      if InRun(k, s[0]) {
        assert SkipRun(s[1..], k) == s[1..] by {
          assert s[1..] == [] || !InRun(k, s[1..][0]);
        }
      }
      ReplaceRunsKeeps(s[1..], k);
      assert s == [s[0]] + s[1..];
    }
  }

  /** Over a prefix with no run in it, replacing runs goes piece by piece. */
  lemma {:induction false} ReplaceRunsAppend(a: string, b: string, k: Runs)
    requires forall i :: 0 <= i < |a| ==> !InRun(k, a[i])
    ensures ReplaceRuns(a + b, k) == a + ReplaceRuns(b, k)
    decreases |a|
  {
    if a == [] {
      assert a + b == b;
    } else {
      var tail := a[1..] + b;
      assert a + b == [a[0]] + tail;
      ReplaceRunsAppend(a[1..], b, k);
      ReplaceRunsKept(a[0], tail, k);
      assert a == [a[0]] + a[1..];
    }
  }

  /** A character outside the runs is copied. */
  lemma ReplaceRunsKept(c: char, s: string, k: Runs)
    requires !InRun(k, c)
    ensures ReplaceRuns([c] + s, k) == [c] + ReplaceRuns(s, k)
  {
    assert ([c] + s)[1..] == s;
  }

  lemma {:induction false} TransliterateAscii(t: SlugTables, s: string)
    requires IsAsciiText(s)
    ensures Transliterate(t, s) == s
  {
    if s != [] {
      TransliterateAscii(t, s[1..]);
      assert s == [s[0]] + s[1..];
    }
  }

  lemma {:induction false} KeepWordOrDashChars(s: string)
    ensures forall i :: 0 <= i < |KeepWordOrDash(s)| ==> IsWordOrDash(KeepWordOrDash(s)[i])
  {
    if s != [] {
      KeepWordOrDashChars(s[1..]);
      assert KeepWordOrDash(s) == (if IsWordOrDash(s[0]) then [s[0]] else []) + KeepWordOrDash(s[1..]);
    }
  }

  lemma {:induction false} KeepWordOrDashKeeps(s: string)
    requires forall i :: 0 <= i < |s| ==> IsWordOrDash(s[i])
    ensures KeepWordOrDash(s) == s
  {
    if s != [] {
      KeepWordOrDashKeeps(s[1..]);
      assert s == [s[0]] + s[1..];
    }
  }

  lemma {:induction false} LowerShape(s: string)
    ensures |Lower(s)| == |s|
    ensures forall i :: 0 <= i < |s| ==> Lower(s)[i] == LowerChar(s[i])
  {
    if s != [] {
      LowerShape(s[1..]);
    }
  }

  lemma LowerKeeps(s: string)
    requires forall i :: 0 <= i < |s| ==> !('A' <= s[i] <= 'Z')
    ensures Lower(s) == s
  {
    LowerShape(s);
  }

  /** Steps 3 to 5 leave word characters and single dashes, none at
      either end. */
  lemma SqueezeShape(s2: string)
    ensures forall i :: 0 <= i < |Squeeze(s2)| ==> IsWordOrDash(Squeeze(s2)[i])
    ensures Squeeze(s2) == [] || (Squeeze(s2)[0] != '-' && Squeeze(s2)[|Squeeze(s2)| - 1] != '-')
    ensures NoDoubleDash(Squeeze(s2))
  {
    var s3 := KeepWordOrDash(s2);
    KeepWordOrDashChars(s2);
    TrimDashesShape(s3);
    CollapseDashesShape(Trim(s3, {'-'}));
  }

  /** Trimming dashes from word characters and dashes. */
  lemma TrimDashesShape(s3: string)
    requires forall i :: 0 <= i < |s3| ==> IsWordOrDash(s3[i])
    ensures var s4 := Trim(s3, {'-'});
      (forall i :: 0 <= i < |s4| ==> IsWordOrDash(s4[i])) &&
      (s4 == [] || (s4[0] != '-' && s4[|s4| - 1] != '-'))
  {
    var i, j := TrimSlice(s3, {'-'});
    var s4 := Trim(s3, {'-'});
    TrimShape(s3, {'-'});
    forall k | 0 <= k < |s4|
      ensures IsWordOrDash(s4[k])
    {
      assert s4[k] == s3[i + k];
    }
  }

  /** Step 5 on text that neither starts nor ends with a dash. */
  lemma CollapseDashesShape(s4: string)
    requires forall i :: 0 <= i < |s4| ==> IsWordOrDash(s4[i])
    requires s4 == [] || (s4[0] != '-' && s4[|s4| - 1] != '-')
    ensures var s5 := ReplaceRuns(s4, Dashes);
      (forall i :: 0 <= i < |s5| ==> IsWordOrDash(s5[i])) &&
      (s5 == [] || (s5[0] != '-' && s5[|s5| - 1] != '-')) &&
      NoDoubleDash(s5)
  {
    ReplaceRunsWordChars(s4, Dashes);
    ReplaceRunsNoDoubleDash(s4, Dashes);
    if s4 != [] {
      ReplaceRunsLast(s4, Dashes);
    }
  }

  /** On ASCII letters, digits and dashes, steps 3 to 5 give dash-separated
      text. */
  lemma SqueezeAlnum(s2: string)
    requires forall i :: 0 <= i < |s2| ==> IsAlnumOrDash(s2[i])
    ensures IsDashSeparated(Squeeze(s2))
  {
    SqueezeShape(s2);
    KeepWordOrDashKeeps(s2);
    var i, j := TrimSlice(s2, {'-'});
    var s4 := Trim(s2, {'-'});
    assert forall k :: 0 <= k < |s4| ==> s4[k] == s2[i + k];
    ReplaceRunsAlnumChars(s4, Dashes);
    assert Squeeze(s2) == ReplaceRuns(s4, Dashes);
  }

  /** Dash-separated text passes steps 3 to 5 unchanged. */
  lemma SqueezeKeeps(s2: string)
    requires IsDashSeparated(s2)
    ensures Squeeze(s2) == s2
  {
    KeepWordOrDashKeeps(s2);
    TrimKeeps(s2, {'-'});
    ReplaceRunsKeeps(s2, Dashes);
  }

  /** Step 6: lower-casing keeps the dashes where they are. */
  lemma LowerStep(s5: string)
    requires forall i :: 0 <= i < |s5| ==> IsWordOrDash(s5[i])
    requires s5 == [] || (s5[0] != '-' && s5[|s5| - 1] != '-')
    requires NoDoubleDash(s5)
    ensures |Lower(s5)| == |s5|
    ensures forall i :: 0 <= i < |s5| ==> IsSlugChar(Lower(s5)[i]) || Lower(s5)[i] == '_'
    ensures forall i :: 0 <= i < |s5| ==> Lower(s5)[i] == '_' ==> s5[i] == '_'
    ensures s5 == [] || (Lower(s5)[0] != '-' && Lower(s5)[|s5| - 1] != '-')
    ensures NoDoubleDash(Lower(s5))
  {
    LowerShape(s5);
  }

  // ---------------------------------------------------------------------
  // Properties of toSlug

  /** Whatever the text, the slug is not empty, is made of lower-case ASCII
      letters, digits, `_` and `-`, neither starts nor ends with `-` and
      never holds two dashes in a row. */
  lemma ToSlugShape(t: SlugTables, text: string)
    ensures var r := ToSlug(t, text);
      r != [] && r[0] != '-' && r[|r| - 1] != '-' && NoDoubleDash(r) &&
      forall i :: 0 <= i < |r| ==> IsSlugChar(r[i]) || r[i] == '_'
  {
    var s2 := Transliterate(t, ReplaceRuns(text, Separators(t)));
    SqueezeShape(s2);
    LowerStep(Squeeze(s2));
  }

  /** For ASCII text the slug is made of `a-z`, `0-9` and `-` only. */
  lemma ToSlugOfAscii(t: SlugTables, text: string)
    requires IsAsciiText(text)
    ensures IsSlug(ToSlug(t, text))
  {
    AsciiSqueezed(t, text);
    LowerDashSeparated(Squeeze(Transliterate(t, ReplaceRuns(text, Separators(t)))));
    NotApplicableIsSlug();
  }

  /** Steps 1 to 5 turn ASCII text into dash-separated letters and digits. */
  lemma AsciiSqueezed(t: SlugTables, text: string)
    requires IsAsciiText(text)
    ensures IsDashSeparated(Squeeze(Transliterate(t, ReplaceRuns(text, Separators(t)))))
  {
    var s1 := ReplaceRuns(text, Separators(t));
    assert forall i :: 0 <= i < |text| && !InRun(Separators(t), text[i]) ==> IsAlnumOrDash(text[i]);
    ReplaceRunsAlnumChars(text, Separators(t));
    assert IsAsciiText(s1);
    TransliterateAscii(t, s1);
    SqueezeAlnum(s1);
  }

  /** Lower-casing dash-separated text gives slug characters only. */
  lemma LowerDashSeparated(s5: string)
    requires IsDashSeparated(s5)
    ensures var s6 := Lower(s5);
      (forall i :: 0 <= i < |s6| ==> IsSlugChar(s6[i])) &&
      (s6 == [] || (s6[0] != '-' && s6[|s6| - 1] != '-')) && NoDoubleDash(s6)
  {
    LowerShape(s5);
  }

  lemma NotApplicableIsSlug()
    ensures IsSlug(NotApplicable)
  {
  }

  /** A slug is its own slug. */
  lemma ToSlugOfSlug(t: SlugTables, s: string)
    requires IsSlug(s)
    ensures ToSlug(t, s) == s
  {
    ReplaceRunsKeeps(s, Separators(t));
    assert IsAsciiText(s);
    TransliterateAscii(t, s);
    SqueezeKeeps(s);
    LowerKeeps(s);
  }

  /** On ASCII text `toSlug` is idempotent. */
  lemma ToSlugIdempotent(t: SlugTables, text: string)
    requires IsAsciiText(text)
    ensures ToSlug(t, ToSlug(t, text)) == ToSlug(t, text)
  {
    ToSlugOfAscii(t, text);
    ToSlugOfSlug(t, ToSlug(t, text));
  }

  /** A space before a word is a separator run of its own. */
  lemma SpaceThenWord(t: SlugTables, w: string)
    requires forall i :: 0 <= i < |w| ==> IsAsciiAlnum(w[i])
    ensures ReplaceRuns(" " + w, Separators(t)) == "-" + w
  {
    var k := Separators(t);
    assert (" " + w)[1..] == w;
    ReplaceRunsKeeps(w, k);
    assert SkipRun(w, k) == w by {
      assert w == [] || !InRun(k, w[0]);
    }
  }

  lemma SeparatedWords(t: SlugTables, w1: string, w2: string)
    requires forall i :: 0 <= i < |w1| ==> IsAsciiAlnum(w1[i])
    requires forall i :: 0 <= i < |w2| ==> IsAsciiAlnum(w2[i])
    ensures ReplaceRuns(w1 + (" " + w2), Separators(t)) == w1 + ("-" + w2)
  {
    var k := Separators(t);
    SpaceThenWord(t, w2);
    assert forall i :: 0 <= i < |w1| ==> !InRun(k, w1[i]);
    ReplaceRunsAppend(w1, " " + w2, k);
  }

  lemma DashJoined(w1: string, w2: string)
    requires w1 != [] && w2 != []
    requires forall i :: 0 <= i < |w1| ==> IsAsciiAlnum(w1[i])
    requires forall i :: 0 <= i < |w2| ==> IsAsciiAlnum(w2[i])
    ensures IsDashSeparated(w1 + ("-" + w2))
  {
    var s1 := w1 + ("-" + w2);
    forall i | 0 <= i < |s1| - 1 ensures !(s1[i] == '-' && s1[i + 1] == '-') {
      if i < |w1| {
        assert s1[i] == w1[i];
      } else {
        assert s1[i + 1] == w2[i + 1 - |w1| - 1];
      }
    }
  }

  lemma LowerJoined(w1: string, w2: string)
    ensures Lower(w1 + ("-" + w2)) == Lower(w1) + ("-" + Lower(w2))
  {
    LowerShape(w1 + ("-" + w2));
    LowerShape(w1);
    LowerShape(w2);
  }

  /** Two ASCII words separated by a space become the lower-cased words
      joined by a dash. */
  lemma TwoWords(t: SlugTables, w1: string, w2: string)
    requires w1 != [] && w2 != []
    requires forall i :: 0 <= i < |w1| ==> IsAsciiAlnum(w1[i])
    requires forall i :: 0 <= i < |w2| ==> IsAsciiAlnum(w2[i])
    ensures ToSlug(t, w1 + (" " + w2)) == Lower(w1) + ("-" + Lower(w2))
  {
    TwoWordsSteps(t, w1, w2);
  }

  /** The steps of `toSlug` on two ASCII words separated by a space. */
  lemma TwoWordsSteps(t: SlugTables, w1: string, w2: string)
    requires w1 != [] && w2 != []
    requires forall i :: 0 <= i < |w1| ==> IsAsciiAlnum(w1[i])
    requires forall i :: 0 <= i < |w2| ==> IsAsciiAlnum(w2[i])
    ensures var s1 := w1 + ("-" + w2);
      ReplaceRuns(w1 + (" " + w2), Separators(t)) == s1 &&
      Transliterate(t, s1) == s1 && Squeeze(s1) == s1 &&
      Lower(s1) == Lower(w1) + ("-" + Lower(w2)) && |Lower(s1)| >= 3
  {
    var s1 := w1 + ("-" + w2);
    SeparatedWords(t, w1, w2);
    DashJoined(w1, w2);
    assert IsAsciiText(s1);
    TransliterateAscii(t, s1);
    SqueezeKeeps(s1);
    LowerJoined(w1, w2);
    LowerShape(s1);
  }

  /** The test suite's multi-word tag. */
  lemma MultiwordTag(t: SlugTables)
    ensures ToSlug(t, "Multiword tag") == "multiword-tag"
  {
    MultiwordParts();
    AlnumWord("Multiword");
    AlnumWord("tag");
    TwoWords(t, "Multiword", "tag");
  }

  /** The two words of the multi-word tag are letters only. */
  lemma AlnumWord(w: string)
    requires w == "Multiword" || w == "tag"
    ensures forall i :: 0 <= i < |w| ==> IsAsciiAlnum(w[i])
  {
  }

  lemma MultiwordParts()
    ensures "Multiword" + (" " + "tag") == "Multiword tag"
    ensures Lower("Multiword") + ("-" + Lower("tag")) == "multiword-tag"
  {
    LowerMultiword();
    LowerTag();
  }

  lemma LowerMultiword()
    ensures Lower("Multiword") == "multiword"
  {
    CapitalM();
    LowerUltiword();
    LowerFirst('M', "ultiword");
  }

  lemma CapitalM()
    ensures "Multiword" == ['M'] + "ultiword" && ['m'] + "ultiword" == "multiword"
  {
  }

  lemma LowerUltiword()
    ensures Lower("ultiword") == "ultiword"
  {
  }

  lemma LowerTag()
    ensures Lower("tag") == "tag"
  {
  }

  /** Lower-casing goes character by character. */
  lemma LowerFirst(c: char, s: string)
    ensures Lower([c] + s) == [LowerChar(c)] + Lower(s)
  {
    assert ([c] + s)[1..] == s;
  }

  /** PHP's `empty()` also holds of "0", so the digit zero has no slug of
      its own. */
  lemma ZeroHasNoSlug(t: SlugTables)
    ensures ToSlug(t, "0") == NotApplicable
  {
    ReplaceRunsKeeps("0", Separators(t));
    assert IsAsciiText("0");
    TransliterateAscii(t, "0");
    SqueezeKeeps("0");
    LowerKeeps("0");
  }
}
