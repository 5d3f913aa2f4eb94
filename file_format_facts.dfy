/** What the post parser of private/post_source/file_format.php promises,
    proved of the pass `FileFormat.Parse`: which metadata lines are read,
    which value wins for a repeated key, the defaults, the tags, the
    bounds on excerpt and body, and when a file is refused. */
module FileFormatFacts {
  import opened Wrappers
  import opened PhpString
  import opened PhpArray
  import opened Slug
  import opened PostFs
  import opened StreamIo
  import opened FileFormat

  // -----------------------------------------------------------------------
  // The metadata loop as a list of lines

  /** The metadata lines the loop of `tryToLoadPost` consumes from
      position `p`, and the position it stops at. The line there is not a
      metadata line with a known key, and the loop has put it back. */
  function MetaRun(d: string, p: nat): (r: (seq<FieldLine>, nat))
    requires p <= |d|
    ensures p <= r.1 <= |d|
    ensures MetaLineAt(d, r.1) == (None, r.1)
    decreases |d| - p
  {
    match MetaLineAt(d, p)
    case (None, _) => ([], p)
    case (Some(m), q) =>
      var rest := MetaRun(d, q);
      ([m] + rest.0, rest.1)
  }

  /** The record after storing the decoded lines one after another. */
  function ApplyAll(host: Host, rec: Record, lines: seq<FieldLine>): Record
    decreases |lines|
  {
    if lines == [] then rec
    else
      var last := lines[|lines| - 1];
      Assign(ApplyAll(host, rec, lines[..|lines| - 1]), Meta(last.field, Decode(host, last)))
  }

  /** The value of the last line with the given key. */
  function LastValue(lines: seq<FieldLine>, key: Field): (v: Option<string>)
    ensures v.None? <==> forall i :: 0 <= i < |lines| ==> lines[i].field != key
    ensures v.Some? ==> exists i :: 0 <= i < |lines| && lines[i] == FieldLine(key, v.value)
    decreases |lines|
  {
    if lines == [] then None
    else if lines[|lines| - 1].field == key then Some(lines[|lines| - 1].value)
    else
      var v := LastValue(lines[..|lines| - 1], key);
      assert forall i :: 0 <= i < |lines| - 1 ==> lines[..|lines| - 1][i] == lines[i];
      v
  }

  /** Storing the first line and then the rest is storing all of them. */
  lemma {:induction false} ApplyAllFirst(host: Host, rec: Record, m: FieldLine, lines: seq<FieldLine>)
    ensures ApplyAll(host, rec, [m] + lines) == ApplyAll(host, Assign(rec, Meta(m.field, Decode(host, m))), lines)
    decreases |lines|
  {
    if lines != [] {
      var all := [m] + lines;
      assert all[..|all| - 1] == [m] + lines[..|lines| - 1];
      ApplyAllFirst(host, rec, m, lines[..|lines| - 1]);
    } else {
      assert ([m] + lines)[..0] == [];
    }
  }

  /** The metadata loop stores, in order, exactly the lines of `MetaRun`
      and leaves the reader where `MetaRun` stops. */
  lemma {:induction false} MetaLoopIsRun(host: Host, d: string, p: nat, rec: Record)
    requires p <= |d|
    ensures MetaLoop(host, d, p, rec) == (ApplyAll(host, rec, MetaRun(d, p).0), MetaRun(d, p).1)
    decreases |d| - p
  {
    match MetaLineAt(d, p)
    case (None, _) =>
    case (Some(m), q) =>
      var next := Assign(rec, Meta(m.field, Decode(host, m)));
      MetaLoopIsRun(host, d, q, next);
      ApplyAllFirst(host, rec, m, MetaRun(d, q).0);
  }

  /** The value a time line stores. */
  function TimeOf(host: Host, v: Option<string>): Option<Time> {
    match v
    case None => None
    case Some(s) => Some(ToTime(host, s))
  }

  /** Storing one line sets its own field to the decoded value and leaves
      every other field as it was. */
  lemma AssignLine(host: Host, rec: Record, m: FieldLine)
    ensures var r := Assign(rec, Meta(m.field, Decode(host, m)));
      r.title == rec.title && r.excerpt == rec.excerpt && r.content == rec.content &&
      r.published == (if m.field == Published then Some(ToTime(host, m.value)) else rec.published) &&
      r.updated == (if m.field == Updated then Some(ToTime(host, m.value)) else rec.updated) &&
      r.tags == (if m.field == Tags then Some(DecodeTags(host.slugs, m.value)) else rec.tags) &&
      r.hidden == (if m.field == Hidden then m.value == "yes" else rec.hidden)
  {
  }

  /** The last line with a key is the final line when that line has the
      key, and otherwise the last one before it. */
  lemma LastValueStep(lines: seq<FieldLine>, key: Field)
    requires lines != []
    ensures LastValue(lines, key) ==
      if lines[|lines| - 1].field == key then Some(lines[|lines| - 1].value)
      else LastValue(lines[..|lines| - 1], key)
  {
  }

  /** After storing lines with known keys: each of `published`, `updated`
      and `tags` holds the decoded value of its last line, or what it held
      before when there is none; `hidden` holds whether the last `hidden`
      line said exactly "yes"; title, excerpt and content are untouched. */
  lemma {:induction false} ApplyAllFields(host: Host, rec: Record, lines: seq<FieldLine>)
    ensures var r := ApplyAll(host, rec, lines);
      r.title == rec.title && r.excerpt == rec.excerpt && r.content == rec.content &&
      r.published == (if LastValue(lines, Published).Some? then TimeOf(host, LastValue(lines, Published)) else rec.published) &&
      r.updated == (if LastValue(lines, Updated).Some? then TimeOf(host, LastValue(lines, Updated)) else rec.updated) &&
      r.tags == (if LastValue(lines, Tags).Some? then Some(DecodeTags(host.slugs, LastValue(lines, Tags).value)) else rec.tags) &&
      r.hidden == (if LastValue(lines, Hidden).Some? then LastValue(lines, Hidden).value == "yes" else rec.hidden)
    decreases |lines|
  {
    if lines != [] {
      var init := lines[..|lines| - 1];
      var last := lines[|lines| - 1];
      ApplyAllFields(host, rec, init);
      AssignLine(host, ApplyAll(host, rec, init), last);
      LastValueStep(lines, Published);
      LastValueStep(lines, Updated);
      LastValueStep(lines, Tags);
      LastValueStep(lines, Hidden);
    }
  }

  // -----------------------------------------------------------------------
  // The record of a whole file

  /** The title of the file, the metadata lines it holds and the
      positions after each. */
  function TitleOf(d: string): Option<string> {
    ReadTitle(d, 0).0
  }

  function MetaLinesOf(d: string): seq<FieldLine> {
    MetaRun(d, ReadTitle(d, 0).1).0
  }

  /** The record `tryToLoadPost` builds: the title of the first line; the
      last value of each metadata key; `hidden` false unless the last
      `hidden` line says "yes"; `updated` the published time exactly when
      no `updated` line was read; content absent exactly for a
      metadata-only load. */
  lemma ParseFields(host: Host, d: string, metaOnly: bool)
    ensures var rec := Parse(host, d, metaOnly);
      var lines := MetaLinesOf(d);
      rec.title == TitleOf(d) &&
      rec.published == TimeOf(host, LastValue(lines, Published)) &&
      rec.updated == (if LastValue(lines, Updated).Some? then TimeOf(host, LastValue(lines, Updated)) else rec.published) &&
      (rec.tags.Some? <==> LastValue(lines, Tags).Some?) &&
      (rec.tags.Some? ==> rec.tags.value == DecodeTags(host.slugs, LastValue(lines, Tags).value)) &&
      rec.hidden == (LastValue(lines, Hidden) == Some("yes")) &&
      (rec.content.None? <==> metaOnly)
  {
    var (title, p1) := ReadTitle(d, 0);
    MetaLoopIsRun(host, d, p1, Initial(title));
    ApplyAllFields(host, Initial(title), MetaRun(d, p1).0);
  }

  /** `postRecordIsInvalid` looks at the title, `published` and `tags`
      only. */
  lemma Validity(rec: Record, title: Option<string>, published: Option<string>, tags: Option<string>)
    requires rec.title == title && (rec.published.Some? <==> published.Some?) && (rec.tags.Some? <==> tags.Some?)
    ensures IsInvalid(rec) <==> !(title.Some? && published.Some? && tags.Some?)
  {
  }

  /** The pass builds a valid record exactly when the file begins with a
      title and has a `published` and a `tags` line. */
  lemma ParseValid(host: Host, d: string, metaOnly: bool)
    ensures !IsInvalid(Parse(host, d, metaOnly)) <==>
      TitleOf(d).Some? && LastValue(MetaLinesOf(d), Published).Some? && LastValue(MetaLinesOf(d), Tags).Some?
  {
    var lines := MetaLinesOf(d);
    ParseFields(host, d, metaOnly);
    Validity(Parse(host, d, metaOnly), TitleOf(d), LastValue(lines, Published), LastValue(lines, Tags));
  }

  /** A file the store does not hold gives no record. */
  lemma LoadPostMissing(host: Host, posts: Assoc<string>, path: string, metaOnly: bool)
    requires GetFilename(path) !in Keys(posts)
    ensures LoadPost(host, posts, path, metaOnly) == None
  {
  }

  /** For a file the store holds, the parser returns a record exactly when
      the file begins with a title and has a `published` and a `tags`
      line. */
  lemma LoadPostAccepts(host: Host, posts: Assoc<string>, path: string, metaOnly: bool, d: string)
    requires Lookup(posts, GetFilename(path)) == Some(d)
    ensures LoadPost(host, posts, path, metaOnly).Some? <==>
      TitleOf(d).Some? && LastValue(MetaLinesOf(d), Published).Some? && LastValue(MetaLinesOf(d), Tags).Some?
  {
    ParseValid(host, d, metaOnly);
  }

  /** A record the parser returns is the one the pass builds from the
      file's contents. */
  lemma LoadPostRecord(host: Host, posts: Assoc<string>, path: string, metaOnly: bool)
    requires LoadPost(host, posts, path, metaOnly).Some?
    ensures Lookup(posts, GetFilename(path)).Some?
    ensures LoadPost(host, posts, path, metaOnly).value == Parse(host, Lookup(posts, GetFilename(path)).value, metaOnly)
  {
  }

  /** A record the parser accepts has a title, a published time, an
      updated time and tags, and no "n-a" tag. */
  lemma AcceptedRecordShape(host: Host, posts: Assoc<string>, path: string, metaOnly: bool)
    requires LoadPost(host, posts, path, metaOnly).Some?
    ensures var rec := LoadPost(host, posts, path, metaOnly).value;
      rec.title.Some? && rec.published.Some? && rec.updated.Some? && rec.tags.Some? &&
      NotApplicable !in Keys(rec.tags.value) && UniqueKeys(rec.tags.value)
  {
    var d := Lookup(posts, GetFilename(path)).value;
    ParseValid(host, d, metaOnly);
    ParseFields(host, d, metaOnly);
  }

  // -----------------------------------------------------------------------
  // The two line patterns

  predicate NoNewline(s: string) {
    forall i :: 0 <= i < |s| ==> s[i] != '\n'
  }

  /** The final line feed of a line is dropped. */
  lemma DropNewlineOf(s: string)
    ensures DropNewline(s + "\n") == s
  {
    assert (s + "\n")[..|s|] == s;
  }

  /** White space before the `#` does not matter. */
  lemma TitleAfterIndent(indent: string, rest: string)
    requires IsBlank(indent) && rest != [] && rest[0] == '#'
    ensures MatchTitle(indent + rest) == Capture(rest[1..])
  {
    TrimLeftBlank(indent, rest);
  }

  /** The capture of `gap title\n` is the title. */
  lemma CaptureAfterGap(gap: string, title: string)
    requires IsBlank(gap) && title != [] && !IsRegexSpace(title[0])
    ensures Capture(gap + title + "\n") == Some(title)
  {
    DropNewlineOf(gap + title);
    TrimLeftBlank(gap, title);
  }

  /** A line `# Title` gives the title, whatever white space surrounds
      the `#`. */
  lemma TitleLine(indent: string, gap: string, title: string)
    requires IsBlank(indent) && IsBlank(gap)
    requires title != [] && !IsRegexSpace(title[0])
    ensures MatchTitle(indent + "#" + gap + title + "\n") == Some(title)
  {
    var rest := "#" + gap + title + "\n";
    assert indent + "#" + gap + title + "\n" == indent + rest;
    assert rest[1..] == gap + title + "\n";
    TitleAfterIndent(indent, rest);
    CaptureAfterGap(gap, title);
  }

  /** A line whose first character other than white space is not `#` has
      no title. */
  lemma NoTitleLine(line: string)
    requires TrimLeft(line, RegexSpaces) == [] || TrimLeft(line, RegexSpaces)[0] != '#'
    ensures MatchTitle(line) == None
  {
  }

  /** White space before the dash does not matter. */
  lemma MetaAfterIndent(indent: string, rest: string)
    requires IsBlank(indent) && |rest| >= 2 && rest[0] == '-' && rest[1] == ' '
    ensures MatchMeta(indent + rest) == MatchKey(rest[2..])
  {
    TrimLeftBlank(indent, rest);
  }

  /** After the key: the colon, then the value. */
  lemma ColonValue(value: string)
    requires value != [] && !IsRegexSpace(value[0])
    ensures var rest := ": " + value + "\n";
      TrimLeft(rest, RegexSpaces) == rest && rest[0] == ':' && Capture(rest[1..]) == Some(value)
  {
    var rest := ": " + value + "\n";
    TrimLeftBlank([], rest);
    assert [] + rest == rest;
    assert rest[1..] == " " + value + "\n";
    CaptureAfterGap(" ", value);
  }

  /** A key followed by a character that is neither a letter nor white
      space is read whole. */
  lemma KeyRun(key: string, rest: string)
    requires key != [] && forall i :: 0 <= i < |key| ==> IsLower(key[i])
    requires rest != [] && !IsLower(rest[0])
    ensures TrimLeft(key + rest, RegexSpaces) == key + rest
    ensures LetterRun(key + rest) == key && (key + rest)[|key|..] == rest
  {
    TrimLeftBlank([], key + rest);
    assert [] + (key + rest) == key + rest;
    LetterRunOf(key, rest);
  }

  /** `MatchKey` in terms of the pieces it reads. */
  lemma MatchKeyParts(s: string, key: string, rest: string, value: string)
    requires TrimLeft(s, RegexSpaces) == s && LetterRun(s) == key && key != [] && |key| <= |s| && s[|key|..] == rest
    requires TrimLeft(rest, RegexSpaces) == rest && rest != [] && rest[0] == ':' && Capture(rest[1..]) == Some(value)
    ensures MatchKey(s) == Some(MetaLine(key, value))
  {
  }

  /** `key: value` after the dash gives the key and the value. */
  lemma KeyAndValue(key: string, value: string)
    requires key != [] && forall i :: 0 <= i < |key| ==> IsLower(key[i])
    requires value != [] && !IsRegexSpace(value[0])
    ensures MatchKey(key + ": " + value + "\n") == Some(MetaLine(key, value))
  {
    var rest := ": " + value + "\n";
    var s := key + rest;
    assert key + ": " + value + "\n" == s;
    ColonValue(value);
    KeyRun(key, rest);
    MatchKeyParts(s, key, rest, value);
  }

  /** A line `- key: value` with a lower-case key gives that key and
      value. */
  lemma MetaLineMatches(indent: string, key: string, value: string)
    requires IsBlank(indent)
    requires key != [] && forall i :: 0 <= i < |key| ==> IsLower(key[i])
    requires value != [] && !IsRegexSpace(value[0])
    ensures MatchMeta(indent + "- " + key + ": " + value + "\n") == Some(MetaLine(key, value))
  {
    var rest := "- " + key + ": " + value + "\n";
    assert indent + "- " + key + ": " + value + "\n" == indent + rest;
    assert rest[2..] == key + ": " + value + "\n";
    MetaAfterIndent(indent, rest);
    KeyAndValue(key, value);
  }

  /** `[a-z]+` takes the whole key when a character other than a letter
      follows it. */
  lemma {:induction false} LetterRunOf(key: string, s: string)
    requires forall i :: 0 <= i < |key| ==> IsLower(key[i])
    requires s == [] || !IsLower(s[0])
    ensures LetterRun(key + s) == key
    decreases |key|
  {
    if key == [] {
      assert key + s == s;
    } else {
      assert (key + s)[1..] == key[1..] + s;
      LetterRunOf(key[1..], s);
      assert key == [key[0]] + key[1..];
    }
  }

  // -----------------------------------------------------------------------
  // Tags

  /** The keys of the tags array: the keys of the pairs, less "n-a". */
  lemma TagPairKeys(pairs: seq<(string, string)>, k: string)
    ensures k in Keys(Unset(FromPairs(pairs), NotApplicable)) <==> k != NotApplicable && k in Keys(pairs)
  {
  }

  /** The keys of the pairs are the slugs of the parts. */
  lemma SlugPairKeys(pairs: Assoc<string>, slugs: seq<string>, k: string)
    requires |pairs| == |slugs| && forall i :: 0 <= i < |pairs| ==> pairs[i].0 == slugs[i]
    ensures k in Keys(pairs) <==> k in slugs
  {
    var ks := Keys(pairs);
    assert forall i :: 0 <= i < |ks| ==> ks[i] == slugs[i];
    assert ks == slugs;
  }

  /** The slugs of the parts, in order. */
  function Slugs(slug: string -> string, parts: seq<string>): seq<string> {
    seq(|parts|, i requires 0 <= i < |parts| => slug(parts[i]))
  }

  /** The keys of the tag pairs are the slugs. */
  lemma TagPairsSlugs(slug: string -> string, parts: seq<string>)
    ensures var pairs := TagPairs(slug, parts);
      |pairs| == |Slugs(slug, parts)| && forall i :: 0 <= i < |pairs| ==> pairs[i].0 == Slugs(slug, parts)[i]
  {
  }

  /** The tag slugs are exactly the slugs of the comma-separated parts,
      without the sentinel. */
  lemma TagKeys(t: SlugTables, value: string, k: string)
    ensures k in Keys(DecodeTags(t, value)) <==> k != NotApplicable && k in Slugs(SlugOf(t), RegexSplit(value, ','))
  {
    var parts := RegexSplit(value, ',');
    var pairs := TagPairs(SlugOf(t), parts);
    TagPairKeys(pairs, k);
    TagPairsSlugs(SlugOf(t), parts);
    SlugPairKeys(pairs, Slugs(SlugOf(t), parts), k);
  }

  /** Whatever the value, the tag under a slug is the last part with that
      slug, and "n-a" has none: two parts with the same slug give one tag,
      holding the later part. */
  lemma TagValues(t: SlugTables, value: string, k: string)
    ensures Lookup(DecodeTags(t, value), k) ==
      if k == NotApplicable then None else LastWith(TagPairs(SlugOf(t), RegexSplit(value, ',')), k)
  {
    FromPairsLast(TagPairs(SlugOf(t), RegexSplit(value, ',')), k);
  }

  /** Whatever the value, the tags stand in the order in which their slugs
      first occur among the parts: a repeated slug keeps the place of its
      first part. */
  lemma TagOrder(t: SlugTables, value: string)
    ensures Keys(DecodeTags(t, value)) ==
      Without(FirstOccurrences(Slugs(SlugOf(t), RegexSplit(value, ','))), NotApplicable)
  {
    var pairs := TagPairs(SlugOf(t), RegexSplit(value, ','));
    TagPairKeysAreSlugs(SlugOf(t), RegexSplit(value, ','));
    FromPairsOrder(pairs);
  }

  lemma TagPairKeysAreSlugs(slug: string -> string, parts: seq<string>)
    ensures Keys(TagPairs(slug, parts)) == Slugs(slug, parts)
  {
    TagPairsSlugs(slug, parts);
  }

  /** The parts of the test suite's repeated tag. */
  lemma SplitRepeated()
    ensures RegexSplit("tag1, tag2, tag1", ',') == ["tag1", "tag2", "tag1"]
  {
    ExplodeRepeated();
    SplitOfThree("tag1, tag2, tag1", ',', "tag1", " tag2", " tag1");
    StripRepeated();
  }

  /** `preg_split` of a value with three pieces. */
  lemma SplitOfThree(s: string, d: char, a: string, b: string, c: string)
    requires Explode(s, d) == [a, b, c]
    ensures RegexSplit(s, d) == [StripAround(a, false, true), StripAround(b, true, true), StripAround(c, true, false)]
  {
    var parts := RegexSplit(s, d);
    assert |parts| == 3;
    assert parts[0] == StripAround(a, false, true);
    assert parts[1] == StripAround(b, true, true);
    assert parts[2] == StripAround(c, true, false);
  }

  /** The raw pieces of the repeated tag's value. */
  lemma ExplodeRepeated()
    ensures Explode("tag1, tag2, tag1", ',') == ["tag1", " tag2", " tag1"]
  {
    var raw := ["tag1", " tag2", " tag1"];
    assert Join(raw, ',') == "tag1, tag2, tag1" by {
      assert Join(raw[2..], ',') == " tag1";
      assert Join(raw[1..], ',') == " tag2" + [','] + " tag1";
    }
    ExplodeJoin(raw, ',');
  }

  /** A word with no whitespace around it is left as it is. */
  lemma StripWord(w: string)
    requires w != [] && w[0] !in RegexSpaces && w[|w| - 1] !in RegexSpaces
    ensures StripAround(w, false, true) == w
    ensures StripAround([' '] + w, true, true) == w
    ensures StripAround([' '] + w, true, false) == w
  {
    assert ([' '] + w)[1..] == w;
  }

  /** The whitespace after each comma goes with the comma. */
  lemma StripRepeated()
    ensures StripAround("tag1", false, true) == "tag1"
    ensures StripAround(" tag2", true, true) == "tag2"
    ensures StripAround(" tag1", true, false) == "tag1"
  {
    StripWord("tag1");
    StripWord("tag2");
    assert " tag1" == [' '] + "tag1";
    assert " tag2" == [' '] + "tag2";
  }

  /** The slugs of the repeated tag's parts are the parts. */
  lemma PairsRepeated(t: SlugTables)
    ensures TagPairs(SlugOf(t), ["tag1", "tag2", "tag1"]) == [("tag1", "tag1"), ("tag2", "tag2"), ("tag1", "tag1")]
  {
    TagsAreSlugs(t);
    PairsOfThree(SlugOf(t), "tag1", "tag2", "tag1");
  }

  lemma TagsAreSlugs(t: SlugTables)
    ensures SlugOf(t)("tag1") == "tag1" && SlugOf(t)("tag2") == "tag2"
  {
    SlugWord("tag1");
    ToSlugOfSlug(t, "tag1");
    SlugWord("tag2");
    ToSlugOfSlug(t, "tag2");
  }

  lemma SlugWord(w: string)
    requires w == "tag1" || w == "tag2"
    ensures IsSlug(w)
  {
  }

  /** Three parts that are their own slugs are paired with themselves. */
  lemma PairsOfThree(slug: string -> string, a: string, b: string, c: string)
    requires slug(a) == a && slug(b) == b && slug(c) == c
    ensures TagPairs(slug, [a, b, c]) == [(a, a), (b, b), (c, c)]
  {
    var pairs := TagPairs(slug, [a, b, c]);
    assert |pairs| == 3;
    assert pairs[0] == (a, a);
    assert pairs[1] == (b, b);
    assert pairs[2] == (c, c);
  }

  /** The repeated slug keeps its first place. */
  lemma CollapseRepeated()
    ensures Unset(FromPairs([("tag1", "tag1"), ("tag2", "tag2"), ("tag1", "tag1")]), NotApplicable)
            == [("tag1", "tag1"), ("tag2", "tag2")]
  {
    FromPairsRepeat(("tag1", "tag1"), ("tag2", "tag2"), ("tag1", "tag1"));
    UnsetAbsent([("tag1", "tag1"), ("tag2", "tag2")], NotApplicable);
  }

  /** Two entries and a repeat of the first key: the key keeps its place
      and takes the repeat's value. */
  lemma FromPairsRepeat<V>(a: (string, V), b: (string, V), c: (string, V))
    requires a.0 != b.0 && c.0 == a.0
    ensures FromPairs([a, b, c]) == [(a.0, c.1), b]
  {
    assert [a, b, c][..2] == [a, b];
    assert [a, b][..1] == [a];
    assert [a][..0] == [];
    assert FromPairs([a]) == [a];
    assert FromPairs([a, b]) == [a, b];
  }

  /** The test suite's repeated tag: "tag1, tag2, tag1" gives the two tags
      `tag1` and `tag2`, once each, in that order. */
  lemma RepeatedTag(t: SlugTables)
    ensures DecodeTags(t, "tag1, tag2, tag1") == [("tag1", "tag1"), ("tag2", "tag2")]
  {
    SplitRepeated();
    PairsRepeated(t);
    CollapseRepeated();
  }

  // -----------------------------------------------------------------------
  // Excerpt and body

  /** Gathering never takes the excerpt past EXCERPT_MAX_LENGTH, and what
      it adds is the file's text from where it starts to where the last
      added line ends. */
  lemma AccumulateBound(d: string, p: nat, excerpt: string)
    requires p <= |d| && |excerpt| <= EXCERPT_MAX_LENGTH
    ensures |Accumulate(d, p, excerpt, |excerpt|).0| <= EXCERPT_MAX_LENGTH
    ensures exists q :: p <= q <= Accumulate(d, p, excerpt, |excerpt|).1 &&
                        Accumulate(d, p, excerpt, |excerpt|).0 == excerpt + d[p..q]
  {
    var q := AccumulateSpan(d, p, excerpt);
  }

  /** The end `q` of the text gathered from `p` on. */
  lemma {:induction false} AccumulateSpan(d: string, p: nat, excerpt: string) returns (q: nat)
    requires p <= |d| && |excerpt| <= EXCERPT_MAX_LENGTH
    ensures var r := Accumulate(d, p, excerpt, |excerpt|);
      |r.0| <= EXCERPT_MAX_LENGTH && p <= q <= r.1 && r.0 == excerpt + d[p..q]
    decreases |d| - p
  {
    var line := LineAt(d, p, EXCERPT_LINE_MAX_LENGTH);
    if Falsy(line) || IsBlank(line) || |excerpt| + |line| > EXCERPT_MAX_LENGTH {
      AccumulateStop(d, p, excerpt, |excerpt|, line);
      assert excerpt + d[p..p] == excerpt;
      q := p;
    } else {
      var m := p + |line|;
      assert line == d[p..m];
      var longer := excerpt + line;
      AccumulateNext(d, p, excerpt, |excerpt|, line, m, longer, |longer|);
      q := AccumulateSpan(d, m, longer);
      SlicesJoin(d, p, m, q, excerpt, line);
    }
  }

  /** Text taken in two pieces is the text of the whole stretch. */
  lemma SlicesJoin(d: string, p: nat, m: nat, q: nat, excerpt: string, line: string)
    requires p <= m <= q <= |d| && line == d[p..m]
    ensures excerpt + line + d[m..q] == excerpt + d[p..q]
  {
    assert d[p..q] == d[p..m] + d[m..q];
  }

  /** The line the blank-line loop stops at is shorter than
      EXCERPT_LINE_MAX_LENGTH. */
  lemma {:induction false} SkipBlankBound(d: string, p: nat)
    requires p <= |d|
    ensures |SkipBlank(d, p).0| < EXCERPT_LINE_MAX_LENGTH
    decreases |d| - p
  {
    var line := LineAt(d, p, EXCERPT_LINE_MAX_LENGTH);
    if !Falsy(line) && IsBlank(line) {
      SkipBlankNext(d, p, line, p + |line|);
      SkipBlankBound(d, p + |line|);
    } else {
      SkipBlankStop(d, p, line);
    }
  }

  /** Before trimming, the excerpt holds at most EXCERPT_MAX_LENGTH
      characters, and after trimming it is no longer. */
  lemma ExcerptBound(d: string, p: nat)
    requires p <= |d|
    ensures |ReadExcerpt(d, p).0| <= EXCERPT_MAX_LENGTH
  {
    var (first, q) := SkipBlank(d, p);
    SkipBlankBound(d, p);
    AccumulateBound(d, q, first);
    var gathered := Accumulate(d, q, first, |first|).0;
    TrimShape(gathered, TrimDefault);
  }

  /** Nothing but white space from `p` on: the excerpt is empty and the
      whole rest is read. */
  lemma {:induction false} BlankRestSkipped(d: string, p: nat)
    requires p <= |d| && IsBlank(d[p..])
    ensures SkipBlank(d, p) == ("", |d|)
    decreases |d| - p
  {
    var line := LineAt(d, p, EXCERPT_LINE_MAX_LENGTH);
    if p < |d| {
      assert line == d[p..p + |line|];
      assert forall i :: 0 <= i < |line| ==> line[i] == d[p..][i];
      assert IsBlank(line);
      assert line != "0" by { assert IsRegexSpace(line[0]); }
      assert d[p + |line|..] == d[p..][|line|..];
      BlankRestSkipped(d, p + |line|);
    }
  }

  lemma BlankExcerpt(d: string, p: nat)
    requires p <= |d| && IsBlank(d[p..])
    ensures ReadExcerpt(d, p) == ("", |d|)
  {
    BlankRestSkipped(d, p);
  }

  /** The body is at most POST_MAX_SIZE characters of the rest of the
      file, trimmed. */
  lemma ContentBound(host: Host, d: string, p: nat)
    requires p <= |d|
    ensures var c := ReadContent(host, d, p);
      |c| <= POST_MAX_SIZE &&
      (c == [] || (c[0] !in TrimDefault && c[|c| - 1] !in TrimDefault)) &&
      exists i, j :: p <= i <= j <= |d| && c == d[i..j]
  {
    ContentShape(host, d, p);
    ContentSlice(host, d, p);
  }

  /** The body is short and starts and ends with text. */
  lemma ContentShape(host: Host, d: string, p: nat)
    requires p <= |d|
    ensures var c := ReadContent(host, d, p);
      |c| <= POST_MAX_SIZE && (c == [] || (c[0] !in TrimDefault && c[|c| - 1] !in TrimDefault))
  {
    var raw := Substr(d, p, ReadSize(POST_MAX_SIZE, host.readChunk(d, p)));
    assert |raw| <= POST_MAX_SIZE;
    TrimShape(raw, TrimDefault);
  }

  /** The body is one stretch of the file from `p` on. */
  lemma ContentSlice(host: Host, d: string, p: nat)
    requires p <= |d|
    ensures exists i, j :: p <= i <= j <= |d| && ReadContent(host, d, p) == d[i..j]
  {
    var raw := Substr(d, p, ReadSize(POST_MAX_SIZE, host.readChunk(d, p)));
    var e := p + |raw|;
    assert raw == d[p..e];
    TrimWithin(d, p, e);
  }

  /** When one chunk of PHP's buffer holds the rest of the file, the body is
      the whole rest, trimmed; otherwise it stops after the chunk, however
      long the file is. */
  lemma ContentOfChunk(host: Host, d: string, p: nat)
    requires p <= |d|
    ensures var chunk := host.readChunk(d, p);
      (|d| - p <= chunk ==> ReadContent(host, d, p) == Trim(Substr(d, p, POST_MAX_SIZE), TrimDefault)) &&
      (chunk < POST_MAX_SIZE ==> |ReadContent(host, d, p)| <= chunk)
  {
    var chunk := host.readChunk(d, p);
    var raw := Substr(d, p, ReadSize(POST_MAX_SIZE, chunk));
    if |d| - p <= chunk && chunk < POST_MAX_SIZE {
      assert |raw| == |d| - p;
      assert |Substr(d, p, POST_MAX_SIZE)| == |d| - p;
    }
    TrimShape(raw, TrimDefault);
  }

  /** Trimming a stretch of `d` leaves a stretch of `d` inside it. */
  lemma TrimWithin(d: string, p: nat, e: nat)
    requires p <= e <= |d|
    ensures exists i, j :: p <= i <= j <= e && Trim(d[p..e], TrimDefault) == d[i..j]
  {
    var i, j := TrimSlice(d[p..e], TrimDefault);
    SliceOfSlice(d, p, e, i, j);
  }

  lemma SliceOfSlice(d: string, p: nat, e: nat, i: nat, j: nat)
    requires p <= e <= |d| && i <= j <= e - p
    ensures d[p..e][i..j] == d[p + i..p + j]
  {
    assert forall k :: 0 <= k < j - i ==> d[p..e][i..j][k] == d[p + i + k];
  }
}
