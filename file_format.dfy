/** The post file parser of private/post_source/file_format.php. A post
    file is a title line `# Title`, metadata lines `- key: value`, an
    excerpt paragraph and the body. The pure functions below give the
    meaning of one forward pass over the file's contents; the class
    `FileFormat` is the parser itself, reading through a `postfs://`
    stream, and is proved to compute exactly that meaning. */
module FileFormat {
  import opened Wrappers
  import opened PhpString
  import opened PhpArray
  import opened Slug
  import opened PostFs
  import opened StreamIo

  const META_LINE_MAX_LENGTH: nat := 4096
  const EXCERPT_LINE_MAX_LENGTH: nat := 4096
  const EXCERPT_MAX_LENGTH: nat := 4096
  /** From private/config.php. */
  const POST_MAX_SIZE: nat := 512 * 1024

  /** The metadata fields the parser knows, the keys of `$meta_fields`. */
  datatype Field = Published | Updated | Tags | Hidden

  /** `array_key_exists($key, self::$meta_fields)`, and which field the
      key names. */
  function FieldOf(key: string): Option<Field>
  {
    if key == "published" then Some(Published)
    else if key == "updated" then Some(Updated)
    else if key == "tags" then Some(Tags)
    else if key == "hidden" then Some(Hidden)
    else None
  }

  /** A result of `strtotime`: a Unix time, or FALSE for text it cannot
      read, which is stored like any other value. */
  datatype Time = At(seconds: int) | Invalid

  /** What the parser takes from outside PHP's string functions: the
      date parser `strtotime`, the slugifier's character tables, and how
      many characters PHP's stream buffer hands to the `fread` of the body
      when the contents are `d` and the position is `p`. */
  datatype Host = Host(strtotime: string -> Option<int>, slugs: SlugTables,
                       readChunk: (string, nat) -> Chunk)

  function ToTime(host: Host, s: string): Time {
    match host.strtotime(s)
    case Some(t) => At(t)
    case None => Invalid
  }

  /** A metadata line as the pattern matched it: the key and the raw
      value. */
  datatype MetaLine = MetaLine(key: string, value: string)

  /** A metadata value after its decoder ran. */
  datatype MetaValue = TimeValue(time: Time) | TagsValue(tags: Assoc<string>) | FlagValue(flag: bool)

  /** A metadata line whose key is a known field. */
  datatype FieldLine = FieldLine(field: Field, value: string)

  /** What `postReadMeta` returns: the field and the decoded value. */
  datatype Meta = Meta(field: Field, value: MetaValue)

  /** A post record. A field that is `None` is a key the PHP array does not
      have (for `title`, a NULL value). */
  datatype Record = Record(
    title: Option<string>,
    published: Option<Time>,
    updated: Option<Time>,
    tags: Option<Assoc<string>>,
    hidden: bool,
    excerpt: string,
    content: Option<string>)

  // -----------------------------------------------------------------------
  // The two line patterns

  /** The text with one final line feed removed. */
  function DropNewline(r: string): (s: string)
    ensures r == s || r == s + "\n"
  {
    if r != [] && r[|r| - 1] == '\n' then r[..|r| - 1] else r
  }

  /** What `\s*(.+)\s*$` captures in the rest `r` of a line: everything
      after the leading white space up to the final line feed; when that
      is nothing but white space, its last character. */
  function Capture(r: string): (c: Option<string>)
    ensures c.Some? <==> DropNewline(r) != []
    ensures c.Some? ==> c.value != [] && |c.value| <= |DropNewline(r)| &&
                        c.value == DropNewline(r)[|DropNewline(r)| - |c.value|..] &&
                        (|c.value| == 1 || !IsRegexSpace(c.value[0]))
  {
    var body := DropNewline(r);
    var value := TrimLeft(body, RegexSpaces);
    if value != [] then Some(value)
    else if body != [] then Some([body[|body| - 1]])
    else None
  }

  /** The title pattern `^\s*#\s*(.+)\s*$` on a line from `fgets`. */
  function MatchTitle(line: string): (title: Option<string>)
    ensures title.Some? ==> line != []
  {
    var t := TrimLeft(line, RegexSpaces);
    if t != [] && t[0] == '#' then Capture(t[1..]) else None
  }

  predicate IsLower(c: char) {
    'a' <= c <= 'z'
  }

  /** The longest prefix of `[a-z]` characters. */
  function LetterRun(s: string): (r: string)
    ensures |r| <= |s| && r == s[..|r|] && (forall i :: 0 <= i < |r| ==> IsLower(r[i]))
    ensures |r| == |s| || !IsLower(s[|r|])
  {
    if s != [] && IsLower(s[0]) then [s[0]] + LetterRun(s[1..]) else []
  }

  /** The part `\s*([a-z]+)\s*:\s*(.+)$` of the metadata pattern, after
      the dash and its space. */
  function MatchKey(s: string): (m: Option<MetaLine>)
    ensures m.Some? ==> m.value.key != [] && forall i :: 0 <= i < |m.value.key| ==> IsLower(m.value.key[i])
  {
    var u := TrimLeft(s, RegexSpaces);
    var key := LetterRun(u);
    var v := TrimLeft(u[|key|..], RegexSpaces);
    if key == [] || v == [] || v[0] != ':' then None
    else match Capture(v[1..])
      case None => None
      case Some(value) => Some(MetaLine(key, value))
  }

  /** The metadata pattern `^\s*\- \s*([a-z]+)\s*:\s*(.+)$` on a line from
      `fgets`. */
  function MatchMeta(line: string): (m: Option<MetaLine>)
    ensures m.Some? ==> m.value.key != [] && forall i :: 0 <= i < |m.value.key| ==> IsLower(m.value.key[i])
  {
    var t := TrimLeft(line, RegexSpaces);
    if |t| < 2 || t[0] != '-' || t[1] != ' ' then None else MatchKey(t[2..])
  }

  // -----------------------------------------------------------------------
  // Decoding metadata values

  /** Each tag part paired with its slug. */
  function TagPairs(slug: string -> string, parts: seq<string>): Assoc<string> {
    seq(|parts|, i requires 0 <= i < |parts| => (slug(parts[i]), parts[i]))
  }

  /** `Slug::toSlug` with the site's tables, as a function value. */
  function SlugOf(t: SlugTables): string -> string {
    s => ToSlug(t, s)
  }

  /** The `tags` decoder: the parts between commas, white space around the
      commas dropped, keyed by their slugs; a repeated slug keeps its first
      place and its last part, and the slug "n-a" is dropped. */
  function DecodeTags(t: SlugTables, value: string): (tags: Assoc<string>)
    ensures UniqueKeys(tags) && NotApplicable !in Keys(tags)
  {
    Unset(FromPairs(TagPairs(SlugOf(t), RegexSplit(value, ','))), NotApplicable)
  }

  /** `self::$meta_fields[$key]($value)`. */
  function Decode(host: Host, m: FieldLine): MetaValue {
    match m.field
    case Published => TimeValue(ToTime(host, m.value))
    case Updated => TimeValue(ToTime(host, m.value))
    case Tags => TagsValue(DecodeTags(host.slugs, m.value))
    case Hidden => FlagValue(m.value == "yes")
  }

  /** `$record[$meta["meta"]] = $meta["value"]`. */
  function Assign(rec: Record, m: Meta): Record {
    match m.value
    case TimeValue(t) => if m.field == Published then rec.(published := Some(t)) else rec.(updated := Some(t))
    case TagsValue(tags) => rec.(tags := Some(tags))
    case FlagValue(b) => rec.(hidden := b)
  }

  // -----------------------------------------------------------------------
  // One pass over the contents `d`; a result pairs a value with the
  // position the reader is left at.

  /** A line read at position `p` is kept when its pattern matched `m`,
      and otherwise the reader seeks back to `p`. */
  function Consume<T>(m: Option<T>, line: string, p: nat): (r: (Option<T>, nat))
    requires m.Some? ==> line != []
    ensures r.0 == m
    ensures r.0.None? ==> r.1 == p
    ensures r.0.Some? ==> r.1 == p + |line| > p
  {
    if m.Some? then (m, p + |line|) else (None, p)
  }

  /** `postReadTitle()` at position `p`: the title of the line there, or
      nothing and the position put back. */
  function ReadTitle(d: string, p: nat): (r: (Option<string>, nat))
    requires p <= |d|
    ensures r.0.None? ==> r.1 == p
    ensures r.0.Some? ==> p < r.1 <= |d|
  {
    var line := LineAt(d, p, META_LINE_MAX_LENGTH);
    Consume(MatchTitle(line), line, p)
  }

  /** A line the metadata loop accepts: it matches the pattern and its
      key names a known field. */
  function MatchField(line: string): (m: Option<FieldLine>)
    ensures m.Some? ==> line != []
  {
    match MatchMeta(line)
    case Some(ml) =>
      (match FieldOf(ml.key)
       case Some(f) => Some(FieldLine(f, ml.value))
       case None => None)
    case None => None
  }

  /** The metadata line at position `p`, when it matches and its key is
      known; the line is consumed only then. */
  function MetaLineAt(d: string, p: nat): (r: (Option<FieldLine>, nat))
    requires p <= |d|
    ensures r.0.None? ==> r.1 == p
    ensures r.0.Some? ==> p < r.1 <= |d|
  {
    var line := LineAt(d, p, META_LINE_MAX_LENGTH);
    Consume(MatchField(line), line, p)
  }

  /** `postReadMeta()`: the next metadata line, decoded. */
  function ReadMeta(host: Host, d: string, p: nat): (r: (Option<Meta>, nat))
    requires p <= |d|
    ensures r.0.None? ==> r.1 == p
    ensures r.0.Some? ==> p < r.1 <= |d|
  {
    match MetaLineAt(d, p)
    case (Some(m), q) => (Some(Meta(m.field, Decode(host, m))), q)
    case (None, q) => (None, q)
  }

  /** The metadata loop of `tryToLoadPost`. */
  function MetaLoop(host: Host, d: string, p: nat, rec: Record): (r: (Record, nat))
    requires p <= |d|
    ensures p <= r.1 <= |d|
    decreases |d| - p
  {
    match ReadMeta(host, d, p)
    case (None, _) => (rec, p)
    case (Some(m), q) => MetaLoop(host, d, q, Assign(rec, m))
  }

  /** The implicit `updated`: the published time when no `updated` line
      was read. */
  function DefaultUpdated(rec: Record): Record {
    if rec.updated.None? && rec.published.Some? then rec.(updated := rec.published) else rec
  }

  /** The falsy results of `fgets`: FALSE, written "", and the string "0". */
  predicate Falsy(line: string) {
    line == "" || line == "0"
  }

  /** The first loop of `postReadExcerpt`: lines made of white space are
      skipped; it ends at the first other line or at a falsy one. */
  function SkipBlank(d: string, p: nat): (r: (string, nat))
    requires p <= |d|
    ensures p <= r.1 <= |d|
    decreases |d| - p
  {
    var line := LineAt(d, p, EXCERPT_LINE_MAX_LENGTH);
    if Falsy(line) || !IsBlank(line) then (line, p + |line|)
    else SkipBlank(d, p + |line|)
  }

  /** The second loop of `postReadExcerpt`: lines are added until a falsy
      line, a line of white space, or a line that would take the length
      past EXCERPT_MAX_LENGTH; that last line is consumed and dropped. */
  function Accumulate(d: string, p: nat, excerpt: string, length: nat): (r: (string, nat))
    requires p <= |d|
    ensures p <= r.1 <= |d|
    decreases |d| - p
  {
    var line := LineAt(d, p, EXCERPT_LINE_MAX_LENGTH);
    if Falsy(line) || IsBlank(line) || length + |line| > EXCERPT_MAX_LENGTH then (excerpt, p + |line|)
    else Accumulate(d, p + |line|, excerpt + line, length + |line|)
  }

  /** `postReadExcerpt()`. */
  function ReadExcerpt(d: string, p: nat): (r: (string, nat))
    requires p <= |d|
    ensures p <= r.1 <= |d|
  {
    var (first, q) := SkipBlank(d, p);
    var (excerpt, e) := Accumulate(d, q, first, |first|);
    (Trim(excerpt, TrimDefault), e)
  }

  /** `postReadContent()`: what one `fread` of at most POST_MAX_SIZE
      characters returns, trimmed. */
  function ReadContent(host: Host, d: string, p: nat): string {
    Trim(Substr(d, p, ReadSize(POST_MAX_SIZE, host.readChunk(d, p))), TrimDefault)
  }

  function Initial(title: Option<string>): Record {
    Record(title, None, None, None, false, "", None)
  }

  /** The record `tryToLoadPost` builds from the contents `d`. */
  function Parse(host: Host, d: string, metaOnly: bool): Record {
    var (title, p1) := ReadTitle(d, 0);
    var (rec, p2) := MetaLoop(host, d, p1, Initial(title));
    var (excerpt, p3) := ReadExcerpt(d, p2);
    var withExcerpt := DefaultUpdated(rec).(excerpt := excerpt);
    if metaOnly then withExcerpt else withExcerpt.(content := Some(ReadContent(host, d, p3)))
  }

  /** `postRecordIsInvalid($record)`. */
  predicate IsInvalid(rec: Record) {
    rec.title.None? || rec.published.None? || rec.tags.None?
  }

  /** `tryToLoadPost($path, $metaOnly)` on the in-memory file system. */
  function LoadPost(host: Host, posts: Assoc<string>, path: string, metaOnly: bool): Option<Record> {
    match Lookup(posts, GetFilename(path))
    case None => None
    case Some(d) =>
      var rec := Parse(host, d, metaOnly);
      if IsInvalid(rec) then None else Some(rec)
  }

  /** `ReadTitle` reads the line `fgets` returns at `p`. */
  lemma ReadTitleLine(d: string, p: nat, line: string)
    requires p <= |d| && line == LineAt(d, p, META_LINE_MAX_LENGTH)
    ensures ReadTitle(d, p) == Consume(MatchTitle(line), line, p)
  {
  }

  /** `MetaLineAt` reads the line `fgets` returns at `p`. */
  lemma MetaLineAtLine(d: string, p: nat, line: string)
    requires p <= |d| && line == LineAt(d, p, META_LINE_MAX_LENGTH)
    ensures MetaLineAt(d, p) == Consume(MatchField(line), line, p)
  {
  }

  /** `ReadMeta` decodes the line `MetaLineAt` found. */
  lemma ReadMetaOf(host: Host, d: string, p: nat)
    requires p <= |d|
    ensures var (m, q) := MetaLineAt(d, p);
      ReadMeta(host, d, p) == if m.Some? then (Some(Meta(m.value.field, Decode(host, m.value))), q) else (None, p)
  {
  }

  /** `MatchField` is the metadata pattern followed by the field lookup. */
  lemma MatchFieldParts(line: string)
    ensures var m := MatchMeta(line);
      MatchField(line) == if m.Some? && FieldOf(m.value.key).Some?
        then Some(FieldLine(FieldOf(m.value.key).value, m.value.value))
        else None
  {
  }

  /** The metadata loop ends at a line that is not a known metadata line. */
  lemma MetaLoopStop(host: Host, d: string, p: nat, rec: Record)
    requires p <= |d| && ReadMeta(host, d, p).0.None?
    ensures MetaLoop(host, d, p, rec) == (rec, p)
  {
  }

  /** The metadata loop goes on after storing a metadata line. */
  lemma MetaLoopNext(host: Host, d: string, p: nat, rec: Record, m: Meta, q: nat, next: Record)
    requires p <= |d| && ReadMeta(host, d, p) == (Some(m), q) && next == Assign(rec, m)
    ensures MetaLoop(host, d, q, next) == MetaLoop(host, d, p, rec)
  {
  }

  /** `Parse` is its four readers run one after the other. */
  lemma ParseSteps(host: Host, d: string, metaOnly: bool, title: Option<string>, p1: nat,
                   rec: Record, p2: nat, excerpt: string, p3: nat)
    requires ReadTitle(d, 0) == (title, p1)
    requires p1 <= |d| && MetaLoop(host, d, p1, Initial(title)) == (rec, p2)
    requires p2 <= |d| && ReadExcerpt(d, p2) == (excerpt, p3)
    ensures var withExcerpt := DefaultUpdated(rec).(excerpt := excerpt);
      Parse(host, d, metaOnly) == if metaOnly then withExcerpt else withExcerpt.(content := Some(ReadContent(host, d, p3)))
  {
  }

  /** The blank-line loop of `postReadExcerpt` goes on past a blank line. */
  lemma SkipBlankNext(d: string, p: nat, line: string, q: nat)
    requires p <= |d| && line == LineAt(d, p, EXCERPT_LINE_MAX_LENGTH)
    requires !Falsy(line) && IsBlank(line) && q == p + |line|
    ensures SkipBlank(d, q) == SkipBlank(d, p)
  {
  }

  /** The blank-line loop of `postReadExcerpt` stops at the end or at a line
      with text. */
  lemma SkipBlankStop(d: string, p: nat, line: string)
    requires p <= |d| && line == LineAt(d, p, EXCERPT_LINE_MAX_LENGTH)
    requires Falsy(line) || !IsBlank(line)
    ensures SkipBlank(d, p) == (line, p + |line|)
  {
  }

  /** The gathering loop of `postReadExcerpt` takes a line with text while
      the excerpt stays within its bound. */
  lemma AccumulateNext(d: string, p: nat, excerpt: string, length: nat, line: string,
                       q: nat, longer: string, newLength: nat)
    requires p <= |d| && line == LineAt(d, p, EXCERPT_LINE_MAX_LENGTH)
    requires !Falsy(line) && !IsBlank(line) && length + |line| <= EXCERPT_MAX_LENGTH
    requires q == p + |line| && longer == excerpt + line && newLength == length + |line|
    ensures Accumulate(d, q, longer, newLength) == Accumulate(d, p, excerpt, length)
  {
  }

  /** The gathering loop of `postReadExcerpt` stops at the end, at a blank
      line, or at a line that would make the excerpt too long. */
  lemma AccumulateStop(d: string, p: nat, excerpt: string, length: nat, line: string)
    requires p <= |d| && line == LineAt(d, p, EXCERPT_LINE_MAX_LENGTH)
    requires Falsy(line) || IsBlank(line) || length + |line| > EXCERPT_MAX_LENGTH
    ensures Accumulate(d, p, excerpt, length) == (excerpt, p + |line|)
  {
  }

  /** `postReadExcerpt` is its two loops followed by `trim`. */
  lemma ReadExcerptParts(d: string, p: nat, skipped: (string, nat), gathered: (string, nat))
    requires p <= |d| && SkipBlank(d, p) == skipped
    requires Accumulate(d, skipped.1, skipped.0, |skipped.0|) == gathered
    ensures ReadExcerpt(d, p) == (Trim(gathered.0, TrimDefault), gathered.1)
  {
  }

  // -----------------------------------------------------------------------
  // The parser object

  /** The PHP class: `fd` is the file being read, `null` (FALSE in PHP)
      between calls. Its methods are proved to read exactly what the
      functions above describe. */
  class FileFormat {
    const host: Host
    var fd: Stream?

    constructor (host: Host)
      ensures this.host == host && fd == null
    {
      this.host := host;
      fd := null;
    }

    /** `tryToLoadPost($path, $metaOnly)`. */
    method TryToLoadPost(store: Store, path: string, metaOnly: bool) returns (r: Option<Record>)
      modifies this
      ensures r == if store.registered then LoadPost(host, store.posts, path, metaOnly) else None
      ensures fd == null
    {
      var s := Fopen(store, path);
      if s == null {
        fd := null;
        return None;
      }
      fd := s;
      ghost var d := s.Content();
      var title := PostReadTitle();
      ghost var p1 := s.position;
      var rec := ReadMetaLines(Initial(title));
      ghost var (p2, read) := (s.position, rec);
      if rec.updated.None? && rec.published.Some? {
        rec := rec.(updated := rec.published);
      }
      var excerpt := PostReadExcerpt();
      ghost var p3 := s.position;
      rec := rec.(excerpt := excerpt);
      if !metaOnly {
        var content := PostReadContent();
        rec := rec.(content := Some(content));
      }
      ParseSteps(host, d, metaOnly, title, p1, read, p2, excerpt, p3);
      fd := null;
      r := if IsInvalid(rec) then None else Some(rec);
    }

    /** The metadata loop of `tryToLoadPost()`: every metadata line read is
        stored in the record. */
    method ReadMetaLines(start: Record) returns (rec: Record)
      requires fd != null && fd.position <= |fd.Content()|
      modifies fd
      ensures fd.filename == old(fd.filename) && fd.Content() == old(fd.Content())
      ensures fd.position <= |fd.Content()|
      ensures (rec, fd.position) == MetaLoop(host, old(fd.Content()), old(fd.position), start)
    {
      var f := fd;
      ghost var d := f.Content();
      ghost var result := MetaLoop(host, d, f.position, start);
      rec := start;
      while true
        invariant fd == f && f.filename == old(f.filename) && f.Content() == d && f.position <= |d|
        invariant MetaLoop(host, d, f.position, rec) == result
        decreases |d| - f.position
      {
        ghost var here := f.position;
        var meta := PostReadMeta();
        if meta.None? {
          MetaLoopStop(host, d, here, rec);
          break;
        }
        ghost var before := rec;
        rec := Assign(rec, meta.value);
        MetaLoopNext(host, d, here, before, meta.value, f.position, rec);
      }
    }

    /** `postReadTitle()`. */
    method PostReadTitle() returns (title: Option<string>)
      requires fd != null && fd.position <= |fd.Content()|
      modifies fd
      ensures fd.filename == old(fd.filename) && fd.Content() == old(fd.Content())
      ensures (title, fd.position) == ReadTitle(old(fd.Content()), old(fd.position))
    {
      ghost var d, p := fd.Content(), fd.position;
      var init := Ftell(fd);
      var line := Fgets(fd, META_LINE_MAX_LENGTH);
      ReadTitleLine(d, p, line);
      title := MatchTitle(line);
      if title.None? {
        Fseek(fd, init);
      }
      assert ReadTitle(d, p).0 == title;
      assert ReadTitle(d, p).1 == fd.position;
    }

    /** `postReadMeta()`. */
    method PostReadMeta() returns (meta: Option<Meta>)
      requires fd != null && fd.position <= |fd.Content()|
      modifies fd
      ensures fd.filename == old(fd.filename) && fd.Content() == old(fd.Content())
      ensures (meta, fd.position) == ReadMeta(host, old(fd.Content()), old(fd.position))
    {
      var f := fd;
      ghost var d, p := f.Content(), f.position;
      var init := Ftell(f);
      var line := Fgets(f, META_LINE_MAX_LENGTH);
      assert line == LineAt(d, p, META_LINE_MAX_LENGTH);
      MatchFieldParts(line);
      var matched := MatchMeta(line);
      var field := if matched.Some? then FieldOf(matched.value.key) else None;
      MetaLineAtLine(d, p, line);
      if field.Some? {
        var m := FieldLine(field.value, matched.value.value);
        assert MatchField(line) == Some(m);
        ReadMetaOf(host, d, p);
        meta := Some(Meta(m.field, Decode(host, m)));
        assert f.position == p + |line|;
        assert MetaLineAt(d, p).0 == Some(m);
        assert MetaLineAt(d, p).1 == p + |line|;
        assert ReadMeta(host, d, p).1 == f.position;
        assert ReadMeta(host, d, p).0 == meta;
      } else {
        Fseek(f, init);
        meta := None;
      }
    }

    /** `postReadExcerpt()`: its two loops, then `trim`. */
    method PostReadExcerpt() returns (excerpt: string)
      requires fd != null && fd.position <= |fd.Content()|
      modifies fd
      ensures fd.filename == old(fd.filename) && fd.Content() == old(fd.Content())
      ensures (excerpt, fd.position) == ReadExcerpt(old(fd.Content()), old(fd.position))
    {
      ghost var d, p0 := fd.Content(), fd.position;
      var first := SkipBlankLines();
      ghost var skipped := (first, fd.position);
      var gathered := GatherLines(first);
      ReadExcerptParts(d, p0, skipped, (gathered, fd.position));
      excerpt := Trim(gathered, TrimDefault);
    }

    /** The first loop of `postReadExcerpt()`: skips lines of white space
        and returns the line it stopped at. */
    method SkipBlankLines() returns (first: string)
      requires fd != null && fd.position <= |fd.Content()|
      modifies fd
      ensures fd.filename == old(fd.filename) && fd.Content() == old(fd.Content())
      ensures fd.position <= |fd.Content()|
      ensures (first, fd.position) == SkipBlank(old(fd.Content()), old(fd.position))
    {
      var f := fd;
      ghost var d := f.Content();
      ghost var skipped := SkipBlank(d, f.position);
      first := "";
      while true
        invariant f.filename == old(f.filename) && f.Content() == d && f.position <= |d|
        invariant SkipBlank(d, f.position) == skipped
        decreases |d| - f.position
      {
        ghost var here := f.position;
        first := Fgets(f, EXCERPT_LINE_MAX_LENGTH);
        if Falsy(first) || !IsBlank(first) {
          SkipBlankStop(d, here, first);
          break;
        }
        SkipBlankNext(d, here, first, f.position);
      }
    }

    /** The second loop of `postReadExcerpt()`: adds lines to `first` up to
        a blank line or the length bound, without trimming. */
    method GatherLines(first: string) returns (excerpt: string)
      requires fd != null && fd.position <= |fd.Content()|
      modifies fd
      ensures fd.filename == old(fd.filename) && fd.Content() == old(fd.Content())
      ensures (excerpt, fd.position) == Accumulate(old(fd.Content()), old(fd.position), first, |first|)
    {
      var f := fd;
      ghost var d := f.Content();
      ghost var gathered := Accumulate(d, f.position, first, |first|);
      excerpt := first;
      var length: nat := |first|;
      while true
        invariant f.filename == old(f.filename) && f.Content() == d && f.position <= |d|
        invariant Accumulate(d, f.position, excerpt, length) == gathered
        decreases |d| - f.position
      {
        ghost var here := f.position;
        var line := Fgets(f, EXCERPT_LINE_MAX_LENGTH);
        if Falsy(line) || IsBlank(line) || length + |line| > EXCERPT_MAX_LENGTH {
          AccumulateStop(d, here, excerpt, length, line);
          break;
        }
        ghost var (before, shorter) := (excerpt, length);
        length, excerpt := length + |line|, excerpt + line;
        AccumulateNext(d, here, before, shorter, line, f.position, excerpt, length);
      }
    }

    /** `postReadContent()`. */
    method PostReadContent() returns (content: string)
      requires fd != null
      modifies fd
      ensures fd.filename == old(fd.filename) && fd.Content() == old(fd.Content())
      ensures content == ReadContent(host, old(fd.Content()), old(fd.position))
    {
      var (d, p) := (fd.Content(), fd.position);
      var chunk := host.readChunk(d, p);
      var data := Fread(fd, POST_MAX_SIZE, chunk);
      assert data == Substr(d, p, ReadSize(POST_MAX_SIZE, chunk));
      content := Trim(data, TrimDefault);
    }
  }
}
