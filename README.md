# A model of the post pipeline of stefanmisik.com

The site is a small PHP blog. Posts are markdown files that begin with a
`# Title` line, then `- key: value` metadata lines (`published`, `updated`,
`tags`, `hidden`), then an excerpt paragraph and the body. This project
models in Dafny the part of the site that turns those files into what the
pages show, and proves what that part promises:

- **File format** (`file_format.dfy`, `file_format_facts.dfy`). `FileFormat`
  reads one post file through PHP's stream functions. It takes the title,
  the metadata lines, the excerpt and the body, and refuses a record
  without a title, a `published` time or tags. The reader is a Dafny
  class over a stream. Each of its methods is proved equal to a pure
  function on the file's text (`Parse`, `LoadPost`). The facts file then
  proves what that record holds.
- **Test file system** (`postfs.dfy`, `stream_io.dfy`). The `postfs://`
  stream wrapper of the test suite keeps the post files in memory. It is
  a `Store` of files and a `Stream` class per open handle. PHP's `fopen`,
  `fgets`, `fread`, `ftell` and `fseek` on such a handle are modelled on
  top of it.
- **Post source** (`post_source.dfy`). This is the query interface
  `IPostSource`: `querySource`, `getNextPost` and `countResults`. It is a
  cursor over a reference query engine: candidates, the parser, the
  filters (hidden, tag, published before), a stable sort on the update
  time and the limit.
- **Post view** (`post.dfy`). The accessors of a post, its links, and the
  HTML that is formatted once and then kept.
- **Helpers of `common.php`** (`common.dfy`, `slug.dfy`). `usePlural`,
  `getUrlAddress`, the page dispatcher `dispatchPage`, and `toSlug`, which
  turns tags into URL slugs.
- **Markdown extensions** (`parsedown_mod.dfy`). The additions `ParsedownMod`
  makes to the Parsedown engine:
  - the link hook;
  - inline `` $`…`$ `` equations;
  - `[[module: arguments]]` calls;
  - HTML comments;
  - fenced code, with "math" fences rendered as display equations.
- **Contact form** (`contact_form.dfy`, `captcha.dfy`). The
  `ContactFormModule` with its input checks, error flags and mail sending,
  and the arithmetic `Captcha` it guards itself with. The captcha state
  round-trips through the session.
- **PHP built-ins** (`php_string.dfy`, `php_array.dfy`, `wrappers.dfy`). The
  built-ins the code relies on, written out with the edge cases PHP has:
  - `trim`/`ltrim`/`rtrim`, `substr`, `explode`, `strpos`;
  - `preg_split` on `\s*X\s*`;
  - `(string)$n` and `filter_var(…, FILTER_VALIDATE_INT)`;
  - ordered associative arrays with `$a[$k] = $v`, `unset` and array
    literals with repeated keys.

Functions the code calls but whose behaviour is outside it are parameters
of the model:
- the date parser `strtotime` (`Host.strtotime`);
- `iconv` transliteration and the Unicode letter classes of `toSlug`
  (`SlugTables`);
- `strip_tags`;
- the markdown engine behind the formatter;
- the `FILTER_SANITIZE_*` and `FILTER_VALIDATE_EMAIL` filters;
- whether `mail()` succeeds;
- the values `rand()` draws (`Rolls`);
- how many characters one `fread` gets from PHP's buffer for a
  `postfs://` stream (`Host.readChunk`, at least 1).

Where the interface documentation and the code disagree, the model follows
the code. In `private/post_source.php` the documentation names the time
filter `updatedbefore`. Every caller and the tests pass `publishedbefore`,
and the model filters on the publication time.

## Model

| member | source | states |
|---|---|---|
| PhpString.TrimLeft | private/post_source/file_format.php:131 | `ltrim`: the result is a suffix of the text, starts with a kept character, and everything dropped is in the character set |
| PhpString.TrimRight | private/post_source/file_format.php:202 | `rtrim`: the result is a prefix of the text, ends with a kept character, and everything dropped is in the character set |
| PhpString.TrimShape | private/post_source/file_format.php:202 | what `trim` keeps is no longer than the text, neither starts nor ends with a stripped character, and is empty exactly when every character is stripped |
| PhpString.TrimSlice | private/post_source/file_format.php:212 | what `trim` keeps is one contiguous piece of its argument |
| PhpString.TrimKeeps | private/post_source/file_format.php:202 | `trim` leaves text that neither starts nor ends with a stripped character unchanged |
| PhpString.Substr | private/_tests_/fake/postfs.php:126-128 | `substr($s, $offset, $length)`: for an offset inside the string, the piece there, cut at the end of the string; past the end, "" |
| PhpString.SubstrFrom | private/_tests_/fake/postfs.php:56 | `substr($s, $offset)` is everything from the offset on |
| PhpString.IndexOf | private/parsedown/Parsedown_mod.php:60 | `strpos`: absent exactly when the character does not occur; otherwise the position of its first occurrence |
| PhpString.Explode | private/tools/captcha.php:136-139 | `explode`: at least one piece, no piece holds the delimiter, and joining the pieces with the delimiter gives the text back |
| PhpString.ExplodeJoin | private/tools/captcha.php:136-139 | exploding pieces joined by the delimiter gives back exactly those pieces |
| PhpString.RegexSplit | private/post_source/file_format.php:93 | `preg_split('/\s*X\s*/')` gives as many pieces as `explode` on X (what each piece is: `SplitOfThree`, `RecipientOfParams`) |
| PhpString.NatToString | private/tools/captcha.php:121-123 | the decimal form of a natural number is all digits and starts with 0 only for 0 |
| PhpString.NatToStringValue | private/tools/captcha.php:121-123 | reading the decimal form back gives the number |
| PhpString.IntToString | private/tools/captcha.php:121-123 | `(string)$n` is digits with an optional leading minus sign |
| PhpString.FilterValidateInt | private/tools/captcha.php:140 | `filter_var(…, FILTER_VALIDATE_INT)` only yields values in PHP's 64-bit integer range |
| PhpString.IntToStringValidates | private/tools/captcha.php:121-140 | validating the decimal form of any PHP integer gives that integer back (the answer survives the session) |
| PhpArray.Keys | private/_tests_/fake/postfs.php:96 | `array_keys`: one key per entry, in insertion order |
| PhpArray.Lookup | private/post_source/file_format.php:156 | `$a[$k]` is present exactly when `array_key_exists($k, $a)` |
| PhpArray.KeyIndex | private/_tests_/fake/postfs.php:181 | `array_search($k, array_keys($a))` is present exactly for a key of the array, and is the place of its first occurrence |
| PhpArray.Set | private/_tests_/fake/postfs.php:44 | `$a[$k] = $v`: `k` maps to `v`; every other key keeps its value; an existing key keeps its place and a new one is appended; keys stay unique |
| PhpArray.Unset | private/post_source/file_format.php:96 | `unset($a[$k])`: `k` is gone; every other key keeps its value and its order; keys stay unique |
| PhpArray.UnsetAbsent | private/post_source/file_format.php:96 | unsetting a key the array does not have changes nothing |
| PhpArray.FromPairs | private/post_source/file_format.php:94 | `array_combine` with repeated keys: the keys are unique and are exactly the keys of the pairs |
| PhpArray.FromPairsLast | private/post_source/file_format.php:94 | `array_combine` with repeated keys: each key holds the value of its last pair |
| PhpArray.FromPairsOrder | private/post_source/file_format.php:94 | `array_combine` with repeated keys: the keys stand in the order of their first occurrence |
| Common.UsePlural | private/common.php:73-79 | the noun, with an `s` appended exactly when the count is not 1 |
| Common.GetUrlAddress | private/common.php:182-194 | the site address for the empty path, otherwise the site address, a slash and the path |
| Common.UrlAddressRoundTrip | private/common.php:182-194 | the path can be read back from the address |
| Common.PathOfUrl | private/common.php:182-194 | the inverse of `getUrlAddress` (stated by `Common.UrlAddressRoundTrip`) |
| Common.UrlAddressInjective | private/common.php:182-194 | different paths give different addresses |
| Common.DispatchPage | private/common.php:124-147 | dispatch succeeds exactly when some entry matches and its handler accepts. Handlers run only for matching entries, in table order. Every one but the last declined. Every matching entry up to the accepting one (or every matching entry, on failure) was tried |
| Slug.ToSlugShape | private/common.php:88-115 | whatever the text, the slug is not empty, is lower-case ASCII letters, digits, `_` and single dashes, and neither starts nor ends with a dash |
| Slug.ToSlugOfAscii | private/common.php:88-115 | for ASCII text the slug is dash-separated `a-z0-9` |
| Slug.ToSlugOfSlug | private/common.php:88-115 | a slug is its own slug |
| Slug.ToSlug | private/common.php:88-115 | `toSlug`: its output shape is stated by `Slug.ToSlugShape`, its result on ASCII text by `Slug.ToSlugOfAscii`, and its fixed points by `Slug.ToSlugOfSlug` |
| Slug.ToSlugIdempotent | private/common.php:88-115 | on ASCII text, `toSlug` of a slug changes nothing |
| Slug.ZeroHasNoSlug | private/common.php:110-112 | `empty()` holds of "0", so the text "0" gets the slug "n-a" |
| Slug.TwoWords | private/common.php:93-108 | two ASCII words separated by a space become the lower-cased words joined by one dash |
| Slug.MultiwordTag | private/_tests_/file_format_Test.php:189-194 | "Multiword tag" has the slug "multiword-tag" |
| Slug.ReplaceRunsNoDoubleDash | private/common.php:105 | after replacing runs of dashes by one dash, no two dashes are adjacent |
| Slug.SqueezeShape | private/common.php:99-105 | removing characters other than `[-\w]`, trimming dashes and collapsing runs of dashes leaves word characters and single inner dashes |
| Slug.TransliterateAscii | private/common.php:96 | transliteration leaves ASCII text unchanged |
| PostFs.GetFilename | private/_tests_/fake/postfs.php:54-57 | the path without its first `strlen("postfs://")` characters, "" for a shorter path |
| PostFs.PathOfFile | private/_tests_/fake/postfs.php:54-57 | the file name is read back from its `postfs://` path |
| PostFs.SeekTarget | private/_tests_/fake/postfs.php:144-160 | the target of SET, CUR and END, 0 for another `whence` (what seeking does with it: `PostFs.Stream.StreamSeek`) |
| PostFs.Store.constructor | private/_tests_/fake/postfs.php:19-23 | a store starts without files and without the protocol registered |
| PostFs.Store.Register | private/_tests_/fake/postfs.php:19-23 | the files become the given ones; registration succeeds exactly when the protocol was not yet registered |
| PostFs.Store.Unregister | private/_tests_/fake/postfs.php:30-34 | all files are dropped; it succeeds exactly when the protocol was registered |
| PostFs.Store.SetPost | private/_tests_/fake/postfs.php:42-45 | the file gets the contents; every other file is unchanged; a new name is listed last |
| PostFs.Store.UrlStat | private/_tests_/fake/postfs.php:171-194 | a stat array exactly for a stored file, with its length as size and its place in the listing as inode |
| PostFs.StatFields | private/_tests_/fake/postfs.php:179-193 | thirteen fields with the inode and the size in their places |
| PostFs.Stream.constructor | private/_tests_/fake/postfs.php:68-75 | a handle starts at position 0 with no file name |
| PostFs.Stream.StreamOpen | private/_tests_/fake/postfs.php:109-122 | the name is remembered; opening succeeds exactly for a stored file in mode "r" and then starts at 0; on failure the position stays |
| PostFs.Stream.StreamRead | private/_tests_/fake/postfs.php:124-132 | the read is `substr` of the contents at the position, and the position advances by its length |
| PostFs.Stream.StreamEof | private/_tests_/fake/postfs.php:134-137 | end of file exactly when no character is left at the position |
| PostFs.Stream.StreamTell | private/_tests_/fake/postfs.php:139-142 | the current position |
| PostFs.Stream.StreamSeek | private/_tests_/fake/postfs.php:144-169 | seeking succeeds exactly when the target of SET/CUR/END (0 for another `whence`) is not negative; only then does the position move there |
| PostFs.Stream.DirOpendir | private/_tests_/fake/postfs.php:81-92 | only the root can be listed, and listing starts at the first name |
| PostFs.Stream.DirReaddir | private/_tests_/fake/postfs.php:94-107 | the next name in insertion order, then nothing once all were given |
| PostFs.ReadsConcatenate | private/_tests_/fake/postfs.php:124-132 | two reads in a row give what one read of both lengths gives |
| PostFs.ReadEmptyAtEnd | private/_tests_/fake/postfs.php:124-137 | a read comes back empty exactly at the end of the file |
| PostFs.ListingIsUnique | private/_tests_/fake/postfs.php:94-107 | a listing gives every file name once |
| StreamIo.LineLength | private/post_source/file_format.php:132 | `fgets` takes at most `length - 1` characters, at least one before the end, and stops after the first line feed |
| StreamIo.LineAt | private/post_source/file_format.php:132 | the line `fgets` returns is the text at the position: "" at the end, otherwise ending in a line feed unless the bound or the end cut it |
| StreamIo.LineAtIsLine | private/post_source/file_format.php:178 | a line from `fgets` holds no line feed except as its last character |
| StreamIo.Fopen | private/post_source/file_format.php:34-38 | `@fopen` gives a fresh handle on the file's contents at position 0 exactly when the protocol is registered and the store holds the file |
| StreamIo.Fgets | private/post_source/file_format.php:132 | `fgets` returns `LineAt` of the contents and advances past it |
| StreamIo.Fread | private/post_source/file_format.php:212 | `fread` on a user stream returns the characters from the position, at most `length` of them and at most the chunk PHP's buffer delivers, and advances past them |
| StreamIo.FreadIsPrefix | private/post_source/file_format.php:212 | one chunked read is the start of what a greedy read of the same length gives, and is empty only at the end of the file |
| StreamIo.Ftell | private/post_source/file_format.php:130 | `ftell` is the stream's position |
| StreamIo.Fseek | private/post_source/file_format.php:139 | `fseek(…, SEEK_SET)` puts the position back |
| FileFormat.DropNewline | private/post_source/file_format.php:131 | the line without its final line feed, which `$` lets the pattern skip |
| FileFormat.Capture | private/post_source/file_format.php:131 | the greedy `(.+)` after `\s*`: present exactly when the line holds something besides its line feed; it is a suffix of it that starts with a character other than white space unless only one character is left |
| FileFormat.MatchKey | private/post_source/file_format.php:152 | a matched key is one or more letters `a-z` |
| FileFormat.DecodeTags | private/post_source/file_format.php:91-98 | the tags array has unique keys and never the key "n-a" |
| FileFormat.ReadTitle | private/post_source/file_format.php:128-142 | a title consumes its line; no title puts the position back |
| FileFormat.MetaLineAt | private/post_source/file_format.php:149-167 | a known metadata line is consumed; anything else puts the position back |
| FileFormat.ReadMeta | private/post_source/file_format.php:149-167 | a metadata line is consumed exactly when it is returned |
| FileFormat.MetaLoop | private/post_source/file_format.php:46-49 | the metadata loop never moves backwards nor past the end |
| FileFormat.MetaLoopStop | private/post_source/file_format.php:46 | proof step, one unfolding of the definition for the loop proof: the loop stops, keeping the record, at a line that is not known metadata |
| FileFormat.MetaLoopNext | private/post_source/file_format.php:46-49 | proof step, one unfolding of the definition for the loop proof: after storing one metadata line the loop goes on from the next line |
| FileFormat.SkipBlankStop | private/post_source/file_format.php:178-184 | proof step, one unfolding of the definition for the loop proof: the blank-line loop stops at the end of the file or at a line with text |
| FileFormat.SkipBlankNext | private/post_source/file_format.php:178-184 | proof step, one unfolding of the definition for the loop proof: the blank-line loop goes on past a line of white space |
| FileFormat.AccumulateNext | private/post_source/file_format.php:187-200 | proof step, one unfolding of the definition for the loop proof: a line with text is appended while the excerpt stays within EXCERPT_MAX_LENGTH |
| FileFormat.AccumulateStop | private/post_source/file_format.php:187-198 | proof step, one unfolding of the definition for the loop proof: the gathering stops, consuming the line and dropping it, at the end, at a blank line, or at a line that would make the excerpt too long |
| FileFormat.ReadExcerptParts | private/post_source/file_format.php:174-203 | proof step, one unfolding of the definition for the loop proof: the excerpt is the two loops followed by `trim` |
| FileFormat.ParseSteps | private/post_source/file_format.php:32-67 | proof step, one unfolding of the definition for the loop proof: the record is the title, the metadata loop, the implicit `updated`, the excerpt and, unless only metadata is asked for, the body, read in that order |
| FileFormat.FileFormat.constructor | private/post_source/file_format.php:16-19 | a new parser has no open file |
| FileFormat.FileFormat.TryToLoadPost | private/post_source/file_format.php:32-67 | while the protocol is registered the record returned is `LoadPost` of the store's file, otherwise none; the file is closed afterwards |
| FileFormat.FileFormat.ReadMetaLines | private/post_source/file_format.php:46-49 | the loop stores the metadata lines as `MetaLoop` does and stops where it stops |
| FileFormat.FileFormat.PostReadTitle | private/post_source/file_format.php:128-142 | the title and the position are those of `ReadTitle` |
| FileFormat.FileFormat.PostReadMeta | private/post_source/file_format.php:149-167 | the metadata and the position are those of `ReadMeta` |
| FileFormat.FileFormat.PostReadExcerpt | private/post_source/file_format.php:174-203 | the excerpt and the position are those of `ReadExcerpt` |
| FileFormat.FileFormat.SkipBlankLines | private/post_source/file_format.php:178-184 | the first loop returns the line `SkipBlank` stops at |
| FileFormat.FileFormat.GatherLines | private/post_source/file_format.php:186-200 | the second loop gathers what `Accumulate` gathers |
| FileFormat.FileFormat.PostReadContent | private/post_source/file_format.php:210-213 | the body is `ReadContent` of the rest of the file: one `fread` of at most POST_MAX_SIZE characters, trimmed |
| FileFormatFacts.MetaLoopIsRun | private/post_source/file_format.php:46-49 | the metadata loop stores, in order, exactly the lines of the run of known metadata lines, and stops after it |
| FileFormatFacts.LastValue | private/post_source/file_format.php:48 | the value of the last line with a key: absent exactly when no line has the key |
| FileFormatFacts.ApplyAllFirst | private/post_source/file_format.php:48 | storing the first line and then the rest is storing all lines |
| FileFormatFacts.AssignLine | private/post_source/file_format.php:48 | storing a line sets its own field to the decoded value and leaves every other field |
| FileFormatFacts.LastValueStep | private/post_source/file_format.php:48 | the last line with a key is the final line when it has the key, else the last one before it |
| FileFormatFacts.ApplyAllFields | private/post_source/file_format.php:46-49 | after the loop, each field holds the decoded value of the last line with its key (or what it held before), and title, excerpt and body are untouched |
| FileFormatFacts.ParseFields | private/post_source/file_format.php:32-67 | the record has the first line's title, the last value of each key, `hidden` only when the last `hidden` line says exactly "yes", `updated` equal to `published` when no `updated` line was read, and a body exactly when not loading only metadata |
| FileFormatFacts.Validity | private/post_source/file_format.php:116-121 | a record is invalid exactly when it lacks the title, `published` or `tags` |
| FileFormatFacts.ParseValid | private/post_source/file_format.php:32-67 | the pass builds a valid record exactly when the file starts with a title and has `published` and `tags` lines |
| FileFormatFacts.LoadPostMissing | private/post_source/file_format.php:34-38 | a file the store does not hold gives no record |
| FileFormat.Parse | private/post_source/file_format.php:32-67 | the record one pass over the file builds (its steps: `FileFormat.ParseSteps`; its fields: `FileFormatFacts.ParseFields`; its validity: `FileFormatFacts.ParseValid`) |
| FileFormat.LoadPost | private/post_source/file_format.php:32-67 | `tryToLoadPost` on the store (no record for a missing file: `FileFormatFacts.LoadPostMissing`; accepted exactly when valid: `FileFormatFacts.LoadPostAccepts`; the record returned: `FileFormatFacts.LoadPostRecord`) |
| FileFormat.IsInvalid | private/post_source/file_format.php:116-121 | `postRecordIsInvalid` (stated by `FileFormatFacts.Validity`) |
| FileFormat.ReadExcerpt | private/post_source/file_format.php:174-203 | `postReadExcerpt` only moves forward within the file; its two loops are stated by `FileFormat.ReadExcerptParts`, its bound by `FileFormatFacts.ExcerptBound` |
| FileFormat.ReadContent | private/post_source/file_format.php:210-213 | `postReadContent` (stated by `FileFormatFacts.ContentBound` and `FileFormatFacts.ContentOfChunk`) |
| FileFormatFacts.LoadPostAccepts | private/post_source/file_format.php:32-67 | for a stored file a record is returned exactly when the file has a title, `published` and `tags` |
| FileFormatFacts.LoadPostRecord | private/post_source/file_format.php:32-67 | a returned record is the one parsed from the stored file |
| FileFormatFacts.AcceptedRecordShape | private/post_source/file_format.php:51-66 | an accepted record has a title, both times and tags with unique keys, none of them "n-a" |
| FileFormatFacts.DropNewlineOf | private/post_source/file_format.php:131 | the final line feed of a line is dropped |
| FileFormatFacts.TitleLine | private/post_source/file_format.php:131 | a line `# Title`, with any white space around the `#`, gives the title |
| FileFormatFacts.NoTitleLine | private/post_source/file_format.php:131-141 | a line whose first character other than white space is not `#` has no title |
| FileFormatFacts.MetaLineMatches | private/post_source/file_format.php:152 | a line `- key: value` with a lower-case key gives that key and value, whatever the indentation |
| FileFormatFacts.KeyAndValue | private/post_source/file_format.php:152 | `key: value` after the dash gives the key and the value |
| FileFormatFacts.LetterRunOf | private/post_source/file_format.php:152 | `[a-z]+` takes the whole key when a character other than a letter follows |
| FileFormatFacts.TagKeys | private/post_source/file_format.php:91-98 | the tag keys are exactly the slugs of the comma-separated parts, less "n-a" |
| FileFormatFacts.TagValues | private/post_source/file_format.php:91-98 | whatever the value, the tag under a slug is the last part with that slug, and "n-a" has none |
| FileFormatFacts.TagOrder | private/post_source/file_format.php:91-98 | whatever the value, the tags stand in the order in which their slugs first occur, so a repeated slug keeps its first part's place |
| FileFormatFacts.SplitOfThree | private/post_source/file_format.php:93 | `preg_split` on `\s*,\s*` of three pieces strips the white space next to each comma only |
| FileFormatFacts.RepeatedTag | private/_tests_/file_format_Test.php:176-187 | "tag1, tag2, tag1" gives the tags `tag1` and `tag2`, once each, in that order |
| FileFormatFacts.FromPairsRepeat | private/post_source/file_format.php:94 | a repeated key keeps its first place and takes the last value |
| FileFormatFacts.AccumulateBound | private/post_source/file_format.php:186-200 | gathering never takes the excerpt past EXCERPT_MAX_LENGTH, and what it adds is the file's text from where it starts |
| FileFormatFacts.SkipBlankBound | private/post_source/file_format.php:178-184 | the line the first loop stops at is shorter than EXCERPT_LINE_MAX_LENGTH |
| FileFormatFacts.ExcerptBound | private/post_source/file_format.php:174-203 | the excerpt holds at most EXCERPT_MAX_LENGTH characters |
| FileFormatFacts.BlankExcerpt | private/post_source/file_format.php:174-203 | after nothing but white space the excerpt is empty and the whole rest is read |
| FileFormatFacts.ContentBound | private/post_source/file_format.php:210-213 | whatever chunk PHP delivers, the body is at most POST_MAX_SIZE characters, is one stretch of the rest of the file, and starts and ends with text |
| FileFormatFacts.ContentOfChunk | private/post_source/file_format.php:210-213 | when one chunk holds the rest of the file the body is that whole rest, trimmed; a chunk smaller than POST_MAX_SIZE bounds the body, however long the file |
| FileFormatFacts.TrimWithin | private/post_source/file_format.php:212 | trimming a stretch of the file leaves a stretch inside it |
| PostSource.FileName | private/_tests_/post_source_file_Test.php:121-139 | the file of a slug is the slug followed by ".md" |
| PostSource.SlugOfFileName | private/_tests_/post_source_file_Test.php:121-139 | every post file name gives its slug back |
| PostSource.Slugs | private/post_source.php:5-22 | every slug found is that of a post file in the listing |
| PostSource.Loaded | private/post_source.php:5-22 | every loaded entry is a candidate that the parser accepted, with the record the parser gave |
| PostSource.Filter | private/post_source.php:9-15 | the filter never adds entries |
| PostSource.Insert | private/post_source.php:12-14 | inserting adds one entry |
| PostSource.SortBy | private/post_source.php:12-14 | sorting keeps the length |
| PostSource.Limit | private/post_source.php:17 | the first `limit` entries, all of them for a limit of 0 or a shorter list |
| PostSource.Matches | private/post_source.php:5-22 | the posts a query matches (stated by `PostSource.ResultShape`, `PostSource.HiddenExcluded`, `PostSource.TagFilter`, `PostSource.PublishedBeforeFilter` and `PostSource.MissingSlug`) |
| PostSource.Results | private/post_source.php:5-22 | the matches in the requested order, cut at the limit (stated by `PostSource.ResultsAreMatches`, `PostSource.SortedByUpdate` and `PostSource.LimitTakesFront`) |
| PostSource.FilePostSource.CountResults | private/post_source.php:34-39 | the number of posts the last query matched, before the limit (stated by `PostSource.FilePostSource.QuerySource`) |
| PostSource.FilePostSource.constructor | private/post_source.php:49-52 | a new source has no results |
| PostSource.FilePostSource.QuerySource | private/post_source.php:5-22 | the cursor holds the ordered, limited matches and starts at the first; the count is taken before the limit; TRUE exactly when something matched |
| PostSource.FilePostSource.GetNextPost | private/post_source.php:24-32 | the next result, or NULL once all were given, which it then stays |
| PostSource.FilterMembers | private/post_source.php:9-15 | the filters keep exactly the entries that pass them |
| PostSource.InsertPermutes | private/post_source.php:12-14 | inserting adds the entry to the multiset |
| PostSource.SortByPermutes | private/post_source.php:12-14 | sorting neither adds nor drops entries |
| PostSource.InsertMembers | private/post_source.php:12-14 | inserting adds the entry and nothing else |
| PostSource.InsertInOrder | private/post_source.php:12-14 | inserting into an ordered list keeps it ordered |
| PostSource.OfRankMembers | private/post_source.php:12-14 | the entries of one rank are exactly the entries with that rank |
| PostSource.InsertKeepsTies | private/post_source.php:12-14 | inserting puts the entry before every entry of its own rank and leaves the other ranks as they were |
| PostSource.SortByStable | private/post_source.php:12-14 | the sort is stable: for every rank, the entries of that rank keep their relative order |
| PostSource.ConsInOrder | private/post_source.php:12-14 | an entry ranking no higher than an ordered list may go in front of it |
| PostSource.SortByInOrder | private/post_source.php:12-14 | sorting orders entries by rank |
| PostSource.SortedByUpdate | private/post_source.php:12-14 | `sortfrom` gives a permutation of the matches ordered by update time, oldest or newest first |
| PostSource.OrderedLength | private/post_source.php:12-14 | ordering keeps the number of matches |
| PostSource.ResultsAreMatches | private/post_source.php:17-22 | every result is a match |
| PostSource.ResultShape | private/post_source.php:5-22 | a result was loaded from the file of its slug, passes every filter, and is the asked-for slug when one was given |
| PostSource.HiddenExcluded | private/post_source.php:11 | hidden posts are left out unless asked for |
| PostSource.TagFilter | private/post_source.php:10 | `tag` keeps exactly the matches whose tags have that slug as key |
| PostSource.PublishedBeforeFilter | private/_tests_/post_source_file_Test.php:206-217 | `publishedbefore` keeps exactly the posts published strictly before the time |
| PostSource.LimitTakesFront | private/post_source.php:17 | a positive limit takes the first entries of the ordered matches |
| PostSource.MissingSlug | private/_tests_/post_source_file_Test.php:121-127 | a slug whose file cannot be loaded matches nothing |
| PostSource.SlugFindsHidden | private/_tests_/post_source_file_Test.php:129-139 | asking for one slug with hidden posts allowed gives that post, hidden or not |
| PostSource.ThreePosts | private/_tests_/post_source_file_Test.php:178-204 | three posts come out oldest-first or newest-first by update time |
| PostSource.StoreResult | private/post_source.php:5-22 | over the test store, a result is the record the file parser builds from its slug's file: valid, with both times and tags without "n-a" |
| PostView.WasUpdated | private/post.php:82-86 | with two readable times a post is updated exactly when they differ; equal values are never updated |
| PostView.DefaultNotUpdated | private/post.php:82-86 | a post without an `updated` line is not shown as updated |
| PostView.FormatterInput | private/post.php:117-118 | the formatter gets the excerpt, a blank line and the body ("" when not loaded) |
| PostView.LinkOf | private/post.php:162-166 | the post's page is `post/<slug>` below the site address, and the path reads back |
| PostView.SrcLinkOf | private/post.php:173-177 | the source is the page address with ".md" appended |
| PostView.RelativePrefix | private/post.php:114-115 | relative links resolve below the post's page |
| PostView.LinksDiffer | private/post.php:162-177 | different slugs give different pages and sources |
| PostView.Post.constructor | private/post.php:37-42 | a post holds its record and has no HTML yet |
| PostView.Post.GetLink | private/post.php:162-166 | `getLink` is the address of `post/<slug>` |
| PostView.Post.GetSrcLink | private/post.php:173-177 | `getSrcLink` is the address of `post/<slug>.md` |
| PostView.Post.GetHtml | private/post.php:106-122 | the first call formats the excerpt and body with the post's link prefixes and keeps the HTML; later calls return what was kept |
| PostView.AccessorsReadRecord | private/post.php:49-156 | the accessors hand out the record's fields unchanged; the excerpt goes through `strip_tags`; `isUpdated` compares the record's two times |
| PostView.Post.GetExcerpt | private/post.php:93-97 | the record's excerpt with its tags stripped (stated by `PostView.AccessorsReadRecord`) |
| PostView.Post.IsUpdated | private/post.php:82-86 | `WasUpdated` of the record (stated by `PostView.AccessorsReadRecord`; what that means: `PostView.WasUpdated`, `PostView.DefaultNotUpdated`) |
| PostView.HtmlIsKept | private/post.php:106-122 | two calls give the same HTML, decided by the first formatter |
| Captcha.CalcAnswer | private/tools/captcha.php:76-93 | the result of `+`, `-`, `*` or exact `/` |
| Captcha.NumberStr | private/tools/captcha.php:101-113 | a word for 0 to 20 when the coin says so, the decimal form otherwise |
| Captcha.WordIsNotNumeral | private/tools/captcha.php:101-113 | a number word is never the decimal form |
| Captcha.PuzzleAnswerIsUnique | private/tools/captcha.php:203-245 | the stored answer fills the blank and nothing else does |
| Captcha.PuzzleIsPlain | private/tools/captcha.php:203-245 | the hints hold neither separator, and the answer is a PHP integer |
| Captcha.Put | private/tools/captcha.php:226-242 | `$hint[i] = v` sets slot `i` and keeps the others |
| Captcha.Restore | private/tools/captcha.php:129-143 | no session value, or one that does not split into exactly two parts on ":", keeps the current state |
| Captcha.RestoreEncode | private/tools/captcha.php:118-143 | `deserialize` after `serialize` gives back the hints and the answer |
| Captcha.Encode | private/tools/captcha.php:118-127 | `serialize`'s session value (its parts: `Captcha.EncodeSplits`, `Captcha.HintSplits`; the round trip: `Captcha.RestoreEncode`) |
| Captcha.EncodeSplits | private/tools/captcha.php:121-136 | the session value splits on ":" into the hint pair and the answer |
| Captcha.HintSplits | private/tools/captcha.php:121-139 | the hint pair splits on "?" into its halves |
| Captcha.Accepts | private/tools/captcha.php:192-197 | `checkAnswer` holds exactly when the input validates to the stored integer (or to FALSE when that is stored), never without an answer |
| Captcha.AcceptsAnswer | private/tools/captcha.php:192-197 | the answer's decimal form is accepted, and only inputs validating to it are |
| Captcha.ComposePuzzle | private/tools/captcha.php:207-245 | the hints and answer built are the puzzle of the rolls |
| Captcha.MakePuzzle | private/tools/captcha.php:203-245 | the puzzle `generate` builds (the answer fills the blank and only it does: `Captcha.PuzzleAnswerIsUnique`; plain hints and an integer answer: `Captcha.PuzzleIsPlain`) |
| Captcha.Captcha.constructor | private/tools/captcha.php:154-161 | a new captcha has the name and the state the session last stored |
| Captcha.Captcha.Serialize | private/tools/captcha.php:118-124 | the captcha's session entry becomes the encoded state; no other entry changes |
| Captcha.Captcha.Deserialize | private/tools/captcha.php:129-143 | the state is `Restore` of the session entry |
| Captcha.Captcha.Generate | private/tools/captcha.php:203-247 | the first two hints and the answer become the puzzle of the rolls, then stored in the session |
| Captcha.Captcha.GetName | private/tools/captcha.php:168-171 | the name given to the constructor (stated by `Captcha.Captcha.constructor`) |
| Captcha.Captcha.CheckAnswer | private/tools/captcha.php:192-197 | `Accepts` of the stored answer (what that means: `Captcha.Accepts`, `Captcha.AcceptsAnswer`, `Captcha.GenerateThenRestore`) |
| Captcha.GenerateThenRestore | private/tools/captcha.php:154-247 | a captcha made from the session after `generate` has its hints and answer, and accepts the answer |
| ContactForm.Field | private/modules/ContactForm.php:123-148 | the sanitized field cut to its maximum length, "" when not sent |
| ContactForm.HeadIsSubstr | private/modules/ContactForm.php:123-124 | the cut is `substr($s, 0, $max)` |
| ContactForm.InputFlags | private/modules/ContactForm.php:127-153 | each problem sets its own flag, never the mail flag; no flag exactly when there is no problem |
| ContactForm.MakeFormRow | private/modules/ContactForm.php:267-274 | the row is inside its `div` |
| ContactForm.FormRowInjective | private/modules/ContactForm.php:267-274 | different rows give different markup |
| ContactForm.Recipient | private/modules/ContactForm.php:289-291 | without ";" the whole string is the address and the subject is "" |
| ContactForm.RecipientOfParams | private/modules/ContactForm.php:289-291 | `email; subject` gives that address and subject, whatever spaces surround ";" |
| ContactForm.ContactFormModule.constructor | private/modules/ContactForm.php:285-296 | recipient and subject from the parameters; a fresh captcha; not sent; a submitted form carries the flags of its inputs, an unsent one none |
| ContactForm.ContactFormModule.InitFormData | private/modules/ContactForm.php:105-111 | no errors, no form data, not submitted |
| ContactForm.ContactFormModule.SubmittedFlags | private/modules/ContactForm.php:121-154 | the e-mail flag exactly when the sanitized, cut address does not validate; the message flag exactly when the cut message is empty; the captcha flag exactly when the cut answer is rejected; never the mail flag |
| ContactForm.MailHeaders | private/modules/ContactForm.php:85-86 | the plain-text content type and the sender (the headers passed to `mail()`: `ContactForm.ContactFormModule.TryToSend`) |
| ContactForm.ContactFormModule.GetInputs | private/modules/ContactForm.php:117-155 | submitted exactly when `cf_send` was posted; then each input problem adds its flag and the address and message are read; otherwise nothing changes |
| ContactForm.ContactFormModule.TryToSend | private/modules/ContactForm.php:81-99 | mail is sent exactly for a submitted form without errors; success resets the form and marks it sent, failure adds the mail flag |
| ContactForm.ContactFormModule.ErrorCssClass | private/modules/ContactForm.php:220-232 | the error class exactly when the flag is set |
| ContactForm.ContactFormModule.GetResultMessage | private/modules/ContactForm.php:239-258 | the sent row, else the failure row when sending failed, else "" |
| ContactForm.SendOutcome | private/modules/ContactForm.php:303-317 | a failed sending shows the failure row; a form with errors sends nothing |
| ParsedownMod.SpecialIsMath | private/parsedown/Parsedown_mod.php:31-33 | "math" is the only special code type |
| ParsedownMod.RunEnd | private/parsedown/Parsedown_mod.php:145 | the end of the longest run of characters of a class |
| ParsedownMod.InlineMath | private/parsedown/Parsedown_mod.php:123-141 | a match spans `` $` ``, an equation without "$", and `` `$ ``; it renders as a span of the equation titled by it |
| ParsedownMod.MathRecognised | private/parsedown/Parsedown_mod.php:123-141 | every equation without "$" is recognised, whatever follows |
| ParsedownMod.InlineLink | private/parsedown/Parsedown_mod.php:106-121 | a link exactly when the engine finds one, with its element passed through the hook |
| ParsedownMod.LinkHooks | private/parsedown/Parsedown_mod.php:42-47 | the default hook leaves links as they are, and hooks compose |
| ParsedownMod.DefaultLinkCallback | private/parsedown/Parsedown_mod.php:42-47 | the identity on link elements (stated by `ParsedownMod.LinkHooks`) |
| ParsedownMod.BlockComment | private/parsedown/Parsedown_mod.php:71-89 | a comment starts exactly at `<!--` unless markup is escaped or safe mode is on, and is closed when the line ends with `-->` |
| ParsedownMod.BlockCommentContinue | private/parsedown/Parsedown_mod.php:91-104 | a closed comment takes no more lines; an open one takes the line and closes at `-->` |
| ParsedownMod.CommentRunsToClose | private/parsedown/Parsedown_mod.php:91-104 | an open comment runs to the first line ending in `-->`, included, or to the end |
| ParsedownMod.CodeTypeOf | private/parsedown/Parsedown_mod.php:59-60 | the part of the class after its first "-" |
| ParsedownMod.BlockFencedCodeAsWritten | private/parsedown/Parsedown_mod.php:54-66 | as written: the engine's block only when it has a class that does not name a special code type |
| ParsedownMod.PlainFenceDropped | private/parsedown/Parsedown_mod.php:54-66 | as written, a fence without an info string is lost |
| ParsedownMod.BlockFencedCode | private/parsedown/Parsedown_mod.php:54-66 | corrected: the engine's block unless its class names a special code type |
| ParsedownMod.FencedCodeKept | private/parsedown/Parsedown_mod.php:54-66 | corrected, every fence the special block does not render is kept, and fences with a class are treated as before |
| ParsedownMod.LanguageClass | private/parsedown/Parsedown_mod.php:57-61 | only the info string "math" makes a fence special |
| ParsedownMod.FenceInfo | private/parsedown/Parsedown_mod.php:168 | the info string after the fence and its spaces, when the fence has three or more characters |
| ParsedownMod.BlockSpecialFencedCode | private/parsedown/Parsedown_mod.php:166-183 | a "math" block opens exactly when the info string is "math", and starts with no code |
| ParsedownMod.MathOpening | private/parsedown/Parsedown_mod.php:168-181 | three or more backticks, spaces and "math" open a block |
| ParsedownMod.NotOpenings | private/parsedown/Parsedown_mod.php:168-172 | two backticks, a trailing space, another language or no info string open none |
| ParsedownMod.BlockSpecialFencedCodeContinue | private/parsedown/Parsedown_mod.php:185-211 | a complete block takes no line; a closing fence completes it, dropping the leading line feed; any other line is appended after a line feed |
| ParsedownMod.FeedCode | private/parsedown/Parsedown_mod.php:185-211 | lines that are not closing fences are appended one by one |
| ParsedownMod.FenceGathersLines | private/parsedown/Parsedown_mod.php:185-211 | from the opening to the closing fence the block gathers the lines between, joined by line feeds, and is complete |
| ParsedownMod.RemoveBreaks | private/parsedown/Parsedown_mod.php:229 | removal never lengthens the code and changes nothing without a backslash or a line feed |
| ParsedownMod.BreakRemoved | private/parsedown/Parsedown_mod.php:229 | a backslash right before a line feed goes with it |
| ParsedownMod.LettersSRemoved | private/parsedown/Parsedown_mod.php:229 | so does a backslash followed by letters "s" and a line feed |
| ParsedownMod.SpacedBreakKept | private/parsedown/Parsedown_mod.php:229 | a space between backslash and line feed keeps both |
| ParsedownMod.SpecialCodeKatexMath | private/parsedown/Parsedown_mod.php:226-239 | a paragraph of the equation class showing the code, titled by it without escaped line breaks |
| ParsedownMod.BlockSpecialFencedCodeComplete | private/parsedown/Parsedown_mod.php:213-224 | the rendered block has the equation element and no code |
| ParsedownMod.DisplayEquation | private/parsedown/Parsedown_mod.php:166-239 | a "math" fence renders the lines between its fences as one equation paragraph and then takes no more lines |
| ParsedownMod.LastClose | private/parsedown/Parsedown_mod.php:145 | the greedy `.*[^\\]` before `]]` ends at the last place it can |
| ParsedownMod.ModuleAt | private/parsedown/Parsedown_mod.php:145 | a match at a start is a module call there |
| ParsedownMod.FirstModule | private/parsedown/Parsedown_mod.php:145-146 | the search finds a match at or after its start |
| ParsedownMod.FirstModuleIsLeftmost | private/parsedown/Parsedown_mod.php:145-146 | the match found is the leftmost, and none is found only when no start matches |
| ParsedownMod.InlineModuleAsWritten | private/parsedown/Parsedown_mod.php:143-161 | as written: a call anywhere in the text is taken, with its length as extent |
| ParsedownMod.InlineModule | private/parsedown/Parsedown_mod.php:143-161 | corrected: only a call at the marker is taken, with extent and markup of that call |
| ParsedownMod.ModuleFound | private/parsedown/Parsedown_mod.php:145 | every module call is found where it starts, with its name and colon; when its arguments do not start with a blank, they start at the same place and run at least as far |
| ParsedownMod.PlainCall | private/parsedown/Parsedown_mod.php:143-156 | a call on one line is found at its start, with its name and arguments |
| ParsedownMod.UnanchoredCallMisplaced | private/parsedown/Parsedown_mod.php:145-152 | in "[x] [[m:a]]" the unanchored match takes "[x] [[m" from the marker, and no call starts there |
| ParsedownMod.Hooks.constructor | private/parsedown/Parsedown_mod.php:245-254 | a new formatter passes links unchanged and has no module handler |
| ParsedownMod.Hooks.SetLinkCallback | private/parsedown/Parsedown_mod.php:261-266 | later links go through the hook; the module handler stays |
| ParsedownMod.Hooks.SetModuleHandlerCallback | private/parsedown/Parsedown_mod.php:273-278 | later module calls go to the handler; the link hook stays |
| ParsedownMod.HookedLink | private/parsedown/Parsedown_mod.php:106-121 | after registering a hook, every link the engine finds goes through it, nothing else of it changes |

## Left out

- The router, the views, `index.php`, `link.php`, `modules.php`, the `NewPosts` module and the homepage are not part of this model. They only arrange what the modelled parts produce into pages.
- `private/post_source/file.php` is not part of this model. `PostSource` defines the query by the interface's documentation and the tests: candidates from the listing, or the slug's own file; the parser; the filters; a stable sort on the update time; the count before the limit; a limit of 0 meaning none.
- `strtotime`, `iconv` transliteration, Unicode letter classes, `strip_tags`, `stripcslashes`, the sanitize and e-mail filters, `mail()`, `rand()` and the session start are parameters, because their behaviour lies outside the code.
- The Parsedown base class is not part of this model. Its blocks and inline elements enter as values (`CodeBlock`, `InlineElement`), and the registration of the extensions in `__construct` is left out.
- The GD image output of the captcha hint (`outputHintText`, `outputHintImage`) is left out: it draws pixels.
- The HTML of `getEmailField`, `getMessageField`, `getSubmitLine` and `getOutput` is left out except the rows and the result message. The `generate()` call inside `getSubmitLine` is modelled as `Captcha.Captcha.Generate`.
- The formatting helpers of `common.php` (`requestedPage`, `formatTime`, `loadView`, `getPageTitle`, `ensureSession`, `isTextBased`) are left out: they format dates or include files.
- The error flags are a set of flags rather than the bitmask; the model never needs the numeric value.
- ParsedownMod.InlineModuleAsWritten: a module call before any handler is registered makes PHP's `call_user_func` fail; the model always has a handler.
- FileFormat.Capture: `$` also matches before a final line feed, and the model drops that one line feed only; no other PCRE feature is modelled.
- PhpString.Substr: models PHP 8 semantics (an offset past the end gives "", not FALSE).
- ContactForm.Recipient: a parameter string without ";" leaves `$params_arr[1]` undefined, which reads as NULL and becomes the subject ""; the notice PHP raises is not modelled.
- Slug.ToSlugIdempotent: proved for ASCII text only, because transliteration of other characters is a parameter.
- StreamIo.Fread: how many characters PHP's buffer delivers (one fill, 8192 by default, plus what earlier reads left in the buffer) is not computed; it is the parameter `Host.readChunk`, so the model states only bounds on the body, not its exact length for a long post.
- Slug.ToSlug: reads its text as Unicode code points, one `char` each, whereas the rest of the model has one `char` per byte, so the tags the parser passes to it are taken as already decoded from UTF-8. Invalid UTF-8 is not modelled either; on it the `u` patterns fail and `preg_replace` returns NULL.
- PostView.WasUpdated: PHP's loose `!=` is modelled for the values a record can hold (a time, FALSE, or no value), not for every PHP value.

## Findings

| source | as written | input that shows it | evidently intended | confidence | as-written member | corrected member |
|---|---|---|---|---|---|---|
| private/parsedown/Parsedown_mod.php:145 | the module pattern is not anchored, so it matches a call anywhere after the `[` marker; the extent is its length, counted from the marker | the text "[x] [[m:a]]": the call starts at 4, its extent is 7, so "[x] [[m" is consumed and replaced by the call's markup | match only a call that starts at the marker (`/^\[\[…/`) | not executed | ParsedownMod.InlineModuleAsWritten | ParsedownMod.InlineModule |
| private/parsedown/Parsedown_mod.php:54-66 | `blockFencedCode` returns the block only inside the `isset(…class…)` branch, so a fence without an info string returns nothing | a fence "```" with no info string: the block has no class and is dropped | return the engine's block unless its class names a special code type | not executed | ParsedownMod.BlockFencedCodeAsWritten | ParsedownMod.BlockFencedCode |
