/** The post view of private/post.php: read access to one query result,
    the links to the post and to its source, and the post rendered to
    HTML, which is formatted on first use and kept. */
module PostView {
  import opened Wrappers
  import opened PhpArray
  import opened Common
  import opened PostSource
  import FileFormat
  import FileFormatFacts

  type Time = FileFormat.Time

  /** How PHP's `==` compares two stored times: two Unix times as
      numbers; otherwise, with FALSE (a date the parser could not read)
      or NULL (no value) on one side, both sides as booleans. */
  predicate LooselyEqual(a: Option<Time>, b: Option<Time>) {
    match (a, b)
    case (Some(At(x)), Some(At(y))) => x == y
    case _ => Truthy(a) == Truthy(b)
  }

  predicate Truthy(t: Option<Time>) {
    t.Some? && t.value.At? && t.value.seconds != 0
  }

  /** `isUpdated()` of a record: its update time differs from its
      publication time. */
  function WasUpdated(rec: FileFormat.Record): (r: bool)
    ensures rec.published.Some? && rec.published.value.At? && rec.updated.Some? && rec.updated.value.At? ==>
      (r <==> rec.updated.value.seconds != rec.published.value.seconds)
    ensures rec.updated == rec.published ==> !r
  {
    !LooselyEqual(rec.updated, rec.published)
  }

  /** A post file without an `updated` line is never shown as updated:
      the parser copies the publication time into `updated`. */
  lemma DefaultNotUpdated(host: FileFormat.Host, d: string, metaOnly: bool)
    requires FileFormatFacts.LastValue(FileFormatFacts.MetaLinesOf(d), FileFormat.Updated).None?
    ensures !WasUpdated(FileFormat.Parse(host, d, metaOnly))
  {
    FileFormatFacts.ParseFields(host, d, metaOnly);
  }

  /** The text the formatter is given: the excerpt, a blank line, and the
      body, which a metadata-only record lacks and PHP then reads as "". */
  function FormatterInput(rec: FileFormat.Record): (text: string)
    ensures var body := rec.content.GetOr("");
      |text| == |rec.excerpt| + 2 + |body| &&
      text[..|rec.excerpt|] == rec.excerpt &&
      text[|rec.excerpt|..|rec.excerpt| + 2] == "\n\n" &&
      text[|rec.excerpt| + 2..] == body
  {
    rec.excerpt + "\n\n" + rec.content.GetOr("")
  }

  /** The address of a post's page. */
  function LinkOf(slug: string): (url: string)
    ensures url == PAGE_ADDR + "/post/" + slug
    ensures PathOfUrl(url) == "post/" + slug
  {
    UrlAddressRoundTrip("post/" + slug);
    GetUrlAddress("post/" + slug)
  }

  /** The address of a post's markdown source. */
  function SrcLinkOf(slug: string): (url: string)
    ensures url == LinkOf(slug) + "." + POST_EXT
    ensures PathOfUrl(url) == "post/" + slug + "." + POST_EXT
  {
    UrlAddressRoundTrip("post/" + slug + "." + POST_EXT);
    GetUrlAddress("post/" + slug + "." + POST_EXT)
  }

  /** The prefix relative links of a post are resolved against: the
      directory named after the post. */
  function RelativePrefix(slug: string): (url: string)
    ensures url == LinkOf(slug) + "/"
  {
    GetUrlAddress("post/" + slug + "/")
  }

  /** Different posts have different pages. */
  lemma LinksDiffer(a: string, b: string)
    requires a != b
    ensures LinkOf(a) != LinkOf(b) && SrcLinkOf(a) != SrcLinkOf(b)
  {
    if LinkOf(a) == LinkOf(b) {
      CancelAround("post/", a, b, "");
    }
    if SrcLinkOf(a) == SrcLinkOf(b) {
      assert "post/" + a + "." + POST_EXT == "post/" + a + ("." + POST_EXT);
      assert "post/" + b + "." + POST_EXT == "post/" + b + ("." + POST_EXT);
      CancelAround("post/", a, b, "." + POST_EXT);
    }
  }

  /** A string between a fixed prefix and a fixed suffix is determined by
      the whole. */
  lemma CancelAround(p: string, a: string, b: string, q: string)
    requires p + a + q == p + b + q
    ensures a == b
  {
    var s, t := p + a + q, p + b + q;
    assert |a| == |b|;
    assert s[|p|..|p| + |a|] == a;
    assert t[|p|..|p| + |b|] == b;
  }

  /** One post: the record the query returned and, once formatted, its
      HTML. The formatter, the markdown engine behind `Formatter`, is
      given to `GetHtml` as a function of the text and of the prefixes
      relative and site-absolute links are resolved against. */
  class Post {
    const entry: Entry
    var html: Option<string>

    constructor (entry: Entry)
      ensures this.entry == entry && html == None
    {
      this.entry := entry;
      html := None;
    }

    function GetTitle(): Option<string> {
      entry.record.title
    }

    function GetPublishTime(): Option<Time> {
      entry.record.published
    }

    function GetUpdateTime(): Option<Time> {
      entry.record.updated
    }

    function GetTags(): Option<Assoc<string>> {
      entry.record.tags
    }

    function IsHidden(): bool {
      entry.record.hidden
    }

    function GetSlug(): string {
      entry.slug
    }

    /** `getExcerpt()`, with PHP's `strip_tags` as a parameter. */
    function GetExcerpt(stripTags: string -> string): string {
      stripTags(entry.record.excerpt)
    }

    /** `isUpdated()`. */
    function IsUpdated(): bool {
      WasUpdated(entry.record)
    }

    /** `getLink()`. */
    function GetLink(): (url: string)
      ensures url == GetUrlAddress("post/" + GetSlug())
    {
      LinkOf(GetSlug())
    }

    /** `getSrcLink()`. */
    function GetSrcLink(): (url: string)
      ensures url == GetUrlAddress("post/" + GetSlug() + "." + POST_EXT)
    {
      SrcLinkOf(GetSlug())
    }

    /** `getHtml()`: the first call formats the excerpt and the body, with
        relative links resolved below the post's own address and absolute
        ones below the site root, and keeps the result; every later call
        returns what was kept. */
    method GetHtml(format: (string, string, string) -> string) returns (r: string)
      modifies this`html
      ensures old(html).Some? ==> r == old(html).value && html == old(html)
      ensures old(html).None? ==>
        r == format(FormatterInput(entry.record), RelativePrefix(entry.slug), GetUrlAddress("")) &&
        html == Some(r)
    {
      if html.None? {
        var text := entry.record.excerpt + "\n\n" + entry.record.content.GetOr("");
        html := Some(format(text, GetUrlAddress("post/" + GetSlug() + "/"), GetUrlAddress("")));
      }
      r := html.value;
    }
  }

  /** The accessors hand out the fields of the record unchanged; the
      excerpt goes through `strip_tags`, and `isUpdated` compares the
      record's two times. */
  lemma AccessorsReadRecord(p: Post, stripTags: string -> string)
    ensures p.GetTitle() == p.entry.record.title && p.GetPublishTime() == p.entry.record.published
    ensures p.GetUpdateTime() == p.entry.record.updated && p.GetTags() == p.entry.record.tags
    ensures p.IsHidden() == p.entry.record.hidden && p.GetSlug() == p.entry.slug
    ensures p.GetExcerpt(stripTags) == stripTags(p.entry.record.excerpt)
    ensures p.IsUpdated() == WasUpdated(p.entry.record)
  {
  }

  /** Formatting happens at most once: two calls give the same HTML even
      with different formatters, and the first formatter decides it. */
  method HtmlIsKept(p: Post, first: (string, string, string) -> string,
                    second: (string, string, string) -> string)
    returns (a: string, b: string)
    requires p.html.None?
    modifies p
    ensures a == b == first(FormatterInput(p.entry.record), RelativePrefix(p.entry.slug), GetUrlAddress(""))
  {
    a := p.GetHtml(first);
    b := p.GetHtml(second);
  }
}
