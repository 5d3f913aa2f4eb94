/** The post query contract `IPostSource` of private/post_source.php: a
    query selects posts by slug, tag, visibility and publication time,
    orders them by their update time, caps their number, and hands them
    out one at a time through a cursor. The implementing file is not part
    of this model; what follows is a reference semantics of the contract,
    built from the post files of a collection and the post parser. */
module PostSource {
  import opened Wrappers
  import opened PhpArray
  import PostFs
  import Slug
  import FileFormat
  import FileFormatFacts

  type Record = FileFormat.Record

  /** The extension of a post file, from private/config.php. */
  const POST_EXT: string := "md"

  /** The `sortfrom` parameter: `oldest` or `newest`. */
  datatype Order = Oldest | Newest

  /** The parameters `querySource` takes. A key the caller leaves out is
      `None`, false or 0; a limit of 0 means no limit. */
  datatype Query = Query(
    slug: Option<string>,
    tag: Option<string>,
    hidden: bool,
    sortfrom: Option<Order>,
    publishedBefore: Option<int>,
    metaOnly: bool,
    limit: nat)

  /** The listing query with no parameters. */
  const Everything: Query := Query(None, None, false, None, None, false, 0)

  /** A result of a query: the parsed record and the slug of its file. */
  datatype Entry = Entry(slug: string, record: Record)

  /** A collection of posts: the file names in directory order, and the
      parser, which loads one file (for metadata only, or in full) and
      gives nothing for a file it cannot open or refuses. */
  datatype Collection = Collection(names: seq<string>, load: (string, bool) -> Option<Record>)

  /** The file name of the post with the given slug. */
  function FileName(slug: string): (name: string)
    ensures |name| == |slug| + 1 + |POST_EXT| && name[..|slug|] == slug
  {
    slug + "." + POST_EXT
  }

  /** The slug of a post file name: the name without its extension; a
      file with another extension, or with nothing before it, is not a
      post. */
  function SlugOf(name: string): (slug: Option<string>)
    ensures slug.Some? ==> FileName(slug.value) == name && slug.value != ""
  {
    var n := |POST_EXT| + 1;
    if |name| > n && name[|name| - n..] == "." + POST_EXT then
      var s := name[..|name| - n];
      assert FileName(s) == name;
      Some(s)
    else None
  }

  /** Every post file name gives back its slug. */
  lemma SlugOfFileName(slug: string)
    requires slug != ""
    ensures SlugOf(FileName(slug)) == Some(slug)
  {
    var name := FileName(slug);
    assert name[..|slug|] == slug;
    assert name[|slug|..] == "." + POST_EXT;
  }

  /** The slugs of the post files among the names, in directory order. */
  function Slugs(names: seq<string>): (slugs: seq<string>)
    ensures |slugs| <= |names|
    ensures forall s :: s in slugs ==> FileName(s) in names
  {
    if names == [] then []
    else
      var rest := Slugs(names[1..]);
      match SlugOf(names[0])
      case Some(s) => [s] + rest
      case None => rest
  }

  /** The slugs a query looks at: the one it names, or every post file. */
  function Candidates(c: Collection, q: Query): seq<string> {
    if q.slug.Some? then [q.slug.value] else Slugs(c.names)
  }

  /** The records the parser gives for the slugs, each with its slug, in
      order; a file the parser refuses is skipped. */
  function Loaded(c: Collection, slugs: seq<string>, metaOnly: bool): (r: seq<Entry>)
    ensures |r| <= |slugs|
    ensures forall e :: e in r ==> e.slug in slugs && c.load(FileName(e.slug), metaOnly) == Some(e.record)
  {
    if slugs == [] then []
    else
      var rest := Loaded(c, slugs[1..], metaOnly);
      match c.load(FileName(slugs[0]), metaOnly)
      case Some(rec) => [Entry(slugs[0], rec)] + rest
      case None => rest
  }

  /** The time a record is ordered and filtered by: the Unix time the
      date parser gave, and 0 where it gave nothing. */
  function Stamp(t: Option<FileFormat.Time>): int {
    match t
    case Some(At(s)) => s
    case _ => 0
  }

  predicate HasTag(rec: Record, tag: string) {
    rec.tags.Some? && tag in Keys(rec.tags.value)
  }

  /** Whether an entry passes the filters of the query: hidden posts only
      when asked for, the tag when one is given, and a publication time
      before the cutoff when one is given. */
  predicate Keep(q: Query, e: Entry) {
    (q.hidden || !e.record.hidden) &&
    (q.tag.None? || HasTag(e.record, q.tag.value)) &&
    (q.publishedBefore.None? || Stamp(e.record.published) < q.publishedBefore.value)
  }

  /** The entries that pass the filters, in order. */
  function Filter(q: Query, s: seq<Entry>): (r: seq<Entry>)
    ensures |r| <= |s|
  {
    if s == [] then []
    else if Keep(q, s[0]) then [s[0]] + Filter(q, s[1..])
    else Filter(q, s[1..])
  }

  /** What a query matches, before ordering and the limit. */
  function Matches(c: Collection, q: Query): seq<Entry> {
    Filter(q, Loaded(c, Candidates(c, q), q.metaOnly))
  }

  /** The position of an entry in the requested order: its update time,
      negated for the newest-first order. */
  function Rank(o: Order, e: Entry): int {
    if o == Oldest then Stamp(e.record.updated) else -Stamp(e.record.updated)
  }

  /** Puts `e` in front of the first entry that does not rank below it. */
  function Insert(o: Order, e: Entry, s: seq<Entry>): (r: seq<Entry>)
    ensures |r| == |s| + 1
  {
    if s == [] || Rank(o, e) <= Rank(o, s[0]) then [e] + s
    else [s[0]] + Insert(o, e, s[1..])
  }

  /** Insertion sort on the rank; entries of equal rank keep their order. */
  function SortBy(o: Order, s: seq<Entry>): (r: seq<Entry>)
    ensures |r| == |s|
  {
    if s == [] then [] else Insert(o, s[0], SortBy(o, s[1..]))
  }

  /** The matches in the requested order; without `sortfrom`, in
      directory order. */
  function Ordered(q: Query, s: seq<Entry>): seq<Entry> {
    match q.sortfrom
    case None => s
    case Some(o) => SortBy(o, s)
  }

  /** The first `limit` entries, or all of them for a limit of 0. */
  function Limit(s: seq<Entry>, limit: nat): (r: seq<Entry>)
    ensures limit == 0 || |s| <= limit ==> r == s
    ensures 0 < limit < |s| ==> r == s[..limit]
  {
    if limit == 0 || |s| <= limit then s else s[..limit]
  }

  /** What the cursor hands out after `querySource`. */
  function Results(c: Collection, q: Query): seq<Entry> {
    Limit(Ordered(q, Matches(c, q)), q.limit)
  }

  // -----------------------------------------------------------------------
  // The cursor

  /** A post source: the collection it reads, the results of the last
      query, how many of them were handed out, and the number of
      matches. */
  class FilePostSource {
    const collection: Collection
    var results: seq<Entry>
    var position: nat
    var total: nat

    constructor (collection: Collection)
      ensures this.collection == collection && results == [] && position == 0 && total == 0
    {
      this.collection := collection;
      results := [];
      position := 0;
      total := 0;
    }

    /** `querySource($param)`: runs the query and puts the cursor before
        its first result; TRUE when at least one post matched. */
    method QuerySource(q: Query) returns (found: bool)
      modifies this
      ensures results == Results(collection, q) && position == 0
      ensures total == |Matches(collection, q)|
      ensures found <==> total > 0
      ensures found <==> results != []
    {
      var matches := Matches(collection, q);
      results := Limit(Ordered(q, matches), q.limit);
      OrderedLength(q, matches);
      position := 0;
      total := |matches|;
      found := total > 0;
    }

    /** `getNextPost()`: the next result, or NULL once all were handed
        out, which it stays. */
    method GetNextPost() returns (post: Option<Entry>)
      modifies this`position
      ensures old(position) < |results| ==> post == Some(results[old(position)]) && position == old(position) + 1
      ensures old(position) >= |results| ==> post == None && position == old(position)
    {
      if position < |results| {
        post := Some(results[position]);
        position := position + 1;
      } else {
        post := None;
      }
    }

    /** `countResults()`: the number of posts the last query matched. */
    function CountResults(): nat
      reads this
    {
      total
    }
  }

  // -----------------------------------------------------------------------
  // What the results are

  /** Ordering keeps the number of entries. */
  lemma OrderedLength(q: Query, s: seq<Entry>)
    ensures |Ordered(q, s)| == |s|
  {
  }

  /** The filters keep exactly the entries that pass them. */
  lemma {:induction false} FilterMembers(q: Query, s: seq<Entry>, e: Entry)
    ensures e in Filter(q, s) <==> e in s && Keep(q, e)
  {
    if s != [] {
      FilterMembers(q, s[1..], e);
      assert s == [s[0]] + s[1..];
    }
  }

  /** Inserting adds one entry to the multiset of entries. */
  lemma {:induction false} InsertPermutes(o: Order, e: Entry, s: seq<Entry>)
    ensures multiset(Insert(o, e, s)) == multiset(s) + multiset{e}
  {
    if s != [] && Rank(o, e) > Rank(o, s[0]) {
      InsertPermutes(o, e, s[1..]);
      assert s == [s[0]] + s[1..];
    }
  }

  /** Sorting neither adds nor drops entries. */
  lemma {:induction false} SortByPermutes(o: Order, s: seq<Entry>)
    ensures multiset(SortBy(o, s)) == multiset(s)
  {
    if s != [] {
      SortByPermutes(o, s[1..]);
      InsertPermutes(o, s[0], SortBy(o, s[1..]));
      assert s == [s[0]] + s[1..];
    }
  }

  /** Entries in non-decreasing rank. */
  predicate InOrder(o: Order, s: seq<Entry>) {
    forall i, j :: 0 <= i < j < |s| ==> Rank(o, s[i]) <= Rank(o, s[j])
  }

  /** Inserting adds `e` and nothing else. */
  lemma {:induction false} InsertMembers(o: Order, e: Entry, s: seq<Entry>)
    ensures forall x :: x in Insert(o, e, s) <==> x == e || x in s
  {
    if s != [] && Rank(o, e) > Rank(o, s[0]) {
      InsertMembers(o, e, s[1..]);
      assert s == [s[0]] + s[1..];
    }
  }

  /** Inserting into an ordered sequence keeps it ordered. */
  lemma {:induction false} InsertInOrder(o: Order, e: Entry, s: seq<Entry>)
    requires InOrder(o, s)
    ensures InOrder(o, Insert(o, e, s))
  {
    if s != [] && Rank(o, e) > Rank(o, s[0]) {
      var r := Insert(o, e, s[1..]);
      assert InOrder(o, s[1..]) by {
        forall i, j | 0 <= i < j < |s[1..]| ensures Rank(o, s[1..][i]) <= Rank(o, s[1..][j]) {
          assert s[1..][i] == s[i + 1] && s[1..][j] == s[j + 1];
        }
      }
      InsertInOrder(o, e, s[1..]);
      InsertMembers(o, e, s[1..]);
      forall x | x in r ensures Rank(o, s[0]) <= Rank(o, x) {
        if x != e {
          var k :| 0 <= k < |s[1..]| && s[1..][k] == x;
          assert s[k + 1] == x;
        }
      }
      ConsInOrder(o, s[0], r);
    } else {
      forall x | x in s ensures Rank(o, e) <= Rank(o, x) {
        var k :| 0 <= k < |s| && s[k] == x;
        assert Rank(o, s[0]) <= Rank(o, s[k]);
      }
      ConsInOrder(o, e, s);
    }
  }

  /** An entry that ranks no higher than any of an ordered sequence may
      go in front of it. */
  lemma ConsInOrder(o: Order, x: Entry, r: seq<Entry>)
    requires InOrder(o, r)
    requires forall y :: y in r ==> Rank(o, x) <= Rank(o, y)
    ensures InOrder(o, [x] + r)
  {
    var t := [x] + r;
    forall i, j | 0 <= i < j < |t| ensures Rank(o, t[i]) <= Rank(o, t[j]) {
      if i == 0 {
        assert t[j] == r[j - 1] && t[j] in r;
      } else {
        assert t[i] == r[i - 1] && t[j] == r[j - 1];
      }
    }
  }

  /** Sorting orders the entries by their rank. */
  lemma {:induction false} SortByInOrder(o: Order, s: seq<Entry>)
    ensures InOrder(o, SortBy(o, s))
  {
    if s != [] {
      SortByInOrder(o, s[1..]);
      InsertInOrder(o, s[0], SortBy(o, s[1..]));
    }
  }

  /** The entries of `s` whose rank is `k`, in their order in `s`. */
  function OfRank(o: Order, k: int, s: seq<Entry>): (r: seq<Entry>)
    ensures |r| <= |s|
  {
    if s == [] then []
    else (if Rank(o, s[0]) == k then [s[0]] else []) + OfRank(o, k, s[1..])
  }

  /** `OfRank` keeps exactly the entries of rank `k`. */
  lemma {:induction false} OfRankMembers(o: Order, k: int, s: seq<Entry>)
    ensures forall x :: x in OfRank(o, k, s) <==> x in s && Rank(o, x) == k
  {
    if s != [] {
      OfRankMembers(o, k, s[1..]);
      assert s == [s[0]] + s[1..];
    }
  }

  lemma OfRankCons(o: Order, k: int, x: Entry, t: seq<Entry>)
    ensures OfRank(o, k, [x] + t) == (if Rank(o, x) == k then [x] else []) + OfRank(o, k, t)
  {
    assert ([x] + t)[0] == x && ([x] + t)[1..] == t;
  }

  /** Inserting `e` puts it in front of every entry of its own rank and
      leaves the entries of every other rank as they were. */
  lemma {:induction false} InsertKeepsTies(o: Order, k: int, e: Entry, s: seq<Entry>)
    ensures OfRank(o, k, Insert(o, e, s)) == (if Rank(o, e) == k then [e] else []) + OfRank(o, k, s)
  {
    var mine: seq<Entry> := if Rank(o, e) == k then [e] else [];
    if s == [] || Rank(o, e) <= Rank(o, s[0]) {
      OfRankCons(o, k, e, s);
    } else {
      var head: seq<Entry> := if Rank(o, s[0]) == k then [s[0]] else [];
      var rest := OfRank(o, k, s[1..]);
      InsertKeepsTies(o, k, e, s[1..]);
      OfRankCons(o, k, s[0], Insert(o, e, s[1..]));
      OfRankCons(o, k, s[0], s[1..]);
      assert s == [s[0]] + s[1..];
      assert head == [] || mine == [];
      assert head + (mine + rest) == mine + (head + rest);
    }
  }

  /** The sort is stable: entries of equal rank keep their relative
      order. */
  lemma {:induction false} SortByStable(o: Order, k: int, s: seq<Entry>)
    ensures OfRank(o, k, SortBy(o, s)) == OfRank(o, k, s)
  {
    if s != [] {
      SortByStable(o, k, s[1..]);
      InsertKeepsTies(o, k, s[0], SortBy(o, s[1..]));
    }
  }

  /** `sortfrom` orders by update time: oldest first for `oldest`,
      newest first for `newest`, and the order is a rearrangement of the
      matches. */
  lemma SortedByUpdate(q: Query, s: seq<Entry>)
    requires q.sortfrom.Some?
    ensures multiset(Ordered(q, s)) == multiset(s)
    ensures var r := Ordered(q, s);
      forall i, j :: 0 <= i < j < |r| ==>
        if q.sortfrom.value == Oldest then Stamp(r[i].record.updated) <= Stamp(r[j].record.updated)
        else Stamp(r[i].record.updated) >= Stamp(r[j].record.updated)
  {
    SortByPermutes(q.sortfrom.value, s);
    SortByInOrder(q.sortfrom.value, s);
  }

  /** Every result is a match: the limit only drops entries from the end
      of the ordered matches. */
  lemma ResultsAreMatches(c: Collection, q: Query, e: Entry)
    requires e in Results(c, q)
    ensures e in Matches(c, q)
  {
    var m := Matches(c, q);
    var r := Ordered(q, m);
    if q.sortfrom.Some? {
      SortByPermutes(q.sortfrom.value, m);
      assert e in multiset(r);
    }
  }

  /** A result is a post the parser loaded from the file of its slug and
      that passes every filter of the query. */
  lemma ResultShape(c: Collection, q: Query, e: Entry)
    requires e in Results(c, q)
    ensures c.load(FileName(e.slug), q.metaOnly) == Some(e.record)
    ensures Keep(q, e)
    ensures q.slug.Some? ==> e.slug == q.slug.value
  {
    ResultsAreMatches(c, q, e);
    FilterMembers(q, Loaded(c, Candidates(c, q), q.metaOnly), e);
  }

  /** Hidden posts are left out unless the query asks for them. */
  lemma HiddenExcluded(c: Collection, q: Query, e: Entry)
    requires !q.hidden && e in Results(c, q)
    ensures !e.record.hidden
  {
    ResultShape(c, q, e);
  }

  /** `tag` keeps exactly the matches whose tags have that slug as a key. */
  lemma TagFilter(c: Collection, q: Query, e: Entry)
    requires q.tag.Some?
    ensures e in Matches(c, q) <==>
      (e in Loaded(c, Candidates(c, q), q.metaOnly) &&
       e.record.tags.Some? && q.tag.value in Keys(e.record.tags.value) &&
       Keep(q.(tag := None), e))
  {
    FilterMembers(q, Loaded(c, Candidates(c, q), q.metaOnly), e);
  }

  /** `publishedbefore` keeps exactly the matches published before the
      cutoff; a post published at the cutoff itself is dropped. */
  lemma PublishedBeforeFilter(c: Collection, q: Query, e: Entry)
    requires q.publishedBefore.Some?
    ensures e in Matches(c, q) <==>
      (e in Loaded(c, Candidates(c, q), q.metaOnly) &&
       Stamp(e.record.published) < q.publishedBefore.value &&
       Keep(q.(publishedBefore := None), e))
  {
    FilterMembers(q, Loaded(c, Candidates(c, q), q.metaOnly), e);
  }

  /** A positive limit caps the results at that many of the ordered
      matches, taken from the front; `countResults` still counts them
      all. */
  lemma LimitTakesFront(c: Collection, q: Query)
    requires q.limit > 0
    ensures var m := Ordered(q, Matches(c, q));
      |m| == |Matches(c, q)| &&
      Results(c, q) == if |m| <= q.limit then m else m[..q.limit]
  {
    OrderedLength(q, Matches(c, q));
  }

  /** A query for a slug whose file the parser cannot load matches
      nothing, so the cursor is empty from the start. */
  lemma MissingSlug(c: Collection, q: Query)
    requires q.slug.Some? && c.load(FileName(q.slug.value), q.metaOnly).None?
    ensures Matches(c, q) == [] && Results(c, q) == []
  {
  }

  /** A query for one slug with hidden posts allowed gives that post,
      hidden or not, when no tag or time filter is set. */
  lemma SlugFindsHidden(c: Collection, q: Query, rec: Record)
    requires q.slug.Some? && q.hidden && q.tag.None? && q.publishedBefore.None?
    requires c.load(FileName(q.slug.value), q.metaOnly) == Some(rec)
    ensures Results(c, q) == [Entry(q.slug.value, rec)]
  {
  }

  // -----------------------------------------------------------------------
  // The orders of the three listed posts

  /** Three posts whose update times rank the second before the first
      before the third come out in that order from oldest, and reversed
      from newest. */
  lemma ThreePosts(a: Entry, b: Entry, c: Entry)
    requires Stamp(b.record.updated) < Stamp(a.record.updated) < Stamp(c.record.updated)
    ensures SortBy(Oldest, [a, b, c]) == [b, a, c]
    ensures SortBy(Newest, [a, b, c]) == [c, a, b]
  {
    assert [a, b, c][1..] == [b, c] && [b, c][1..] == [c] && [c][1..] == [];
    assert SortBy(Oldest, [c]) == [c] && SortBy(Newest, [c]) == [c];
    assert Insert(Oldest, b, [c]) == [b, c];
    assert Insert(Oldest, a, [c]) == [a, c];
    assert Insert(Oldest, a, [b, c]) == [b] + Insert(Oldest, a, [c]);
    assert Insert(Newest, b, [c]) == [c] + Insert(Newest, b, []);
    assert Insert(Newest, a, [b]) == [a, b];
    assert SortBy(Newest, [b, c]) == [c, b] && [c, b][1..] == [b];
    assert Insert(Newest, a, [c, b]) == [c] + Insert(Newest, a, [b]);
  }

  // -----------------------------------------------------------------------
  // Posts read from a store of post files

  /** The post files of a `postfs://` store, read by the post parser. */
  function StoreCollection(host: FileFormat.Host, posts: Assoc<string>): Collection {
    Collection(Keys(posts), (name: string, metaOnly: bool) =>
      FileFormat.LoadPost(host, posts, PostFs.PROTOCOL + "://" + name, metaOnly))
  }

  /** A result of a query over a store is the record the parser builds
      from the file of its slug: a valid record with a title, both times
      and tags, none of them "n-a". */
  lemma StoreResult(host: FileFormat.Host, posts: Assoc<string>, q: Query, e: Entry)
    requires e in Results(StoreCollection(host, posts), q)
    ensures Lookup(posts, FileName(e.slug)).Some?
    ensures e.record == FileFormat.Parse(host, Lookup(posts, FileName(e.slug)).value, q.metaOnly)
    ensures !FileFormat.IsInvalid(e.record) && e.record.updated.Some?
    ensures Slug.NotApplicable !in Keys(e.record.tags.value)
  {
    var c := StoreCollection(host, posts);
    var path := PostFs.PROTOCOL + "://" + FileName(e.slug);
    ResultShape(c, q, e);
    PostFs.PathOfFile(FileName(e.slug));
    FileFormatFacts.LoadPostRecord(host, posts, path, q.metaOnly);
    FileFormatFacts.AcceptedRecordShape(host, posts, path, q.metaOnly);
  }
}
