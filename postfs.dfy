/** The in-memory post file system of private/_tests_/fake/postfs.php: a
    stream wrapper for `postfs://` paths over an ordered map from file
    names to contents. `Store` is the wrapper's static state, `Stream` one
    wrapper instance, i.e. one open file or directory handle. */
module PostFs {
  import opened Wrappers
  import opened PhpString
  import opened PhpArray

  const PROTOCOL: string := "postfs"

  /** `SEEK_SET`, `SEEK_CUR` and `SEEK_END` as PHP numbers them. */
  const SEEK_SET: int := 0
  const SEEK_CUR: int := 1
  const SEEK_END: int := 2

  /** Number of entries in the array `url_stat` returns. */
  const STAT_FIELDS: nat := 13
  /** Index of the size entry in that array. */
  const STAT_SIZE: nat := 7
  /** Index of the inode entry in that array. */
  const STAT_INODE: nat := 1

  /** `getFilename($path)`: the path with the length of "postfs://" cut off
      its front, whatever those characters are. */
  function GetFilename(path: string): (name: string)
    ensures |path| >= |PROTOCOL| + 3 ==> name == path[|PROTOCOL| + 3..]
    ensures |path| <= |PROTOCOL| + 3 ==> name == ""
  {
    SubstrFrom(path, |PROTOCOL| + 3)
  }

  /** The path under which a file of the store is opened. */
  lemma PathOfFile(name: string)
    ensures GetFilename(PROTOCOL + "://" + name) == name
  {
    assert |PROTOCOL + "://"| == |PROTOCOL| + 3;
    assert (PROTOCOL + "://" + name)[|PROTOCOL| + 3..] == name;
  }

  /** The static part of the wrapper: the files and whether the protocol
      is registered with PHP. The unregistered wrapper's `NULL` array is the
      empty array here. */
  class Store {
    var posts: Assoc<string>
    var registered: bool

    /** Every file name occurs once, as in any PHP array. */
    predicate Valid()
      reads this
    {
      UniqueKeys(posts)
    }

    constructor ()
      ensures posts == [] && !registered && Valid()
    {
      posts := [];
      registered := false;
    }

    /** `register($posts)`: installs the files; registering the protocol
        fails when it is registered already, but the files are installed
        either way. */
    method Register(files: Assoc<string>) returns (ok: bool)
      requires UniqueKeys(files)
      modifies this
      ensures posts == files && registered && Valid()
      ensures ok == !old(registered)
    {
      posts := files;
      ok := !registered;
      registered := true;
    }

    /** `unregister()`: drops every file; unregistering fails when the
        protocol was not registered. */
    method Unregister() returns (ok: bool)
      modifies this
      ensures posts == [] && !registered && Valid()
      ensures ok == old(registered)
    {
      posts := [];
      ok := registered;
      registered := false;
    }

    /** `setPost($filename, $contents)`: adds the file or replaces its
        contents; every other file, and the order of the names, stays. */
    method SetPost(name: string, contents: string)
      requires Valid()
      modifies this
      ensures Valid() && registered == old(registered)
      ensures Lookup(posts, name) == Some(contents)
      ensures forall other :: other != name ==> Lookup(posts, other) == Lookup(old(posts), other)
      ensures Keys(posts) == if name in Keys(old(posts)) then Keys(old(posts)) else Keys(old(posts)) + [name]
    {
      posts := Set(posts, name, contents);
    }

    /** `url_stat($path, $flags)`: nothing for an unknown file; otherwise
        thirteen numbers whose inode is the file's place in the store and
        whose size is the length of its contents. */
    function UrlStat(path: string): (r: Option<seq<int>>)
      reads this
      ensures r.Some? <==> GetFilename(path) in Keys(posts)
      ensures r.Some? ==>
                |r.value| == STAT_FIELDS &&
                r.value[STAT_SIZE] == |Lookup(posts, GetFilename(path)).value| &&
                0 <= r.value[STAT_INODE] < |posts| &&
                Keys(posts)[r.value[STAT_INODE]] == GetFilename(path)
    {
      var name := GetFilename(path);
      match KeyIndex(posts, name)
      case None => None
      case Some(inode) => Some(StatFields(inode, |Lookup(posts, name).value|))
    }
  }

  /** The stat array of a file: every field 0 except the inode, the size
      and the two block fields, which are -1. */
  function StatFields(inode: nat, size: nat): (r: seq<int>)
    ensures |r| == STAT_FIELDS && r[STAT_INODE] == inode && r[STAT_SIZE] == size
  {
    var none: int := -1;
    [0, inode as int, 0, 0, 0, 0, 0, size as int, 0, 0, 0, none, none]
  }

  /** Where `stream_seek` moves to; an unknown `whence` moves to 0. */
  function SeekTarget(position: int, size: int, offset: int, whence: int): int {
    if whence == SEEK_SET then offset
    else if whence == SEEK_CUR then position + offset
    else if whence == SEEK_END then size + offset
    else 0
  }

  /** One instance of the wrapper: an open file or directory handle. */
  class Stream {
    const store: Store
    var position: nat
    var filename: string

    constructor (store: Store)
      ensures this.store == store && position == 0 && filename == ""
    {
      this.store := store;
      position := 0;
      filename := "";
    }

    /** The contents of the open file; reading a name the store does not
        hold gives the empty string in PHP. */
    function Content(): string
      reads this, store
    {
      Lookup(store.posts, filename).GetOr("")
    }

    /** `stream_open($path, $mode, ...)`: only existing files, and only
        for mode "r". The name is remembered even when opening fails. */
    method StreamOpen(path: string, mode: string) returns (ok: bool)
      modifies this
      ensures filename == GetFilename(path)
      ensures ok <==> GetFilename(path) in Keys(store.posts) && mode == "r"
      ensures ok ==> position == 0
      ensures !ok ==> position == old(position)
    {
      filename := GetFilename(path);
      if Lookup(store.posts, filename).Some? && mode == "r" {
        position := 0;
        ok := true;
      } else {
        ok := false;
      }
    }

    /** `stream_read($count)`: what `substr` gives at the position, which
        advances by exactly its length. */
    method StreamRead(count: int) returns (data: string)
      modifies this
      ensures data == Substr(Content(), old(position), count)
      ensures position == old(position) + |data|
      ensures filename == old(filename)
    {
      data := Substr(Content(), position, count);
      position := position + |data|;
    }

    /** `stream_eof()`. */
    function StreamEof(): (eof: bool)
      reads this, store
      ensures eof <==> Substr(Content(), position, 1) == ""
    {
      |Content()| <= position
    }

    /** `stream_tell()`. */
    function StreamTell(): (r: int)
      reads this
      ensures r >= 0 && r == position
    {
      position
    }

    /** `stream_seek($offset, $whence)`: a negative target is refused and
        leaves the position; any other target becomes the position, also
        one past the end of the file. */
    method StreamSeek(offset: int, whence: int) returns (ok: bool)
      modifies this
      ensures var target := SeekTarget(old(position), |Content()|, offset, whence);
        (ok <==> target >= 0) && position == (if ok then target else old(position))
      ensures filename == old(filename)
    {
      var target := SeekTarget(position, |Content()|, offset, whence);
      if target < 0 {
        ok := false;
      } else {
        position := target;
        ok := true;
      }
    }

    /** `dir_opendir($path, $options)`: only the root of the file system
        can be listed. */
    method DirOpendir(path: string) returns (ok: bool)
      modifies this
      ensures ok <==> GetFilename(path) == ""
      ensures ok ==> position == 0
      ensures !ok ==> position == old(position)
      ensures filename == old(filename)
    {
      if GetFilename(path) == "" {
        position := 0;
        ok := true;
      } else {
        ok := false;
      }
    }

    /** `dir_readdir()`: the next file name in insertion order, nothing
        after the last. */
    method DirReaddir() returns (entry: Option<string>)
      modifies this
      ensures old(position) < |store.posts| ==>
        entry == Some(Keys(store.posts)[old(position)]) && position == old(position) + 1
      ensures old(position) >= |store.posts| ==> entry == None && position == old(position)
      ensures filename == old(filename)
    {
      var names := Keys(store.posts);
      if position < |names| {
        entry := Some(names[position]);
        position := position + 1;
      } else {
        entry := None;
      }
    }
  }

  /** Two reads in a row give what one read of both lengths gives. */
  lemma ReadsConcatenate(d: string, p: nat, a: nat, b: nat)
    ensures Substr(d, p, a) + Substr(d, p + |Substr(d, p, a)|, b) == Substr(d, p, a + b)
  {
  }

  /** A read of at least one character comes back empty exactly at the end
      of the file. */
  lemma ReadEmptyAtEnd(d: string, p: nat, count: int)
    requires count > 0
    ensures Substr(d, p, count) == "" <==> |d| <= p
  {
  }

  /** Listing the directory from the start gives every file name once:
      the name at each place differs from all names before it. */
  lemma {:induction false} ListingIsUnique(posts: Assoc<string>, k: nat)
    requires UniqueKeys(posts) && k < |posts|
    ensures Keys(posts)[k] !in Keys(posts)[..k]
  {
    if k > 0 {
      ListingIsUnique(posts[1..], k - 1);
      assert Keys(posts) == [posts[0].0] + Keys(posts[1..]);
      assert Keys(posts)[..k] == [posts[0].0] + Keys(posts[1..])[..k - 1];
      assert Keys(posts)[k] in Keys(posts[1..]);
    }
  }
}
