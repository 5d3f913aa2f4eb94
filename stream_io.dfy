/** PHP's own file functions (`fopen`, `fgets`, `fread`, `ftell`, `fseek`)
    as the post parser uses them on a `postfs://` stream. PHP reads a user
    stream through a buffer of its own. `fgets` sees the file line by line
    from the position PHP reports. `fread` on a stream that is not a plain
    file stops after one fill of that buffer (8192 characters by default),
    on top of what earlier reads left in it, so it can return fewer
    characters than asked for; how many is a parameter, `Chunk`. */
module StreamIo {
  import opened Wrappers
  import opened PhpString
  import opened PostFs

  /** A line as `fgets` returns it: no line feed except, possibly, the
      last character. */
  predicate IsLine(s: string) {
    forall i :: 0 <= i < |s| - 1 ==> s[i] != '\n'
  }

  /** How many characters `fgets` takes from position `p` of `d`: up to
      and including the first line feed, at most `max`, and no further than
      the end. */
  function LineLength(d: string, p: nat, max: nat): (n: nat)
    requires p <= |d|
    ensures n <= max && p + n <= |d|
    ensures p < |d| && max > 0 ==> n > 0
    ensures n < max && p + n < |d| ==> n > 0 && d[p + n - 1] == '\n'
    decreases |d| - p
  {
    if p == |d| || max == 0 then 0
    else if d[p] == '\n' then 1
    else 1 + LineLength(d, p + 1, max - 1)
  }

  /** What `fgets($fd, $length)` gives at position `p` of the contents
      `d`: the rest of the line, line feed included, but at most
      `length - 1` characters; the empty string stands for FALSE at the
      end of the file. */
  function LineAt(d: string, p: nat, length: nat): (line: string)
    requires length >= 2
    ensures p >= |d| ==> line == ""
    ensures p < |d| ==> line != [] && p + |line| <= |d| && line == d[p..p + |line|]
    ensures |line| <= length - 1
    ensures p < |d| && |line| < length - 1 && p + |line| < |d| ==> line[|line| - 1] == '\n'
  {
    if p >= |d| then "" else d[p..p + LineLength(d, p, length - 1)]
  }

  /** Only the last character of a line can be a line feed. */
  lemma {:induction false} LineLengthStopsAtNewline(d: string, p: nat, max: nat)
    requires p <= |d|
    ensures forall i :: p <= i < p + LineLength(d, p, max) - 1 ==> d[i] != '\n'
    decreases |d| - p
  {
    if p < |d| && max > 0 && d[p] != '\n' {
      LineLengthStopsAtNewline(d, p + 1, max - 1);
    }
  }

  /** A line from `fgets` holds no line feed except, possibly, at its end. */
  lemma LineAtIsLine(d: string, p: nat, length: nat)
    requires length >= 2
    ensures IsLine(LineAt(d, p, length))
  {
    if p < |d| {
      LineLengthStopsAtNewline(d, p, length - 1);
    }
  }

  /** `@fopen($path, "r")` on a `postfs://` path: a fresh wrapper instance
      that has opened the file, or nothing. While the protocol is not
      registered PHP knows no wrapper for the path and the call fails. */
  method Fopen(store: Store, path: string) returns (fd: Stream?)
    ensures fd == null <==> !store.registered || GetFilename(path) !in PhpArray.Keys(store.posts)
    ensures fd != null ==> fresh(fd) && fd.store == store && fd.position == 0 &&
                           fd.Content() == PhpArray.Lookup(store.posts, GetFilename(path)).value
  {
    if !store.registered {
      return null;
    }
    var s := new Stream(store);
    var ok := s.StreamOpen(path, "r");
    if ok {
      fd := s;
    } else {
      fd := null;
    }
  }

  /** `fgets($fd, $length)`. */
  method Fgets(fd: Stream, length: nat) returns (line: string)
    requires length >= 2
    modifies fd
    ensures line == LineAt(old(fd.Content()), old(fd.position), length)
    ensures fd.position == old(fd.position) + |line| && fd.filename == old(fd.filename)
  {
    line := LineAt(fd.Content(), fd.position, length);
    var got := fd.StreamRead(|line|);
    assert got == line;
  }

  /** How many characters one `fread` delivers from PHP's buffer: what is
      already buffered plus one fill. PHP's buffering decides it, so it is a
      parameter of the model; it is never 0, since PHP fills the buffer at
      least once before it gives up. */
  type Chunk = n: nat | n > 0 witness 1

  /** How many characters `fread($fd, $length)` asks the stream for. */
  function ReadSize(length: nat, chunk: Chunk): (n: nat)
    ensures n <= length && n <= chunk
    ensures length > 0 ==> n > 0
    ensures n == length || n == chunk
  {
    if length < chunk then length else chunk
  }

  /** `fread($fd, $length)` on a user stream: at most `length`
      characters, and at most the `chunk` PHP's buffer delivers. */
  method Fread(fd: Stream, length: nat, chunk: Chunk) returns (data: string)
    requires length > 0
    modifies fd
    ensures data == Substr(old(fd.Content()), old(fd.position), ReadSize(length, chunk))
    ensures fd.position == old(fd.position) + |data| && fd.filename == old(fd.filename)
  {
    data := fd.StreamRead(ReadSize(length, chunk));
  }

  /** What one `fread` returns is the start of what a greedy read of the
      same length would return, and it is empty only at the end of the
      file. */
  lemma FreadIsPrefix(d: string, p: nat, length: nat, chunk: Chunk)
    requires length > 0
    ensures var data := Substr(d, p, ReadSize(length, chunk));
      var greedy := Substr(d, p, length);
      data <= greedy && (data == [] <==> p >= |d|)
  {
  }

  /** `ftell($fd)`. */
  function Ftell(fd: Stream): (p: nat)
    reads fd
    ensures p == fd.StreamTell()
  {
    fd.position
  }

  /** `fseek($fd, $offset, SEEK_SET)`, whose result the parser ignores. */
  method Fseek(fd: Stream, offset: nat)
    modifies fd
    ensures fd.position == offset && fd.filename == old(fd.filename)
  {
    var ok := fd.StreamSeek(offset, SEEK_SET);
  }
}
