/** The helpers of private/common.php other than the slugifier: plural
    nouns, absolute addresses and the route dispatcher. */
module Common {
  import opened Wrappers

  /** The root address of the site, from private/config.php. */
  const PAGE_ADDR: string := "https://www.stefanmisik.com"

  /** `usePlural($cnt, $noun)`: the noun as it is for a count of one, with an
      `s` appended for any other count. The callers pass integer counts;
      PHP's loose `==` would also take "1" or 1.0 for one, which this
      integer parameter does not express. */
  function UsePlural(count: int, noun: string): (r: string)
    ensures |r| >= |noun| && r[..|noun|] == noun
    ensures r == noun <==> count == 1
    ensures r != noun ==> r == noun + "s"
  {
    if count == 1 then noun else noun + "s"
  }

  /** `getUrlAddress($file)`: the site root for the empty path, otherwise the
      path below the root. */
  function GetUrlAddress(file: string): (r: string)
    ensures |r| >= |PAGE_ADDR| && r[..|PAGE_ADDR|] == PAGE_ADDR
    ensures |r| == |PAGE_ADDR| <==> file == ""
    ensures file != "" ==> r[|PAGE_ADDR|] == '/' && r[|PAGE_ADDR| + 1..] == file
  {
    if |file| == 0 then PAGE_ADDR else PAGE_ADDR + "/" + file
  }

  /** The file path an absolute address was made from. */
  function PathOfUrl(url: string): string
    requires |url| >= |PAGE_ADDR|
  {
    if |url| == |PAGE_ADDR| then "" else url[|PAGE_ADDR| + 1..]
  }

  /** Every address names one file path: the path can be read back. */
  lemma UrlAddressRoundTrip(file: string)
    ensures PathOfUrl(GetUrlAddress(file)) == file
  {
  }

  /** Different paths give different addresses. */
  lemma UrlAddressInjective(a: string, b: string)
    requires GetUrlAddress(a) == GetUrlAddress(b)
    ensures a == b
  {
    UrlAddressRoundTrip(a);
    UrlAddressRoundTrip(b);
  }

  /** Whether the pattern of entry `i` of the page table matches the page. */
  predicate Matches<P, H>(pages: seq<(P, H)>, page: string,
                          matcher: (P, string) -> Option<seq<string>>, i: nat)
    requires i < |pages|
  {
    matcher(pages[i].0, page).Some?
  }

  /** Whether entry `i` matches and its handler, given the captured groups,
      reports the page as handled. */
  predicate Handles<P, H>(pages: seq<(P, H)>, page: string,
                          matcher: (P, string) -> Option<seq<string>>,
                          handler: (H, seq<string>) -> bool, i: nat)
    requires i < |pages|
  {
    Matches(pages, page, matcher, i) && handler(pages[i].1, matcher(pages[i].0, page).value)
  }

  /** `dispatchPage($pages)`: the entries are tried in order; the handler
      of every matching entry is called with the captured groups until one
      reports success. `called` lists the entries whose handlers ran. */
  method DispatchPage<P, H>(pages: seq<(P, H)>, page: string,
                            matcher: (P, string) -> Option<seq<string>>,
                            handler: (H, seq<string>) -> bool)
    returns (found: bool, called: seq<nat>)
    ensures found <==> exists i :: 0 <= i < |pages| && Handles(pages, page, matcher, handler, i)
    ensures forall k :: 0 <= k < |called| ==> called[k] < |pages| && Matches(pages, page, matcher, called[k])
    ensures forall k, l :: 0 <= k < l < |called| ==> called[k] < called[l]
    ensures forall k :: 0 <= k < |called| - 1 ==> !Handles(pages, page, matcher, handler, called[k])
    ensures found <==> called != [] && Handles(pages, page, matcher, handler, called[|called| - 1])
    ensures forall j :: 0 <= j < |pages| && Matches(pages, page, matcher, j) &&
                        (!found || j <= called[|called| - 1])
                        ==> j in called
  {
    found := false;
    called := [];
    var i := 0;
    while i < |pages| && !found
      invariant DispatchState(pages, page, matcher, handler, i, found, called)
    {
      DispatchStep(pages, page, matcher, handler, i, called);
      var groups := matcher(pages[i].0, page);
      if groups.Some? {
        called := called + [i];
        found := handler(pages[i].1, groups.value);
      }
      i := i + 1;
    }
    DispatchDone(pages, page, matcher, handler, i, found, called);
  }

  /** What the dispatcher knows after trying the first `i` entries. */
  ghost predicate DispatchState<P, H>(pages: seq<(P, H)>, page: string,
                                      matcher: (P, string) -> Option<seq<string>>,
                                      handler: (H, seq<string>) -> bool,
                                      i: nat, found: bool, called: seq<nat>)
  {
    i <= |pages| &&
    (forall k :: 0 <= k < |called| ==> called[k] < i && Matches(pages, page, matcher, called[k])) &&
    (forall k, l :: 0 <= k < l < |called| ==> called[k] < called[l]) &&
    (forall k :: 0 <= k < |called| - 1 ==> !Handles(pages, page, matcher, handler, called[k])) &&
    (found ==> called != [] && called[|called| - 1] == i - 1 &&
               Handles(pages, page, matcher, handler, called[|called| - 1])) &&
    (!found ==> forall j :: 0 <= j < i ==> !Handles(pages, page, matcher, handler, j)) &&
    (forall j :: 0 <= j < i && Matches(pages, page, matcher, j) ==> j in called)
  }

  /** Trying entry `i` keeps what the dispatcher knows. */
  lemma DispatchStep<P, H>(pages: seq<(P, H)>, page: string,
                           matcher: (P, string) -> Option<seq<string>>,
                           handler: (H, seq<string>) -> bool,
                           i: nat, called: seq<nat>)
    requires i < |pages| && DispatchState(pages, page, matcher, handler, i, false, called)
    ensures var groups := matcher(pages[i].0, page);
      (groups.None? ==> DispatchState(pages, page, matcher, handler, i + 1, false, called)) &&
      (groups.Some? ==> DispatchState(pages, page, matcher, handler, i + 1,
                                      handler(pages[i].1, groups.value), called + [i]))
  {
    var next := called + [i];
    assert forall k :: 0 <= k < |called| ==> next[k] == called[k];
  }

  /** When the dispatcher's loop ends, what it kept track of gives its
      result. */
  lemma DispatchDone<P, H>(pages: seq<(P, H)>, page: string,
                           matcher: (P, string) -> Option<seq<string>>,
                           handler: (H, seq<string>) -> bool,
                           i: nat, found: bool, called: seq<nat>)
    requires DispatchState(pages, page, matcher, handler, i, found, called)
    requires i == |pages| || found
    ensures found <==> exists j :: 0 <= j < |pages| && Handles(pages, page, matcher, handler, j)
    ensures forall k :: 0 <= k < |called| ==> called[k] < |pages| && Matches(pages, page, matcher, called[k])
    ensures forall k, l :: 0 <= k < l < |called| ==> called[k] < called[l]
    ensures forall k :: 0 <= k < |called| - 1 ==> !Handles(pages, page, matcher, handler, called[k])
    ensures found <==> called != [] && Handles(pages, page, matcher, handler, called[|called| - 1])
    ensures forall j :: 0 <= j < |pages| && Matches(pages, page, matcher, j) &&
                        (!found || j <= called[|called| - 1])
                        ==> j in called
  {
    if !found && called != [] {
      assert !Handles(pages, page, matcher, handler, called[|called| - 1]);
    }
  }
}
