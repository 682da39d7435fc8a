/** What the `search`, `info`, `tarball` and `pkgbuild` commands produce,
    as values: the terminal colours become a style tag, `time.Time.Format`
    is left out (the times stay Unix seconds), and every command reports
    the status the process exits with (0; 1 for `os.Exit(1)`; 2 for a Go
    panic). */
module Commands {
  import opened Wrappers
  import opened Packages
  import Ordering
  import PackageList
  import MultiInfo

  const AURBase: string := "https://aur.archlinux.org"
  const PackagesDir: string := AURBase + "/packages/"
  const SearchPathPrefix: string := "/rpc.php?type=search&arg="
  const OutOfDateSuffix: string := " [out of date]"

  /* ---------------- staleness ---------------- */

  /** The two colours of the version in the search listing. */
  datatype VersionStyle = Current | Stale

  function StyleOf(p: Package): (style: VersionStyle)
    ensures style == Stale <==> p.OutOfDate != 0
  {
    if p.OutOfDate == 0 then Current else Stale
  }

  /** The version line of the info view: the version, followed by
      ` [out of date]` when the package is flagged. */
  function InfoVersion(p: Package): (v: string)
    ensures |v| >= |p.Version| && v[..|p.Version|] == p.Version
    ensures p.OutOfDate == 0 ==> v == p.Version
    ensures p.OutOfDate != 0 ==> v[|p.Version|..] == OutOfDateSuffix
  {
    if p.OutOfDate != 0 then p.Version + OutOfDateSuffix else p.Version
  }

  /** For a given version string the info line tells the flag apart: two
      records with the same version show the same line exactly when both
      or neither are flagged. */
  lemma InfoVersionShowsFlag(p: Package, q: Package)
    requires p.Version == q.Version
    ensures InfoVersion(p) == InfoVersion(q) <==> (p.OutOfDate == 0 <==> q.OutOfDate == 0)
  {
  }

  /* ---------------- the two views of a record ---------------- */

  /** One entry of the search listing: `aur/<category>/<name> <version>`
      and the indented description. */
  datatype SearchLine = SearchLine(category: string, name: string, version: string,
                                   style: VersionStyle, description: string)

  function SearchEntry(p: Package): SearchLine
    requires ValidCategory(p.CategoryID)
  {
    SearchLine(CategoryName(p.CategoryID), p.Name, p.Version, StyleOf(p), p.Description)
  }

  /** The labelled fields of one info block, in the order they are printed. */
  datatype InfoBlock = InfoBlock(category: string, name: string, version: string,
                                 description: string, url: string, licenses: string,
                                 maintainer: string, firstSubmitted: int,
                                 lastModified: int, votes: int)

  function InfoEntry(p: Package): InfoBlock
    requires ValidCategory(p.CategoryID)
  {
    InfoBlock(CategoryName(p.CategoryID), p.Name, InfoVersion(p), p.Description,
              p.URL, p.License, p.Maintainer, p.FirstSubmitted, p.LastModified, p.NumVotes)
  }

  /** Staleness shows differently in the two views: in the listing only as
      the colour, in the info block only as the textual suffix. */
  lemma StalenessPerView(p: Package)
    requires ValidCategory(p.CategoryID)
    ensures SearchEntry(p).version == p.Version
    ensures SearchEntry(p).style == Stale <==> p.OutOfDate != 0
    ensures InfoEntry(p).version == if p.OutOfDate != 0 then p.Version + OutOfDateSuffix else p.Version
  {
  }

  /* ---------------- search ---------------- */

  function SearchPath(term: string, escape: string -> string): string {
    SearchPathPrefix + escape(term)
  }

  ghost predicate ValidCategories(s: seq<Package>) {
    forall i :: 0 <= i < |s| ==> ValidCategory(s[i].CategoryID)
  }

  function SearchEntries(s: seq<Package>): (lines: seq<SearchLine>)
    requires ValidCategories(s)
    ensures |lines| == |s| && forall i :: 0 <= i < |s| ==> lines[i] == SearchEntry(s[i])
  {
    seq(|s|, i requires 0 <= i < |s| => SearchEntry(s[i]))
  }

  /** Sorts the results in place, then renders one entry per record. */
  method Search(results: array<Package>) returns (lines: seq<SearchLine>)
    requires ValidCategories(results[..])
    modifies results
    ensures Ordering.Sorted(results[..])
    ensures multiset(results[..]) == old(multiset(results[..]))
    ensures ValidCategories(results[..]) && lines == SearchEntries(results[..])
  {
    PackageList.Sort(results);
    forall i | 0 <= i < results.Length
      ensures ValidCategory(results[i].CategoryID)
    {
      assert results[i] in multiset(old(results[..]));
      var j :| 0 <= j < results.Length && old(results[j]) == results[i];
    }
    lines := [];
    for i := 0 to results.Length
      invariant lines == SearchEntries(results[..i])
    {
      lines := lines + [SearchEntry(results[i])];
    }
    assert results[..results.Length] == results[..];
  }

  /** The `search` command: exactly one term, one request, the reply sorted
      and listed; a failed request panics. `listed` is the reply in the
      order printed. */
  method SearchCommand(args: seq<string>, escape: string -> string, aur: string -> Result<Response, Error>)
    returns (listed: seq<Package>, lines: seq<SearchLine>, status: int)
    requires |args| == 1 && aur(SearchPath(args[0], escape)).Success? ==>
      ValidCategories(aur(SearchPath(args[0], escape)).value.Results)
    ensures |args| != 1 ==> listed == [] && lines == [] && status == 1
    ensures |args| == 1 && aur(SearchPath(args[0], escape)).Failure? ==>
      listed == [] && lines == [] && status == 2
    ensures |args| == 1 && aur(SearchPath(args[0], escape)).Success? ==>
      var results := aur(SearchPath(args[0], escape)).value.Results;
      && Ordering.Sorted(listed) && multiset(listed) == multiset(results)
      && ValidCategories(listed) && lines == SearchEntries(listed) && status == 0
  {
    if |args| != 1 {
      return [], [], 1;
    }
    var response := aur(SearchPath(args[0], escape));
    if response.Failure? {
      return [], [], 2;
    }
    var results := response.value.Results;
    var a := new Package[|results|](i requires 0 <= i < |results| => results[i]);
    assert a[..] == results;
    lines := Search(a);
    listed := a[..];
    status := 0;
  }

  /* ---------------- info ---------------- */

  function InfoEntries(s: seq<Package>): (blocks: seq<InfoBlock>)
    requires ValidCategories(s)
    ensures |blocks| == |s| && forall i :: 0 <= i < |s| ==> blocks[i] == InfoEntry(s[i])
  {
    seq(|s|, i requires 0 <= i < |s| => InfoEntry(s[i]))
  }

  /** The `info` command: `multiInfo` with a callback that renders a block
      and never fails. So every argument with a record gets its block, in
      argument order, the rest are reported not found, and the command
      exits 1 when the request fails or the reply is shorter than the
      argument list. */
  method InfoCommand(args: seq<string>, escape: string -> string, aur: string -> Result<Response, Error>)
    returns (blocks: seq<InfoBlock>, notFound: seq<string>, status: int)
    requires aur(MultiInfo.RequestPath(args, escape)).Success? ==>
      ValidCategories(aur(MultiInfo.RequestPath(args, escape)).value.Results)
    ensures |args| == 0 ==> blocks == [] && notFound == [] && status == 1
    ensures |args| > 0 && aur(MultiInfo.RequestPath(args, escape)).Failure? ==>
      blocks == [] && notFound == [] && status == 1
    ensures |args| > 0 && aur(MultiInfo.RequestPath(args, escape)).Success? ==>
      var results := aur(MultiInfo.RequestPath(args, escape)).value.Results;
      && ValidCategories(MultiInfo.Matched(args, results))
      && blocks == InfoEntries(MultiInfo.Matched(args, results))
      && notFound == MultiInfo.Unmatched(args, results)
      && status == (if |results| < |args| then 1 else 0)
  {
    if |args| == 0 {
      return [], [], 1;
    }
    var render := (p: Package) => None;
    var calls, err;
    calls, notFound, err := MultiInfo.MultiInfo(args, escape, aur, render);
    ghost var response := aur(MultiInfo.RequestPath(args, escape));
    if response.Success? {
      var results := response.value.Results;
      MultiInfo.ReconcilePasses(args, results, render);
      assert calls == MultiInfo.Matched(args, results);
      assert ValidCategories(calls) by {
        forall i | 0 <= i < |calls|
          ensures ValidCategory(calls[i].CategoryID)
        {
          var j :| 0 <= j < |results| && results[j] == calls[i];
        }
      }
    }
    blocks := InfoEntries(calls);
    status := if err.Some? then 1 else 0;
  }

  /* ---------------- tarball and PKGBUILD links ---------------- */

  /** The tarball link: the first two characters of the name pick the
      directory. Go's `s[0:2]` needs at least two bytes. */
  function TarballURL(s: string): string
    requires |s| >= 2
  {
    PackagesDir + s[..2] + "/" + s + "/" + s + ".tar.gz"
  }

  function PkgbuildURL(s: string): string
    requires |s| >= 2
  {
    PackagesDir + s[..2] + "/" + s + "/PKGBUILD"
  }

  /** The name sits right after the directory in both links. */
  lemma LinkLayout(s: string)
    requires |s| >= 2
    ensures var u := TarballURL(s);
      |u| == |PackagesDir| + 2 * |s| + 11 && u[..|PackagesDir|] == PackagesDir
      && u[|PackagesDir|..|PackagesDir| + 2] == s[..2]
      && u[|PackagesDir| + 3..|PackagesDir| + 3 + |s|] == s
    ensures var u := PkgbuildURL(s);
      |u| == |PackagesDir| + |s| + 12 && u[..|PackagesDir|] == PackagesDir
      && u[|PackagesDir|..|PackagesDir| + 2] == s[..2]
      && u[|PackagesDir| + 3..|PackagesDir| + 3 + |s|] == s
  {
  }

  /** Different names never share a tarball link, nor a PKGBUILD link. */
  lemma LinksInjective(s: string, t: string)
    requires |s| >= 2 && |t| >= 2
    ensures TarballURL(s) == TarballURL(t) ==> s == t
    ensures PkgbuildURL(s) == PkgbuildURL(t) ==> s == t
  {
    LinkLayout(s);
    LinkLayout(t);
  }

  /** The `tarball` command prints one link per name and makes no request.
      A name shorter than two characters makes `s[0:2]` panic, after the
      links of the names before it were printed. */
  method TarballCommand(args: seq<string>) returns (links: seq<string>, status: int)
    ensures |args| == 0 ==> links == [] && status == 1
    ensures |args| > 0 ==>
      var k := FirstShort(args);
      && |links| == k && (forall i :: 0 <= i < k ==> links[i] == TarballURL(args[i]))
      && status == (if k < |args| then 2 else 0)
  {
    if |args| == 0 {
      return [], 1;
    }
    links := [];
    for i := 0 to |args|
      invariant forall m :: 0 <= m < i ==> |args[m]| >= 2
      invariant |links| == i && forall m :: 0 <= m < i ==> links[m] == TarballURL(args[m])
    {
      if |args[i]| < 2 {
        FirstShortIs(args, i);
        return links, 2;
      }
      links := links + [TarballURL(args[i])];
    }
    FirstShortIs(args, |args|);
    status := 0;
  }

  /** Index of the first name shorter than two characters, or `|args|`. */
  function FirstShort(args: seq<string>): (k: nat)
    ensures k <= |args|
    ensures forall i :: 0 <= i < k ==> |args[i]| >= 2
    ensures k < |args| ==> |args[k]| < 2
  {
    if args == [] then 0
    else if |args[0]| < 2 then 0
    else 1 + FirstShort(args[1..])
  }

  lemma FirstShortIs(args: seq<string>, k: nat)
    requires k <= |args|
    requires forall i :: 0 <= i < k ==> |args[i]| >= 2
    requires k < |args| ==> |args[k]| < 2
    ensures FirstShort(args) == k
  {
  }

  /** Index of the first name whose PKGBUILD cannot be fetched or whose
      link panics, or `|args|`; `get` stands for `http.Get` followed by
      `ioutil.ReadAll`, and succeeds with the body whatever the HTTP status. */
  function FirstPkgbuildStop(args: seq<string>, get: string -> Result<string, Error>): (k: nat)
    ensures k <= |args|
    ensures forall i :: 0 <= i < k ==> |args[i]| >= 2 && get(PkgbuildURL(args[i])).Success?
    ensures k < |args| ==> |args[k]| < 2 || get(PkgbuildURL(args[k])).Failure?
  {
    if args == [] then 0
    else if |args[0]| < 2 || get(PkgbuildURL(args[0])).Failure? then 0
    else 1 + FirstPkgbuildStop(args[1..], get)
  }

  /** The `pkgbuild` command fetches and prints each PKGBUILD in turn; the
      first failed fetch exits 1 and a too-short name panics. */
  method PkgbuildCommand(args: seq<string>, get: string -> Result<string, Error>)
    returns (printed: seq<string>, status: int)
    ensures |args| == 0 ==> printed == [] && status == 1
    ensures |args| > 0 ==>
      var k := FirstPkgbuildStop(args, get);
      && |printed| == k
      && (forall i :: 0 <= i < k ==> printed[i] == get(PkgbuildURL(args[i])).value)
      && status == (if k == |args| then 0 else if |args[k]| < 2 then 2 else 1)
  {
    if |args| == 0 {
      return [], 1;
    }
    printed := [];
    for i := 0 to |args|
      invariant forall m :: 0 <= m < i ==> |args[m]| >= 2 && get(PkgbuildURL(args[m])).Success?
      invariant |printed| == i && forall m :: 0 <= m < i ==> printed[m] == get(PkgbuildURL(args[m])).value
    {
      if |args[i]| < 2 {
        FirstPkgbuildStopIs(args, get, i);
        return printed, 2;
      }
      var body := get(PkgbuildURL(args[i]));
      if body.Failure? {
        FirstPkgbuildStopIs(args, get, i);
        return printed, 1;
      }
      printed := printed + [body.value];
    }
    FirstPkgbuildStopIs(args, get, |args|);
    status := 0;
  }

  lemma FirstPkgbuildStopIs(args: seq<string>, get: string -> Result<string, Error>, k: nat)
    requires k <= |args|
    requires forall i :: 0 <= i < k ==> |args[i]| >= 2 && get(PkgbuildURL(args[i])).Success?
    requires k < |args| ==> |args[k]| < 2 || get(PkgbuildURL(args[k])).Failure?
    ensures FirstPkgbuildStop(args, get) == k
  {
  }
}
