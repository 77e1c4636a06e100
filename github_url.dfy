/**
 * `get_github_contents`, the part that turns a repository page address such
 * as `https://github.com/acme/widgets/tree/main/docs` into the address of the
 * contents listing, `https://api.github.com/repos/acme/widgets/contents/docs?ref=main`.
 * The three remote scripts carry identical copies of it; the listing request
 * itself is not modelled.
 */
module GithubUrl {
  import opened Wrappers
  import opened Strings

  /** `ValueError` for a malformed address, `IndexError` for a `tree` address
      too short to hold a branch. */
  datatype UrlError = InvalidUrl | IndexOutOfRange

  /** The branch and the path inside the repository named by a `tree` address. */
  datatype TreeRef = TreeRef(branch: string, subpath: string)

  /** What an address names: owner, repository and, for a `tree` address,
      the branch and subpath. */
  datatype RepoLocation = RepoLocation(user: string, repo: string, tree: Option<TreeRef>)

  const ApiPrefix: string := "https://api.github.com/repos/"

  /** The segments of an address, after trailing slashes are removed. */
  function Segments(repoUrl: string): seq<string>
  {
    Split(RStrip(repoUrl, '/'), '/')
  }

  /** The checks and lookups done on the segments, as written: a `tree` segment
      anywhere (even as the owner or repository name) makes `parts[6]` the branch. */
  function ParseParts(parts: seq<string>): (r: Result<RepoLocation, UrlError>)
    ensures r == Err(InvalidUrl) <==> |parts| < 5 || parts[2] != "github.com"
    ensures r == Err(IndexOutOfRange) <==> 5 <= |parts| < 7 && parts[2] == "github.com" && "tree" in parts
    ensures r.Ok? ==> r.value.user == parts[3] && r.value.repo == parts[4]
    ensures r.Ok? ==> (r.value.tree.Some? <==> "tree" in parts)
    ensures r.Ok? && r.value.tree.Some? ==>
              r.value.tree.value == TreeRef(parts[6], Join(parts[7..], '/'))
  {
    if |parts| < 5 || parts[2] != "github.com" then Err(InvalidUrl)
    else if "tree" in parts then
      if |parts| <= 6 then Err(IndexOutOfRange)
      else
        var subpath := if |parts| > 7 then Join(parts[7..], '/') else "";
        Ok(RepoLocation(parts[3], parts[4], Some(TreeRef(parts[6], subpath))))
    else Ok(RepoLocation(parts[3], parts[4], None))
  }

  /** The contents-listing address for a location: with a ref query for a
      `tree` address, the repository root without one otherwise. */
  function ApiUrl(loc: RepoLocation): (url: string)
  {
    match loc.tree
    case Some(t) => ApiPrefix + loc.user + "/" + loc.repo + "/contents/" + t.subpath + "?ref=" + t.branch
    case None => ApiPrefix + loc.user + "/" + loc.repo + "/contents/"
  }

  /** `get_github_contents` up to the request: the listing address, or the
      error raised before any request is made. */
  function GetContentsUrl(repoUrl: string): (r: Result<string, UrlError>)
  {
    match ParseParts(Segments(repoUrl))
    case Ok(loc) => Ok(ApiUrl(loc))
    case Err(e) => Err(e)
  }

  /** Trailing slashes on the address never change the outcome. */
  lemma TrailingSlashIgnored(repoUrl: string)
    ensures GetContentsUrl(repoUrl + "/") == GetContentsUrl(repoUrl)
  {
    RStripAppend(repoUrl, '/');
  }

  /** Every outcome of `get_github_contents` before the request, in terms of
      the segments: the two errors exactly when their conditions hold, and
      otherwise the listing address built from `parts[3]`, `parts[4]` and,
      when some segment is `tree`, `parts[6]` and the segments after it. */
  lemma ContentsUrlCases(repoUrl: string)
    ensures var parts := Segments(repoUrl);
            var r := GetContentsUrl(repoUrl);
            && (r == Err(InvalidUrl) <==> |parts| < 5 || parts[2] != "github.com")
            && (r == Err(IndexOutOfRange) <==> 5 <= |parts| < 7 && parts[2] == "github.com" && "tree" in parts)
            && (r.Ok? && "tree" in parts ==>
                  r.value == ApiPrefix + parts[3] + "/" + parts[4] + "/contents/" + Join(parts[7..], '/') + "?ref=" + parts[6])
            && (r.Ok? && "tree" !in parts ==>
                  r.value == ApiPrefix + parts[3] + "/" + parts[4] + "/contents/")
  {
  }

  // ---------------------------------------------------------------------
  // Rendering a location as a repository page address, and parsing it back.

  /** The segments of the page address a user would paste for a location,
      up to the subpath: `https:`, ``, `github.com`, owner, repository and,
      for a `tree` address, `tree` and the branch. */
  function WebPrefix(loc: RepoLocation): seq<string>
  {
    var base := ["https:", "", "github.com", loc.user, loc.repo];
    if loc.tree.Some? then base + ["tree", loc.tree.value.branch] else base
  }

  /** The page address for a location, as in
      `https://github.com/{user}/{repo}/tree/{branch}/{subpath}`. */
  function WebUrl(loc: RepoLocation): string
  {
    var prefix := Join(WebPrefix(loc), '/');
    if loc.tree.Some? && loc.tree.value.subpath != "" then prefix + ['/'] + loc.tree.value.subpath
    else prefix
  }

  /** Names are single segments, and the address does not end with a slash
      (which `rstrip` would remove). */
  predicate WellFormed(loc: RepoLocation)
  {
    && '/' !in loc.user && '/' !in loc.repo
    && match loc.tree
       case None => loc.repo != ""
       case Some(t) =>
         && '/' !in t.branch
         && (t.subpath == "" ==> t.branch != "")
         && (t.subpath != "" ==> t.subpath[|t.subpath| - 1] != '/')
  }

  /** The segments `WebUrl` writes. */
  function WebSegments(loc: RepoLocation): seq<string>
  {
    if loc.tree.Some? && loc.tree.value.subpath != "" then WebPrefix(loc) + Split(loc.tree.value.subpath, '/')
    else WebPrefix(loc)
  }

  /** The address of a well-formed location has no trailing slash, so
      `rstrip` leaves it alone. */
  lemma WebUrlUnstripped(loc: RepoLocation)
    requires WellFormed(loc)
    ensures RStrip(WebUrl(loc), '/') == WebUrl(loc)
  {
    var prefix := WebPrefix(loc);
    var url := WebUrl(loc);
    if loc.tree.Some? && loc.tree.value.subpath != "" {
      var sp := loc.tree.value.subpath;
      assert url[|url| - 1] == sp[|sp| - 1];
    } else {
      JoinLast(prefix, '/');
    }
  }

  /** The address of a well-formed location splits into `WebSegments`. */
  lemma WebUrlSegments(loc: RepoLocation)
    requires WellFormed(loc)
    ensures Segments(WebUrl(loc)) == WebSegments(loc)
  {
    WebUrlUnstripped(loc);
    var prefix := WebPrefix(loc);
    assert forall k :: 0 <= k < |prefix| ==> '/' !in prefix[k];
    SplitJoin(prefix, '/');
    if loc.tree.Some? && loc.tree.value.subpath != "" {
      SplitAround(Join(prefix, '/'), loc.tree.value.subpath, '/');
    }
  }

  /** Round trip: parsing the page address of a well-formed location yields
      that location's listing address, provided neither the owner nor the
      repository of a plain (non-`tree`) address is itself named `tree`. */
  lemma RoundTrip(loc: RepoLocation)
    requires WellFormed(loc)
    requires loc.tree.None? ==> loc.user != "tree" && loc.repo != "tree"
    ensures GetContentsUrl(WebUrl(loc)) == Ok(ApiUrl(loc))
  {
    WebUrlSegments(loc);
    SegmentsParse(loc);
  }

  /** The parse of `WebSegments` recovers the location. */
  lemma SegmentsParse(loc: RepoLocation)
    requires WellFormed(loc)
    requires loc.tree.None? ==> loc.user != "tree" && loc.repo != "tree"
    ensures ParseParts(WebSegments(loc)) == Ok(loc)
  {
    var parts := WebSegments(loc);
    var prefix := WebPrefix(loc);
    assert parts[..|prefix|] == prefix;
    match loc.tree {
      case None =>
        assert parts == prefix;
        assert forall k :: 0 <= k < |parts| ==> parts[k] != "tree";
      case Some(t) =>
        assert parts[5] == "tree";
        if t.subpath != "" {
          DropPrefix(prefix, Split(t.subpath, '/'));
          JoinSplit(t.subpath, '/');
        }
    }
  }

  // ---------------------------------------------------------------------
  // Finding: the `tree` test looks at every segment, not at the one after
  // the repository name.

  /** A plain address whose owner or repository is itself named `tree` is
      refused with an index error, although it names a valid repository
      (e.g. `https://github.com/acme/tree`). Together with `RoundTrip` this
      decides every well-formed plain address. */
  lemma PlainTreeNameRefused(loc: RepoLocation)
    requires WellFormed(loc) && loc.tree.None?
    requires loc.user == "tree" || loc.repo == "tree"
    ensures GetContentsUrl(WebUrl(loc)) == Err(IndexOutOfRange)
  {
    WebUrlSegments(loc);
    var parts := WebSegments(loc);
    assert |parts| == 5 && parts[2] == "github.com";
    assert parts[3] == "tree" || parts[4] == "tree";
  }

  /** The evidently intended check: the segment right after the repository
      name is `tree`. */
  function ParsePartsIntended(parts: seq<string>): (r: Result<RepoLocation, UrlError>)
    ensures r == Err(InvalidUrl) <==> |parts| < 5 || parts[2] != "github.com"
    ensures r == Err(IndexOutOfRange) <==> |parts| == 6 && parts[2] == "github.com" && parts[5] == "tree"
    ensures r.Ok? ==> r.value.user == parts[3] && r.value.repo == parts[4]
    ensures r.Ok? ==> (r.value.tree.Some? <==> |parts| > 5 && parts[5] == "tree")
  {
    if |parts| < 5 || parts[2] != "github.com" then Err(InvalidUrl)
    else if |parts| > 5 && parts[5] == "tree" then
      if |parts| == 6 then Err(IndexOutOfRange)
      else Ok(RepoLocation(parts[3], parts[4], Some(TreeRef(parts[6], Join(parts[7..], '/')))))
    else Ok(RepoLocation(parts[3], parts[4], None))
  }

  /** `get_github_contents` with the intended `tree` check. */
  function GetContentsUrlIntended(repoUrl: string): Result<string, UrlError>
  {
    match ParsePartsIntended(Segments(repoUrl))
    case Ok(loc) => Ok(ApiUrl(loc))
    case Err(e) => Err(e)
  }

  /** With the intended check every well-formed location round-trips, whatever
      its owner and repository are called. */
  lemma RoundTripIntended(loc: RepoLocation)
    requires WellFormed(loc)
    ensures GetContentsUrlIntended(WebUrl(loc)) == Ok(ApiUrl(loc))
  {
    WebUrlSegments(loc);
    SegmentsParseIntended(loc);
  }

  /** With the intended check the parse of `WebSegments` recovers every
      well-formed location. */
  lemma SegmentsParseIntended(loc: RepoLocation)
    requires WellFormed(loc)
    ensures ParsePartsIntended(WebSegments(loc)) == Ok(loc)
  {
    var parts := WebSegments(loc);
    var prefix := WebPrefix(loc);
    assert parts[..|prefix|] == prefix;
    match loc.tree {
      case None =>
        assert parts == prefix;
      case Some(t) =>
        assert parts[5] == "tree";
        if t.subpath != "" {
          DropPrefix(prefix, Split(t.subpath, '/'));
          JoinSplit(t.subpath, '/');
        }
    }
  }
}
