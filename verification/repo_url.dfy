/** The repository-URL parser of the share-creation form: the text after the
    first `github.com/` (up to any second one), with trailing `/` removed,
    must be exactly `<owner>/<repo>`. */
module RepoUrl {
  import opened Optional
  import opened Text

  /** The marker the parser splits the submitted URL on. */
  const Host := "github.com/"

  /** The repository a share link points at. */
  datatype RepoRef = RepoRef(owner: string, repo: string)

  /** The parser as written: `url.split('github.com/')[1].rstrip('/')`, then
      `.split('/')` unpacked into exactly two names. `None` is the
      "Invalid GitHub URL" (400) answer: the `IndexError` of a URL without the
      marker and the unpacking `ValueError` both land in the bare `except`. */
  function ParseRepoUrl(url: string): Option<RepoRef>
  {
    var pieces := Split(url, Host);
    if |pieces| < 2 then None
    else
      var path := RStrip(pieces[1], '/');
      var names := Split(path, "/");
      if |names| != 2 then None else Some(RepoRef(names[0], names[1]))
  }

  /** The segment the parser looks at, stated without `split`: the text after
      the first occurrence of the marker, up to the next occurrence or the end. */
  function Segment(url: string): Option<string>
  {
    match IndexOf(url, Host)
    case None => None
    case Some(i) => Some(UpToMarker(url[i + |Host|..]))
  }

  /** The text before the first marker, or all of it when there is none. */
  function UpToMarker(s: string): string
  {
    match IndexOf(s, Host)
    case None => s
    case Some(j) => s[..j]
  }

  /** The second piece of the split is exactly the segment. */
  lemma SplitSecondIsSegment(url: string)
    ensures |Split(url, Host)| >= 2 <==> Segment(url).Some?
    ensures |Split(url, Host)| >= 2 ==> Split(url, Host)[1] == Segment(url).value
  {
    SplitHead(url, Host);
    match IndexOf(url, Host)
    case None =>
    case Some(i) =>
      var rest := url[i + |Host|..];
      SplitHead(rest, Host);
      assert Split(url, Host) == [url[..i]] + Split(rest, Host);
  }

  /** Parsing succeeds exactly when the URL holds the marker and its segment,
      stripped of trailing `/`, holds exactly one `/`. */
  lemma ParseRepoUrlAccepts(url: string)
    ensures ParseRepoUrl(url).Some? <==>
      Segment(url).Some? && multiset(RStrip(Segment(url).value, '/'))['/'] == 1
  {
    SplitSecondIsSegment(url);
    if Segment(url).Some? {
      SplitCountsSeparators(RStrip(Segment(url).value, '/'), '/');
    }
  }

  /** The parsed names are the two `/`-free halves of the stripped segment, and
      any such pair of halves is what the parser returns. Either half may be
      empty. */
  lemma ParseRepoUrlParts(url: string, owner: string, repo: string)
    ensures ParseRepoUrl(url) == Some(RepoRef(owner, repo)) <==>
      && Segment(url).Some?
      && RStrip(Segment(url).value, '/') == owner + "/" + repo
      && '/' !in owner && '/' !in repo
  {
    SplitSecondIsSegment(url);
    if Segment(url).Some? {
      SplitInTwo(RStrip(Segment(url).value, '/'), '/', owner, repo);
    }
  }

  /** Appending `/` to a string that does not end in `github.com` creates no
      new occurrence of the marker. */
  lemma SlashAddsNoMarker(s: string)
    requires !EndsWith(s, "github.com")
    ensures IndexOf(s + "/", Host) == IndexOf(s, Host)
  {
    var t := s + "/";
    forall j
      ensures StartsAt(t, Host, j) <==> StartsAt(s, Host, j)
    {
      if 0 <= j && j + |Host| <= |s| {
        assert t[j..j + |Host|] == s[j..j + |Host|];
      } else if 0 <= j && j + |Host| == |t| {
        assert t[j..j + |Host|] != Host by {
          assert t[j..j + |Host|][..10] == s[j..];
          assert Host[..10] == "github.com";
        }
      }
    }
    IndexOfSameStarts(t, s, Host);
  }

  /** The parse is decided by the segment alone. */
  lemma ParseBySegment(u: string, v: string)
    requires Segment(u).Some? <==> Segment(v).Some?
    requires Segment(u).Some? ==> RStrip(Segment(u).value, '/') == RStrip(Segment(v).value, '/')
    ensures ParseRepoUrl(u) == ParseRepoUrl(v)
  {
    SplitSecondIsSegment(u);
    SplitSecondIsSegment(v);
  }

  /** One trailing slash leaves the text before the first marker as it was
      or adds the slash to it, provided the text does not end in `github.com`. */
  lemma UpToMarkerAfterOneSlash(s: string)
    requires !EndsWith(s, "github.com")
    ensures UpToMarker(s + "/") in {UpToMarker(s), UpToMarker(s) + "/"}
  {
    SlashAddsNoMarker(s);
    match IndexOf(s, Host)
    case None =>
    case Some(j) =>
      assert (s + "/")[..j] == s[..j];
  }

  /** One trailing slash leaves the segment as it was or adds the slash to it,
      provided the URL does not end in `github.com`. */
  lemma SegmentAfterOneSlash(url: string)
    requires !EndsWith(url, "github.com")
    ensures Segment(url).Some? <==> Segment(url + "/").Some?
    ensures Segment(url).Some? ==>
      Segment(url + "/").value in {Segment(url).value, Segment(url).value + "/"}
  {
    SlashAddsNoMarker(url);
    match IndexOf(url, Host)
    case None =>
    case Some(i) =>
      assert IndexOf(url + "/", Host) == Some(i);
      var rest := url[i + |Host|..];
      SegmentAt(url, i);
      SegmentAt(url + "/", i);
      assert (url + "/")[i + |Host|..] == rest + "/";
      TailAvoidsMarkerEnd(url, i + |Host|);
      UpToMarkerAfterOneSlash(rest);
  }

  /** The segment of a URL whose first marker is at `i`. */
  lemma SegmentAt(url: string, i: nat)
    requires IndexOf(url, Host) == Some(i)
    ensures i + |Host| <= |url|
    ensures Segment(url) == Some(UpToMarker(url[i + |Host|..]))
  {
  }

  /** A tail of a string that does not end in `github.com` does not either. */
  lemma TailAvoidsMarkerEnd(s: string, k: nat)
    requires k <= |s| && !EndsWith(s, "github.com")
    ensures !EndsWith(s[k..], "github.com")
  {
    var t := s[k..];
    if |t| >= 10 {
      assert s[|s| - 10..] == t[|t| - 10..];
    }
  }

  /** One trailing slash changes nothing, provided the URL does not end in
      `github.com` (where the slash would complete a second marker). */
  lemma ParseIgnoresOneSlash(url: string)
    requires !EndsWith(url, "github.com")
    ensures ParseRepoUrl(url + "/") == ParseRepoUrl(url)
  {
    SegmentAfterOneSlash(url);
    if Segment(url).Some? {
      var seg := Segment(url).value;
      RStripIgnoresAppended(seg, '/', 1);
      assert seg + Repeat('/', 1) == seg + "/";
    }
    ParseBySegment(url + "/", url);
  }

  /** Any number of trailing slashes changes nothing, under the same proviso. */
  lemma {:induction false} ParseIgnoresTrailingSlashes(url: string, n: nat)
    requires !EndsWith(url, "github.com")
    ensures ParseRepoUrl(url + Repeat('/', n)) == ParseRepoUrl(url)
    decreases n
  {
    if n == 0 {
      assert url + Repeat('/', 0) == url;
    } else {
      var shorter := url + Repeat('/', n - 1);
      ParseIgnoresTrailingSlashes(url, n - 1);
      assert url + Repeat('/', n) == shorter + "/";
      assert !EndsWith(shorter, "github.com") by {
        if n - 1 > 0 {
          assert shorter[|shorter| - 1] == '/';
        }
      }
      ParseIgnoresOneSlash(shorter);
    }
  }

  /** The marker starts at `i`, and no earlier character could begin it. */
  lemma FirstMarkerAt(s: string, i: nat)
    requires i + |Host| <= |s| && s[i..i + |Host|] == Host
    requires forall j :: 0 <= j < i ==> s[j] != Host[0]
    ensures IndexOf(s, Host) == Some(i)
  {
    forall j | 0 <= j < i
      ensures !StartsAt(s, Host, j)
    {
      if j + |Host| <= |s| {
        assert s[j..j + |Host|][0] == s[j];
      }
    }
    IndexOfFirst(s, Host, i);
  }

  /** No character that could begin the marker leaves room for it. */
  lemma NoMarker(s: string)
    requires forall j :: 0 <= j && j + |Host| <= |s| ==> s[j] != Host[0]
    ensures IndexOf(s, Host) == None
  {
    forall j | 0 <= j
      ensures !StartsAt(s, Host, j)
    {
      if j + |Host| <= |s| {
        assert s[j..j + |Host|][0] == s[j];
      }
    }
  }

  /** `path` is `owner/repo` with slash-free halves and no trailing slash. */
  lemma SlashFreeHalves(path: string, owner: string, repo: string)
    requires path == owner + "/" + repo && |repo| > 0 && repo[|repo| - 1] != '/'
    requires forall k :: 0 <= k < |owner| ==> owner[k] != '/'
    requires forall k :: 0 <= k < |repo| ==> repo[k] != '/'
    ensures RStrip(path, '/') == owner + "/" + repo && '/' !in owner && '/' !in repo
  {
  }

  /** The URL of the GitHub Pages repository `<owner>/<owner>.github.com`. */
  function PagesRepoUrl(owner: string): string
  {
    "https://github.com/" + owner + "/" + owner + ".github.com"
  }

  /** After `https://` the first marker begins at index 8. */
  lemma MarkerAfterScheme(url: string, rest: string)
    requires url == "https://" + Host + rest
    ensures IndexOf(url, Host) == Some(8)
  {
    assert url[8..8 + |Host|] == Host;
    forall j | 0 <= j < 8
      ensures url[j] != Host[0]
    {
      assert url[j] == "https://"[j];
    }
    FirstMarkerAt(url, 8);
  }

  /** The proviso is needed. The URL of a Pages repository named after its
      owner's site parses correctly without a trailing slash, but with one the
      slash completes a second marker and the parser returns a repository
      name cut short (for the owner `alice`, the repository `alice.`). */
  lemma TrailingSlashCanBreakParse(owner: string)
    requires forall k :: 0 <= k < |owner| ==> owner[k] != '/' && owner[k] != 'g'
    ensures ParseRepoUrl(PagesRepoUrl(owner)) == Some(RepoRef(owner, owner + ".github.com"))
    ensures ParseRepoUrl(PagesRepoUrl(owner) + "/") == Some(RepoRef(owner, owner + "."))
  {
    PagesRepoParses(owner);
    SlashedPagesRepoParses(owner);
  }

  lemma PagesRepoParses(owner: string)
    requires forall k :: 0 <= k < |owner| ==> owner[k] != '/' && owner[k] != 'g'
    ensures ParseRepoUrl(PagesRepoUrl(owner)) == Some(RepoRef(owner, owner + ".github.com"))
  {
    var repo := owner + ".github.com";
    var path := owner + "/" + repo;
    PagesRepoSegment(owner);
    assert path == owner + "/" + owner + ".github.com";
    SlashFreeHalves(path, owner, repo);
    ParseRepoUrlParts(PagesRepoUrl(owner), owner, repo);
  }

  lemma SlashedPagesRepoParses(owner: string)
    requires forall k :: 0 <= k < |owner| ==> owner[k] != '/' && owner[k] != 'g'
    ensures ParseRepoUrl(PagesRepoUrl(owner) + "/") == Some(RepoRef(owner, owner + "."))
  {
    var cut := owner + ".";
    var path := owner + "/" + cut;
    SlashedPagesRepoSegment(owner);
    assert path == owner + "/" + owner + ".";
    SlashFreeHalves(path, owner, cut);
    ParseRepoUrlParts(PagesRepoUrl(owner) + "/", owner, cut);
  }

  lemma PagesRepoSegment(owner: string)
    requires forall k :: 0 <= k < |owner| ==> owner[k] != '/' && owner[k] != 'g'
    ensures Segment(PagesRepoUrl(owner)) == Some(owner + "/" + owner + ".github.com")
  {
    var rest := owner + "/" + owner + ".github.com";
    var url := PagesRepoUrl(owner);
    assert url == "https://" + Host + rest;
    MarkerAfterScheme(url, rest);
    assert url[8 + |Host|..] == rest;
    NoMarker(rest);
  }

  lemma SlashedPagesRepoSegment(owner: string)
    requires forall k :: 0 <= k < |owner| ==> owner[k] != '/' && owner[k] != 'g'
    ensures Segment(PagesRepoUrl(owner) + "/") == Some(owner + "/" + owner + ".")
  {
    var cut := owner + ".";
    var rest := owner + "/" + cut + Host;
    SlashedPagesRepoUrl(owner);
    MarkerEndsPagesName(owner);
    SegmentAfterScheme(PagesRepoUrl(owner) + "/", rest, 2 * |owner| + 2);
    assert rest[..2 * |owner| + 2] == owner + "/" + cut;
    assert owner + "/" + cut == owner + "/" + owner + ".";
  }

  /** The segment of `https://github.com/<rest>` when `rest` holds the marker at `j`. */
  lemma SegmentAfterScheme(url: string, rest: string, j: nat)
    requires url == "https://" + Host + rest
    requires IndexOf(rest, Host) == Some(j)
    ensures Segment(url) == Some(rest[..j])
  {
    MarkerAfterScheme(url, rest);
    assert url[8 + |Host|..] == rest;
  }

  lemma SlashedPagesRepoUrl(owner: string)
    ensures PagesRepoUrl(owner) + "/" == "https://" + Host + (owner + "/" + (owner + ".") + Host)
  {
  }

  /** In `<owner>/<owner>.github.com/` the marker first starts after the dot. */
  lemma MarkerEndsPagesName(owner: string)
    requires forall k :: 0 <= k < |owner| ==> owner[k] != '/' && owner[k] != 'g'
    ensures IndexOf(owner + "/" + (owner + ".") + Host, Host) == Some(2 * |owner| + 2)
  {
    var cut := owner + ".";
    var rest := owner + "/" + cut + Host;
    var at := |owner| + 1 + |cut|;
    assert rest[at..at + |Host|] == Host;
    forall j | 0 <= j < at
      ensures rest[j] != Host[0]
    {
      if j < |owner| {
        assert rest[j] == owner[j];
      } else if j > |owner| {
        assert rest[j] == cut[j - |owner| - 1];
      }
    }
    FirstMarkerAt(rest, at);
  }

  /** The corrected parser reads the Pages repository URL correctly, with a
      trailing slash or without, whenever the owner holds no `/` and the path
      `<owner>/<owner>.github.com` holds no second marker. */
  lemma TolerantParsesPagesRepo(owner: string)
    requires forall k :: 0 <= k < |owner| ==> owner[k] != '/'
    requires IndexOf(owner + "/" + (owner + ".github.com"), Host) == None
    ensures ParseRepoUrlTolerant(PagesRepoUrl(owner)) == Some(RepoRef(owner, owner + ".github.com"))
    ensures ParseRepoUrlTolerant(PagesRepoUrl(owner) + "/") == Some(RepoRef(owner, owner + ".github.com"))
  {
    var repo := owner + ".github.com";
    var url := PagesRepoUrl(owner);
    assert url == RepoPageUrl(owner, repo);
    forall k | 0 <= k < |repo|
      ensures repo[k] != '/'
    {
      if k >= |owner| {
        assert repo[k] == ".github.com"[k - |owner|];
      }
    }
    RepoPageUrlParses(owner, repo);
    TolerantIgnoresTrailingSlashes(url, 1);
    assert url + Repeat('/', 1) == url + "/";
  }

  /** For an owner without `g`, the Pages path holds no marker: the only `g`
      sits too close to the end for one to fit. */
  lemma PagesPathHasNoMarker(owner: string)
    requires forall k :: 0 <= k < |owner| ==> owner[k] != '/' && owner[k] != 'g'
    ensures IndexOf(owner + "/" + (owner + ".github.com"), Host) == None
  {
    var path := owner + "/" + (owner + ".github.com");
    forall j | 0 <= j && j + |Host| <= |path|
      ensures path[j] != Host[0]
    {
      if j > |owner| {
        assert path[j] == (owner + ".github.com")[j - |owner| - 1];
      }
    }
    NoMarker(path);
  }

  /** The usual form of a repository URL, `https://github.com/<owner>/<repo>`. */
  function RepoPageUrl(owner: string, repo: string): string
  {
    "https://github.com/" + owner + "/" + repo
  }

  /** The usual form of a repository URL parses into its two names, with the
      parser as written and with the corrected one, whenever the names hold
      no `/` and the path holds no second marker. */
  lemma RepoPageUrlParses(owner: string, repo: string)
    requires |repo| > 0
    requires forall k :: 0 <= k < |owner| ==> owner[k] != '/'
    requires forall k :: 0 <= k < |repo| ==> repo[k] != '/'
    requires IndexOf(owner + "/" + repo, Host) == None
    ensures ParseRepoUrl(RepoPageUrl(owner, repo)) == Some(RepoRef(owner, repo))
    ensures ParseRepoUrlTolerant(RepoPageUrl(owner, repo)) == Some(RepoRef(owner, repo))
  {
    var rest := owner + "/" + repo;
    var url := RepoPageUrl(owner, repo);
    assert url == "https://" + Host + rest;
    MarkerAfterScheme(url, rest);
    assert url[8 + |Host|..] == rest;
    assert Segment(url) == Some(rest);
    ParsesFromSegment(url, owner, repo);
    assert url[|url| - 1] == repo[|repo| - 1];
    assert RStrip(url, '/') == url;
  }

  /** A segment `owner/repo` with slash-free names and a non-empty repository
      name parses into those names. */
  lemma ParsesFromSegment(url: string, owner: string, repo: string)
    requires Segment(url) == Some(owner + "/" + repo) && |repo| > 0
    requires forall k :: 0 <= k < |owner| ==> owner[k] != '/'
    requires forall k :: 0 <= k < |repo| ==> repo[k] != '/'
    ensures ParseRepoUrl(url) == Some(RepoRef(owner, repo))
  {
    SlashFreeHalves(owner + "/" + repo, owner, repo);
    ParseRepoUrlParts(url, owner, repo);
  }

  /** The parser with the evidently intended trailing-slash tolerance: strip
      trailing `/` from the whole URL before splitting on the marker. */
  function ParseRepoUrlTolerant(url: string): Option<RepoRef>
  {
    ParseRepoUrl(RStrip(url, '/'))
  }

  /** The corrected parser ignores any number of trailing slashes. */
  lemma TolerantIgnoresTrailingSlashes(url: string, n: nat)
    ensures ParseRepoUrlTolerant(url + Repeat('/', n)) == ParseRepoUrlTolerant(url)
  {
    RStripIgnoresAppended(url, '/', n);
  }

  /** The corrected parser differs from the one written only on URLs whose
      slash-stripped form ends in `github.com`. */
  lemma TolerantAgreesWithParser(url: string)
    requires !EndsWith(RStrip(url, '/'), "github.com")
    ensures ParseRepoUrlTolerant(url) == ParseRepoUrl(url)
  {
    var core := RStrip(url, '/');
    RStripSplits(url, '/');
    ParseIgnoresTrailingSlashes(core, |url| - |core|);
  }
}
