/** The share-link lifecycle of the web application: the form handler that
    creates a share, and the two read routes (`/view/<id>`, `/download/<id>`)
    that resolve one. HTTP, templates and the GitHub API are outside the model;
    a read route's answer says what it would fetch and with which token. */
module Shares {
  import opened Optional
  import opened Text
  import opened Clock
  import opened Cipher
  import opened RepoUrl
  import opened ShareStore

  /** The fields of the creation form (`expiry_days` already through `int`). */
  datatype CreateRequest = CreateRequest(token: string, repoUrl: string, expiryDays: int)

  /** What the environment supplies to one creation: the cipher's per-call
      randomness, the id `uuid4` yields, and the two separate clock reads for
      `created_at` and `expiry`. */
  datatype CreateContext = CreateContext(
    nonce: nat,
    freshId: string,
    createdClock: Instant,
    expiryClock: Instant)

  /** `Created` renders the success page with the share link; `InvalidUrl` is
      ("Invalid GitHub URL", 400); `ExpiryOverflow` is the unhandled
      `OverflowError` of the expiry sum (a 500). */
  datatype CreateResponse = Created(record: Record) | InvalidUrl | ExpiryOverflow

  /** The POST branch of the home route. The token is encrypted before the URL
      is parsed, and the record is only built once the URL is accepted. */
  function Create(cipher: Cipher, req: CreateRequest, ctx: CreateContext): CreateResponse
  {
    var encryptedToken := cipher.encrypt(req.token, ctx.nonce);
    match ParseRepoUrl(req.repoUrl)
    case None => InvalidUrl
    case Some(ref) =>
      match AddDays(ctx.expiryClock, req.expiryDays)
      case None => ExpiryOverflow
      case Some(expiry) =>
        Created(Record(ctx.freshId, encryptedToken, ref.owner, ref.repo, ctx.createdClock, expiry))
  }

  /** The handler with the corrected parser: trailing `/` are stripped from the
      whole URL before it is split on the marker. */
  function CreateTolerant(cipher: Cipher, req: CreateRequest, ctx: CreateContext): CreateResponse
  {
    Create(cipher, req.(repoUrl := RStrip(req.repoUrl, '/')), ctx)
  }

  /** The table after a creation: the one insert happens only on success. */
  function Commit(store: Store, response: CreateResponse): Store
  {
    match response
    case Created(r) => Insert(store, r)
    case _ => store
  }

  /** The lookup both read routes start with: the first record carrying the id,
      judged against the clock. Expired records are not deleted. */
  datatype Resolution = Missing | Expired | Active(record: Record)

  /** The lookup and expiry test of `/view/<id>`. */
  function Resolve(store: Store, id: string, now: Instant): Resolution
  {
    var found := Search(store, id);
    if |found| == 0 then Missing
    else if now > found[0].expiry then Expired
    else Active(found[0])
  }

  /** `/view/<id>`: 404, the expired page, a 500 when the stored token does not
      decrypt, or the repository page for `owner/repo` fetched with `token`. */
  datatype ViewResponse =
    | ViewNotFound
    | ExpiredPage
    | ViewServerError
    | RepoPage(owner: string, repo: string, token: string, shareId: string)

  function ViewRepo(cipher: Cipher, store: Store, id: string, now: Instant): ViewResponse
  {
    match Resolve(store, id, now)
    case Missing => ViewNotFound
    case Expired => ExpiredPage
    case Active(r) =>
      match cipher.decrypt(r.encryptedToken)
      case None => ViewServerError
      case Some(token) => RepoPage(r.owner, r.repo, token, id)
  }

  /** `/download/<id>`: 404 for a missing or expired share, a 500 when the
      token does not decrypt, or the zipball of `owner/repo` fetched with
      `token` and served as `<repo>.zip`. */
  datatype DownloadResponse =
    | DownloadNotFound
    | DownloadServerError
    | Zipball(owner: string, repo: string, token: string, fileName: string)

  /** Written as the route is: one combined test, relying on `or` not
      evaluating its right side when the search is empty. */
  function DownloadRepo(cipher: Cipher, store: Store, id: string, now: Instant): DownloadResponse
  {
    var found := Search(store, id);
    if |found| == 0 || now > found[0].expiry then DownloadNotFound
    else
      var r := found[0];
      match cipher.decrypt(r.encryptedToken)
      case None => DownloadServerError
      case Some(token) => Zipball(r.owner, r.repo, token, r.repo + ".zip")
  }

  /** One request to the application, with what the environment supplies. */
  datatype Request =
    | CreateShare(form: CreateRequest, ctx: CreateContext)
    | ViewShare(viewId: string, viewTime: Instant)
    | DownloadShare(downloadId: string, downloadTime: Instant)

  datatype Response =
    | CreatePage(created: CreateResponse)
    | ViewPage(view: ViewResponse)
    | DownloadPage(download: DownloadResponse)

  /** One request: its answer and the table afterwards. */
  function Handle(cipher: Cipher, store: Store, request: Request): (Store, Response)
  {
    match request
    case CreateShare(form, ctx) =>
      var c := Create(cipher, form, ctx);
      (Commit(store, c), CreatePage(c))
    case ViewShare(id, now) => (store, ViewPage(ViewRepo(cipher, store, id, now)))
    case DownloadShare(id, now) => (store, DownloadPage(DownloadRepo(cipher, store, id, now)))
  }

  /** The table after a sequence of requests. */
  function Run(cipher: Cipher, store: Store, requests: seq<Request>): Store
    decreases |requests|
  {
    if |requests| == 0 then store
    else Run(cipher, Handle(cipher, store, requests[0]).0, requests[1..])
  }

  /** Every record's token decrypts under the cipher. */
  ghost predicate WellEncrypted(cipher: Cipher, store: Store)
  {
    forall k :: 0 <= k < |store| ==> cipher.decrypt(store[k].encryptedToken).Some?
  }

  /** Every creation in the sequence draws an id not yet in the table. */
  ghost predicate IdsFresh(cipher: Cipher, store: Store, requests: seq<Request>)
    decreases |requests|
  {
    if |requests| == 0 then true
    else
      && (requests[0].CreateShare? ==> requests[0].ctx.freshId !in Ids(store))
      && IdsFresh(cipher, Handle(cipher, store, requests[0]).0, requests[1..])
  }

  // ---------------------------------------------------------------- creation

  /** A creation is rejected as an invalid URL exactly when the parser's
      acceptance condition fails, and then the table is untouched. */
  lemma CreateRejectsInvalidUrl(cipher: Cipher, store: Store, req: CreateRequest, ctx: CreateContext)
    ensures Create(cipher, req, ctx).InvalidUrl? <==>
      !(Segment(req.repoUrl).Some? && multiset(RStrip(Segment(req.repoUrl).value, '/'))['/'] == 1)
    ensures !Create(cipher, req, ctx).Created? ==> Commit(store, Create(cipher, req, ctx)) == store
  {
    ParseRepoUrlAccepts(req.repoUrl);
  }

  /** An accepted URL fails only when the expiry leaves the calendar; any
      other day count, zero and negative ones included, creates a share. */
  lemma CreateOverflowsOutsideCalendar(cipher: Cipher, req: CreateRequest, ctx: CreateContext)
    ensures Create(cipher, req, ctx).ExpiryOverflow? <==>
      && Segment(req.repoUrl).Some?
      && multiset(RStrip(Segment(req.repoUrl).value, '/'))['/'] == 1
      && !(0 <= ctx.expiryClock + req.expiryDays * MicrosPerDay <= MaxInstant)
  {
    ParseRepoUrlAccepts(req.repoUrl);
    AddDaysInCalendar(ctx.expiryClock, req.expiryDays);
  }

  /** The record a successful creation stores: the drawn id, the encrypted
      token, the parsed names, the first clock read, and an expiry exactly
      `expiryDays` days after the second clock read. */
  lemma CreatedRecordFields(cipher: Cipher, req: CreateRequest, ctx: CreateContext)
    requires Create(cipher, req, ctx).Created?
    ensures var r := Create(cipher, req, ctx).record;
      && r.shareId == ctx.freshId
      && r.encryptedToken == cipher.encrypt(req.token, ctx.nonce)
      && Segment(req.repoUrl).Some?
      && RStrip(Segment(req.repoUrl).value, '/') == r.owner + "/" + r.repo
      && '/' !in r.owner && '/' !in r.repo
      && r.createdAt == ctx.createdClock
      && r.expiry == ctx.expiryClock + req.expiryDays * MicrosPerDay
  {
    var r := Create(cipher, req, ctx).record;
    ParseRepoUrlParts(req.repoUrl, r.owner, r.repo);
    AddDaysInCalendar(ctx.expiryClock, req.expiryDays);
  }

  /** The handler as written stores a Pages repository shared by a URL with a
      trailing slash under a name cut short; the corrected handler stores the
      full name, with the slash or without. */
  lemma CreateCutsPagesRepo(cipher: Cipher, token: string, owner: string, days: int, ctx: CreateContext)
    requires forall k :: 0 <= k < |owner| ==> owner[k] != '/' && owner[k] != 'g'
    requires 0 <= ctx.expiryClock + days * MicrosPerDay <= MaxInstant
    ensures var c := Create(cipher, CreateRequest(token, PagesRepoUrl(owner) + "/", days), ctx);
      c.Created? && c.record.owner == owner && c.record.repo == owner + "."
    ensures var c := CreateTolerant(cipher, CreateRequest(token, PagesRepoUrl(owner) + "/", days), ctx);
      c.Created? && c.record.owner == owner && c.record.repo == owner + ".github.com"
  {
    var req := CreateRequest(token, PagesRepoUrl(owner) + "/", days);
    TrailingSlashCanBreakParse(owner);
    PagesPathHasNoMarker(owner);
    TolerantParsesPagesRepo(owner);
    AddDaysInCalendar(ctx.expiryClock, days);
    assert req.(repoUrl := RStrip(req.repoUrl, '/')).repoUrl == RStrip(PagesRepoUrl(owner) + "/", '/');
  }

  /** The corrected handler ignores trailing slashes, and outside the URLs the
      parser as written misreads it answers exactly as that handler does. */
  lemma CreateTolerantAgrees(cipher: Cipher, req: CreateRequest, ctx: CreateContext, n: nat)
    ensures CreateTolerant(cipher, req.(repoUrl := req.repoUrl + Repeat('/', n)), ctx) ==
      CreateTolerant(cipher, req, ctx)
    ensures !EndsWith(RStrip(req.repoUrl, '/'), "github.com") ==>
      CreateTolerant(cipher, req, ctx) == Create(cipher, req, ctx)
  {
    RStripIgnoresAppended(req.repoUrl, '/', n);
    if !EndsWith(RStrip(req.repoUrl, '/'), "github.com") {
      TolerantAgreesWithParser(req.repoUrl);
    }
  }

  /** When the clock does not run backwards between its two reads, a share
      lasts at least its day count after `created_at`. */
  lemma CreatedShareOutlastsItsDays(cipher: Cipher, req: CreateRequest, ctx: CreateContext)
    requires Create(cipher, req, ctx).Created?
    requires ctx.createdClock <= ctx.expiryClock
    ensures var r := Create(cipher, req, ctx).record;
      r.expiry - r.createdAt >= req.expiryDays * MicrosPerDay
  {
    CreatedRecordFields(cipher, req, ctx);
  }

  /** A creation appends exactly one record, leaves every earlier record in
      place, and changes nothing about how an id already present resolves. */
  lemma CreateKeepsExistingShares(cipher: Cipher, store: Store, req: CreateRequest, ctx: CreateContext, id: string, now: Instant)
    requires id in Ids(store)
    ensures var c := Create(cipher, req, ctx);
      && |Commit(store, c)| == |store| + (if c.Created? then 1 else 0)
      && (forall k :: 0 <= k < |store| ==> Commit(store, c)[k] == store[k])
      && (c.Created? ==> Commit(store, c)[|store|] == c.record)
      && Resolve(Commit(store, c), id, now) == Resolve(store, id, now)
  {
    var c := Create(cipher, req, ctx);
    if c.Created? {
      SearchConcat(store, [c.record], id);
      SearchEmpty(store, id);
    }
  }

  /** A creation with a fresh id keeps ids unique. */
  lemma CreateKeepsIdsUnique(cipher: Cipher, store: Store, req: CreateRequest, ctx: CreateContext)
    requires UniqueIds(store) && ctx.freshId !in Ids(store)
    ensures UniqueIds(Commit(store, Create(cipher, req, ctx)))
  {
    var c := Create(cipher, req, ctx);
    if c.Created? {
      InsertKeepsIdsUnique(store, c.record);
    }
  }

  /** The stored ciphertext decrypts to the submitted token. */
  lemma CreatedTokenDecrypts(cipher: Cipher, req: CreateRequest, ctx: CreateContext)
    requires RoundTrips(cipher)
    requires Create(cipher, req, ctx).Created?
    ensures cipher.decrypt(Create(cipher, req, ctx).record.encryptedToken) == Some(req.token)
  {
  }

  /** A fresh share resolves to its own record until its expiry, inclusive,
      and as expired afterwards. */
  lemma FreshShareResolves(cipher: Cipher, store: Store, req: CreateRequest, ctx: CreateContext, now: Instant)
    requires ctx.freshId !in Ids(store)
    requires Create(cipher, req, ctx).Created?
    ensures var r := Create(cipher, req, ctx).record;
      Resolve(Commit(store, Create(cipher, req, ctx)), ctx.freshId, now) ==
        if now > r.expiry then Expired else Active(r)
  {
    var r := Create(cipher, req, ctx).record;
    SearchConcat(store, [r], ctx.freshId);
    SearchEmpty(store, ctx.freshId);
  }

  /** Both read routes serve a fresh share with the submitted token until its
      expiry, inclusive; afterwards view shows the expired page and download
      answers 404. */
  lemma FreshShareServes(cipher: Cipher, store: Store, req: CreateRequest, ctx: CreateContext, now: Instant)
    requires RoundTrips(cipher)
    requires ctx.freshId !in Ids(store)
    requires Create(cipher, req, ctx).Created?
    ensures var r := Create(cipher, req, ctx).record;
      var store' := Commit(store, Create(cipher, req, ctx));
      && ViewRepo(cipher, store', ctx.freshId, now) ==
           (if now > r.expiry then ExpiredPage else RepoPage(r.owner, r.repo, req.token, ctx.freshId))
      && DownloadRepo(cipher, store', ctx.freshId, now) ==
           (if now > r.expiry then DownloadNotFound else Zipball(r.owner, r.repo, req.token, r.repo + ".zip"))
  {
    FreshShareResolves(cipher, store, req, ctx, now);
    DownloadAgreesWithView(cipher, Commit(store, Create(cipher, req, ctx)), ctx.freshId, now);
  }

  /** With monotone clock reads a fresh share is active throughout its first
      `expiryDays` days. */
  lemma FreshShareLivesItsDays(cipher: Cipher, store: Store, req: CreateRequest, ctx: CreateContext, now: Instant)
    requires ctx.freshId !in Ids(store)
    requires Create(cipher, req, ctx).Created?
    requires ctx.createdClock <= ctx.expiryClock
    requires ctx.createdClock <= now <= ctx.createdClock + req.expiryDays * MicrosPerDay
    ensures Resolve(Commit(store, Create(cipher, req, ctx)), ctx.freshId, now) ==
      Active(Create(cipher, req, ctx).record)
  {
    CreatedRecordFields(cipher, req, ctx);
    FreshShareResolves(cipher, store, req, ctx, now);
  }

  /** A negative day count is accepted and yields a share that is already
      expired at every instant from the second clock read on. */
  lemma NegativeDaysExpireAtOnce(cipher: Cipher, store: Store, req: CreateRequest, ctx: CreateContext, now: Instant)
    requires ctx.freshId !in Ids(store)
    requires Create(cipher, req, ctx).Created?
    requires req.expiryDays < 0 && ctx.expiryClock <= now
    ensures Resolve(Commit(store, Create(cipher, req, ctx)), ctx.freshId, now) == Expired
  {
    CreatedRecordFields(cipher, req, ctx);
    FreshShareResolves(cipher, store, req, ctx, now);
  }

  /** A one-day share of an ordinary repository URL
      `https://github.com/<owner>/<repo>`, created without a password: right
      after creation the view serves that repository with the submitted token;
      two days later it shows the expired page while the record stays in the
      table. */
  lemma OneDayShareScenario(cipher: Cipher, store: Store, token: string, owner: string, repo: string, ctx: CreateContext)
    requires RoundTrips(cipher)
    requires |repo| > 0
    requires forall k :: 0 <= k < |owner| ==> owner[k] != '/'
    requires forall k :: 0 <= k < |repo| ==> repo[k] != '/'
    requires IndexOf(owner + "/" + repo, Host) == None
    requires ctx.freshId !in Ids(store)
    requires ctx.createdClock <= ctx.expiryClock
    requires ctx.expiryClock + 2 * MicrosPerDay <= MaxInstant
    ensures var c := Create(cipher, CreateRequest(token, RepoPageUrl(owner, repo), 1), ctx);
      var store' := Commit(store, c);
      && c.Created?
      && ViewRepo(cipher, store', ctx.freshId, ctx.expiryClock) == RepoPage(owner, repo, token, ctx.freshId)
      && ViewRepo(cipher, store', ctx.freshId, ctx.expiryClock + 2 * MicrosPerDay) == ExpiredPage
      && ctx.freshId in Ids(store')
  {
    var req := CreateRequest(token, RepoPageUrl(owner, repo), 1);
    RepoPageUrlParses(owner, repo);
    AddDaysInCalendar(ctx.expiryClock, 1);
    var c := Create(cipher, req, ctx);
    FreshShareServes(cipher, store, req, ctx, ctx.expiryClock);
    FreshShareServes(cipher, store, req, ctx, ctx.expiryClock + 2 * MicrosPerDay);
    assert c.record in Commit(store, c);
  }

  // ---------------------------------------------------------------- resolution

  /** Resolution by cases: missing when no record has the id; otherwise judged
      on the earliest record with it, expired only strictly after its expiry. */
  lemma ResolveCases(store: Store, id: string, now: Instant, k: int)
    ensures Resolve(store, id, now) == Missing <==> id !in Ids(store)
    ensures IsFirstMatch(store, id, k) ==>
      Resolve(store, id, now) == if now > store[k].expiry then Expired else Active(store[k])
  {
    SearchEmpty(store, id);
    if id in Ids(store) {
      var first := FirstMatchExists(store, id);
      SearchHead(store, id, first);
    }
    if IsFirstMatch(store, id, k) {
      SearchHead(store, id, k);
    }
  }

  /** Expiry is strict: at the expiry instant itself both routes still serve. */
  lemma ExpiryInstantStillServes(cipher: Cipher, store: Store, id: string, k: int)
    requires IsFirstMatch(store, id, k)
    ensures Resolve(store, id, store[k].expiry) == Active(store[k])
    ensures DownloadRepo(cipher, store, id, store[k].expiry) != DownloadNotFound
  {
    SearchHead(store, id, k);
  }

  /** Download refuses with 404 exactly when view finds the share missing or
      expired; for an active share the two routes serve the same repository
      with the same decrypted token, or both fail on decryption. */
  lemma DownloadAgreesWithView(cipher: Cipher, store: Store, id: string, now: Instant)
    ensures DownloadRepo(cipher, store, id, now).DownloadNotFound? <==>
      ViewRepo(cipher, store, id, now) in {ViewNotFound, ExpiredPage}
    ensures DownloadRepo(cipher, store, id, now).DownloadServerError? <==>
      ViewRepo(cipher, store, id, now).ViewServerError?
    ensures ViewRepo(cipher, store, id, now).RepoPage? ==>
      var v := ViewRepo(cipher, store, id, now);
      DownloadRepo(cipher, store, id, now) == Zipball(v.owner, v.repo, v.token, v.repo + ".zip")
  {
  }

  /** A table whose tokens all decrypt never makes a read route fail. */
  lemma WellEncryptedServesNoError(cipher: Cipher, store: Store, id: string, now: Instant)
    requires WellEncrypted(cipher, store)
    ensures !ViewRepo(cipher, store, id, now).ViewServerError?
    ensures !DownloadRepo(cipher, store, id, now).DownloadServerError?
  {
    var found := Search(store, id);
    if |found| > 0 {
      assert found[0] in store;
    }
  }

  // ---------------------------------------------------------------- request sequences

  /** The read routes never change the table. */
  lemma ReadsLeaveStoreUnchanged(cipher: Cipher, store: Store, request: Request)
    requires !request.CreateShare?
    ensures Handle(cipher, store, request).0 == store
  {
  }

  /** Requests only ever append to the table: nothing is updated or deleted. */
  lemma {:induction false} RunOnlyAppends(cipher: Cipher, store: Store, requests: seq<Request>)
    ensures store <= Run(cipher, store, requests)
    decreases |requests|
  {
    if |requests| > 0 {
      var next := Handle(cipher, store, requests[0]).0;
      RunOnlyAppends(cipher, next, requests[1..]);
    }
  }

  /** Once an id is present, the record it resolves to never changes, even if
      a later creation draws the same id. */
  lemma RunKeepsFirstMatch(cipher: Cipher, store: Store, requests: seq<Request>, id: string)
    requires |Search(store, id)| > 0
    ensures |Search(Run(cipher, store, requests), id)| > 0
    ensures Search(Run(cipher, store, requests), id)[0] == Search(store, id)[0]
  {
    var after := Run(cipher, store, requests);
    RunOnlyAppends(cipher, store, requests);
    assert after == store + after[|store|..];
    SearchConcat(store, after[|store|..], id);
  }

  /** An expired share stays expired under every later sequence of requests
      and at every later instant: view keeps showing the expired page and
      download keeps answering 404. */
  lemma ExpiredStaysExpired(cipher: Cipher, store: Store, requests: seq<Request>, id: string, t: Instant, later: Instant)
    requires Resolve(store, id, t) == Expired
    requires t <= later
    ensures var after := Run(cipher, store, requests);
      && Resolve(after, id, later) == Expired
      && ViewRepo(cipher, after, id, later) == ExpiredPage
      && DownloadRepo(cipher, after, id, later) == DownloadNotFound
  {
    RunKeepsFirstMatch(cipher, store, requests, id);
  }

  /** An active share keeps resolving to the same record under any later
      sequence of requests. */
  lemma ActiveStaysActive(cipher: Cipher, store: Store, requests: seq<Request>, id: string, t: Instant)
    requires Resolve(store, id, t).Active?
    ensures Resolve(Run(cipher, store, requests), id, t) == Resolve(store, id, t)
  {
    RunKeepsFirstMatch(cipher, store, requests, id);
  }

  /** With a cipher that round-trips, every record the application stores has
      a token that decrypts. */
  lemma {:induction false} RunKeepsWellEncrypted(cipher: Cipher, store: Store, requests: seq<Request>)
    requires RoundTrips(cipher)
    requires WellEncrypted(cipher, store)
    ensures WellEncrypted(cipher, Run(cipher, store, requests))
    decreases |requests|
  {
    if |requests| > 0 {
      var next := Handle(cipher, store, requests[0]).0;
      assert WellEncrypted(cipher, next) by {
        if requests[0].CreateShare? {
          var c := Create(cipher, requests[0].form, requests[0].ctx);
          if c.Created? {
            CreatedTokenDecrypts(cipher, requests[0].form, requests[0].ctx);
          }
        }
      }
      RunKeepsWellEncrypted(cipher, next, requests[1..]);
    }
  }

  /** While `uuid4` draws fresh ids, no two records share one. */
  lemma {:induction false} RunKeepsIdsUnique(cipher: Cipher, store: Store, requests: seq<Request>)
    requires UniqueIds(store)
    requires IdsFresh(cipher, store, requests)
    ensures UniqueIds(Run(cipher, store, requests))
    decreases |requests|
  {
    if |requests| > 0 {
      var next := Handle(cipher, store, requests[0]).0;
      if requests[0].CreateShare? {
        CreateKeepsIdsUnique(cipher, store, requests[0].form, requests[0].ctx);
      }
      RunKeepsIdsUnique(cipher, next, requests[1..]);
    }
  }
}
