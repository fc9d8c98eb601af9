# Share-link lifecycle of Kxshare, modelled in Dafny

Kxshare is a small Flask application. A user submits a GitHub access token, a
repository URL and a number of days, and gets back a share link. Anyone holding
that link can browse the repository's README and top-level file list, or
download it as a ZIP, until the link expires. This project models the part of
`main.py` that holds the logic:

- the repository-URL parser of the creation form;
- share creation: the token is encrypted, a record is inserted holding the share
  id, the token ciphertext, owner, repo, creation time and expiry;
- share resolution by the two read routes, `/view/<share_id>` and
  `/download/<share_id>`;
- sequences of requests against the record table.

The modules follow the program's structure. `Text` holds the Python string
operations the parser uses (`split`, `rstrip`). `RepoUrl` is the parser.
`Clock` covers `datetime` arithmetic. `Cipher` is the Fernet cipher, kept
opaque. `ShareStore` is the TinyDB table. `Shares` holds the routes and the
request sequences.

Modelling decisions:

- **Time.** An instant is a whole number of microseconds counted from
  `datetime.min`, bounded by `datetime.max`. That is the resolution of
  `datetime.now()` and of the ISO strings the records store. An expiry that
  falls outside the calendar, or a day count `timedelta` refuses, raises
  `OverflowError` (a 500, with nothing inserted). This is `ExpiryOverflow`.
- **Two clock reads.** `created_at` and `expiry` each call `datetime.now()`,
  so the model takes two clock values. Lifetime lemmas assume the first read is
  not later than the second.
- **Cipher.** The cipher is a pair of functions. `encrypt` takes the
  per-call randomness Fernet draws (IV and timestamp). `decrypt` may fail. The
  round-trip property `RoundTrips` is a hypothesis of the lemmas that need it.
  `TaggingCipher` shows the hypothesis can be met.
- **Share ids.** `uuid4()` is an input to creation. Its freshness is a lemma
  hypothesis (`ctx.freshId !in Ids(store)`, `IdsFresh`).
- **Store.** The table is a sequence in insertion order. `Search` returns every
  match, as `db.search` does. Both routes use the first match.
- **Reads.** A read route's answer names the repository and the decrypted
  token it would use for its GitHub request. The requests themselves are not
  modelled.

Behaviour of `main.py` worth noting, all of which the model keeps:

- Expired records are never deleted. View shows the expired page on every
  later call, and download answers 404.
- `owner` and `repo` are stored in plain text; only the token is encrypted.
- Shares carry no password.
- `expiry_days` is not range-checked, so zero and negative values create
  shares that are already due or already expired.
- Nothing checks that `expiry` is later than `created_at`.
- Creation answers 400 for a bad URL and 500 for an out-of-calendar expiry.
- The URL is split on `github.com/` before trailing `/` are stripped (see
  Findings). `Shares.Create` models the handler exactly as written; the
  corrected handler is the separate `Shares.CreateTolerant`.

## Model

| member | source | states |
|---|---|---|
| Text.IndexOf | main.py:52 | the separator search finds an occurrence, and no earlier index holds one (or there is none at all) |
| Text.SplitCountsSeparators | main.py:53 | `split('/')` yields one more piece than the string has `/`, so two pieces means exactly one `/` |
| Text.SplitInTwo | main.py:53 | a string splits into `[a, b]` on a character exactly when it is `a + c + b` with `c` in neither half |
| Text.RStrip | main.py:52 | `rstrip('/')` returns a prefix that does not end in `/`, and everything it removed was `/` |
| Text.RStripIgnoresAppended | main.py:52 | appending any number of the stripped character does not change `rstrip` |
| RepoUrl.SplitSecondIsSegment | main.py:52 | `split('github.com/')[1]` exists exactly when the URL holds the marker, and is the text from the first marker to the next one or the end |
| RepoUrl.ParseRepoUrlAccepts | main.py:51-55 | parsing succeeds if and only if the URL holds `github.com/` and its segment, stripped of trailing `/`, holds exactly one `/`; otherwise the answer is "Invalid GitHub URL" |
| RepoUrl.ParseRepoUrlParts | main.py:52-53 | the result is `(owner, repo)` if and only if the stripped segment is `owner/repo` with `/` in neither name; either name may be empty |
| RepoUrl.ParseIgnoresTrailingSlashes | main.py:52 | appending any number of `/` leaves the parse unchanged, provided the URL does not end in `github.com` |
| RepoUrl.TrailingSlashCanBreakParse | main.py:52 | for a Pages repository `<owner>/<owner>.github.com`, the parser reads the URL without a slash correctly but cuts the repository to `<owner>.` once a slash is appended |
| RepoUrl.TolerantIgnoresTrailingSlashes | main.py:52 | the corrected parser, which strips trailing `/` before splitting, is unchanged by any number of appended `/` |
| RepoUrl.TolerantAgreesWithParser | main.py:52 | the corrected parser agrees with the written one on every URL whose slash-stripped form does not end in `github.com` |
| RepoUrl.TolerantParsesPagesRepo | main.py:52 | the corrected parser reads the Pages repository URL as `<owner>/<owner>.github.com`, with a trailing slash or without, for every slash-free owner whose path holds no second `github.com/` |
| RepoUrl.RepoPageUrlParses | main.py:51-53 | an ordinary URL `https://github.com/<owner>/<repo>` whose names hold no `/` parses as that owner and repository, by the parser as written and by the corrected one |
| Clock.AddDaysInCalendar | main.py:67 | `now + timedelta(days=d)` exists exactly when the sum stays inside the calendar, and is then `d` whole days later; the `timedelta` bound never decides the outcome alone |
| Cipher.TaggingCipherRoundTrips | main.py:27-37 | the round-trip property assumed of the cipher can be met |
| ShareStore.Search | main.py:79 | the search holds exactly the records carrying the id |
| ShareStore.Insert | main.py:61-68 | an insert adds one record at the end and keeps every earlier record in place |
| ShareStore.SearchHead | main.py:84 | `repo_data[0]` is the earliest record carrying the id |
| ShareStore.InsertKeepsIdsUnique | main.py:58-61 | inserting a record with a fresh id keeps ids unique |
| Shares.CreateRejectsInvalidUrl | main.py:51-55 | creation answers "Invalid GitHub URL" exactly when the URL lacks `github.com/` or its segment, stripped of trailing `/`, does not hold exactly one `/`; nothing is then inserted |
| Shares.CreateOverflowsOutsideCalendar | main.py:51-67 | creation fails with the overflow exactly when the URL is accepted and the expiry falls outside the calendar; with an accepted URL every other day count, zero and negative ones included, creates a share |
| Shares.CreatedRecordFields | main.py:51-68 | the stored record carries the drawn id, the encrypted token, the parsed `/`-free names, the first clock read, and an expiry exactly `expiry_days` days after the second clock read |
| Shares.CreateCutsPagesRepo | main.py:51-62 | the handler as written stores a Pages repository shared with a trailing slash as `<owner>.`, while the corrected handler stores `<owner>.github.com` |
| Shares.CreateTolerantAgrees | main.py:51-55 | the corrected handler ignores any number of trailing `/`, and answers exactly as the handler as written on every URL whose slash-stripped form does not end in `github.com` |
| Shares.CreatedShareOutlastsItsDays | main.py:66-67 | when the clock does not run backwards between its two reads, expiry is at least `expiry_days` days after `created_at` |
| Shares.CreateKeepsExistingShares | main.py:61-68 | creation appends at most one record, leaves every earlier record unchanged, and does not change how any present id resolves |
| Shares.CreateKeepsIdsUnique | main.py:58-68 | a creation with a fresh id keeps ids unique |
| Shares.CreatedTokenDecrypts | main.py:48 | with a round-tripping cipher, the stored ciphertext decrypts to the submitted token |
| Shares.FreshShareResolves | main.py:79-88 | a freshly created share resolves to its own record up to and including its expiry, and as expired afterwards |
| Shares.FreshShareServes | main.py:85-93 | view serves a fresh share's repository with the submitted token until expiry, then the expired page; download serves the archive `<repo>.zip` until expiry, then 404 |
| Shares.FreshShareLivesItsDays | main.py:66-67 | with monotone clock reads, a fresh share is active at every instant of its first `expiry_days` days |
| Shares.NegativeDaysExpireAtOnce | main.py:45 | a negative day count creates a share that is expired from the second clock read on |
| Shares.OneDayShareScenario | main.py:42-93 | a one-day share of an ordinary `https://github.com/<owner>/<repo>` URL serves that repository right after creation; two days later view shows the expired page and the record is still in the table |
| Shares.ResolveCases | main.py:79-88 | resolution is `Missing` exactly when no record has the id; otherwise, for the earliest record with the id, it is `Expired` when `now > expiry` and `Active` with that record otherwise |
| Shares.ExpiryInstantStillServes | main.py:87 | expiry is strict: at the expiry instant itself view resolves the share as active and download does not refuse it |
| Shares.DownloadAgreesWithView | main.py:125-134 | download answers 404 exactly when view finds the share missing or expired; for an active share both routes serve the same repository and token, or both fail on decryption |
| Shares.WellEncryptedServesNoError | main.py:91 | when every stored token decrypts, neither read route fails on decryption |
| Shares.ReadsLeaveStoreUnchanged | main.py:76-134 | view and download never change the table |
| Shares.RunOnlyAppends | main.py:61 | any sequence of requests only appends to the table; no record is updated or deleted |
| Shares.RunKeepsFirstMatch | main.py:84 | once an id is present, later requests never change the record it resolves to, even if a later creation draws the same id |
| Shares.ExpiredStaysExpired | main.py:87-88 | an expired share stays expired after any later requests and at any later instant: the expired page on view, 404 on download |
| Shares.ActiveStaysActive | main.py:84-88 | an active share resolves to the same record after any later requests |
| Shares.RunKeepsWellEncrypted | main.py:48 | with a round-tripping cipher, every record the application stores has a token that decrypts |
| Shares.RunKeepsIdsUnique | main.py:58 | while `uuid4` draws fresh ids, no two records share an id |

## Left out

- GitHub API calls: the README, contents and zipball requests (main.py:96-113, 136-141). This includes the 404 on a non-200 zipball response. These are network I/O. A read route's answer names the repository and token it would request with.
- Base64 decoding and Markdown rendering of the README (main.py:104-105). These are library calls.
- Flask routing, the GET branch of the home page, `url_for`, `render_template`, `send_file` and the inline templates (main.py:70-73, 115-120, 145-234). These are framework and presentation.
- TinyDB persistence and its JSON file (main.py:24). The table is a sequence of records.
- PBKDF2 key derivation and Fernet internals (main.py:27-37). The cipher is opaque, and its round trip is the `RoundTrips` hypothesis.
- `isoformat` and `fromisoformat`. Instants are integers, and the string round trip is taken as exact.
- `token.encode()` and the `.decode()` of the plaintext. A plaintext that is not UTF-8 is folded into decryption failure.
- `uuid4`. Its id is an input to creation, and uniqueness is a hypothesis.
- The `ValueError` of `int(request.form['expiry_days'])` and missing form fields (main.py:43-45). Both are framework-level errors raised before any state changes.
- Concurrent requests. Requests are modelled one at a time.
- `analytics.py`. It is an unimplemented stub with no behaviour.
- Nothing is modelled for share passwords, listings below the top level, deletion of expired records or encryption of `owner`/`repo`: `main.py` does none of these.
- RepoUrl.ParseIgnoresTrailingSlashes: holds only for URLs that do not end in `github.com`. For those URLs the property is false; see Findings.
- RepoUrl.TrailingSlashCanBreakParse: stated for owners with no `g` or `/`. That restriction keeps the proof short. The same cut happens for other owners.
- Shares.CreateCutsPagesRepo: stated for owners with no `g` or `/`, for the same reason.

## Findings

| source | as written | input that shows it | evidently intended | confidence | as-written member | corrected member |
|---|---|---|---|---|---|---|
| main.py:52 | `repo_url.split('github.com/')[1]` runs before `.rstrip('/')`. A trailing slash can therefore complete a second `github.com/` and cut the segment short. | `https://github.com/alice/alice.github.com/` parses as owner `alice`, repo `alice.`. Without the slash it parses as repo `alice.github.com`. | Trailing slashes are tolerated: strip them from the URL before splitting, so both forms give `alice/alice.github.com`. | medium; not executed | RepoUrl.TrailingSlashCanBreakParse | RepoUrl.TolerantIgnoresTrailingSlashes |

The corrected parser is `RepoUrl.ParseRepoUrlTolerant`. `RepoUrl.TolerantAgreesWithParser` proves it agrees with the written parser everywhere except where the slash-stripped URL ends in `github.com`. `Shares.Create` and the request sequences built on it model the handler as written. `Shares.CreateTolerant` is the handler with the corrected parser. `Shares.CreateCutsPagesRepo` shows the two handlers storing different names for the same request. `Shares.CreateTolerantAgrees` proves the corrected handler ignores trailing slashes and agrees with the written one everywhere outside this finding.
