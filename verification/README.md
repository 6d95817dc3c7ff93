# Page analyzer core in Dafny

This project models the pure logic inside the page analyzer, a small web app.
A user submits a URL. The app stores it once per canonical name, then runs
on-demand "checks" that fetch the page and record its status code, `<h1>`,
`<title>` and meta description. The model has three parts.

- **URL normalizer** (`UrlSplit`, `UrlNormalizer`). `Url.parse` turns raw text
  into `scheme`, `netloc` and the canonical `name = scheme + "://" + netloc`,
  which is the deduplication key. `Url.is_valid` accepts only `http`/`https`
  with a non-empty host. `UrlSplit` models the part of Python's
  `urllib.parse.urlsplit` that decides scheme and netloc, following CPython 3.12:
  - leading C0 controls and spaces are stripped;
  - tab, CR and LF are removed everywhere;
  - the scheme is the text before the first `:`, if it starts with an ASCII
    letter and holds only letters, digits, `+`, `-` and `.`; it is lower-cased;
  - the netloc is the text after a leading `//`, up to the first `/`, `?` or `#`;
  - a netloc with an unmatched `[` or `]` raises `ValueError`.
- **Page check** (`PageCheck`). `UrlCheck.make_check` is a pure function from
  an abstract fetch outcome and document to a check record. The outcome is a
  client exception or a response with a status. The document gives the
  optional first `<h1>` text, the optional first `<title>` text and the first
  `meta name="description"` element.
- **Repository** (`Repository`). The `urls` and `url_checks` tables form an
  in-memory `Store` with serial id counters. Each SQL statement of `RepoUrls`
  and `RepoUrlChecks` is one atomic function. This includes the
  `LEFT JOIN … GROUP BY` aggregate, which pairs the latest check time with the
  lowest status code. `Sorting` models `ORDER BY … DESC` as an insertion sort.

Python attributes that may be missing, and SQL NULLs, are `Option` values.
Operations that raise return a `Result`. Clock readings (`datetime.now()`) are
`Timestamp` parameters.

Two behaviours of the code are easy to misread:
- `get_last_checks` uses a `LEFT JOIN`, so it returns one row for every stored
  url. A url with no checks gets NULL time and status.
- A check fails when reading the record's `name` raises, or when the HTTP
  client raises. `raise_for_status` raises for statuses 400 to 599 only. A
  response of 600 or above counts as successful, with `ok` true.

## Model

| member | source | states |
|---|---|---|
| `UrlSplit.Split` | page_analyzer/url_normalyzer.py:20-23 | `urlparse` raises exactly when the netloc of the cleaned text has an unmatched bracket. Otherwise the scheme is empty or a lower-case scheme, and the netloc holds no `/ ? #` and no tab, CR or LF. |
| `UrlSplit.RemoveUnsafe` | page_analyzer/url_normalyzer.py:20 | The result holds no tab, CR or LF, is never longer than the input, and is the input itself when the input has none. |
| `UrlSplit.RemoveUnsafeCounts` | page_analyzer/url_normalyzer.py:20 | Only tab, CR and LF are removed: every other character keeps its count. |
| `UrlSplit.RemoveUnsafeAppend` | page_analyzer/url_normalyzer.py:20 | Removal distributes over concatenation, so the kept characters stay in their order. |
| `UrlSplit.LStrip` | page_analyzer/url_normalyzer.py:20 | Stripping removes only C0/space characters from the front. The result is a suffix that is empty or starts with a character above space (U+0020). |
| `UrlSplit.SplitScheme` | page_analyzer/url_normalyzer.py:20-22 | A non-empty scheme passes the scheme test at its colon, equals the lower-cased prefix, and the rest is the text after the colon. Otherwise nothing is consumed. |
| `UrlSplit.SchemeAt` | page_analyzer/url_normalyzer.py:20-22 | Whenever a colon passes the scheme test, the scheme is the lower-cased text before it. The first such colon decides. |
| `UrlSplit.SplitNetloc` | page_analyzer/url_normalyzer.py:20-23 | After a leading `//`, the text splits into a delimiter-free netloc and a tail that is empty or starts with `/ ? #`. Without `//` the netloc is empty. |
| `UrlSplit.NetlocAt` | page_analyzer/url_normalyzer.py:20-23 | Any decomposition `//` + delimiter-free host + delimiter-led tail is the split: the netloc is unique. |
| `UrlSplit.ShapeOfSplit` | page_analyzer/url_normalyzer.py:20-24 | A split that found a scheme and a host read `scheme` (any case), `://`, the host, then nothing or a delimiter. |
| `UrlSplit.SplitOfShape` | page_analyzer/url_normalyzer.py:20-24 | Conversely, text of that shape splits into exactly that scheme and netloc. |
| `UrlNormalizer.Parse` | page_analyzer/url_normalyzer.py:18-24 | A record with no `text` raises, and empty text sets nothing. Otherwise scheme and netloc come from `urlparse`, and `name == scheme + "://" + netloc`. Id, text and timestamp are untouched. |
| `UrlNormalizer.IsValid` | page_analyzer/url_normalyzer.py:8-16 | A missing scheme or netloc gives false rather than raising. Otherwise the record is valid exactly when the scheme is `http` or `https` and the netloc is non-empty. |
| `UrlNormalizer.Normalize` | page_analyzer/url_normalyzer.py:8-24 | A parsed record is valid iff the split scheme is exactly `http` or `https` and the netloc is non-empty. Parsing raises only on malformed brackets. |
| `UrlNormalizer.UnparsedIsInvalid` | page_analyzer/url_normalyzer.py:8-19 | `Url({})`, a record holding only text, and a record parsed from empty text are all invalid; `is_valid` never raises. |
| `UrlNormalizer.ValidHasWebShape` | page_analyzer/url_normalyzer.py:8-24 | A valid parse comes from text whose cleaned form (leading C0 controls and spaces stripped, tab, CR and LF removed) reads `http`/`https` (any case), `://`, a non-empty host, then nothing or `/ ? #`. |
| `UrlNormalizer.WebShapeIsValid` | page_analyzer/url_normalyzer.py:8-24 | Text whose cleaned form has that shape is valid, with name `scheme://host` where `host` is the host as it appears in the cleaned form, unless that host has an unmatched bracket, in which case parsing raises. |
| `UrlNormalizer.SplitOfAuthority` | page_analyzer/url_normalyzer.py:20-24 | Path, query and fragment never reach the split: `scheme://netloc` followed by any delimiter-led tail splits into that scheme and netloc. Tabs, CRs and LFs in the tail make no difference. |
| `UrlNormalizer.NormalizeOfAuthority` | page_analyzer/url_normalyzer.py:18-24 | Parsing `scheme://netloc` plus any path, query or fragment records exactly that scheme, netloc and canonical name. |
| `UrlNormalizer.CanonicalNameIsFixedPoint` | page_analyzer/url_normalyzer.py:20-24 | Parsing the canonical name of a parse that found a scheme gives the same scheme, netloc and name. |
| `UrlNormalizer.ExampleWithPathAndQuery` | page_analyzer/url_normalyzer.py:20-24 | `https://example.com/page?x=1` is valid with name `https://example.com`. |
| `UrlNormalizer.ExampleFtp` | page_analyzer/url_normalyzer.py:10-11 | `ftp://example.com` parses with scheme `ftp` and is invalid. |
| `UrlNormalizer.ExampleNotAUrl` | page_analyzer/url_normalyzer.py:12-13 | `not a url` gets an empty scheme and netloc and is invalid. |
| `PageCheck.IsHttpError` | page_analyzer/parser.py:14 | `raise_for_status` raises exactly for client errors (4xx) and server errors (5xx). Statuses below 400 or from 600 up pass. |
| `PageCheck.DescriptionOf` | page_analyzer/parser.py:28-33 | The description is the first description meta's `content` when present and non-empty. It is `""` exactly when the meta, its content, or the content's text is missing or empty. |
| `PageCheck.MakeCheck` | page_analyzer/parser.py:11-33 | The check fails iff the record has no name, the client raised, or the status is 4xx/5xx. A failed check has an error and none of status, time, h1, title or description. A successful one has all of them: status and time from the response and clock, h1/title defaulted to `""`. |
| `PageCheck.SuccessIffComplete` | page_analyzer/parser.py:19-33 | A check defines every field the insert reads exactly when it succeeded. |
| `PageCheck.ExampleServerError` | page_analyzer/parser.py:12-18 | A 500 response yields `ok = False`, an HTTP error and no status code. |
| `PageCheck.ExampleTitleAndHeading` | page_analyzer/parser.py:19-33 | A 200 page with `<title>T</title>`, `<h1>H</h1>` and no meta gives title `T`, h1 `H` and description `""`. |
| `Sorting.SortDesc` | page_analyzer/database.py:56 | `ORDER BY … DESC` returns a permutation of its rows with non-increasing keys. |
| `Repository.FindByName` | page_analyzer/database.py:26-32 | Returns the id of a row whose name equals the argument, and none iff no row has that name. |
| `Repository.GetUrlIdByName` | page_analyzer/database.py:23-32 | The exact-name lookup over the `urls` table. Returns none iff no stored url has that name. |
| `Repository.FindById` | page_analyzer/database.py:37-41 | `WHERE urls.id = …` finds a row exactly when some stored row has that id, and the row it finds is a stored row with that id. |
| `Repository.GetUrlById` | page_analyzer/database.py:34-44 | A hit returns the stored row as a record with id, name, text and timestamp. A miss returns `Url({})`, never an error. The result has an id iff the url is stored. |
| `Repository.GetUrls` | page_analyzer/database.py:46-59 | The listing is a permutation of the stored urls' `(id, name, created_at)`, newest `created_at` first. |
| `Repository.GetUrlsListsEveryUrl` | page_analyzer/database.py:46-59 | Every stored url is listed, nothing else is, and there are as many rows as urls. |
| `Repository.AddUrl` | page_analyzer/database.py:61-75 | A missing name or text raises. Otherwise exactly one row is appended with the next serial id and the given timestamp, and the checks and the check id counter are untouched. The returned record carries only that id, which no stored url had, and the invariant is kept. |
| `Repository.AddUrlAsWritten` | page_analyzer/database.py:61-66 | The insert as written always raises. |
| `Repository.AddUrlAsWrittenAlwaysRaises` | page_analyzer/database.py:61-75 | For every parsed record, the corrected insert succeeds where the written one raises. |
| `Repository.AddedUrlIsFound` | page_analyzer/database.py:23-75 | After an insert, the name lookup finds a row, and the id lookup returns the new name and timestamp. |
| `Repository.AddAfterFailedLookupKeepsNamesUnique` | page_analyzer/database.py:23-75 | Inserting a name the lookup did not find keeps names unique. The lookup then returns exactly the new id. |
| `Repository.ChecksOf` | page_analyzer/database.py:90-91 | The `WHERE c.url_id = …` filter keeps exactly the checks of that url, each as often as it is stored, and drops every other check. |
| `Repository.GetChecksById` | page_analyzer/database.py:79-95 | Returns exactly the checks with that `url_id`, each once per stored row (a permutation of the filtered rows), highest check id first. |
| `Repository.AddUrlCheck` | page_analyzer/database.py:115-138 | Raises on the first missing field, in the order url id, status, h1, title, description, time, naming that field. With every field present it raises on an unknown url. Otherwise it appends exactly one check carrying the given url id and fields under the next serial id. It leaves `urls` and the url id counter unchanged and keeps the invariant. |
| `Repository.AddedCheckIsListedFirst` | page_analyzer/database.py:79-138 | The check just added is the first row of its url's check listing. |
| `Repository.MaxOf` | page_analyzer/database.py:104 | `MAX` is NULL over no rows. Otherwise it is a value of the column that bounds every value from above. |
| `Repository.NoChecksIff` | page_analyzer/database.py:106-109 | A url's group joins no check exactly when no stored check names that url. |
| `Repository.LatestOf` | page_analyzer/database.py:104 | A group's `MAX(c.created_at)` is the time of one of that url's checks and is no earlier than any of them. |
| `Repository.LowestOf` | page_analyzer/database.py:105 | A group's `MIN(c.status_code)` is the status of one of that url's checks and is no higher than any of them. |
| `Repository.MinOf` | page_analyzer/database.py:105 | `MIN` is NULL over no rows. Otherwise it is a value of the column that bounds every value from below. |
| `Repository.Summary` | page_analyzer/database.py:100-110 | A url's group has NULL time and status iff it has no checks. Otherwise the time is the latest check time and the status the lowest check status, each taken by some check of that url. |
| `Repository.GetLastChecks` | page_analyzer/database.py:97-113 | One summary per stored url, urls without checks included, highest url id first. |
| `Repository.ExampleStatusFromAnotherCheck` | page_analyzer/database.py:104-105 | Take checks 200 at time 10 and 404 at time 20. They summarise to time 20 with status 200, values from different checks. |
| `Repository.SuccessfulCheckIsStored` | page_analyzer/database.py:129-137 | A successful check of a stored url can always be inserted, and the new row carries its url id, status and time. |
| `Repository.FailedCheckIsNotStorable` | page_analyzer/database.py:129-137 | Inserting a failed check raises, because it lacks the status code. |

## Left out

- Connection pool, cursors and `conn.commit()`: resource plumbing; each statement is modelled as one atomic step.
- Storage failures (pool exhaustion, query errors): not modelled; each statement either succeeds or raises for the reasons listed in `DbError`.
- The HTTP request (`requests.get`, its 5-second timeout, redirects) and HTML parsing: foreign libraries, replaced by the `Fetch` and `Document` inputs.
- The error message text (`"Ошибка запроса: …"`): the record's `error` carries the cause of the failure, not the formatted string.
- Wall-clock time: every `datetime.now()` reading is a `Timestamp` parameter.
- `int(id)` in `get_url_by_id` and `get_checks_by_id`: ids are integers in the model, so the `ValueError` a non-numeric id would raise is not modelled.
- `UrlSplit.Split`: does not model the CPython 3.11.4+ check that a bracketed host is a valid IP literal, or the NFKC check on non-ASCII netlocs. Both rely on the `ipaddress` and `unicodedata` modules. The model accepts those inputs where Python may raise.
- `urlsplit`'s path, parameters, query and fragment: never used by the page analyzer.
- `Repository.AddUrlCheck`: a complete check that names no stored url fails on the foreign key. By then PostgreSQL has already drawn a value from the `url_checks.id` serial, and that draw is not rolled back. The model leaves the check id counter unchanged on that error. So after such a failure the model's next check id is one lower than the database's. Ids stay distinct and increasing either way.
- `UrlNormalizer.Parse`: models `text` as a string. The Python truthiness test on non-string values is not modelled.
- `Repository.GetUrlIdByName`: the query has no `ORDER BY`, so the row it reports among several with the same name is unspecified. The contract promises only some matching row. The model returns the first in storage order.
- The foreign key `url_checks.url_id → urls.id` is assumed, and the schema file is not part of this model. No unique constraint on `urls.name` is assumed.
- HTTP handlers, templates, flash messages and configuration (`page_analyzer/app.py`): UI plumbing.
- Races between concurrent submissions of the same URL: a concurrency concern. `Repository.AddAfterFailedLookupKeepsNamesUnique` states the sequential guarantee.

## Findings

| source | as written | input that shows it | evidently intended | confidence | as-written member | corrected member |
|---|---|---|---|---|---|---|
| page_analyzer/database.py:64 | `import datetime` (line 1) binds the module, so `datetime.now()` raises `AttributeError` before the `INSERT` runs | any call, e.g. `add_url` on the record parsed from `https://example.com` | take the current time with `datetime.datetime.now()` and insert one row stamped with it | high; not executed | `Repository.AddUrlAsWritten` (shown by `Repository.AddUrlAsWrittenAlwaysRaises`) | `Repository.AddUrl` |
