/** The repository layer: the `urls` and `url_checks` tables held as an
    in-memory store, and every SQL statement of `RepoUrls` and `RepoUrlChecks`
    as a function from the store (and the statement's parameters) to its
    result or to the next store. Each statement is one atomic step; the
    connection pool, cursors and commits around it are not modelled. */
module Repository {
  import opened Base
  import opened UrlNormalizer
  import opened PageCheck
  import Sorting

  // ---------------------------------------------------------------------------
  // Tables

  /** A row of `urls`. */
  datatype UrlRow = UrlRow(id: int, name: string, text: string, createdAt: Timestamp)

  /** A row of `url_checks`. */
  datatype CheckRow = CheckRow(
    id: int,
    urlId: int,
    statusCode: int,
    h1: string,
    title: string,
    description: string,
    createdAt: Timestamp)

  /** Both tables, with the next value of each table's id sequence. */
  datatype Store = Store(urls: seq<UrlRow>, checks: seq<CheckRow>, nextUrlId: int, nextCheckId: int)

  /** Freshly created tables; serial ids start at 1. */
  const EmptyStore := Store([], [], 1, 1)

  /** Why a statement raises: an attribute of a record was never set, or the
      new check refers to no stored url. */
  datatype DbError = MissingAttribute(attribute: string) | ForeignKeyViolation

  predicate HasUrl(s: Store, id: int) {
    exists i :: 0 <= i < |s.urls| && s.urls[i].id == id
  }

  /** The invariant every statement keeps: ids are positive, distinct and
      below the next value of their sequence, and every check refers to a
      stored url. */
  predicate Wf(s: Store) {
    && 1 <= s.nextUrlId && 1 <= s.nextCheckId
    && (forall i :: 0 <= i < |s.urls| ==> 1 <= s.urls[i].id < s.nextUrlId)
    && (forall i, j :: 0 <= i < j < |s.urls| ==> s.urls[i].id != s.urls[j].id)
    && (forall i :: 0 <= i < |s.checks| ==> 1 <= s.checks[i].id < s.nextCheckId)
    && (forall i, j :: 0 <= i < j < |s.checks| ==> s.checks[i].id != s.checks[j].id)
    && (forall i :: 0 <= i < |s.checks| ==> HasUrl(s, s.checks[i].urlId))
  }

  lemma EmptyStoreIsWf()
    ensures Wf(EmptyStore) && EmptyStore.urls == [] && EmptyStore.checks == []
  {
  }

  /** No two stored urls share a name: what the lookup before every insert
      is meant to guarantee. */
  predicate UniqueNames(s: Store) {
    forall i, j :: 0 <= i < j < |s.urls| ==> s.urls[i].name != s.urls[j].name
  }

  // ---------------------------------------------------------------------------
  // RepoUrls

  /** `SELECT id FROM urls WHERE urls.name = name`, first row. */
  function FindByName(urls: seq<UrlRow>, name: string): (r: Option<int>)
    ensures r.None? <==> forall i :: 0 <= i < |urls| ==> urls[i].name != name
    ensures r.Some? ==> exists i :: 0 <= i < |urls| && urls[i].name == name && urls[i].id == r.value
  {
    if urls == [] then None
    else if urls[0].name == name then Some(urls[0].id)
    else
      var r := FindByName(urls[1..], name);
      assert forall i :: 1 <= i < |urls| ==> urls[i] == urls[1..][i - 1];
      r
  }

  /** `RepoUrls.get_url_id_by_name`: exact match on the canonical name. */
  function GetUrlIdByName(s: Store, name: string): (r: Option<int>)
    ensures r.None? <==> forall i :: 0 <= i < |s.urls| ==> s.urls[i].name != name
    ensures r.Some? ==> exists i :: 0 <= i < |s.urls| && s.urls[i].name == name && s.urls[i].id == r.value
  {
    FindByName(s.urls, name)
  }

  /** The record `Url(row)` built from a `SELECT *` row. */
  function UrlOfRow(row: UrlRow): Url {
    Url(Some(row.id), Some(row.name), Some(row.text), None, None, Some(row.createdAt))
  }

  /** `SELECT * FROM urls WHERE urls.id = id`, first row. */
  function FindById(urls: seq<UrlRow>, id: int): (r: Option<UrlRow>)
    ensures r.None? <==> forall i :: 0 <= i < |urls| ==> urls[i].id != id
    ensures r.Some? ==> r.value in urls && r.value.id == id
  {
    if urls == [] then None
    else if urls[0].id == id then Some(urls[0])
    else
      var r := FindById(urls[1..], id);
      assert forall i :: 1 <= i < |urls| ==> urls[i] == urls[1..][i - 1];
      r
  }

  /** `RepoUrls.get_url_by_id`: the stored record, or `Url({})` on a miss. */
  function GetUrlById(s: Store, id: int): (r: Url)
    ensures HasUrl(s, id) ==> exists i :: 0 <= i < |s.urls| && s.urls[i].id == id && r == UrlOfRow(s.urls[i])
    ensures !HasUrl(s, id) ==> r == Empty
    ensures r.id.Some? <==> HasUrl(s, id)
  {
    match FindById(s.urls, id)
    case Some(row) => UrlOfRow(row)
    case None => Empty
  }

  /** A row of the `get_urls` listing. */
  datatype UrlEntry = UrlEntry(id: int, name: string, createdAt: Timestamp)

  function EntryOfUrl(row: UrlRow): UrlEntry {
    UrlEntry(row.id, row.name, row.createdAt)
  }

  function UrlEntries(urls: seq<UrlRow>): (r: seq<UrlEntry>)
    ensures |r| == |urls|
    ensures forall i :: 0 <= i < |urls| ==> r[i] == EntryOfUrl(urls[i])
  {
    seq(|urls|, i requires 0 <= i < |urls| => EntryOfUrl(urls[i]))
  }

  function EntryCreatedAt(e: UrlEntry): int { e.createdAt }

  /** `RepoUrls.get_urls`: every stored url once, newest `created_at` first. */
  function GetUrls(s: Store): (r: seq<UrlEntry>)
    ensures multiset(r) == multiset(UrlEntries(s.urls))
    ensures Sorting.SortedDesc(r, EntryCreatedAt)
  {
    Sorting.SortDesc(UrlEntries(s.urls), EntryCreatedAt)
  }

  /** Every stored url is listed, and nothing else is. */
  lemma GetUrlsListsEveryUrl(s: Store)
    ensures |GetUrls(s)| == |s.urls|
    ensures forall i :: 0 <= i < |s.urls| ==> EntryOfUrl(s.urls[i]) in GetUrls(s)
    ensures forall e :: e in GetUrls(s) ==> exists i :: 0 <= i < |s.urls| && e == EntryOfUrl(s.urls[i])
  {
    var r := GetUrls(s);
    var es := UrlEntries(s.urls);
    assert |r| == |multiset(r)| == |multiset(es)| == |es|;
    forall i | 0 <= i < |s.urls|
      ensures EntryOfUrl(s.urls[i]) in r
    {
      assert es[i] in multiset(es);
    }
    forall e | e in r
      ensures exists i :: 0 <= i < |s.urls| && e == EntryOfUrl(s.urls[i])
    {
      assert e in multiset(es);
      var i :| 0 <= i < |es| && es[i] == e;
    }
  }

  /** The result of an insert into `urls`: the new store and the record
      `Url(row)` built from the `RETURNING id` row, which holds only the id. */
  datatype Added = Added(store: Store, url: Url)

  /** `RepoUrls.add_url` with the clock reading `now` as a parameter: one
      insert, stamped `now`, under the next serial id. */
  function AddUrl(s: Store, u: Url, now: Timestamp): (r: Result<Added, DbError>)
    ensures u.name.None? ==> r == Err(MissingAttribute("name"))
    ensures u.name.Some? && u.text.None? ==> r == Err(MissingAttribute("text"))
    ensures r.Ok? <==> u.name.Some? && u.text.Some?
    ensures r.Ok? ==>
              var s' := r.value.store;
              && r.value.url == Empty.(id := Some(s.nextUrlId))
              && s'.urls == s.urls + [UrlRow(s.nextUrlId, u.name.value, u.text.value, now)]
              && s'.checks == s.checks && s'.nextCheckId == s.nextCheckId
              && s'.nextUrlId == s.nextUrlId + 1
              && (Wf(s) ==> Wf(s') && !HasUrl(s, r.value.url.id.value))
  {
    if u.name.None? then Err(MissingAttribute("name"))
    else if u.text.None? then Err(MissingAttribute("text"))
    else
      var row := UrlRow(s.nextUrlId, u.name.value, u.text.value, now);
      var s' := s.(urls := s.urls + [row], nextUrlId := s.nextUrlId + 1);
      assert forall i :: 0 <= i < |s.urls| ==> s'.urls[i] == s.urls[i];
      assert forall id :: HasUrl(s, id) ==> HasUrl(s', id);
      Ok(Added(s', Empty.(id := Some(s.nextUrlId))))
  }

  /** `add_url` as the source writes it: `import datetime` binds the module,
      so `datetime.now()` looks up an attribute the module does not have and
      raises before anything is inserted. */
  function AddUrlAsWritten(s: Store, u: Url): (r: Result<Added, DbError>)
    ensures r.Err?
  {
    Err(MissingAttribute("now"))
  }

  /** The discrepancy: for every parsed record the corrected insert succeeds
      while the insert as written raises and leaves the store unchanged. */
  lemma AddUrlAsWrittenAlwaysRaises(s: Store, text: string, now: Timestamp)
    requires text != "" && Normalize(text).Ok?
    ensures AddUrl(s, Normalize(text).value, now).Ok?
    ensures AddUrlAsWritten(s, Normalize(text).value) == Err(MissingAttribute("now"))
  {
  }

  /** The url just added is found by its name and by its id. */
  lemma {:induction false} AddedUrlIsFound(s: Store, u: Url, now: Timestamp)
    requires Wf(s) && AddUrl(s, u, now).Ok?
    ensures var a := AddUrl(s, u, now).value;
            && GetUrlIdByName(a.store, u.name.value).Some?
            && GetUrlById(a.store, a.url.id.value).name == u.name
            && GetUrlById(a.store, a.url.id.value).createdAt == Some(now)
  {
    var a := AddUrl(s, u, now).value;
    var n := |s.urls|;
    assert a.store.urls[n].id == a.url.id.value;
    assert a.store.urls[n].name == u.name.value;
  }

  /** Deduplication: inserting a name that the lookup did not find keeps
      names unique, and the lookup then finds exactly the new row. */
  lemma {:induction false} AddAfterFailedLookupKeepsNamesUnique(s: Store, u: Url, now: Timestamp)
    requires Wf(s) && UniqueNames(s)
    requires u.name.Some? && u.text.Some?
    requires GetUrlIdByName(s, u.name.value).None?
    ensures var a := AddUrl(s, u, now).value;
            UniqueNames(a.store) && GetUrlIdByName(a.store, u.name.value) == a.url.id
  {
    var a := AddUrl(s, u, now).value;
    var urls := a.store.urls;
    var n := |s.urls|;
    assert forall i :: 0 <= i < n ==> urls[i] == s.urls[i];
    var found := GetUrlIdByName(a.store, u.name.value);
    var k :| 0 <= k < |urls| && urls[k].name == u.name.value && urls[k].id == found.value;
    assert k == n;
  }

  // ---------------------------------------------------------------------------
  // RepoUrlChecks

  /** `WHERE c.url_id = urlId`, in storage order. */
  function ChecksOf(checks: seq<CheckRow>, urlId: int): (r: seq<CheckRow>)
    ensures |r| <= |checks|
    ensures forall c :: c in r <==> c in checks && c.urlId == urlId
    ensures forall c :: multiset(r)[c] == if c.urlId == urlId then multiset(checks)[c] else 0
  {
    if checks == [] then []
    else
      var rest := ChecksOf(checks[1..], urlId);
      assert checks == [checks[0]] + checks[1..];
      if checks[0].urlId == urlId then [checks[0]] + rest else rest
  }

  /** A row of the `get_checks_by_id` listing. */
  datatype CheckEntry = CheckEntry(
    id: int,
    statusCode: int,
    h1: string,
    title: string,
    description: string,
    createdAt: Timestamp)

  function EntryOfCheck(c: CheckRow): CheckEntry {
    CheckEntry(c.id, c.statusCode, c.h1, c.title, c.description, c.createdAt)
  }

  function CheckEntries(checks: seq<CheckRow>): (r: seq<CheckEntry>)
    ensures |r| == |checks|
    ensures forall i :: 0 <= i < |checks| ==> r[i] == EntryOfCheck(checks[i])
  {
    seq(|checks|, i requires 0 <= i < |checks| => EntryOfCheck(checks[i]))
  }

  function CheckEntryId(e: CheckEntry): int { e.id }

  /** `RepoUrlChecks.get_checks_by_id`: the checks of one url, highest check
      id (the newest) first. */
  function GetChecksById(s: Store, urlId: int): (r: seq<CheckEntry>)
    ensures Sorting.SortedDesc(r, CheckEntryId)
    ensures forall e :: e in r <==> exists c :: c in s.checks && c.urlId == urlId && e == EntryOfCheck(c)
    ensures multiset(r) == multiset(CheckEntries(ChecksOf(s.checks, urlId)))
  {
    var own := ChecksOf(s.checks, urlId);
    var es := CheckEntries(own);
    var r := Sorting.SortDesc(es, CheckEntryId);
    forall e
      ensures e in r <==> exists c :: c in s.checks && c.urlId == urlId && e == EntryOfCheck(c)
    {
      Sorting.SortDescMembers(es, CheckEntryId, e);
      if e in es {
        var i :| 0 <= i < |es| && es[i] == e;
        assert own[i] in own;
      }
      if exists c :: c in s.checks && c.urlId == urlId && e == EntryOfCheck(c) {
        var c :| c in s.checks && c.urlId == urlId && e == EntryOfCheck(c);
        assert c in own;
        var i :| 0 <= i < |own| && own[i] == c;
        assert es[i] == e;
      }
    }
    r
  }

  /** `RepoUrlChecks.add_url_check`: the parameters are read in the order
      `url.id`, `status_code`, `h1`, `title`, `description`, `created_at`;
      the first one missing raises, and so does a `url_id` naming no stored
      url. Otherwise one row is appended under the next serial id. */
  function AddUrlCheck(s: Store, c: UrlCheck): (r: Result<Store, DbError>)
    ensures c.url.id.None? ==> r == Err(MissingAttribute("id"))
    ensures c.url.id.Some? && c.statusCode.None? ==> r == Err(MissingAttribute("status_code"))
    ensures c.url.id.Some? && c.statusCode.Some? && c.h1.None? ==> r == Err(MissingAttribute("h1"))
    ensures c.url.id.Some? && c.statusCode.Some? && c.h1.Some? && c.title.None? ==>
              r == Err(MissingAttribute("title"))
    ensures c.url.id.Some? && c.statusCode.Some? && c.h1.Some? && c.title.Some? && c.description.None? ==>
              r == Err(MissingAttribute("description"))
    ensures (c.url.id.Some? && c.statusCode.Some? && c.h1.Some? && c.title.Some? && c.description.Some? &&
             c.createdAt.None?) ==> r == Err(MissingAttribute("created_at"))
    ensures c.url.id.Some? && !IsComplete(c) ==> r.Err? && r.error.MissingAttribute?
    ensures c.url.id.Some? && IsComplete(c) && !HasUrl(s, c.url.id.value) ==> r == Err(ForeignKeyViolation)
    ensures r.Ok? <==> c.url.id.Some? && IsComplete(c) && HasUrl(s, c.url.id.value)
    ensures r.Ok? ==>
              && r.value.urls == s.urls && r.value.nextUrlId == s.nextUrlId
              && r.value.nextCheckId == s.nextCheckId + 1
              && r.value.checks == s.checks + [CheckRow(s.nextCheckId, c.url.id.value, c.statusCode.value,
                                                        c.h1.value, c.title.value, c.description.value,
                                                        c.createdAt.value)]
              && (Wf(s) ==> Wf(r.value))
  {
    if c.url.id.None? then Err(MissingAttribute("id"))
    else if c.statusCode.None? then Err(MissingAttribute("status_code"))
    else if c.h1.None? then Err(MissingAttribute("h1"))
    else if c.title.None? then Err(MissingAttribute("title"))
    else if c.description.None? then Err(MissingAttribute("description"))
    else if c.createdAt.None? then Err(MissingAttribute("created_at"))
    else if !HasUrl(s, c.url.id.value) then Err(ForeignKeyViolation)
    else
      var row := CheckRow(s.nextCheckId, c.url.id.value, c.statusCode.value, c.h1.value,
                          c.title.value, c.description.value, c.createdAt.value);
      var s' := s.(checks := s.checks + [row], nextCheckId := s.nextCheckId + 1);
      assert forall i :: 0 <= i < |s.checks| ==> s'.checks[i] == s.checks[i];
      Ok(s')
  }

  // ---------------------------------------------------------------------------
  // The latest-check aggregate

  /** `MAX` over a column; NULL over no rows. */
  function MaxOf(xs: seq<int>): (r: Option<int>)
    ensures r.None? <==> xs == []
    ensures r.Some? ==> r.value in xs && forall i :: 0 <= i < |xs| ==> xs[i] <= r.value
  {
    if xs == [] then None
    else match MaxOf(xs[1..])
      case None => Some(xs[0])
      case Some(m) =>
        assert forall i :: 1 <= i < |xs| ==> xs[i] == xs[1..][i - 1];
        Some(Max(xs[0], m))
  }

  /** `MIN` over a column; NULL over no rows. */
  function MinOf(xs: seq<int>): (r: Option<int>)
    ensures r.None? <==> xs == []
    ensures r.Some? ==> r.value in xs && forall i :: 0 <= i < |xs| ==> r.value <= xs[i]
  {
    if xs == [] then None
    else match MinOf(xs[1..])
      case None => Some(xs[0])
      case Some(m) =>
        assert forall i :: 1 <= i < |xs| ==> xs[i] == xs[1..][i - 1];
        Some(Min(xs[0], m))
  }

  /** A row of the `get_last_checks` listing. */
  datatype LastCheck = LastCheck(id: int, name: string, createdAt: Option<Timestamp>, statusCode: Option<int>)

  /** One group of `urls LEFT JOIN url_checks ... GROUP BY u.id, u.name`: the
      latest check time, and the lowest status code over the same checks. */
  function Summary(u: UrlRow, checks: seq<CheckRow>): (r: LastCheck)
    ensures r.id == u.id && r.name == u.name
    ensures r.createdAt.None? <==> forall c :: c in checks ==> c.urlId != u.id
    ensures r.statusCode.None? <==> r.createdAt.None?
    ensures r.createdAt.Some? ==>
              && (exists c :: c in checks && c.urlId == u.id && c.createdAt == r.createdAt.value)
              && (forall c :: c in checks && c.urlId == u.id ==> c.createdAt <= r.createdAt.value)
    ensures r.statusCode.Some? ==>
              && (exists c :: c in checks && c.urlId == u.id && c.statusCode == r.statusCode.value)
              && (forall c :: c in checks && c.urlId == u.id ==> r.statusCode.value <= c.statusCode)
  {
    var own := ChecksOf(checks, u.id);
    var latest := MaxOf(CreatedAts(own));
    var lowest := MinOf(StatusCodes(own));
    NoChecksIff(checks, u.id);
    LatestOf(checks, u.id);
    LowestOf(checks, u.id);
    LastCheck(u.id, u.name, latest, lowest)
  }

  lemma NoChecksIff(checks: seq<CheckRow>, urlId: int)
    ensures ChecksOf(checks, urlId) == [] <==> forall c :: c in checks ==> c.urlId != urlId
  {
    var own := ChecksOf(checks, urlId);
    if own != [] {
      assert own[0] in own;
    }
  }

  /** The `MAX(c.created_at)` of one url's group is attained and bounds it. */
  lemma LatestOf(checks: seq<CheckRow>, urlId: int)
    ensures var latest := MaxOf(CreatedAts(ChecksOf(checks, urlId)));
            latest.Some? ==>
              && (exists c :: c in checks && c.urlId == urlId && c.createdAt == latest.value)
              && (forall c :: c in checks && c.urlId == urlId ==> c.createdAt <= latest.value)
  {
    var own := ChecksOf(checks, urlId);
    var times := CreatedAts(own);
    var latest := MaxOf(times);
    if latest.Some? {
      var i :| 0 <= i < |times| && times[i] == latest.value;
      assert own[i] in own;
      forall c | c in checks && c.urlId == urlId
        ensures c.createdAt <= latest.value
      {
        var j :| 0 <= j < |own| && own[j] == c;
        assert times[j] == c.createdAt;
      }
    }
  }

  /** The `MIN(c.status_code)` of one url's group is attained and bounds it. */
  lemma LowestOf(checks: seq<CheckRow>, urlId: int)
    ensures var lowest := MinOf(StatusCodes(ChecksOf(checks, urlId)));
            lowest.Some? ==>
              && (exists c :: c in checks && c.urlId == urlId && c.statusCode == lowest.value)
              && (forall c :: c in checks && c.urlId == urlId ==> lowest.value <= c.statusCode)
  {
    var own := ChecksOf(checks, urlId);
    var statuses := StatusCodes(own);
    var lowest := MinOf(statuses);
    if lowest.Some? {
      var i :| 0 <= i < |statuses| && statuses[i] == lowest.value;
      assert own[i] in own;
      forall c | c in checks && c.urlId == urlId
        ensures lowest.value <= c.statusCode
      {
        var j :| 0 <= j < |own| && own[j] == c;
        assert statuses[j] == c.statusCode;
      }
    }
  }

  /** The `created_at` column of some checks. */
  function CreatedAts(checks: seq<CheckRow>): (r: seq<Timestamp>)
    ensures |r| == |checks|
    ensures forall i :: 0 <= i < |checks| ==> r[i] == checks[i].createdAt
  {
    seq(|checks|, i requires 0 <= i < |checks| => checks[i].createdAt)
  }

  /** The `status_code` column of some checks. */
  function StatusCodes(checks: seq<CheckRow>): (r: seq<int>)
    ensures |r| == |checks|
    ensures forall i :: 0 <= i < |checks| ==> r[i] == checks[i].statusCode
  {
    seq(|checks|, i requires 0 <= i < |checks| => checks[i].statusCode)
  }

  /** The groups of all stored urls, in storage order. */
  function Summaries(urls: seq<UrlRow>, checks: seq<CheckRow>): (r: seq<LastCheck>)
    ensures |r| == |urls|
    ensures forall i :: 0 <= i < |urls| ==> r[i] == Summary(urls[i], checks)
  {
    seq(|urls|, i requires 0 <= i < |urls| => Summary(urls[i], checks))
  }

  function LastCheckId(l: LastCheck): int { l.id }

  /** `RepoUrlChecks.get_last_checks`: one summary per stored url, urls
      without checks included, highest url id first. */
  function GetLastChecks(s: Store): (r: seq<LastCheck>)
    ensures |r| == |s.urls|
    ensures Sorting.SortedDesc(r, LastCheckId)
    ensures forall i :: 0 <= i < |s.urls| ==> Summary(s.urls[i], s.checks) in r
    ensures forall l :: l in r ==> exists i :: 0 <= i < |s.urls| && l == Summary(s.urls[i], s.checks)
  {
    var all := Summaries(s.urls, s.checks);
    var r := Sorting.SortDesc(all, LastCheckId);
    forall l
      ensures l in r <==> l in all
    {
      Sorting.SortDescMembers(all, LastCheckId, l);
    }
    assert forall i :: 0 <= i < |s.urls| ==> all[i] in all;
    r
  }

  // ---------------------------------------------------------------------------
  // How the pieces fit

  /** A successful check of a stored url can always be stored, and the row
      carries exactly what the check extracted. */
  lemma SuccessfulCheckIsStored(s: Store, url: Url, fetch: Fetch, now: Timestamp)
    requires url.id.Some? && HasUrl(s, url.id.value)
    requires MakeCheck(url, fetch, now).ok == Some(true)
    ensures var r := AddUrlCheck(s, MakeCheck(url, fetch, now));
            && r.Ok?
            && r.value.urls == s.urls
            && r.value.checks[|s.checks|].urlId == url.id.value
            && r.value.checks[|s.checks|].statusCode == fetch.status
            && r.value.checks[|s.checks|].createdAt == now
  {
  }

  /** A failed check cannot be stored: it lacks the status code. */
  lemma FailedCheckIsNotStorable(s: Store, url: Url, fetch: Fetch, now: Timestamp)
    requires MakeCheck(url, fetch, now).ok == Some(false)
    ensures AddUrlCheck(s, MakeCheck(url, fetch, now)).Err?
  {
  }

  /** The check just added is listed first among its url's checks. */
  lemma {:induction false} AddedCheckIsListedFirst(s: Store, c: UrlCheck)
    requires Wf(s) && AddUrlCheck(s, c).Ok?
    ensures var s' := AddUrlCheck(s, c).value;
            var listed := GetChecksById(s', c.url.id.value);
            listed != [] && listed[0] == EntryOfCheck(s'.checks[|s.checks|])
  {
    var s' := AddUrlCheck(s, c).value;
    var u := c.url.id.value;
    var row := s'.checks[|s.checks|];
    var listed := GetChecksById(s', u);
    assert row in s'.checks;
    assert EntryOfCheck(row) in listed;
    var first := listed[0];
    assert first in listed;
    var c0 :| c0 in s'.checks && c0.urlId == u && first == EntryOfCheck(c0);
    var k :| 0 <= k < |listed| && listed[k] == EntryOfCheck(row);
    assert CheckEntryId(listed[0]) >= CheckEntryId(listed[k]);
  }

  /** The representative status need not come from the latest check: a url
      checked with 200 and later with 404 is summarised with the latest time
      and status 200. */
  lemma ExampleStatusFromAnotherCheck()
    ensures var u := UrlRow(1, "https://example.com", "https://example.com", 0);
            var checks := [CheckRow(1, 1, 200, "", "", "", 10), CheckRow(2, 1, 404, "", "", "", 20)];
            Summary(u, checks) == LastCheck(1, "https://example.com", Some(20), Some(200))
  {
    var u := UrlRow(1, "https://example.com", "https://example.com", 0);
    var checks := [CheckRow(1, 1, 200, "", "", "", 10), CheckRow(2, 1, 404, "", "", "", 20)];
    var l := Summary(u, checks);
    assert checks[0] in checks && checks[1] in checks;
  }
}
