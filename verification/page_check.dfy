/** `UrlCheck.make_check`: fetch a stored url's canonical name once and turn
    the outcome into a check record. The HTTP request and the HTML parser are
    foreign code; the model receives what they produced as plain data: a
    `Fetch` outcome and, for a response, the `Document` elements the page
    analyzer looks up. */
module PageCheck {
  import opened Base
  import opened UrlNormalizer

  /** A `<meta name="description">` element and its optional `content`. */
  datatype Meta = Meta(content: Option<string>)

  /** What the HTML parser finds in a page: the text of the first `<h1>`, the
      text of the first `<title>`, and the first description meta element. */
  datatype Document = Document(h1: Option<string>, title: Option<string>, description: Option<Meta>)

  /** The outcome of the single GET request: an exception from the HTTP client
      (connection error, timeout, malformed URL), or a response. */
  datatype Fetch = Unreachable(detail: string) | Response(status: int, page: Document)

  /** Why a check failed; the record's `error` carries it. */
  datatype Failure =
    | NoName                     // the url record has no `name` to fetch
    | RequestFailed(detail: string)
    | HttpError(status: int)     // `raise_for_status` raised

  /** A check record; `None` is an attribute `make_check` never set. */
  datatype UrlCheck = UrlCheck(
    url: Url,
    ok: Option<bool>,
    error: Option<Failure>,
    statusCode: Option<int>,
    createdAt: Option<Timestamp>,
    h1: Option<string>,
    title: Option<string>,
    description: Option<string>)

  /** `UrlCheck(url)` before `make_check` runs. */
  function NewCheck(url: Url): UrlCheck {
    UrlCheck(url, None, None, None, None, None, None, None)
  }

  /** The statuses `raise_for_status` raises for: client errors (4xx) and
      server errors (5xx). `Response.ok` is its negation. */
  function IsHttpError(status: int): (r: bool)
    ensures r <==> status / 100 == 4 || status / 100 == 5
  {
    400 <= status < 600
  }

  /** The `content` of the description meta element when it is present and
      non-empty, otherwise the empty string. */
  function DescriptionOf(page: Document): (r: string)
    ensures r != "" ==> page.description == Some(Meta(Some(r)))
    ensures r == "" <==>
              (page.description.None? || page.description.value.content.None? ||
               page.description.value.content.value == "")
  {
    match page.description
    case Some(Meta(Some(content))) => if content != "" then content else ""
    case _ => ""
  }

  /** The check record for `url`, given what fetching its name produced and
      the clock reading `now` taken after a successful fetch. */
  function MakeCheck(url: Url, fetch: Fetch, now: Timestamp): (r: UrlCheck)
    ensures r.url == url && r.ok.Some?
    ensures !r.ok.value <==>
              url.name.None? || fetch.Unreachable? || IsHttpError(fetch.status)
    ensures !r.ok.value ==>
              && r.error.Some?
              && r.statusCode.None? && r.createdAt.None?
              && r.h1.None? && r.title.None? && r.description.None?
    ensures r.ok.value ==>
              && r.error.None?
              && r.statusCode == Some(fetch.status) && !IsHttpError(fetch.status)
              && r.createdAt == Some(now)
              && r.h1 == Some(fetch.page.h1.GetOr(""))
              && r.title == Some(fetch.page.title.GetOr(""))
              && r.description == Some(DescriptionOf(fetch.page))
  {
    var blank := NewCheck(url);
    if url.name.None? then
      blank.(ok := Some(false), error := Some(NoName))
    else match fetch
      case Unreachable(detail) =>
        blank.(ok := Some(false), error := Some(RequestFailed(detail)))
      case Response(status, page) =>
        if IsHttpError(status) then
          blank.(ok := Some(false), error := Some(HttpError(status)))
        else
          blank.(statusCode := Some(status), ok := Some(!IsHttpError(status)), createdAt := Some(now),
                 h1 := Some(if page.h1.Some? then page.h1.value else ""),
                 title := Some(if page.title.Some? then page.title.value else ""),
                 description := Some(DescriptionOf(page)))
  }

  /** A successful check defines every attribute the repository stores. */
  predicate IsComplete(c: UrlCheck) {
    c.statusCode.Some? && c.h1.Some? && c.title.Some? && c.description.Some? && c.createdAt.Some?
  }

  /** Every check is complete exactly when it succeeded. */
  lemma SuccessIffComplete(url: Url, fetch: Fetch, now: Timestamp)
    ensures MakeCheck(url, fetch, now).ok == Some(true) <==> IsComplete(MakeCheck(url, fetch, now))
  {
  }

  /** A server error produces a failed check without a status code. */
  lemma ExampleServerError(url: Url, page: Document, now: Timestamp)
    requires url.name.Some?
    ensures MakeCheck(url, Response(500, page), now).ok == Some(false)
    ensures MakeCheck(url, Response(500, page), now).error == Some(HttpError(500))
    ensures MakeCheck(url, Response(500, page), now).statusCode.None?
  {
  }

  /** A 200 page with a title and an h1 but no description meta element. */
  lemma ExampleTitleAndHeading(url: Url, now: Timestamp)
    requires url.name.Some?
    ensures var c := MakeCheck(url, Response(200, Document(Some("H"), Some("T"), None)), now);
            c.ok == Some(true) && c.statusCode == Some(200) &&
            c.title == Some("T") && c.h1 == Some("H") && c.description == Some("")
  {
  }
}
