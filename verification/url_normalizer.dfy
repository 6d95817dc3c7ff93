/** The `Url` record of the page analyzer: a bag of optional attributes that is
    filled in step by step (from the submitted form text, by parsing, or from a
    database row), its canonicalising `parse` and its `is_valid` predicate. The
    canonical `name`, `scheme://netloc`, is the key urls are deduplicated by. */
module UrlNormalizer {
  import opened Base
  import opened UrlSplit

  /** Every attribute a `Url` object can carry; `None` is an attribute that was
      never set. */
  datatype Url = Url(
    id: Option<int>,
    name: Option<string>,
    text: Option<string>,
    scheme: Option<string>,
    netloc: Option<string>,
    createdAt: Option<Timestamp>)

  /** `Url({})`: the record with no attribute at all. */
  const Empty := Url(None, None, None, None, None, None)

  /** `Url({"text": text})`: a record holding only the submitted text. */
  function FromText(text: string): Url {
    Empty.(text := Some(text))
  }

  /** Why `parse` raises: the record has no `text` attribute, or `urlparse`
      rejected the text. */
  datatype ParseError = MissingText | Malformed(cause: SplitError)

  /** The canonical name built from a scheme and a network location. */
  function CanonicalName(scheme: string, netloc: string): string {
    scheme + "://" + netloc
  }

  /** `Url.parse`: empty text sets nothing; otherwise `scheme`, `netloc` and
      the canonical `name` are set from `urlparse(text)`, which may raise. */
  function Parse(u: Url): (r: Result<Url, ParseError>)
    ensures u.text.None? <==> r == Err(MissingText)
    ensures u.text == Some("") ==> r == Ok(u)
    ensures r.Ok? ==>
              r.value.id == u.id && r.value.text == u.text && r.value.createdAt == u.createdAt
    ensures r.Ok? && u.text.Some? && u.text.value != "" ==>
              && Split(u.text.value).Ok?
              && var p := Split(u.text.value).value;
              && r.value.scheme == Some(p.scheme) && r.value.netloc == Some(p.netloc)
              && r.value.name == Some(CanonicalName(p.scheme, p.netloc))
    ensures r.Err? && u.text.Some? ==> Split(u.text.value).Err?
  {
    match u.text
    case None => Err(MissingText)
    case Some(text) =>
      if text == "" then Ok(u)
      else match Split(text)
        case Err(e) => Err(Malformed(e))
        case Ok(p) =>
          Ok(u.(scheme := Some(p.scheme), netloc := Some(p.netloc),
                name := Some(CanonicalName(p.scheme, p.netloc))))
  }

  /** `Url.is_valid`: a missing attribute makes the record invalid rather than
      raising. */
  function IsValid(u: Url): (r: bool)
    ensures u.scheme.None? || u.netloc.None? ==> !r
    ensures r <==> u.scheme in {Some("http"), Some("https")} && u.netloc !in {None, Some("")}
  {
    && u.scheme.Some? && (u.scheme.value == "http" || u.scheme.value == "https")
    && u.netloc.Some? && u.netloc.value != ""
  }

  /** `urlsplit` parts that `is_valid` would accept. */
  predicate IsWebParts(p: Parts) {
    (p.scheme == "http" || p.scheme == "https") && p.netloc != ""
  }

  /** `parse` followed by `is_valid`, the way a submitted form field is judged;
      a parse that raises is reported as the error. */
  function Normalize(text: string): (r: Result<Url, ParseError>)
    ensures r.Ok? ==> r.value.text == Some(text) && r.value.id.None?
    ensures r.Ok? && text != "" ==> r.value.name.Some? && r.value.scheme.Some? && r.value.netloc.Some?
    ensures r.Ok? && text != "" ==>
              Split(text).Ok? && (IsValid(r.value) <==> IsWebParts(Split(text).value))
    ensures r.Err? <==> Split(text).Err? && text != ""
  {
    Parse(FromText(text))
  }

  // ---------------------------------------------------------------------------
  // Properties

  /** Records that were never parsed, including `Url({})` and a record holding
      only text, are invalid; parsing empty text keeps them so. */
  lemma UnparsedIsInvalid(text: string)
    ensures !IsValid(Empty)
    ensures !IsValid(FromText(text))
    ensures Parse(FromText("")) == Ok(FromText("")) && !IsValid(FromText(""))
  {
  }

  // ---------------------------------------------------------------------------
  // The shape of a valid URL

  /** `c` reads `http` or `https` (in any letter case), then `://`, then a
      non-empty `netloc`, then either nothing or a `/`, `?` or `#`. Applied
      to `Clean(text)`, the submitted text with leading C0 controls and
      spaces stripped and tab, CR and LF removed, it describes the texts a
      valid record can be parsed from; `netloc` is then the host as it
      appears in the cleaned text. */
  predicate WebShape(c: string, scheme: string, netloc: string) {
    (scheme == "http" || scheme == "https") && netloc != "" && AuthorityShape(c, scheme, netloc)
  }

  /** A valid parse comes from text whose cleaned form has web shape. */
  lemma {:induction false} ValidHasWebShape(text: string)
    requires text != "" && Normalize(text).Ok? && IsValid(Normalize(text).value)
    ensures WebShape(Clean(text), Normalize(text).value.scheme.value, Normalize(text).value.netloc.value)
  {
    ShapeOfSplit(Clean(text));
  }

  /** Conversely, text whose cleaned form has web shape splits into exactly
      that scheme and netloc (the host as it appears in the cleaned form), and
      is valid unless that host has an unmatched bracket. */
  lemma {:induction false} WebShapeIsValid(text: string, scheme: string, netloc: string)
    requires WebShape(Clean(text), scheme, netloc)
    ensures text != ""
    ensures Normalize(text).Ok? <==> !UnbalancedBrackets(netloc)
    ensures Normalize(text).Ok? ==> IsValid(Normalize(text).value)
    ensures Normalize(text).Ok? ==> Normalize(text).value.name == Some(CanonicalName(scheme, netloc))
  {
    assert LowerAscii(scheme) == scheme;
    SplitOfShape(Clean(text), scheme, netloc);
  }

  /** Canonical names are fixed points: parsing the name of a parse that found
      a scheme yields the same scheme, netloc and name. */
  lemma {:induction false} CanonicalNameIsFixedPoint(text: string)
    requires text != "" && Normalize(text).Ok?
    requires Normalize(text).value.scheme.value != ""
    ensures var u := Normalize(text).value;
            var v := Normalize(u.name.value);
            && v.Ok?
            && v.value.scheme == u.scheme && v.value.netloc == u.netloc && v.value.name == u.name
  {
    var u := Normalize(text).value;
    SplitOfAuthority(u.scheme.value, u.netloc.value, "");
    assert CanonicalName(u.scheme.value, u.netloc.value) + "" == u.name.value;
  }

  /** Whatever follows the host (a path, a query, a fragment) has no effect on
      the split: `scheme://netloc` followed by such a tail splits into exactly
      that scheme and netloc. */
  lemma {:induction false} SplitOfAuthority(scheme: string, netloc: string, tail: string)
    requires scheme != "" && SchemeShape(scheme)
    requires NoNetlocDelim(netloc) && NoUnsafe(netloc) && !UnbalancedBrackets(netloc)
    requires tail == "" || IsNetlocDelim(tail[0])
    ensures Split(CanonicalName(scheme, netloc) + tail) == Ok(Parts(scheme, netloc))
  {
    var name := CanonicalName(scheme, netloc);
    var safe := RemoveUnsafe(tail);
    NameIsSafe(scheme, netloc);
    RemoveUnsafeAppend(name, tail);
    assert (name + tail)[0] == scheme[0];
    assert Clean(name + tail) == name + safe;
    if tail != "" {
      assert safe[0] == tail[0];
    }
    SplitOfSafeAuthority(scheme, netloc, safe);
    CleanIdentity(name + safe);
  }

  /** A canonical name built from split parts holds no tab, CR or LF. */
  lemma NameIsSafe(scheme: string, netloc: string)
    requires SchemeShape(scheme) && NoUnsafe(netloc)
    ensures NoUnsafe(CanonicalName(scheme, netloc))
  {
    var c := CanonicalName(scheme, netloc);
    var i := |scheme|;
    forall j | 0 <= j < |c|
      ensures !IsUnsafe(c[j])
    {
      if j >= i + 3 {
        assert c[j] == netloc[j - i - 3];
      } else if j < i {
        assert c[j] == scheme[j];
        assert IsSchemeChar(scheme[j]);
      }
    }
  }

  lemma AppendNoUnsafe(a: string, b: string)
    requires NoUnsafe(a) && NoUnsafe(b)
    ensures NoUnsafe(a + b)
  {
    forall j | 0 <= j < |a + b|
      ensures !IsUnsafe((a + b)[j])
    {
      if j >= |a| {
        assert (a + b)[j] == b[j - |a|];
      }
    }
  }

  /** `SplitOfAuthority` for a tail that cleaning leaves alone. */
  lemma {:induction false} SplitOfSafeAuthority(scheme: string, netloc: string, tail: string)
    requires scheme != "" && SchemeShape(scheme)
    requires NoNetlocDelim(netloc) && NoUnsafe(netloc) && !UnbalancedBrackets(netloc)
    requires tail == "" || IsNetlocDelim(tail[0])
    requires NoUnsafe(tail)
    ensures Split(CanonicalName(scheme, netloc) + tail) == Ok(Parts(scheme, netloc))
  {
    var c := CanonicalName(scheme, netloc) + tail;
    NameIsSafe(scheme, netloc);
    AppendNoUnsafe(CanonicalName(scheme, netloc), tail);
    NameHasAuthorityShape(scheme, netloc, tail);
    SplitOfShape(c, scheme, netloc);
    SplitOfCleanText(c);
  }

  /** Text that cleaning leaves alone is split as it stands. */
  lemma SplitOfCleanText(c: string)
    requires c != "" && !IsC0OrSpace(c[0]) && NoUnsafe(c)
    ensures Split(c).Ok? <==> !UnbalancedBrackets(SplitCleaned(c).netloc)
    ensures Split(c).Ok? ==> Split(c).value == SplitCleaned(c)
  {
    CleanIdentity(c);
  }

  /** `scheme://netloc` followed by a delimiter-led tail has authority shape. */
  lemma NameHasAuthorityShape(scheme: string, netloc: string, tail: string)
    requires SchemeShape(scheme) && NoNetlocDelim(netloc)
    requires tail == "" || IsNetlocDelim(tail[0])
    ensures AuthorityShape(CanonicalName(scheme, netloc) + tail, scheme, netloc)
  {
    var c := CanonicalName(scheme, netloc) + tail;
    var i := |scheme|;
    var k := i + 3 + |netloc|;
    assert c[..i] == scheme;
    assert c[i..i + 3] == "://";
    assert c[i + 3..k] == netloc;
    assert k < |c| ==> c[k] == tail[0];
  }

  // ---------------------------------------------------------------------------
  // Examples

  /** `Normalize` of `scheme://netloc` followed by a path, query or
      fragment records exactly that scheme, netloc and name. */
  lemma {:induction false} NormalizeOfAuthority(scheme: string, netloc: string, tail: string)
    requires scheme != "" && SchemeShape(scheme)
    requires NoNetlocDelim(netloc) && NoUnsafe(netloc) && !UnbalancedBrackets(netloc)
    requires tail == "" || IsNetlocDelim(tail[0])
    ensures Normalize(CanonicalName(scheme, netloc) + tail).Ok?
    ensures var u := Normalize(CanonicalName(scheme, netloc) + tail).value;
            && u.scheme == Some(scheme) && u.netloc == Some(netloc)
            && u.name == Some(CanonicalName(scheme, netloc))
  {
    SplitOfAuthority(scheme, netloc, tail);
  }

  /** The path and query of an https URL do not reach its name. */
  lemma ExampleWithPathAndQuery()
    ensures Normalize("https://example.com/page?x=1").Ok?
    ensures Normalize("https://example.com/page?x=1").value.name == Some("https://example.com")
    ensures IsValid(Normalize("https://example.com/page?x=1").value)
  {
    HttpsName();
    ExampleHostShape("https");
    NormalizeOfAuthority("https", "example.com", "/page?x=1");
  }

  lemma HttpsName()
    ensures CanonicalName("https", "example.com") == "https://example.com"
    ensures CanonicalName("https", "example.com") + "/page?x=1" == "https://example.com/page?x=1"
  {
  }

  lemma FtpName()
    ensures CanonicalName("ftp", "example.com") + "" == "ftp://example.com"
  {
  }

  /** `example.com` is a plain host, and the example schemes are schemes. */
  lemma ExampleHostShape(scheme: string)
    requires scheme == "https" || scheme == "ftp"
    ensures scheme != "" && SchemeShape(scheme)
    ensures NoNetlocDelim("example.com") && NoUnsafe("example.com") && !UnbalancedBrackets("example.com")
  {
    assert LowerAscii(scheme) == scheme;
  }

  /** An ftp URL parses but is invalid. */
  lemma ExampleFtp()
    ensures Normalize("ftp://example.com").Ok?
    ensures Normalize("ftp://example.com").value.scheme == Some("ftp")
    ensures !IsValid(Normalize("ftp://example.com").value)
  {
    FtpName();
    ExampleHostShape("ftp");
    NormalizeOfAuthority("ftp", "example.com", "");
  }

  /** Text without a colon or slashes has no scheme and no host. */
  lemma ExampleNotAUrl()
    ensures Normalize("not a url").Ok?
    ensures Normalize("not a url").value.scheme == Some("")
    ensures Normalize("not a url").value.netloc == Some("")
    ensures !IsValid(Normalize("not a url").value)
  {
    NoSchemeNoSlashes("not a url");
  }

  /** Text with no colon that does not start with `//` has neither scheme
      nor netloc. */
  lemma NoSchemeNoSlashes(c: string)
    requires c != "" && !IsC0OrSpace(c[0]) && NoUnsafe(c)
    requires ':' !in c
    requires |c| < 2 || c[..2] != "//"
    ensures Split(c) == Ok(Parts("", ""))
  {
    CleanIdentity(c);
  }
}
