/** The part of Python's `urllib.parse.urlsplit` (and so of `urlparse`) that
    decides the `scheme` and `netloc` of a URL string, following the rules of
    CPython 3.12:
      - leading C0 control characters and spaces are stripped, and every tab,
        carriage return and line feed is removed;
      - the scheme is the text before the first `:` when that text is non-empty,
        starts with an ASCII letter and consists of ASCII letters, digits, `+`,
        `-` and `.`; it is lower-cased;
      - the netloc is the text after a leading `//` up to the first `/`, `?`
        or `#`;
      - a netloc with an unmatched `[` or `]` raises `ValueError`.
    Path, parameters, query and fragment are not computed. */
module UrlSplit {
  import opened Base

  // ---------------------------------------------------------------------------
  // Character classes

  /** The characters `lstrip` removes: C0 controls and space. */
  predicate IsC0OrSpace(c: char) { c <= ' ' }

  /** Tab, CR and LF are deleted wherever they occur. */
  predicate IsUnsafe(c: char) { c == '\t' || c == '\r' || c == '\n' }

  predicate IsAsciiLetter(c: char) { 'a' <= c <= 'z' || 'A' <= c <= 'Z' }

  predicate IsSchemeChar(c: char) {
    IsAsciiLetter(c) || '0' <= c <= '9' || c == '+' || c == '-' || c == '.'
  }

  /** The characters that end the network location. */
  predicate IsNetlocDelim(c: char) { c == '/' || c == '?' || c == '#' }

  predicate NoUnsafe(s: string) { forall i :: 0 <= i < |s| ==> !IsUnsafe(s[i]) }

  predicate NoNetlocDelim(s: string) { forall i :: 0 <= i < |s| ==> !IsNetlocDelim(s[i]) }

  predicate AllSchemeChars(s: string) { forall i :: 0 <= i < |s| ==> IsSchemeChar(s[i]) }

  /** A scheme as `urlsplit` reports it: empty, or an ASCII letter followed by
      scheme characters, all in lower case. */
  predicate SchemeShape(s: string) {
    s == "" ||
    (IsAsciiLetter(s[0]) && AllSchemeChars(s) && LowerAscii(s) == s)
  }

  // ---------------------------------------------------------------------------
  // Cleaning the input

  /** `str.lstrip` over C0 controls and space. */
  function LStrip(s: string): (r: string)
    ensures |r| <= |s| && r == s[|s| - |r|..]
    ensures r == "" || !IsC0OrSpace(r[0])
    ensures forall i :: 0 <= i < |s| - |r| ==> IsC0OrSpace(s[i])
  {
    if s == [] || !IsC0OrSpace(s[0]) then s else LStrip(s[1..])
  }

  /** Deletes every tab, CR and LF, keeping the order of the other characters. */
  function RemoveUnsafe(s: string): (r: string)
    ensures |r| <= |s|
    ensures NoUnsafe(r)
    ensures NoUnsafe(s) ==> r == s
  {
    if s == [] then []
    else if IsUnsafe(s[0]) then RemoveUnsafe(s[1..])
    else [s[0]] + RemoveUnsafe(s[1..])
  }

  /** The string `urlsplit` actually splits. */
  function Clean(s: string): string {
    RemoveUnsafe(LStrip(s))
  }

  /** Cleaning leaves alone a string that starts with a visible character and
      holds no tab, CR or LF. */
  lemma {:induction false} CleanIdentity(s: string)
    requires s == "" || !IsC0OrSpace(s[0])
    requires NoUnsafe(s)
    ensures Clean(s) == s
  {
  }

  /** Exactly the tab, CR and LF characters go: every other character keeps
      its count. */
  lemma {:induction false} RemoveUnsafeCounts(s: string)
    ensures forall c :: multiset(RemoveUnsafe(s))[c] == if IsUnsafe(c) then 0 else multiset(s)[c]
  {
    if s != [] {
      RemoveUnsafeCounts(s[1..]);
      assert s == [s[0]] + s[1..];
    }
  }

  /** Removal works character by character, so it keeps the order of what it
      keeps: removing from a concatenation concatenates the removals. */
  lemma {:induction false} RemoveUnsafeAppend(a: string, b: string)
    ensures RemoveUnsafe(a + b) == RemoveUnsafe(a) + RemoveUnsafe(b)
  {
    if a != [] {
      assert (a + b)[0] == a[0];
      assert (a + b)[1..] == a[1..] + b;
      RemoveUnsafeAppend(a[1..], b);
    } else {
      assert a + b == b;
    }
  }

  // ---------------------------------------------------------------------------
  // Case folding and searching

  function LowerChar(c: char): char {
    if 'A' <= c <= 'Z' then (c as int + 32) as char else c
  }

  /** `str.lower` restricted to ASCII, which is all a scheme can hold. */
  function LowerAscii(s: string): (r: string)
    ensures |r| == |s|
    ensures forall i :: 0 <= i < |s| ==> r[i] == LowerChar(s[i])
  {
    seq(|s|, i requires 0 <= i < |s| => LowerChar(s[i]))
  }

  /** `str.find` of one character: the index of its first occurrence. */
  function IndexOf(s: string, c: char): (r: Option<nat>)
    ensures r.None? <==> c !in s
    ensures r.Some? ==> r.value < |s| && s[r.value] == c && c !in s[..r.value]
  {
    if s == [] then None
    else if s[0] == c then Some(0)
    else match IndexOf(s[1..], c)
      case None => None
      case Some(i) => assert s[1..][..i] == s[1..i + 1]; Some(i + 1)
  }

  /** The index of the first `/`, `?` or `#` at or after `from`, or `|s|`. */
  function FirstNetlocDelim(s: string, from: nat): (r: nat)
    requires from <= |s|
    ensures from <= r <= |s|
    ensures NoNetlocDelim(s[from..r])
    ensures r < |s| ==> IsNetlocDelim(s[r])
    decreases |s| - from
  {
    if from == |s| then from
    else if IsNetlocDelim(s[from]) then from
    else
      var r := FirstNetlocDelim(s, from + 1);
      assert forall i :: 0 <= i < r - from ==> s[from..r][i] == s[i + from];
      r
  }

  /** The search stops at the first delimiter and nowhere else. */
  lemma {:induction false} FirstNetlocDelimAt(s: string, from: nat, k: nat)
    requires from <= k <= |s|
    requires NoNetlocDelim(s[from..k])
    requires k == |s| || IsNetlocDelim(s[k])
    ensures FirstNetlocDelim(s, from) == k
    decreases k - from
  {
    if from < k {
      assert s[from] == s[from..k][0];
      assert s[from + 1..k] == s[from..k][1..];
      FirstNetlocDelimAt(s, from + 1, k);
    }
  }

  // ---------------------------------------------------------------------------
  // Splitting

  /** The scheme and the text that follows its colon. */
  datatype SchemeSplit = SchemeSplit(scheme: string, rest: string)

  /** The scheme test of `urlsplit`: a `:` at index `i > 0` whose prefix is a
      scheme. */
  predicate HasSchemeAt(url: string, i: nat) {
    0 < i < |url| && url[i] == ':' && ':' !in url[..i] &&
    IsAsciiLetter(url[0]) && AllSchemeChars(url[..i])
  }

  function SplitScheme(url: string): (r: SchemeSplit)
    ensures SchemeShape(r.scheme)
    ensures r.scheme == "" ==> r.rest == url
    ensures r.scheme != "" ==>
              HasSchemeAt(url, |r.scheme|) &&
              r.scheme == LowerAscii(url[..|r.scheme|]) &&
              r.rest == url[|r.scheme| + 1..]
  {
    match IndexOf(url, ':')
    case Some(i) =>
      if i > 0 && IsAsciiLetter(url[0]) && AllSchemeChars(url[..i]) then
        var scheme := LowerAscii(url[..i]);
        assert scheme[0] == LowerChar(url[0]);
        LowerAsciiIsIdempotent(url[..i]);
        SchemeSplit(scheme, url[i + 1..])
      else
        SchemeSplit("", url)
    case None =>
      SchemeSplit("", url)
  }

  /** The scheme is found exactly when some colon passes the scheme test, and
      then it is the one before that colon. */
  lemma SchemeAt(url: string, i: nat)
    requires HasSchemeAt(url, i)
    ensures SplitScheme(url) == SchemeSplit(LowerAscii(url[..i]), url[i + 1..])
  {
    var j := IndexOf(url, ':').value;
  }

  lemma LowerAsciiIsIdempotent(s: string)
    requires AllSchemeChars(s)
    ensures AllSchemeChars(LowerAscii(s))
    ensures LowerAscii(LowerAscii(s)) == LowerAscii(s)
  {
  }

  /** The network location and the text after it. */
  datatype NetlocSplit = NetlocSplit(netloc: string, tail: string)

  function SplitNetloc(rest: string): (r: NetlocSplit)
    ensures NoNetlocDelim(r.netloc)
    ensures |rest| >= 2 && rest[..2] == "//" ==>
              rest == "//" + r.netloc + r.tail && (r.tail == "" || IsNetlocDelim(r.tail[0]))
    ensures !(|rest| >= 2 && rest[..2] == "//") ==> r == NetlocSplit("", rest)
  {
    if |rest| >= 2 && rest[..2] == "//" then
      var d := FirstNetlocDelim(rest, 2);
      assert rest[..2] + rest[2..d] == rest[..d];
      assert rest[..d] + rest[d..] == rest;
      NetlocSplit(rest[2..d], rest[d..])
    else
      NetlocSplit("", rest)
  }

  /** The netloc is the longest delimiter-free text after the `//`: any way
      of writing `rest` as `//`, delimiter-free text and a tail that is empty
      or starts with a delimiter is the split. */
  lemma NetlocAt(rest: string, netloc: string, tail: string)
    requires rest == "//" + netloc + tail
    requires NoNetlocDelim(netloc)
    requires tail == "" || IsNetlocDelim(tail[0])
    ensures SplitNetloc(rest) == NetlocSplit(netloc, tail)
  {
    assert rest[..2] == "//";
    var k := 2 + |netloc|;
    assert rest[2..k] == netloc;
    assert k < |rest| ==> rest[k] == tail[0];
    FirstNetlocDelimAt(rest, 2, k);
  }

  /** What `urlsplit` reports of a URL that this model is about. */
  datatype Parts = Parts(scheme: string, netloc: string)

  /** The reasons `urlsplit` raises. */
  datatype SplitError = InvalidIPv6

  /** A netloc with `[` but no `]`, or `]` but no `[`. */
  predicate UnbalancedBrackets(netloc: string) {
    ('[' in netloc && ']' !in netloc) || (']' in netloc && '[' !in netloc)
  }

  /** The scheme and netloc of an already cleaned string. */
  function SplitCleaned(url: string): Parts {
    var s := SplitScheme(url);
    Parts(s.scheme, SplitNetloc(s.rest).netloc)
  }

  /** `c` reads `scheme` (in any letter case), then `://`, then `netloc`,
      then either nothing or a `/`, `?` or `#`. */
  predicate AuthorityShape(c: string, scheme: string, netloc: string) {
    var k := |scheme| + 3 + |netloc|;
    && NoNetlocDelim(netloc)
    && |c| >= k
    && LowerAscii(c[..|scheme|]) == scheme
    && c[|scheme|..|scheme| + 3] == "://"
    && c[|scheme| + 3..k] == netloc
    && (|c| == k || IsNetlocDelim(c[k]))
  }

  /** A split that found both a scheme and a netloc read a string of
      authority shape. */
  lemma {:induction false} ShapeOfSplit(c: string)
    requires SplitCleaned(c).scheme != "" && SplitCleaned(c).netloc != ""
    ensures AuthorityShape(c, SplitCleaned(c).scheme, SplitCleaned(c).netloc)
  {
    var s := SplitScheme(c);
    var n := SplitNetloc(s.rest);
    assert s.rest[..2] == "//";
    AuthorityParts(c, s.scheme, n.netloc, n.tail);
  }

  /** A scheme, its colon, `//`, a delimiter-free netloc and a delimiter-led
      tail laid end to end give authority shape. */
  lemma AuthorityParts(c: string, scheme: string, netloc: string, tail: string)
    requires |c| > |scheme| && c[|scheme|] == ':' && LowerAscii(c[..|scheme|]) == scheme
    requires c[|scheme| + 1..] == "//" + netloc + tail
    requires NoNetlocDelim(netloc) && (tail == "" || IsNetlocDelim(tail[0]))
    ensures AuthorityShape(c, scheme, netloc)
  {
    var i := |scheme|;
    var k := i + 3 + |netloc|;
    var rest := c[i + 1..];
    assert c[i..i + 3] == [c[i]] + rest[..2];
    assert c[i + 3..k] == rest[2..2 + |netloc|];
    assert k < |c| ==> c[k] == rest[2 + |netloc|];
  }

  /** Conversely, a string of authority shape whose scheme part is a scheme
      splits into exactly that scheme and netloc. */
  lemma {:induction false} SplitOfShape(c: string, scheme: string, netloc: string)
    requires scheme != "" && SchemeShape(scheme)
    requires AuthorityShape(c, scheme, netloc)
    ensures SplitCleaned(c) == Parts(scheme, netloc)
  {
    var i := |scheme|;
    var k := i + 3 + |netloc|;
    SchemeTestPasses(c, scheme);
    SchemeAt(c, i);
    var rest := c[i + 1..];
    assert rest[..2] == c[i + 1..i + 3] == "//";
    assert rest[2..2 + |netloc|] == netloc;
    assert rest == rest[..2] + rest[2..2 + |netloc|] + rest[2 + |netloc|..];
    NetlocAt(rest, netloc, c[k..]);
  }

  /** A prefix that lower-cases to a scheme passes the scheme test. */
  lemma SchemeTestPasses(c: string, scheme: string)
    requires scheme != "" && SchemeShape(scheme)
    requires |c| > |scheme| && c[|scheme|] == ':' && LowerAscii(c[..|scheme|]) == scheme
    ensures HasSchemeAt(c, |scheme|)
  {
    var i := |scheme|;
    forall j | 0 <= j < i
      ensures c[j] != ':' && IsSchemeChar(c[j])
    {
      assert LowerChar(c[..i][j]) == scheme[j];
    }
    assert c[..i][0] == c[0];
  }

  /** `urlsplit(text)`, reduced to its scheme and netloc. */
  function Split(text: string): (r: Result<Parts, SplitError>)
    ensures r.Ok? <==> !UnbalancedBrackets(SplitCleaned(Clean(text)).netloc)
    ensures r.Ok? ==> r.value == SplitCleaned(Clean(text))
    ensures r.Ok? ==> SchemeShape(r.value.scheme) && NoNetlocDelim(r.value.netloc)
    ensures r.Ok? ==> NoUnsafe(r.value.scheme) && NoUnsafe(r.value.netloc)
  {
    var url := Clean(text);
    var p := SplitCleaned(url);
    SplitKeepsSafe(url);
    if UnbalancedBrackets(p.netloc) then Err(InvalidIPv6) else Ok(p)
  }

  /** Scheme and netloc are cut from the cleaned string, so they inherit its
      lack of tab, CR and LF. */
  lemma SplitKeepsSafe(url: string)
    requires NoUnsafe(url)
    ensures NoUnsafe(SplitCleaned(url).scheme) && NoUnsafe(SplitCleaned(url).netloc)
  {
    var s := SplitScheme(url);
    forall j | 0 <= j < |s.scheme|
      ensures !IsUnsafe(s.scheme[j])
    {
      assert IsSchemeChar(s.scheme[j]);
    }
    if s.scheme != "" {
      SliceNoUnsafe(url, |s.scheme| + 1, |url|);
    }
    var n := SplitNetloc(s.rest);
    if |s.rest| >= 2 && s.rest[..2] == "//" {
      assert n.netloc == s.rest[2..2 + |n.netloc|];
      SliceNoUnsafe(s.rest, 2, 2 + |n.netloc|);
    }
  }

  lemma SliceNoUnsafe(s: string, a: nat, b: nat)
    requires NoUnsafe(s) && a <= b <= |s|
    ensures NoUnsafe(s[a..b])
  {
    assert forall j :: 0 <= j < b - a ==> s[a..b][j] == s[a + j];
  }
}
