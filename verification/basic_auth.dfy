/**
 * Extraction of the credentials part of an `Authorization` header for the
 * Basic scheme (basic_auth.py). The scheme name is defined by section 2 of
 * RFC 7617; the code compares it case-sensitively, together with the single
 * space that follows it, as a literal prefix.
 */
module BasicAuth {
  import opened Wrappers

  /** The header value a caller may pass: Python's `None`, a `str`, or any other object. */
  datatype HeaderValue = NoHeader | Text(s: string) | NotText

  const PREFIX: string := "Basic "

  /** The header value made of the scheme prefix followed by `credentials`. */
  function BasicHeader(credentials: string): HeaderValue {
    Text(PREFIX + credentials)
  }

  /**
   * `extract_base64_authorization_header`: the text after `"Basic "`, or
   * `None` when the header is absent, not a string, or lacks that exact prefix.
   * No trimming and no Base64 validation happen.
   */
  function ExtractBase64AuthorizationHeader(header: HeaderValue): (r: Option<string>)
    ensures header.NoHeader? ==> r.None?
    ensures header.NotText? ==> r.None?
    ensures header.Text? ==> (r.Some? <==> |header.s| >= 6 && header.s[..6] == PREFIX)
    ensures r.Some? ==> header.Text? && PREFIX + r.value == header.s && |r.value| == |header.s| - 6
  {
    match header
    case NoHeader => None
    case NotText => None
    case Text(s) =>
      if |s| >= |PREFIX| && s[..|PREFIX|] == PREFIX then
        assert PREFIX + s[|PREFIX|..] == s;
        Some(s[|PREFIX|..])
      else None
  }

  /** Extraction undoes prefixing: the credentials come back exactly as given. */
  lemma ExtractInvertsBasicHeader(credentials: string)
    ensures ExtractBase64AuthorizationHeader(BasicHeader(credentials)) == Some(credentials)
  {
    assert (PREFIX + credentials)[..|PREFIX|] == PREFIX;
    assert (PREFIX + credentials)[|PREFIX|..] == credentials;
  }

  /** Every accepted header is the Basic header of what was extracted from it. */
  lemma ExtractedHeaderIsBasicHeader(header: HeaderValue)
    requires ExtractBase64AuthorizationHeader(header).Some?
    ensures BasicHeader(ExtractBase64AuthorizationHeader(header).value) == header
  {
  }

  /** The prefix check is case-sensitive: `"basic x"` is refused. */
  lemma LowerCaseSchemeRefused()
    ensures ExtractBase64AuthorizationHeader(Text("basic x")) == None
  {
    assert "basic x"[0] != PREFIX[0];
  }

  /** The trailing space is part of the prefix: `"Basic"` alone is refused. */
  lemma SchemeWithoutSpaceRefused()
    ensures ExtractBase64AuthorizationHeader(Text("Basic")) == None
  {
  }

  /** The bare prefix yields the empty string, not `None`. */
  lemma BarePrefixYieldsEmpty()
    ensures ExtractBase64AuthorizationHeader(Text("Basic ")) == Some("")
  {
    ExtractInvertsBasicHeader("");
  }

  /** No trimming happens: `"Basic  x"` yields `" x"`. */
  lemma ExtraSpaceIsKept()
    ensures ExtractBase64AuthorizationHeader(Text("Basic  x")) == Some(" x")
  {
    ExtractInvertsBasicHeader(" x");
  }
}
