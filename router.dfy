/**
 * The GET emulation of the backend's `http_request` query: from a request URL and the
 * image map to a full response (status, headers, body), with ETag / If-None-Match
 * revalidation. Every failure is the same 404 response.
 */
module Router {
  import opened Types
  import opened Decimal

  const IMAGE_PREFIX: string := "image/"
  const IF_NONE_MATCH: string := "if-none-match"
  const CACHE_CONTROL: string := "public, max-age=31536000, immutable"

  /** `k` slashes. */
  function Slashes(k: nat): (s: string)
    ensures |s| == k && forall i :: 0 <= i < k ==> s[i] == '/'
  {
    seq(k, _ => '/')
  }

  /** `trim_start_matches('/')`: drops every leading slash, not just one. */
  function TrimLeadingSlashes(s: string): (r: string)
    ensures |r| <= |s| && r == s[|s| - |r|..]
    ensures forall i :: 0 <= i < |s| - |r| ==> s[i] == '/'
    ensures r == [] || r[0] != '/'
  {
    if s != [] && s[0] == '/' then TrimLeadingSlashes(s[1..]) else s
  }

  /** `strip_prefix`: the rest of `s` when it starts with `prefix`. */
  function StripPrefix(s: string, prefix: string): (r: Option<string>)
    ensures r.Some? <==> prefix <= s
    ensures r.Some? ==> s == prefix + r.value
  {
    if prefix <= s then Some(s[|prefix|..]) else None
  }

  /** `split('.').next()`: the text before the first dot, or all of `s` if it has none. */
  function BeforeFirstDot(s: string): (r: string)
    ensures r <= s
    ensures forall i :: 0 <= i < |r| ==> r[i] != '.'
    ensures |r| < |s| ==> s[|r|] == '.'
  {
    if s == [] || s[0] == '.' then [] else [s[0]] + BeforeFirstDot(s[1..])
  }

  /** The image id a URL names, if it is routed to an image at all. */
  function ResolveId(url: string): Option<U64>
  {
    match StripPrefix(TrimLeadingSlashes(url), IMAGE_PREFIX)
    case None => None
    case Some(imagePath) => ParseU64(BeforeFirstDot(imagePath))
  }

  function LowerChar(c: char): char
  {
    if 'A' <= c <= 'Z' then (c as int + 32) as char else c
  }

  function UpperChar(c: char): char
  {
    if 'a' <= c <= 'z' then (c as int - 32) as char else c
  }

  /** `to_lowercase`, restricted to ASCII letters. */
  function ToLowerAscii(s: string): (r: string)
    ensures |r| == |s|
    ensures forall i :: 0 <= i < |s| ==> r[i] == LowerChar(s[i])
  {
    seq(|s|, i requires 0 <= i < |s| => LowerChar(s[i]))
  }

  /** The cache validator of an image: its decimal id in double quotes. */
  function ETag(id: U64): string
  {
    "\"" + Format(id) + "\""
  }

  /** A header that asks for revalidation against exactly `etag`. */
  predicate IsConditionalMatch(h: Header, etag: string)
  {
    ToLowerAscii(h.name) == IF_NONE_MATCH && h.value == etag
  }

  /** Some header of the request, wherever it stands, revalidates against `etag`. */
  predicate HasMatch(headers: seq<Header>, etag: string)
  {
    exists i :: 0 <= i < |headers| && IsConditionalMatch(headers[i], etag)
  }

  /** The ASCII bytes of `Not Found`. */
  const NOT_FOUND_BODY: seq<byte> := [0x4E, 0x6F, 0x74, 0x20, 0x46, 0x6F, 0x75, 0x6E, 0x64]

  /** `create_not_found_response`. */
  function NotFound(): Response
  {
    Response(404, [("Content-Type", "text/plain")], NOT_FOUND_BODY)
  }

  function NotModified(etag: string): Response
  {
    Response(304, [("ETag", etag), ("Cache-Control", CACHE_CONTROL)], [])
  }

  function Found(image: ImageData, etag: string): Response
  {
    Response(200, [("Content-Type", image.contentType), ("Cache-Control", CACHE_CONTROL), ("ETag", etag)], image.data)
  }

  /** The response `http_request` gives, as a function of the request and the image map. */
  function Respond(req: Request, images: map<U64, ImageData>): Response
  {
    match ResolveId(req.url)
    case None => NotFound()
    case Some(id) =>
      match Lookup(images, id)
      case None => NotFound()
      case Some(image) =>
        if HasMatch(req.headers, ETag(id)) then NotModified(ETag(id)) else Found(image, ETag(id))
  }

  // ---------------------------------------------------------------------------
  // Path handling

  /**
   * Trimming `k` slashes in front of a path that does not start with one leaves exactly
   * that path: by the contract of `TrimLeadingSlashes`, the trim removes only slashes and
   * stops at the first other character.
   */
  lemma TrimAfterSlashes(k: nat, rest: string)
    requires rest == [] || rest[0] != '/'
    ensures TrimLeadingSlashes(Slashes(k) + rest) == rest
  {
    var s := Slashes(k) + rest;
    var r := TrimLeadingSlashes(s);
    assert forall i :: 0 <= i < k ==> s[i] == '/';
    assert rest != [] ==> s[k] == rest[0];
    assert |s| - |r| == k;
    assert s[k..] == rest;
  }

  lemma {:induction false} BeforeFirstDotOfPlainText(d: string, ext: string)
    requires forall i :: 0 <= i < |d| ==> d[i] != '.'
    requires ext == [] || ext[0] == '.'
    ensures BeforeFirstDot(d + ext) == d
  {
    if d == [] {
      assert d + ext == ext;
    } else {
      assert (d + ext)[1..] == d[1..] + ext;
      BeforeFirstDotOfPlainText(d[1..], ext);
    }
  }

  /** Under `image/`, after any number of slashes, the id is the text before the first dot. */
  lemma ResolveUnderImagePrefix(k: nat, tail: string)
    ensures ResolveId(Slashes(k) + IMAGE_PREFIX + tail) == ParseU64(BeforeFirstDot(tail))
  {
    var rest := IMAGE_PREFIX + tail;
    assert Slashes(k) + IMAGE_PREFIX + tail == Slashes(k) + rest;
    assert rest[0] == 'i';
    TrimAfterSlashes(k, rest);
    assert IMAGE_PREFIX <= rest && rest[|IMAGE_PREFIX|..] == tail;
  }

  /**
   * The URL of an issued id resolves to that id, whatever the number of leading slashes
   * and whatever extension follows the first dot.
   */
  lemma IssuedIdUrlResolves(k: nat, id: U64, ext: string)
    requires ext == [] || ext[0] == '.'
    ensures ResolveId(Slashes(k) + IMAGE_PREFIX + Format(id) + ext) == Some(id)
  {
    assert Slashes(k) + IMAGE_PREFIX + Format(id) + ext == Slashes(k) + IMAGE_PREFIX + (Format(id) + ext);
    ResolveUnderImagePrefix(k, Format(id) + ext);
    BeforeFirstDotOfPlainText(Format(id), ext);
    ParseFormat(id);
  }

  /** An id one past the 64-bit range is not found, even though its text is all digits. */
  lemma OverflowingIdIsNotFound(k: nat, ext: string)
    requires ext == [] || ext[0] == '.'
    ensures ResolveId(Slashes(k) + IMAGE_PREFIX + Format(U64_MAX + 1) + ext) == None
  {
    var digits := Format(U64_MAX + 1);
    assert Slashes(k) + IMAGE_PREFIX + digits + ext == Slashes(k) + IMAGE_PREFIX + (digits + ext);
    ResolveUnderImagePrefix(k, digits + ext);
    BeforeFirstDotOfPlainText(digits, ext);
    ParseRejectsOverflow(U64_MAX + 1);
  }

  /** A path that, once its slashes are trimmed, is not under `image/` never names an image. */
  lemma UnroutedPathIsNotFound(req: Request, images: map<U64, ImageData>)
    requires !(IMAGE_PREFIX <= TrimLeadingSlashes(req.url))
    ensures ResolveId(req.url) == None
    ensures Respond(req, images) == NotFound()
  {
  }

  /** A URL made of slashes and a path outside `image/` names no image. */
  lemma UnroutedAt(url: string, k: nat, rest: string)
    requires url == Slashes(k) + rest
    requires rest == [] || rest[0] != '/'
    requires !(IMAGE_PREFIX <= rest)
    ensures ResolveId(url) == None
  {
    TrimAfterSlashes(k, rest);
  }

  /** The empty path, the root and paths outside `image/` are not routed. */
  lemma UnroutedExamples()
    ensures ResolveId("") == None
    ensures ResolveId("/") == None
    ensures ResolveId("/not-image/5") == None
  {
    UnroutedAt("", 0, "");
    UnroutedAt("/", 1, "");
    assert "not-image/5"[0] != IMAGE_PREFIX[0];
    UnroutedAt("/not-image/5", 1, "not-image/5");
  }

  /** The id text of a URL under `image/` is what stands before the first dot. */
  lemma ResolveIdText(url: string, k: nat, idText: string, ext: string)
    requires url == Slashes(k) + IMAGE_PREFIX + idText + ext
    requires forall i :: 0 <= i < |idText| ==> idText[i] != '.'
    requires ext == [] || ext[0] == '.'
    ensures ResolveId(url) == ParseU64(idText)
  {
    assert url == Slashes(k) + IMAGE_PREFIX + (idText + ext);
    ResolveUnderImagePrefix(k, idText + ext);
    BeforeFirstDotOfPlainText(idText, ext);
  }

  /** An empty id text, with or without an extension, is not a number. */
  lemma EmptyIdExamples()
    ensures ResolveId("/image/") == None
    ensures ResolveId("/image/.png") == None
  {
    ResolveIdText("/image/", 1, "", "");
    ResolveIdText("/image/.png", 1, "", ".png");
    ParseRejectsExamples();
  }

  /** Letters after the digits make the id unparsable. */
  lemma TrailingLettersRejected()
    ensures ResolveId("/image/12abc") == None
  {
    ResolveIdText("/image/12abc", 1, "12abc", "");
    ParseRejectsExamples();
  }

  /** A query string is not stripped, so it spoils the id. */
  lemma QueryStringNotStripped()
    ensures ResolveId("/image/5?x=1") == None
  {
    ResolveIdText("/image/5?x=1", 1, "5?x=1", "");
    ParseRejectsExamples();
  }

  /** An unsigned id takes no minus sign. */
  lemma MinusSignRejected()
    ensures ResolveId("/image/-5") == None
  {
    ResolveIdText("/image/-5", 1, "-5", "");
    ParseRejectsExamples();
  }

  /** Everything from the first dot on is ignored. */
  lemma ExtensionIgnored()
    ensures ResolveId("/image/5.tar.gz") == Some(5)
  {
    ResolveIdText("/image/5.tar.gz", 1, "5", ".tar.gz");
    ParseAcceptsExamples();
  }

  /** Extra leading slashes and a plus sign are accepted. */
  lemma PlusSignAndSlashesAccepted()
    ensures ResolveId("//image/+7.jpg") == Some(7)
  {
    ResolveIdText("//image/+7.jpg", 2, "+7", ".jpg");
    ParseAcceptsExamples();
  }

  /** Leading zeros are accepted. */
  lemma LeadingZerosAccepted()
    ensures ResolveId("/image/007") == Some(7)
  {
    ResolveIdText("/image/007", 1, "007", "");
    ParseAcceptsExamples();
  }

  // ---------------------------------------------------------------------------
  // Revalidation

  /**
   * Lower-casing `s` gives a text `t` free of capitals exactly when each character of
   * `s` is the matching character of `t` in either case.
   */
  lemma LowerMatchIgnoresCase(s: string, t: string)
    requires forall i :: 0 <= i < |t| ==> !('A' <= t[i] <= 'Z')
    ensures ToLowerAscii(s) == t <==>
      |s| == |t| && forall i :: 0 <= i < |s| ==> s[i] == t[i] || s[i] == UpperChar(t[i])
  {
    if |s| == |t| {
      if ToLowerAscii(s) == t {
        forall i | 0 <= i < |s|
          ensures s[i] == t[i] || s[i] == UpperChar(t[i])
        {
          assert LowerChar(s[i]) == t[i];
        }
      }
      if forall i :: 0 <= i < |s| ==> s[i] == t[i] || s[i] == UpperChar(t[i]) {
        forall i | 0 <= i < |s|
          ensures ToLowerAscii(s)[i] == t[i]
        {
          assert LowerChar(s[i]) == t[i];
        }
      }
    }
  }

  /** Header names match `if-none-match` exactly when each letter has either case. */
  lemma IfNoneMatchIgnoresCase(name: string)
    ensures ToLowerAscii(name) == IF_NONE_MATCH <==>
      |name| == |IF_NONE_MATCH| &&
      forall i :: 0 <= i < |name| ==> name[i] == IF_NONE_MATCH[i] || name[i] == UpperChar(IF_NONE_MATCH[i])
  {
    LowerMatchIgnoresCase(name, IF_NONE_MATCH);
  }

  /** The header the browser sends back, in its usual spelling, revalidates. */
  lemma BrowserRevalidationMatches(id: U64)
    ensures HasMatch([Header("If-None-Match", ETag(id))], ETag(id))
  {
    IfNoneMatchIgnoresCase("If-None-Match");
    assert IsConditionalMatch([Header("If-None-Match", ETag(id))][0], ETag(id));
  }

  /** A match in either part of the header list is a match of the whole list. */
  lemma HasMatchAppend(a: seq<Header>, b: seq<Header>, etag: string)
    ensures HasMatch(a + b, etag) <==> HasMatch(a, etag) || HasMatch(b, etag)
  {
    if HasMatch(a + b, etag) {
      var i :| 0 <= i < |a + b| && IsConditionalMatch((a + b)[i], etag);
      if i >= |a| {
        assert b[i - |a|] == (a + b)[i];
      }
    }
    if HasMatch(a, etag) {
      var j :| 0 <= j < |a| && IsConditionalMatch(a[j], etag);
      assert (a + b)[j] == a[j];
    }
    if HasMatch(b, etag) {
      var j :| 0 <= j < |b| && IsConditionalMatch(b[j], etag);
      assert (a + b)[|a| + j] == b[j];
    }
  }

  /** Reordering the request headers never changes the response. */
  lemma HeaderOrderIrrelevant(req: Request, headers: seq<Header>, images: map<U64, ImageData>)
    requires multiset(headers) == multiset(req.headers)
    ensures Respond(req.(headers := headers), images) == Respond(req, images)
  {
    forall etag: string
      ensures HasMatch(headers, etag) <==> HasMatch(req.headers, etag)
    {
      if HasMatch(headers, etag) {
        var i :| 0 <= i < |headers| && IsConditionalMatch(headers[i], etag);
        assert headers[i] in multiset(req.headers);
        var j :| 0 <= j < |req.headers| && req.headers[j] == headers[i];
      }
      if HasMatch(req.headers, etag) {
        var i :| 0 <= i < |req.headers| && IsConditionalMatch(req.headers[i], etag);
        assert req.headers[i] in multiset(headers);
        var j :| 0 <= j < |headers| && headers[j] == req.headers[i];
      }
    }
  }

  /** The request method and body never influence the response. */
  lemma MethodAndBodyIgnored(req: Request, httpMethod: string, body: seq<byte>, images: map<U64, ImageData>)
    ensures Respond(req.(httpMethod := httpMethod, body := body), images) == Respond(req, images)
  {
  }

  /** Distinct ids have distinct ETags, so a validator never stands for two images. */
  lemma ETagInjective(a: U64, b: U64)
    requires ETag(a) == ETag(b)
    ensures a == b
  {
    var ea, eb := ETag(a), ETag(b);
    assert ea[1..|ea| - 1] == Format(a);
    assert eb[1..|eb| - 1] == Format(b);
    FormatInjective(a, b);
  }

  // ---------------------------------------------------------------------------
  // The three outcomes

  /** Exactly the unroutable, unparsable and unknown ids give 404. */
  lemma NotFoundCases(req: Request, images: map<U64, ImageData>)
    ensures Respond(req, images).status == 404 <==> ResolveId(req.url).None? || ResolveId(req.url).value !in images
    ensures Respond(req, images).status == 404 ==> Respond(req, images) == NotFound()
  {
  }

  /** A stored image is answered with 304 exactly when some header revalidates its ETag. */
  lemma NotModifiedCases(req: Request, images: map<U64, ImageData>)
    ensures Respond(req, images).status == 304 <==>
      ResolveId(req.url).Some? && ResolveId(req.url).value in images && HasMatch(req.headers, ETag(ResolveId(req.url).value))
    ensures Respond(req, images).status == 304 ==>
      Respond(req, images).body == [] &&
      Respond(req, images).headers == [("ETag", ETag(ResolveId(req.url).value)), ("Cache-Control", CACHE_CONTROL)]
  {
  }

  /** Otherwise a stored image is served with its bytes, its content type and its ETag. */
  lemma OkCases(req: Request, images: map<U64, ImageData>)
    ensures Respond(req, images).status == 200 <==>
      ResolveId(req.url).Some? && ResolveId(req.url).value in images && !HasMatch(req.headers, ETag(ResolveId(req.url).value))
    ensures Respond(req, images).status == 200 ==>
      var id := ResolveId(req.url).value;
      Respond(req, images).body == images[id].data &&
      Respond(req, images).headers == [("Content-Type", images[id].contentType), ("Cache-Control", CACHE_CONTROL), ("ETag", ETag(id))]
  {
  }

  /**
   * Fetching an image by the URL of its id: 404 when it is not stored, 304 when the
   * request revalidates its ETag, else 200 with the stored record.
   */
  lemma FetchByIdUrl(k: nat, id: U64, ext: string, req: Request, images: map<U64, ImageData>)
    requires ext == [] || ext[0] == '.'
    requires req.url == Slashes(k) + IMAGE_PREFIX + Format(id) + ext
    ensures Respond(req, images) ==
      if id !in images then NotFound()
      else if HasMatch(req.headers, ETag(id)) then NotModified(ETag(id))
      else Found(images[id], ETag(id))
  {
    IssuedIdUrlResolves(k, id, ext);
  }
}
