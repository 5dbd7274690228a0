/**
 * Shopify App Proxy request authentication (`verifyProxySignature`): the token
 * is taken from the query (`hmac` first, `signature` as fallback), both token
 * fields are deleted, the remaining entries are re-serialised sorted by name,
 * and the request is accepted when the HMAC-SHA256 hex digest of one of three
 * candidate messages equals the token. Any exception rejects the request.
 */
module ProxySignature {
  import opened Wrappers
  import opened Strings
  import opened Bytes
  import opened SearchParams

  /** The path the App Proxy mounts this service under. */
  const ProxyRoot: string := "/apps/logtek-split"

  predicate IsLowerHexDigit(c: char)
  {
    '0' <= c <= '9' || 'a' <= c <= 'f'
  }

  predicate IsLowerHexDigest(s: string)
  {
    |s| == 64 && forall i | 0 <= i < |s| :: IsLowerHexDigit(s[i])
  }

  /** `crypto.createHmac("sha256", key).update(msg).digest("hex")`: 64 lower-case hex digits. */
  type Digest = s: string | IsLowerHexDigest(s)
    witness Repeat('0', 64)

  function Repeat(c: char, n: nat): (r: string)
    ensures |r| == n
    ensures forall i | 0 <= i < n :: r[i] == c
  {
    if n == 0 then "" else [c] + Repeat(c, n - 1)
  }

  /** The parts of an Express request the check reads; an empty string is a missing value. */
  datatype Request = Request(originalUrl: string, url: string, path: string)

  /**
   * What the check depends on but does not define: the App Proxy shared secret
   * (`None` when `APP_PROXY_SECRET` is unset), HMAC-SHA256, the query codec, and
   * the name order of `localeCompare` (`keyLeq(a, b)` when `a` sorts no later than `b`).
   */
  datatype Config = Config(
    secret: Option<string>,
    hmac: (string, string) -> Digest,
    codec: Codec,
    keyLeq: (string, string) -> bool)

  /**
   * `short(s)`: the first eight UTF-16 code units of `s`, for the diagnostic
   * log lines. The cut can fall between the two halves of a surrogate pair.
   */
  function Short(s: string): (r: seq<CodeUnit>)
    ensures r <= Utf16(s)
    ensures |r| == if |Utf16(s)| < 8 then |Utf16(s)| else 8
  {
    var u := Utf16(s);
    if s == "" then [] else u[..if |u| < 8 then |u| else 8]
  }

  /** On a string without astral characters, `short` keeps the first eight characters. */
  lemma ShortOfBmp(s: string)
    requires IsBmp(s)
    ensures |Short(s)| == if |s| < 8 then |s| else 8
    ensures forall i | 0 <= i < |Short(s)| :: Short(s)[i] == s[i] as int
  {
  }

  /**
   * Seven characters of the Basic Multilingual Plane followed by an astral
   * one: `short` keeps the seven and only the high half of the astral
   * character's surrogate pair.
   */
  lemma ShortSplitsSurrogatePair(p: string, e: char)
    requires IsBmp(p) && |p| == 7 && (e as int) >= 0x1_0000
    ensures Short(p + [e]) == Utf16(p) + [Utf16Char(e)[0]]
    ensures 0xD800 <= Short(p + [e])[7] < 0xDC00
  {
    var u := Utf16(p);
    var pair := Utf16Char(e);
    assert |u| == 7 && |pair| == 2;
    assert Utf16([e]) == pair;
    Utf16Concat(p, [e]);
    assert (u + pair)[..8] == u + [pair[0]];
  }

  /** Five astral characters are ten code units, of which `short` keeps four characters' worth. */
  lemma ShortKeepsFourAstral()
    ensures Short("\U{1F600}\U{1F600}\U{1F600}\U{1F600}\U{1F600}") == Utf16("\U{1F600}\U{1F600}\U{1F600}\U{1F600}")
  {
    var e := '\U{1F600}';
    assert Utf16Char(e) == [0xD83D, 0xDE00];
    assert Utf16([e]) == Utf16Char(e);
    Utf16Concat([e, e, e, e], [e]);
    assert [e, e, e, e] + [e] == "\U{1F600}\U{1F600}\U{1F600}\U{1F600}\U{1F600}";
    assert [e, e, e, e] == "\U{1F600}\U{1F600}\U{1F600}\U{1F600}";
  }

  // ------------------------------------------------- reading the request

  /** `req.originalUrl || req.url || ""`. */
  function OriginalUrl(req: Request): (r: string)
    ensures r == "" <==> req.originalUrl == "" && req.url == ""
    ensures r == req.originalUrl || r == req.url
    ensures req.originalUrl != "" ==> r == req.originalUrl
  {
    if req.originalUrl != "" then req.originalUrl else req.url
  }

  /** `original.includes("?") ? original.split("?")[1] : ""`: the text between the first and second `?`. */
  function QueryOf(original: string): (r: string)
    ensures '?' !in r
    ensures '?' !in original ==> r == ""
    ensures '?' in original ==> r == Before(After(original, '?'), '?')
  {
    if '?' in original then Split(original, '?')[1] else ""
  }

  /** `original.split("?")[0] || req.path || "/prepare"`. */
  function PathOnly(req: Request): (r: string)
    ensures r != ""
    ensures Before(OriginalUrl(req), '?') != "" ==> r == Before(OriginalUrl(req), '?')
    ensures Before(OriginalUrl(req), '?') == "" && req.path == "" ==> r == "/prepare"
  {
    var head := Split(OriginalUrl(req), '?')[0];
    if head != "" then head else if req.path != "" then req.path else "/prepare"
  }

  /** `req.path || pathOnly`: the path as the local route handler sees it. */
  function ExpressPath(req: Request): (r: string)
    ensures r != ""
    ensures req.path != "" ==> r == req.path
    ensures req.path == "" ==> r == PathOnly(req)
  {
    if req.path != "" then req.path else PathOnly(req)
  }

  /** The query entries of the request, as `new URLSearchParams(qs)` parses them. */
  function RequestParams(cfg: Config, req: Request): seq<Param>
  {
    Parse(QueryOf(OriginalUrl(req)), cfg.codec)
  }

  // ------------------------------------------------------ the token

  /** `providedHmac || providedSig`, with "" standing for a falsy result. */
  function Provided(hmac: Option<string>, signature: Option<string>): (r: string)
    ensures hmac.Some? && hmac.value != "" ==> r == hmac.value
    ensures r == "" <==> (hmac.None? || hmac.value == "") && (signature.None? || signature.value == "")
    ensures r != "" ==> (hmac.Some? && r == hmac.value) || (signature.Some? && r == signature.value)
  {
    if hmac.Some? && hmac.value != "" then hmac.value
    else if signature.Some? then signature.value
    else ""
  }

  /** The token the request carries: the first `hmac` value unless empty, else the first `signature` value. */
  function ProvidedToken(ps: seq<Param>): (r: string)
    ensures r != "" ==> Param("hmac", r) in ps || Param("signature", r) in ps
  {
    Provided(Get(ps, "hmac"), Get(ps, "signature"))
  }

  // ------------------------------------------------ the signed message

  /** The entries left after `params.delete("hmac"); params.delete("signature")`. */
  function Unsigned(ps: seq<Param>): (r: seq<Param>)
    ensures forall p :: p in r <==> p in ps && p.name != "hmac" && p.name != "signature"
  {
    Delete(Delete(ps, "hmac"), "signature")
  }

  /** The entries of the signed message, in the order they are serialised. */
  function SignedParams(cfg: Config, ps: seq<Param>): seq<Param>
  {
    SortByName(Unsigned(ps), cfg.keyLeq)
  }

  /** `sortedQ`. */
  function SortedQuery(cfg: Config, ps: seq<Param>): (r: string)
    ensures r == "" <==> Unsigned(ps) == []
  {
    Serialize(SignedParams(cfg, ps), cfg.codec)
  }

  /** `sortedQ ? `${prefix}?${sortedQ}` : prefix`. */
  function WithQuery(prefix: string, sortedQ: string): (r: string)
    ensures prefix <= r
    ensures r == prefix <==> sortedQ == ""
  {
    if sortedQ == "" then prefix else prefix + "?" + sortedQ
  }

  /** The three candidate messages, in the order they are tried. */
  function Candidates(expressPath: string, sortedQ: string): (r: seq<string>)
    ensures |r| == 3
    ensures var prefixes := [expressPath, ProxyRoot + expressPath, ProxyRoot];
            forall i | 0 <= i < 3 ::
              && prefixes[i] <= r[i]
              && (r[i] == prefixes[i] <==> sortedQ == "")
              && (sortedQ != "" ==> r[i][|prefixes[i]|] == '?' && r[i][|prefixes[i]| + 1..] == sortedQ)
  {
    [WithQuery(expressPath, sortedQ),
     WithQuery(ProxyRoot + expressPath, sortedQ),
     WithQuery(ProxyRoot, sortedQ)]
  }

  /** The candidate messages for a request whose local path is `path` and whose query entries are `ps`. */
  function Messages(cfg: Config, path: string, ps: seq<Param>): (r: seq<string>)
    ensures |r| == 3
    ensures var prefixes := [path, ProxyRoot + path, ProxyRoot];
            forall i | 0 <= i < 3 :: prefixes[i] <= r[i] && (r[i] == prefixes[i] <==> Unsigned(ps) == [])
  {
    Candidates(path, SortedQuery(cfg, ps))
  }

  // ------------------------------------------------------- the verdict

  /** Some candidate's digest equals the token. */
  predicate SomeCandidateMatches(cfg: Config, secret: string, msgs: seq<string>, token: string)
  {
    exists i | 0 <= i < |msgs| :: cfg.hmac(secret, msgs[i]) == token
  }

  /** The verdict on a request with local path `path` and query entries `ps`. */
  predicate AcceptsParams(cfg: Config, path: string, ps: seq<Param>)
    ensures AcceptsParams(cfg, path, ps) ==> cfg.secret.Some? && IsLowerHexDigest(ProvidedToken(ps))
  {
    var token := ProvidedToken(ps);
    && token != ""
    && cfg.secret.Some?
    && SomeCandidateMatches(cfg, cfg.secret.value, Messages(cfg, path, ps), token)
  }

  /** The verdict on a request. */
  predicate Authentic(cfg: Config, req: Request)
    ensures Authentic(cfg, req) ==> cfg.secret.Some? && IsLowerHexDigest(ProvidedToken(RequestParams(cfg, req)))
  {
    AcceptsParams(cfg, ExpressPath(req), RequestParams(cfg, req))
  }

  /** A digest is 64 ASCII characters, so its UTF-8 buffer is 64 bytes long. */
  lemma DigestBytes(d: Digest)
    ensures IsAscii(d)
    ensures |FromUtf8(d)| == 64
  {
  }

  /**
   * Comparing a digest with a token on their UTF-8 buffers: a token whose
   * buffer is not 64 bytes long differs from every digest; otherwise the
   * buffers agree exactly when the strings do.
   */
  lemma CompareDigest(d: Digest, token: string)
    ensures |FromUtf8(d)| == 64
    ensures |FromUtf8(token)| != 64 ==> d != token
    ensures |FromUtf8(token)| == 64 ==> (FromUtf8(d) == FromUtf8(token) <==> d == token)
  {
    DigestBytes(d);
    AsciiBytesInjective(d, token);
  }

  /**
   * The comparison loop of `verifyProxySignature`: the candidates are tried in
   * order, each digest compared with the token by `timingSafeEqual` on their
   * UTF-8 buffers, and any exception (no secret, buffers of different length)
   * ends in `false`. `digests` counts the HMAC computations.
   */
  method MatchCandidates(cfg: Config, candidates: seq<string>, provided: string)
    returns (ok: bool, ghost digests: nat)
    ensures ok == (cfg.secret.Some? && SomeCandidateMatches(cfg, cfg.secret.value, candidates, provided))
    ensures digests <= |candidates|
    ensures ok ==> (
      && 1 <= digests
      && cfg.hmac(cfg.secret.value, candidates[digests - 1]) == provided
      && forall j | 0 <= j < digests - 1 :: cfg.hmac(cfg.secret.value, candidates[j]) != provided)
  {
    digests := 0;
    var i := 0;
    while i < |candidates|
      invariant 0 <= i <= |candidates|
      invariant digests == i
      invariant i > 0 ==> cfg.secret.Some?
      invariant forall j | 0 <= j < i :: cfg.hmac(cfg.secret.value, candidates[j]) != provided
    {
      if cfg.secret.None? {
        // createHmac throws on an undefined key.
        return false, digests;
      }
      var digest := cfg.hmac(cfg.secret.value, candidates[i]);
      digests := digests + 1;
      var same := TimingSafeEqual(FromUtf8(digest), FromUtf8(provided));
      CompareDigest(digest, provided);
      if same.Failure? {
        // The token's byte length differs from every digest's: no candidate can match.
        forall j | 0 <= j < |candidates| ensures cfg.hmac(cfg.secret.value, candidates[j]) != provided {
          CompareDigest(cfg.hmac(cfg.secret.value, candidates[j]), provided);
        }
        return false, digests;
      }
      if same.value {
        return true, digests;
      }
      assert digest != provided;
      i := i + 1;
    }
    return false, digests;
  }

  /**
   * `verifyProxySignature(req)`. `digests` counts the HMAC computations. The
   * result is the verdict; when it is `true`, the last digest computed is the
   * first candidate that matched.
   */
  method VerifyProxySignature(cfg: Config, req: Request) returns (ok: bool, ghost digests: nat)
    ensures ok == Authentic(cfg, req)
    ensures ProvidedToken(RequestParams(cfg, req)) == "" ==> digests == 0
    ensures digests <= 3
    ensures ok ==> (
      && 1 <= digests
      && var msgs := Messages(cfg, ExpressPath(req), RequestParams(cfg, req));
      && var token := ProvidedToken(RequestParams(cfg, req));
      && cfg.hmac(cfg.secret.value, msgs[digests - 1]) == token
      && forall j | 0 <= j < digests - 1 :: cfg.hmac(cfg.secret.value, msgs[j]) != token)
  {
    var params := Parse(QueryOf(OriginalUrl(req)), cfg.codec);
    ghost var received := params;
    var providedHmac := Get(params, "hmac");
    var providedSig := Get(params, "signature");
    var provided := Provided(providedHmac, providedSig);
    if provided == "" {
      return false, 0;
    }
    params := Delete(params, "hmac");
    params := Delete(params, "signature");
    var sortedQ := Serialize(SortByName(params, cfg.keyLeq), cfg.codec);
    var candidates := Candidates(ExpressPath(req), sortedQ);
    ok, digests := MatchCandidates(cfg, candidates, provided);
  }

  // ------------------------------------------------------ properties

  /** The entries of the signed message are the request's entries minus every `hmac` and `signature`. */
  lemma SignedEntries(cfg: Config, ps: seq<Param>, name: string)
    requires Total(cfg.keyLeq)
    ensures WithName(SignedParams(cfg, ps), name)
         == if name == "hmac" || name == "signature" then [] else WithName(ps, name)
  {
    SortStable(Unsigned(ps), cfg.keyLeq, name);
    WithNameAfterDelete(Delete(ps, "hmac"), "signature", name);
    WithNameAfterDelete(ps, "hmac", name);
  }

  /** No candidate message carries a token field, and its entries are in ascending name order. */
  lemma TokenNeverSigned(cfg: Config, ps: seq<Param>)
    requires Total(cfg.keyLeq) && Transitive(cfg.keyLeq)
    ensures forall p :: p in SignedParams(cfg, ps) ==> p.name != "hmac" && p.name != "signature"
    ensures SortedByName(SignedParams(cfg, ps), cfg.keyLeq)
  {
    SortSorted(Unsigned(ps), cfg.keyLeq);
    forall p | p in SignedParams(cfg, ps) ensures p.name != "hmac" && p.name != "signature" {
      assert p in multiset(SignedParams(cfg, ps));
      assert p in multiset(Unsigned(ps));
    }
  }

  lemma SameEntriesSameToken(ps1: seq<Param>, ps2: seq<Param>)
    requires forall name :: WithName(ps1, name) == WithName(ps2, name)
    ensures ProvidedToken(ps1) == ProvidedToken(ps2)
  {
  }

  /**
   * Reordering the query entries on the wire, keeping the relative order of
   * entries that share a name, does not change the verdict.
   */
  lemma ReorderingKeepsVerdict(cfg: Config, path: string, ps1: seq<Param>, ps2: seq<Param>)
    requires TotalOrder(cfg.keyLeq)
    requires forall name :: WithName(ps1, name) == WithName(ps2, name)
    ensures SignedParams(cfg, ps1) == SignedParams(cfg, ps2)
    ensures AcceptsParams(cfg, path, ps1) == AcceptsParams(cfg, path, ps2)
  {
    SameEntriesSameToken(ps1, ps2);
    forall name ensures WithName(SignedParams(cfg, ps1), name) == WithName(SignedParams(cfg, ps2), name) {
      SignedEntries(cfg, ps1, name);
      SignedEntries(cfg, ps2, name);
    }
    TokenNeverSigned(cfg, ps1);
    TokenNeverSigned(cfg, ps2);
    SortedUnique(SignedParams(cfg, ps1), SignedParams(cfg, ps2), cfg.keyLeq);
  }

  lemma {:induction false} OnlyTokensUnsigned(extra: seq<Param>)
    requires forall p :: p in extra ==> p.name == "hmac" || p.name == "signature"
    ensures Unsigned(extra) == []
  {
    if extra != [] {
      assert extra == [extra[0]] + extra[1..];
      assert extra[0] in extra;
      assert forall p :: p in extra[1..] ==> p in extra;
      OnlyTokensUnsigned(extra[1..]);
      UnsignedConcat([extra[0]], extra[1..]);
    }
  }

  lemma UnsignedConcat(a: seq<Param>, b: seq<Param>)
    ensures Unsigned(a + b) == Unsigned(a) + Unsigned(b)
  {
    DeleteConcat(a, b, "hmac");
    DeleteConcat(Delete(a, "hmac"), Delete(b, "hmac"), "signature");
  }

  /**
   * A non-empty `hmac` takes precedence: further `hmac` or `signature` entries
   * after it change neither the token nor the message, so not the verdict.
   */
  lemma HmacTakesPrecedence(cfg: Config, path: string, ps: seq<Param>, extra: seq<Param>)
    requires Get(ps, "hmac").Some? && Get(ps, "hmac").value != ""
    requires forall p :: p in extra ==> p.name == "hmac" || p.name == "signature"
    ensures ProvidedToken(ps + extra) == Get(ps, "hmac").value
    ensures AcceptsParams(cfg, path, ps + extra) == AcceptsParams(cfg, path, ps)
  {
    GetConcat(ps, extra, "hmac");
    UnsignedConcat(ps, extra);
    OnlyTokensUnsigned(extra);
    assert Unsigned(ps + extra) == Unsigned(ps);
  }

  /**
   * `signature` is used only when `hmac` is missing or empty, and then the
   * verdict is decided by the `signature` value alone.
   */
  lemma SignatureFallback(cfg: Config, path: string, ps: seq<Param>)
    requires Get(ps, "hmac").None? || Get(ps, "hmac") == Some("")
    ensures AcceptsParams(cfg, path, ps) <==>
      && Get(ps, "signature").Some?
      && Get(ps, "signature").value != ""
      && cfg.secret.Some?
      && exists i | 0 <= i < 3 :: cfg.hmac(cfg.secret.value, Messages(cfg, path, ps)[i]) == Get(ps, "signature").value
  {
  }

  /**
   * A token whose UTF-8 byte length is not 64 is rejected: `timingSafeEqual`
   * throws on the first candidate, and no digest could have matched anyway.
   */
  lemma WrongLengthTokenRejected(cfg: Config, path: string, ps: seq<Param>)
    requires |FromUtf8(ProvidedToken(ps))| != 64
    ensures !AcceptsParams(cfg, path, ps)
  {
  }

  /**
   * The candidates drop the `?` exactly when no entry besides the token
   * fields is left: then they are the bare prefixes.
   */
  lemma BareCandidates(cfg: Config, path: string, ps: seq<Param>)
    ensures Messages(cfg, path, ps) == [path, ProxyRoot + path, ProxyRoot] <==> Unsigned(ps) == []
  {
  }

  /**
   * A candidate message splits back, with the same `split("?")` the handler
   * applies to its own URL, into its prefix and the sorted query.
   */
  lemma CandidateSplitsBack(prefix: string, sortedQ: string)
    requires '?' !in prefix && '?' !in sortedQ
    ensures Split(WithQuery(prefix, sortedQ), '?')[0] == prefix
    ensures QueryOf(WithQuery(prefix, sortedQ)) == sortedQ
  {
    if sortedQ != "" {
      assert prefix + "?" + sortedQ == prefix + ['?'] + sortedQ;
      SplitAtFirst(prefix, sortedQ, '?');
    }
  }

  /** Only the text between the first and the second `?` of the URL is read as the query. */
  lemma QueryStopsAtSecondMark(a: string, b: string, c: string)
    requires '?' !in a && '?' !in b
    ensures QueryOf(a + "?" + b + "?" + c) == b
  {
    var url := a + "?" + b + "?" + c;
    assert url == a + ['?'] + (b + ['?'] + c);
    SplitAtFirst(a, b + ['?'] + c, '?');
    SplitAtFirst(b, c, '?');
  }
}
