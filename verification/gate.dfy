/** The licence gate shared, line for line, by both versions of
    `Engr_UpdateServer`: the records it works on, the HTTPS test, the licence
    key read from the `Authorization` header, the download-token check and the
    403 rule. The parent `Wpup_UpdateServer` is opaque: what it computes
    enters as parameters or as the function fields of `Framework`. */
module Gate {
  import opened Php
  import Base64
  import Url

  const DOWNLOAD: Bytes := [100, 111, 119, 110, 108, 111, 97, 100]                      // "download"
  const UID: Bytes := [117, 105, 100]                                                     // "uid"
  const AUTH_KEY: Bytes := [97, 117, 116, 104, 95, 107, 101, 121]                         // "auth_key"
  const DOWNLOAD_URL: Bytes := [100, 111, 119, 110, 108, 111, 97, 100, 95, 117, 114, 108] // "download_url"
  const BASIC: Bytes := [66, 97, 115, 105, 99, 32]                                        // "Basic "
  const HTTPS: Bytes := [104, 116, 116, 112, 115]                                         // "https"
  const HTTPS_UPPER: Bytes := [72, 84, 84, 80, 83]                                        // "HTTPS"

  /** "You must provide a license key to download this plugin." */
  const MISSING_LICENSE: Bytes :=
    [89, 111, 117, 32, 109, 117, 115, 116, 32, 112, 114, 111, 118, 105, 100, 101,
     32, 97, 32, 108, 105, 99, 101, 110, 115, 101, 32, 107, 101, 121, 32, 116,
     111, 32, 100, 111, 119, 110, 108, 111, 97, 100, 32, 116, 104, 105, 115, 32,
     112, 108, 117, 103, 105, 110, 46]
  /** "Sorry, your license is not valid." */
  const INVALID_LICENSE: Bytes :=
    [83, 111, 114, 114, 121, 44, 32, 121, 111, 117, 114, 32, 108, 105, 99, 101,
     110, 115, 101, 32, 105, 115, 32, 110, 111, 116, 32, 118, 97, 108, 105, 100,
     46]
  const FORBIDDEN := 403

  /** A `Wpup_Request` as the parent's `initRequest` builds it, with the
      `authKey` property of `Engr_Request` (None while unset or null). */
  datatype Request = Request(
    action: Option<Bytes>,
    slug: Option<Bytes>,
    wpVersion: Option<Bytes>,
    wpSiteUrl: Option<Bytes>,
    query: map<Bytes, Bytes>,       // the query parameters
    authorization: Option<Bytes>,   // headers->get('Authorization')
    authKey: Option<Bytes>)

  /** `$request->param($name)`: the query parameter, or null. */
  function Param(r: Request, name: Bytes): Option<Bytes>
  {
    if name in r.query then Some(r.query[name]) else None
  }

  /** A metadata entry: a string, or some other value of the parent's
      (array, number, null) that this layer never looks into. */
  datatype Value = Str(text: Bytes) | Other(id: nat)

  /** The metadata array of one plugin. */
  type Meta = map<Bytes, Value>

  /** `$meta[$key]`, null when absent. */
  function Get(m: Meta, key: Bytes): Option<Value>
  {
    if key in m then Some(m[key]) else None
  }

  /** Where metadata is cached: the file cache the constructors install, or a
      controller handed to `setCache`. */
  datatype CacheController = FileCache(directory: Bytes) | Controller(id: nat)

  /** The fields of `Engr_UpdateServer` this layer sets. */
  datatype Server = Server(authenticationKey: Option<Bytes>, logDirectory: Bytes, cache: CacheController)

  /** What the gate takes from its surroundings: `hash(WP_UPDATE_HASH_ALGO, ·)`,
      a deterministic function whose algorithm is not modelled, and the
      parent's `addQueryArg(['name' => value], url)`. */
  datatype Framework = Framework(
    hash: Bytes -> Bytes,
    addQueryArg: (Bytes, Bytes, Option<Value>) -> Bytes)

  /** The outcome of `checkAuthorization`: the request goes on, or ends in
      `exitWithError(message, status)`. */
  datatype Verdict = Allowed | Denied(message: Bytes, status: int)

  /** "https" spelt with each letter in either case. */
  predicate HttpsInAnyCase(p: Option<Bytes>)
  {
    p.Some? && |p.value| == |HTTPS| &&
    forall i | 0 <= i < |HTTPS| :: p.value[i] in {HTTPS[i], HTTPS_UPPER[i]}
  }

  /** `isSsl`: an `X-Forwarded-Proto` of "https", in any letter case, makes the
      request secure; otherwise the parent decides. */
  function IsSsl(forwardedProto: Option<Bytes>, parentIsSsl: bool): (r: bool)
    ensures r <==> (HttpsInAnyCase(forwardedProto) || parentIsSsl)
  {
    ProtoLowerIff(forwardedProto);
    (forwardedProto.Some? && ToLower(forwardedProto.value) == HTTPS) || parentIsSsl
  }

  lemma ProtoLowerIff(forwardedProto: Option<Bytes>)
    ensures (forwardedProto.Some? && ToLower(forwardedProto.value) == HTTPS) <==> HttpsInAnyCase(forwardedProto)
  {
    if forwardedProto.Some? && |forwardedProto.value| == |HTTPS| {
      var p := forwardedProto.value;
      var l := ToLower(p);
      assert l == HTTPS <==> forall i | 0 <= i < |HTTPS| :: l[i] == HTTPS[i];
      forall i | 0 <= i < |HTTPS|
        ensures l[i] == HTTPS[i] <==> p[i] in {HTTPS[i], HTTPS_UPPER[i]}
      {
        assert HTTPS_UPPER[i] as int + 32 == HTTPS[i] as int;
      }
    }
  }

  /** The licence key `initRequest` reads: none when the header is empty in
      PHP's sense, otherwise the header with every "Basic " cut out,
      then `urldecode`d. */
  function HeaderKey(authorization: Option<Bytes>): (k: Option<Bytes>)
    ensures k.None? <==> IsEmpty(authorization)
  {
    if IsEmpty(authorization) then None
    else Some(Url.UrlDecode(RemoveAll(authorization.value, BASIC)))
  }

  /** `implode(';', [action, slug, version, url])`. */
  function HashMessage(action: Bytes, slug: Bytes, version: Bytes, url: Bytes): Bytes
  {
    action + [SEMICOLON] + slug + [SEMICOLON] + version + [SEMICOLON] + url
  }

  /** The digest a download token carries: action fixed to "download". */
  function IssuedDigest(fw: Framework, r: Request): Bytes
  {
    fw.hash(HashMessage(DOWNLOAD, AsString(r.slug), AsString(r.wpVersion), AsString(r.wpSiteUrl)))
  }

  /** The digest `isHashValid` expects: from the request's own action. */
  function RequestDigest(fw: Framework, r: Request): Bytes
  {
    fw.hash(HashMessage(AsString(r.action), AsString(r.slug), AsString(r.wpVersion), AsString(r.wpSiteUrl)))
  }

  /** `base64_decode(urldecode($request->param('uid')))`; a missing `uid`
      is read as "". */
  function SentDigest(r: Request): Bytes
  {
    Base64.Decode(Url.UrlDecode(AsString(Param(r, UID))))
  }

  /** `isHashValid`: the request's own digest `===` the one its `uid`
      decodes to. The token that percent-encodes the base64 of that digest
      passes; a missing `uid`, "" or "0" decodes to "" and so passes only
      when the digest is "". */
  function IsHashValid(fw: Framework, r: Request): (ok: bool)
    ensures Param(r, UID) == Some(Url.RawUrlEncode(Base64.Encode(RequestDigest(fw, r)))) ==> ok
    ensures IsEmpty(Param(r, UID)) ==> (ok <==> RequestDigest(fw, r) == [])
  {
    var digest := RequestDigest(fw, r);
    Url.UrlDecodeRawUrlEncode(Base64.Encode(digest));
    Base64.DecodeEncode(digest);
    EmptyUidDecodesToNothing(Param(r, UID));
    digest == SentDigest(r)
  }

  /** `base64_decode(urldecode(u))` is "" for a `uid` that `empty()` holds
      for: "0" is one base64 symbol, too short to make a byte. */
  lemma EmptyUidDecodesToNothing(uid: Option<Bytes>)
    ensures IsEmpty(uid) ==> Base64.Decode(Url.UrlDecode(AsString(uid))) == []
  {
    if uid == Some([DIGIT_ZERO]) {
      assert Url.UrlDecode([DIGIT_ZERO]) == [DIGIT_ZERO];
      assert Base64.Sextets([DIGIT_ZERO]) == [52];
    }
  }

  /** `checkAuthorization`: after the parent's own check, a download whose
      token does not match is refused with 403; the message says whether a
      token was sent at all. */
  function CheckAuthorization(fw: Framework, parent: Verdict, r: Request): (v: Verdict)
    ensures parent.Denied? ==> v == parent
    ensures parent.Allowed? && r.action != Some(DOWNLOAD) ==> v == Allowed
    ensures parent.Allowed? && r.action == Some(DOWNLOAD) ==> (v == Allowed <==> IsHashValid(fw, r))
    ensures parent.Allowed? && v.Denied? ==>
      v.status == FORBIDDEN && (v.message == MISSING_LICENSE <==> IsEmpty(Param(r, UID)))
  {
    if parent.Denied? then parent
    else if r.action == Some(DOWNLOAD) && !IsHashValid(fw, r) then
      Denied(if IsEmpty(Param(r, UID)) then MISSING_LICENSE else INVALID_LICENSE, FORBIDDEN)
    else Allowed
  }

  /** A download request whose token carries the digest issued for a request
      with the same slug, version and site URL is let through. */
  lemma AcceptsIssuedDigest(fw: Framework, issuedFor: Request, r: Request)
    requires r.action == Some(DOWNLOAD)
    requires AsString(r.slug) == AsString(issuedFor.slug)
    requires AsString(r.wpVersion) == AsString(issuedFor.wpVersion)
    requires AsString(r.wpSiteUrl) == AsString(issuedFor.wpSiteUrl)
    requires SentDigest(r) == IssuedDigest(fw, issuedFor)
    ensures IsHashValid(fw, r)
    ensures CheckAuthorization(fw, Allowed, r) == Allowed
  {
  }

  /** With an injective hash, a token issued for one request is accepted on
      exactly those requests that hash the same action, slug, version and
      site URL text. */
  lemma DigestAcceptedIff(fw: Framework, issuedFor: Request, r: Request)
    requires forall m1, m2 :: fw.hash(m1) == fw.hash(m2) ==> m1 == m2
    requires SentDigest(r) == IssuedDigest(fw, issuedFor)
    ensures IsHashValid(fw, r) <==>
      HashMessage(AsString(r.action), AsString(r.slug), AsString(r.wpVersion), AsString(r.wpSiteUrl)) ==
      HashMessage(DOWNLOAD, AsString(issuedFor.slug), AsString(issuedFor.wpVersion), AsString(issuedFor.wpSiteUrl))
  {
  }

  /** The hashed text does not separate its fields unambiguously: moving a
      ';' between slug and version leaves it unchanged. */
  lemma HashMessageAmbiguous(action: Bytes, a: Bytes, b: Bytes, c: Bytes, url: Bytes)
    ensures HashMessage(action, a + [SEMICOLON] + b, c, url) == HashMessage(action, a, b + [SEMICOLON] + c, url)
  {
  }

  /** The key of a header "Basic " + rawurlencode(key) is `key`. */
  lemma {:induction false} EncodedHeaderKey(key: Bytes)
    ensures HeaderKey(Some(BASIC + Url.RawUrlEncode(key))) == Some(key)
  {
    var t := Url.RawUrlEncode(key);
    assert SPACE !in t by {
      forall i | 0 <= i < |t| ensures t[i] != SPACE {
        assert Url.IsUnreserved(t[i]) || t[i] == PERCENT;
      }
    }
    BasicRemovedInFront(t);
    Url.UrlDecodeRawUrlEncode(key);
  }

  /** A header "Basic " + base64(credentials) sent as section 2 of RFC 7617
      writes it, without percent-encoding, yields the base64 text back
      exactly when that text holds no '+': `urldecode` turns '+' into a space. */
  lemma {:induction false} PlainBasicHeaderKeyIff(credentials: Bytes)
    ensures HeaderKey(Some(BASIC + Base64.Encode(credentials))) == Some(Base64.Encode(credentials))
      <==> PLUS !in Base64.Encode(credentials)
  {
    var k := Base64.Encode(credentials);
    Base64.EncodeHasNoSpaceOrPercent(credentials);
    BasicRemovedInFront(k);
    Url.UrlDecodeFixedIff(k);
  }

  /** One cut of the scan: a "Basic " behind a prefix without a space is
      cut out, the prefix is kept, and the scan goes on after the cut. */
  lemma {:induction false} BasicCutThenRest(a: Bytes, b: Bytes)
    requires SPACE !in a
    ensures RemoveAll(a + BASIC + b, BASIC) == a + RemoveAll(b, BASIC)
    decreases |a|
  {
    if |a| == 0 {
      assert a + BASIC + b == BASIC + b;
      RemoveAllCutsFront(BASIC, b);
    } else {
      TailBytesIn(a);
      BasicCutThenRest(a[1..], b);
      NoBasicInFront(a, b);
      DropFirstByte(a, b);
      RemoveAllKeepsFirst(a + BASIC + b, a[1..] + BASIC + b, BASIC);
      HeadThenTail(a, RemoveAll(b, BASIC));
    }
  }

  /** "Basic " is cut out wherever it stands, not only in front. */
  lemma BasicRemovedAnywhere(a: Bytes, b: Bytes)
    requires SPACE !in a && SPACE !in b
    ensures RemoveAll(a + BASIC + b, BASIC) == a + b
  {
    BasicCutThenRest(a, b);
    LastByteAbsent(b, BASIC);
    RemoveAllAbsent(b, BASIC);
  }

  /** A leading "Basic " is cut, and a rest without a space is kept whole. */
  lemma BasicRemovedInFront(b: Bytes)
    requires SPACE !in b
    ensures RemoveAll(BASIC + b, BASIC) == b
  {
    BasicRemovedAnywhere([], b);
    assert [] + BASIC + b == BASIC + b;
  }

  /** Space-free pieces with "Basic " between each pair. */
  function JoinBasic(parts: seq<Bytes>): Bytes
    requires |parts| > 0
    decreases |parts|
  {
    if |parts| == 1 then parts[0] else parts[0] + BASIC + JoinBasic(parts[1..])
  }

  /** The pieces one after another. */
  function Concat(parts: seq<Bytes>): Bytes
    decreases |parts|
  {
    if |parts| == 0 then [] else parts[0] + Concat(parts[1..])
  }

  /** Every "Basic " is cut out, however many there are ("Basic Basic x"
      is the pieces "", "" and "x"), and nothing else is touched. */
  lemma {:induction false} BasicRemovedEverywhere(parts: seq<Bytes>)
    requires |parts| > 0
    requires forall i | 0 <= i < |parts| :: SPACE !in parts[i]
    ensures RemoveAll(JoinBasic(parts), BASIC) == Concat(parts)
    decreases |parts|
  {
    if |parts| == 1 {
      LastByteAbsent(parts[0], BASIC);
      RemoveAllAbsent(parts[0], BASIC);
      assert Concat(parts) == parts[0] + Concat([]);
    } else {
      assert SPACE !in parts[0];
      BasicCutThenRest(parts[0], JoinBasic(parts[1..]));
      BasicRemovedEverywhere(parts[1..]);
    }
  }

  /** A non-empty prefix without a space keeps "Basic " from starting at the
      front: its sixth byte, the space, would have to be a byte of `a` or
      one of the five letters. */
  lemma NoBasicInFront(a: Bytes, b: Bytes)
    requires |a| > 0 && SPACE !in a
    ensures !(BASIC <= a + BASIC + b)
  {
    var s := a + BASIC + b;
    if |a| > 5 {
      assert s[5] == a[5];
    } else {
      assert s[5] == BASIC[5 - |a|];
    }
  }

  lemma DropFirstByte(a: Bytes, b: Bytes)
    requires |a| > 0
    ensures (a + BASIC + b)[1..] == a[1..] + BASIC + b
  {
  }
}
