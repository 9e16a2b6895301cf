/** The typed `Engr_UpdateServer` (includes/Iastate): `requireAuthentication`
    stores the base64 of the key it is given, `initRequest` sets the request's
    `authKey` only when an `Authorization` header is present, and the download
    token is `rawurlencode`d. */
module EngrServer {
  import opened Php
  import Base64
  import Url
  import opened Gate

  const LOGS: Bytes := [47, 108, 111, 103, 115]          // "/logs"
  const CACHE: Bytes := [47, 99, 97, 99, 104, 101]       // "/cache"

  /** The constructor: no key required yet, logs and file cache under the root. */
  function New(rootPath: Bytes): (s: Server)
    ensures s.authenticationKey.None?
    ensures s.cache.FileCache?
  {
    Server(None, rootPath + LOGS, FileCache(rootPath + CACHE))
  }

  /** `requireAuthentication($key)`: the server now expects the base64 text
      of `key`, from which `key` is recovered; nothing else changes. */
  function RequireAuthentication(s: Server, key: Bytes): (r: Server)
    ensures r.authenticationKey.Some? && Base64.Decode(r.authenticationKey.value) == key
    ensures r.logDirectory == s.logDirectory && r.cache == s.cache
  {
    Base64.DecodeEncode(key);
    s.(authenticationKey := Some(Base64.Encode(key)))
  }

  /** `setCache`: only the cache controller is replaced. */
  function SetCache(s: Server, controller: CacheController): (r: Server)
    ensures r.cache == controller
    ensures r.authenticationKey == s.authenticationKey && r.logDirectory == s.logDirectory
  {
    s.(cache := controller)
  }

  /** The licence part of `initRequest`: with a non-empty `Authorization`
      header the request's key is read from it; otherwise the request is
      left as the parent built it. */
  function InitRequest(req: Request): (r: Request)
    ensures r.(authKey := req.authKey) == req
    ensures IsEmpty(req.authorization) ==> r.authKey == req.authKey
    ensures !IsEmpty(req.authorization) ==> r.authKey.Some? && r.authKey == HeaderKey(req.authorization)
  {
    if IsEmpty(req.authorization) then req
    else req.(authKey := HeaderKey(req.authorization))
  }

  /** `isAuthenticationKeyValid(string $string)`: strict equality with the
      stored key; a null argument is a `TypeError` under the `string` type. */
  function IsAuthenticationKeyValid(s: Server, key: Option<Bytes>): (r: Result<bool>)
    ensures r.TypeError? <==> key.None?
    ensures r.Ok? ==> (r.value <==> s.authenticationKey == key)
  {
    if key.None? then TypeError else Ok(s.authenticationKey == key)
  }

  /** `generateUniqueQueryArg`: a URL-safe token from which `isHashValid`
      recovers the digest of "download;slug;version;url". */
  function GenerateUniqueQueryArg(fw: Framework, req: Request): (t: Bytes)
    ensures Base64.Decode(Url.UrlDecode(t)) == IssuedDigest(fw, req)
    ensures forall i | 0 <= i < |t| :: Url.IsUnreserved(t[i]) || t[i] == PERCENT
  {
    var digest := IssuedDigest(fw, req);
    Url.UrlDecodeRawUrlEncode(Base64.Encode(digest));
    Base64.DecodeEncode(digest);
    Url.RawUrlEncode(Base64.Encode(digest))
  }

  /** `filterMetadata`, given the parent's metadata: the request's key is
      published as `auth_key`, the download URL survives, with the token
      appended, only for a valid key, and every other entry is the parent's.
      A request whose key was never set aborts with a `TypeError`. */
  function FilterMetadata(s: Server, fw: Framework, parentMeta: Meta, req: Request): (r: Result<Meta>)
    ensures r.TypeError? <==> req.authKey.None?
    ensures r.Ok? ==> Get(r.value, AUTH_KEY) == Some(Str(req.authKey.value))
    ensures r.Ok? ==> (DOWNLOAD_URL in r.value <==> s.authenticationKey == req.authKey)
    ensures r.Ok? && DOWNLOAD_URL in r.value ==>
      r.value[DOWNLOAD_URL] == Str(fw.addQueryArg(UID, GenerateUniqueQueryArg(fw, req), Get(parentMeta, DOWNLOAD_URL)))
    ensures r.Ok? ==> forall k :: k != AUTH_KEY && k != DOWNLOAD_URL ==> Get(r.value, k) == Get(parentMeta, k)
  {
    var meta := if req.authKey.Some? then parentMeta[AUTH_KEY := Str(req.authKey.value)] else parentMeta;
    match IsAuthenticationKeyValid(s, req.authKey)
    case TypeError => TypeError
    case Ok(valid) =>
      if valid then
        var url := fw.addQueryArg(UID, GenerateUniqueQueryArg(fw, req), Get(meta, DOWNLOAD_URL));
        Ok(meta[DOWNLOAD_URL := Str(url)])
      else
        Ok(meta - {DOWNLOAD_URL})
  }

  /** The token issued in the metadata is accepted on the matching download:
      a download request naming the same slug, version and site URL and
      carrying the issued `uid` passes `checkAuthorization`. */
  lemma IssuedTokenAccepted(fw: Framework, metaRequest: Request, download: Request)
    requires download.action == Some(DOWNLOAD)
    requires AsString(download.slug) == AsString(metaRequest.slug)
    requires AsString(download.wpVersion) == AsString(metaRequest.wpVersion)
    requires AsString(download.wpSiteUrl) == AsString(metaRequest.wpSiteUrl)
    requires Param(download, UID) == Some(GenerateUniqueQueryArg(fw, metaRequest))
    ensures IsHashValid(fw, download)
    ensures CheckAuthorization(fw, Allowed, download) == Allowed
  {
    AcceptsIssuedDigest(fw, metaRequest, download);
  }

  /** The token depends on slug, version and site URL only, never on the
      action of the request it was issued for. */
  lemma TokenIgnoresAction(fw: Framework, a: Request, b: Request)
    requires AsString(a.slug) == AsString(b.slug)
    requires AsString(a.wpVersion) == AsString(b.wpVersion)
    requires AsString(a.wpSiteUrl) == AsString(b.wpSiteUrl)
    ensures GenerateUniqueQueryArg(fw, a) == GenerateUniqueQueryArg(fw, b)
  {
  }

  /** The stored key identifies the secret: the base64 text of a secret is a
      valid key exactly when it is the secret the server was given. */
  lemma ValidKeyIdentifiesSecret(s: Server, secret: Bytes, other: Bytes)
    ensures IsAuthenticationKeyValid(RequireAuthentication(s, secret), Some(Base64.Encode(other))) == Ok(true)
      <==> other == secret
  {
    if Base64.Encode(other) == Base64.Encode(secret) {
      Base64.EncodeInjective(other, secret);
    }
  }

  /** A client that sends "Basic " + rawurlencode(base64(secret)) to a server
      that requires `secret` is given the download URL, with a token that its
      download request then gets accepted with. */
  lemma LicensedClientGetsDownload(
    s: Server, secret: Bytes, fw: Framework, parentMeta: Meta, parentRequest: Request, download: Request)
    requires parentRequest.authorization == Some(BASIC + Url.RawUrlEncode(Base64.Encode(secret)))
    requires download.action == Some(DOWNLOAD)
    requires AsString(download.slug) == AsString(parentRequest.slug)
    requires AsString(download.wpVersion) == AsString(parentRequest.wpVersion)
    requires AsString(download.wpSiteUrl) == AsString(parentRequest.wpSiteUrl)
    requires Param(download, UID) == Some(GenerateUniqueQueryArg(fw, parentRequest))
    ensures var r := FilterMetadata(RequireAuthentication(s, secret), fw, parentMeta, InitRequest(parentRequest));
      r.Ok? && DOWNLOAD_URL in r.value
    ensures CheckAuthorization(fw, Allowed, download) == Allowed
  {
    EncodedHeaderKey(Base64.Encode(secret));
    assert InitRequest(parentRequest).authKey == Some(Base64.Encode(secret));
    IssuedTokenAccepted(fw, InitRequest(parentRequest), download);
  }

  /** Until `requireAuthentication` is called no key is valid: the download
      URL is never published, and a request without a header aborts. */
  lemma UnconfiguredServerPublishesNoDownload(rootPath: Bytes, fw: Framework, parentMeta: Meta, req: Request)
    ensures var r := FilterMetadata(New(rootPath), fw, parentMeta, req);
      (r.TypeError? <==> req.authKey.None?) && (r.Ok? ==> DOWNLOAD_URL !in r.value)
  {
  }

  /** A request without an `Authorization` header keeps the unset key the
      parent gave it, and `filterMetadata` then aborts with a `TypeError`. */
  lemma MissingHeaderAborts(s: Server, fw: Framework, parentMeta: Meta, parentRequest: Request)
    requires parentRequest.authKey.None?
    requires IsEmpty(parentRequest.authorization)
    ensures FilterMetadata(s, fw, parentMeta, InitRequest(parentRequest)) == TypeError
  {
  }
}
