/** The older, untyped `Engr_UpdateServer` (public/): the constructor stores
    the authentication key as given, `initRequest` always assigns the
    request's `authKey` (null without a header), key comparison is a plain
    `===` that null can pass, and the download token is `urlencode`d. */
module LegacyServer {
  import opened Php
  import Base64
  import Url
  import opened Gate
  import EngrServer

  const COLON: byte := 58

  /** The constructor: the key is stored verbatim (null by default). */
  function New(rootPath: Bytes, authenticationKey: Option<Bytes>): (s: Server)
    ensures s.authenticationKey == authenticationKey
    ensures s.cache.FileCache?
  {
    Server(authenticationKey, rootPath + EngrServer.LOGS, FileCache(rootPath + EngrServer.CACHE))
  }

  /** The key the entry point passes to the constructor: base64(ID ":" SECRET). */
  function EntryPointKey(id: Bytes, secret: Bytes): Bytes
  {
    Base64.Encode(id + [COLON] + secret)
  }

  /** The licence part of `initRequest`: the request's key is always
      assigned, null when the header is empty. */
  function InitRequest(req: Request): (r: Request)
    ensures r.(authKey := req.authKey) == req
    ensures r.authKey == HeaderKey(req.authorization)
    ensures r.authKey.None? <==> IsEmpty(req.authorization)
  {
    req.(authKey := HeaderKey(req.authorization))
  }

  /** `isAuthenticationKeyValid($string)`: `===` on string-or-null. On a
      string it agrees with the typed version; null is accepted, not an
      error, and only by a server that holds no key either. */
  function IsAuthenticationKeyValid(s: Server, key: Option<Bytes>): (r: bool)
    ensures key.Some? ==> EngrServer.IsAuthenticationKeyValid(s, key) == Ok(r)
    ensures key.None? ==> (r <==> s.authenticationKey.None?)
  {
    s.authenticationKey == key
  }

  /** `generateUniqueQueryArg` with `urlencode`: a token made of form-safe
      bytes, '%' and '+', from which `isHashValid` still recovers the digest
      of "download;slug;version;url". */
  function GenerateUniqueQueryArg(fw: Framework, req: Request): (t: Bytes)
    ensures Base64.Decode(Url.UrlDecode(t)) == IssuedDigest(fw, req)
    ensures forall i | 0 <= i < |t| :: Url.IsFormSafe(t[i]) || t[i] == PERCENT || t[i] == PLUS
  {
    var digest := IssuedDigest(fw, req);
    Url.UrlDecodeUrlEncode(Base64.Encode(digest));
    Base64.DecodeEncode(digest);
    Url.UrlEncode(Base64.Encode(digest))
  }

  /** `filterMetadata`, given the parent's metadata: `auth_key` is set
      exactly when the request has a key, the download URL survives, with
      the token appended, exactly when the request's key `===` the server's
      (null included), and every other entry is the parent's. */
  function FilterMetadata(s: Server, fw: Framework, parentMeta: Meta, req: Request): (m: Meta)
    ensures req.authKey.Some? ==> Get(m, AUTH_KEY) == Some(Str(req.authKey.value))
    ensures req.authKey.None? ==> Get(m, AUTH_KEY) == Get(parentMeta, AUTH_KEY)
    ensures DOWNLOAD_URL in m <==> s.authenticationKey == req.authKey
    ensures DOWNLOAD_URL in m ==>
      m[DOWNLOAD_URL] == Str(fw.addQueryArg(UID, GenerateUniqueQueryArg(fw, req), Get(parentMeta, DOWNLOAD_URL)))
    ensures forall k :: k != AUTH_KEY && k != DOWNLOAD_URL ==> Get(m, k) == Get(parentMeta, k)
  {
    var meta := if req.authKey.Some? then parentMeta[AUTH_KEY := Str(req.authKey.value)] else parentMeta;
    if IsAuthenticationKeyValid(s, req.authKey) then
      var url := fw.addQueryArg(UID, GenerateUniqueQueryArg(fw, req), Get(meta, DOWNLOAD_URL));
      meta[DOWNLOAD_URL := Str(url)]
    else
      meta - {DOWNLOAD_URL}
  }

  /** The token issued in the metadata is accepted on the matching download,
      `urlencode` being undone by `urldecode` just as `rawurlencode` is. */
  lemma IssuedTokenAccepted(fw: Framework, metaRequest: Request, download: Request)
    requires download.action == Some(DOWNLOAD)
    requires AsString(download.slug) == AsString(metaRequest.slug)
    requires AsString(download.wpVersion) == AsString(metaRequest.wpVersion)
    requires AsString(download.wpSiteUrl) == AsString(metaRequest.wpSiteUrl)
    requires Param(download, UID) == Some(GenerateUniqueQueryArg(fw, metaRequest))
    ensures IsHashValid(fw, download)
    ensures CheckAuthorization(fw, Allowed, download) == Allowed
  {
    AcceptsIssuedDigest(fw, metaRequest, download);
  }

  /** Both versions issue the same token: base64 text holds no space and no
      '~', the only bytes on which `urlencode` and `rawurlencode` differ. */
  lemma SameTokenAsTypedServer(fw: Framework, req: Request)
    ensures GenerateUniqueQueryArg(fw, req) == EngrServer.GenerateUniqueQueryArg(fw, req)
  {
    var b := Base64.Encode(IssuedDigest(fw, req));
    assert SPACE !in b && Url.TILDE !in b;
    Url.EncodersAgree(b);
  }

  /** With no key configured, a request without an `Authorization` header
      gets the download URL: null `===` null. */
  lemma NullKeyPublishesDownload(rootPath: Bytes, fw: Framework, parentMeta: Meta, parentRequest: Request)
    requires IsEmpty(parentRequest.authorization)
    ensures DOWNLOAD_URL in FilterMetadata(New(rootPath, None), fw, parentMeta, InitRequest(parentRequest))
  {
  }

  /** With no key configured, a request that does send a header never gets
      the download URL. */
  lemma NullKeyRefusesAnyHeader(rootPath: Bytes, fw: Framework, parentMeta: Meta, parentRequest: Request)
    requires !IsEmpty(parentRequest.authorization)
    ensures DOWNLOAD_URL !in FilterMetadata(New(rootPath, None), fw, parentMeta, InitRequest(parentRequest))
  {
  }

  /** For the server the entry point builds, a client that sends its key
      as "Basic " + rawurlencode(key) gets the download URL. */
  lemma EntryPointClientGetsDownload(
    rootPath: Bytes, id: Bytes, secret: Bytes, fw: Framework, parentMeta: Meta, parentRequest: Request)
    requires parentRequest.authorization == Some(BASIC + Url.RawUrlEncode(EntryPointKey(id, secret)))
    ensures DOWNLOAD_URL in
      FilterMetadata(New(rootPath, Some(EntryPointKey(id, secret))), fw, parentMeta, InitRequest(parentRequest))
  {
    EncodedHeaderKey(EntryPointKey(id, secret));
  }

  /** For the server the entry point builds, a client that sends the header
      as section 2 of RFC 7617 writes it, "Basic " + base64(ID ":" SECRET)
      with no percent-encoding, gets the download URL exactly when that
      base64 text holds no '+'. */
  lemma EntryPointPlainBasicIff(
    rootPath: Bytes, id: Bytes, secret: Bytes, fw: Framework, parentMeta: Meta, parentRequest: Request)
    requires parentRequest.authorization == Some(BASIC + EntryPointKey(id, secret))
    ensures DOWNLOAD_URL in
        FilterMetadata(New(rootPath, Some(EntryPointKey(id, secret))), fw, parentMeta, InitRequest(parentRequest))
      <==> PLUS !in EntryPointKey(id, secret)
  {
    PlainBasicHeaderKeyIff(id + [COLON] + secret);
  }
}
