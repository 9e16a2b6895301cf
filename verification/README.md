# Licence gate of the Engr WordPress update server

`Engr_UpdateServer` sits on top of the `Wpup_UpdateServer` plugin-update
framework. It hands out plugin metadata and packages only to clients that hold
a shared-secret licence key. Two versions of the class exist. One is typed, in
`includes/Iastate/class-engr-update-server.php`. The other is older and
untyped, in `public/EngrUpdateServer.php`. Both do four things:

- **Licence check.** `initRequest` reads the key from the `Authorization`
  header. It cuts out every "Basic " and then `urldecode`s the rest.
  `filterMetadata` compares that key with the configured one using `===`.
- **Metadata gating.** `filterMetadata` publishes the key as `auth_key`. It
  keeps `download_url` only when the key is valid.
- **Token issue.** The kept URL gets a `uid` argument:
  percent-encode(base64(H("download;slug;version;url"))), where H is the
  configured hash.
- **Token check.** On a `download` request, `checkAuthorization` recomputes
  H from the request's own action, slug, version and site URL. It compares
  that digest with `base64_decode(urldecode(uid))`. A mismatch ends the
  request with 403.

The model is functional. Requests, servers and metadata are immutable
datatypes, and every PHP `null` is an `Option`. PHP strings are byte
sequences. The module layout is:

- `Php` holds the string builtins used here: `empty()`, `(string)`,
  `strtolower`, and `str_replace` with an empty replacement.
- `Base64` models `base64_encode`, the encoding of section 4 of RFC 4648, and
  PHP's non-strict `base64_decode`. That decoder skips every byte outside the
  alphabet, `=` included, and drops a trailing partial byte.
- `Url` models `rawurlencode`, `urlencode` and `urldecode`. These are
  percent-encoding as in section 2.1 of RFC 3986. `rawurlencode` keeps
  exactly the unreserved set of section 2.3.
- `Gate` holds the code the two versions share line for line: `isSsl`, the
  header key, `isHashValid` and `checkAuthorization`.
- `EngrServer` models the typed version.
- `LegacyServer` models the untyped version.

The hash is a function-valued field of `Framework`, so it is deterministic but
otherwise arbitrary. The same goes for the parent's `addQueryArg`. The
parent's own `isSsl` answer and `checkAuthorization` verdict are parameters.

The main theorem is `EngrServer.IssuedTokenAccepted`, with
`LegacyServer.IssuedTokenAccepted` for the old version. A download request
that names the same slug, version and site URL and carries the issued `uid`
passes `checkAuthorization`. The proof rests on two round trips:
`Base64.DecodeEncode` and `Url.UrlDecodeRawUrlEncode` (or
`Url.UrlDecodeUrlEncode`).

The same files give `isSsl`, `isHashValid` and `checkAuthorization` once more,
at `public/EngrUpdateServer.php:13-19`, `:72-83` and `:100-113`. The `Gate`
members model them for both versions.

## Model

| member | source | states |
|---|---|---|
| Php.RemoveAll | includes/Iastate/class-engr-update-server.php:60 | `str_replace('Basic ', '', h)` only removes bytes: the result is no longer than `h`, and its bytes are a sub-multiset of `h`'s |
| Php.RemoveAllAbsent | includes/Iastate/class-engr-update-server.php:60 | a header with no occurrence of the pattern passes through `str_replace` unchanged |
| Php.IsEmpty | includes/Iastate/class-engr-update-server.php:59 | `empty()` on a string-or-null holds exactly when its `(string)` cast is "" or "0"; a value it rejects is a string of at least one byte |
| Php.ToLower | includes/Iastate/class-engr-update-server.php:22 | `strtolower` keeps the length and lower-cases each byte on its own, ASCII letters only |
| Gate.BasicRemovedAnywhere | includes/Iastate/class-engr-update-server.php:60 | "Basic " is cut out wherever it stands, not only at the front: `a + "Basic " + b` becomes `a + b` when neither part holds a space |
| Gate.BasicCutThenRest | includes/Iastate/class-engr-update-server.php:60 | `str_replace` scans left to right: after a space-free prefix `a`, the first "Basic " is dropped and removal carries on in the rest, so `a + "Basic " + b` becomes `a` followed by `b` with its own occurrences removed |
| Gate.BasicRemovedEverywhere | includes/Iastate/class-engr-update-server.php:60 | every occurrence is removed, however many: space-free pieces joined by "Basic " come out as the pieces run together ("Basic Basic x" becomes "x") |
| Base64.Encode | includes/Iastate/class-engr-update-server.php:111 | `base64_encode` gives 4 symbols per 3 bytes, rounded up, and uses only the alphabet of RFC 4648 and `=` |
| Base64.Decode | includes/Iastate/class-engr-update-server.php:145 | non-strict `base64_decode` yields fewer bytes than it reads from any non-empty input |
| Base64.DecodeEncode | includes/Iastate/class-engr-update-server.php:145 | `base64_decode(base64_encode(s)) == s` for every byte string |
| Base64.EncodeInjective | includes/Iastate/class-engr-update-server.php:30 | two different keys never have the same base64 text |
| Base64.EncodeHasNoSpaceOrPercent | public/index.php:16 | base64 text holds no space and no `%` |
| Url.RawUrlEncode | includes/Iastate/class-engr-update-server.php:111 | `rawurlencode` output holds only unreserved bytes and `%`, and is at least as long as its input |
| Url.UrlEncode | public/EngrUpdateServer.php:96 | `urlencode` output holds only alphanumerics, `-`, `.`, `_`, `%` and `+` |
| Url.UrlDecode | includes/Iastate/class-engr-update-server.php:145 | `urldecode` never lengthens its input, and keeps the length of text that holds no `%` |
| Url.UrlDecodeRawUrlEncode | includes/Iastate/class-engr-update-server.php:145 | `urldecode(rawurlencode(s)) == s` for every byte string |
| Url.UrlDecodeUrlEncode | public/EngrUpdateServer.php:79 | `urldecode(urlencode(s)) == s` for every byte string, with a space round-tripping through `+` |
| Url.EncodersAgree | public/EngrUpdateServer.php:96 | `urlencode` and `rawurlencode` agree on every string that has no space and no `~` |
| Url.UrlDecodeFixedIff | includes/Iastate/class-engr-update-server.php:60 | on text without `%`, `urldecode` returns its input exactly when the input holds no `+` |
| Gate.IsSsl | includes/Iastate/class-engr-update-server.php:19-27 | secure iff `X-Forwarded-Proto` is "https" with each letter in either case, or else the parent says so |
| Gate.HeaderKey | includes/Iastate/class-engr-update-server.php:59-61 | a key is read exactly when the header is non-empty in PHP's sense: not null, "" or "0" |
| Gate.EncodedHeaderKey | includes/Iastate/class-engr-update-server.php:59-61 | the header "Basic " + rawurlencode(k) yields exactly the key k |
| Gate.PlainBasicHeaderKeyIff | includes/Iastate/class-engr-update-server.php:59-61 | a header "Basic " + base64(c), as written by RFC 7617 with no percent-encoding, yields its base64 text back iff that text holds no `+` |
| Gate.CheckAuthorization | includes/Iastate/class-engr-update-server.php:120-133 | a parent refusal stands; otherwise only a `download` with a failing hash is refused, always with 403; the message is "You must provide…" iff `uid` is empty |
| Gate.IsHashValid | includes/Iastate/class-engr-update-server.php:138-149 | a `uid` that percent-encodes the base64 of the request's own digest passes; a missing `uid`, "" or "0" decodes to "" and passes only when the digest is "" |
| Gate.AcceptsIssuedDigest | includes/Iastate/class-engr-update-server.php:138-149 | a download whose `uid` decodes to the digest issued for the same slug, version and site URL passes `isHashValid` and `checkAuthorization` |
| Gate.DigestAcceptedIff | includes/Iastate/class-engr-update-server.php:138-149 | with an injective hash, an issued token is accepted iff the request hashes the same "action;slug;version;url" text as "download;…" for the issuing request |
| Gate.HashMessageAmbiguous | includes/Iastate/class-engr-update-server.php:103-109 | moving a `;` between slug and version leaves the hashed text unchanged, so such requests share a token |
| EngrServer.RequireAuthentication | includes/Iastate/class-engr-update-server.php:29-33 | stores a key whose base64 decoding is the given key; log directory and cache are unchanged |
| EngrServer.New | includes/Iastate/class-engr-update-server.php:13-17 | a new server holds no authentication key and uses the file cache |
| EngrServer.ValidKeyIdentifiesSecret | includes/Iastate/class-engr-update-server.php:95-97 | after `requireAuthentication(secret)`, base64(other) is a valid key iff `other == secret` |
| EngrServer.SetCache | includes/Iastate/class-engr-update-server.php:35-39 | replaces the cache controller and nothing else |
| EngrServer.InitRequest | includes/Iastate/class-engr-update-server.php:58-61 | only `authKey` may change; it is left untouched for an empty header and otherwise set to the header key |
| EngrServer.IsAuthenticationKeyValid | includes/Iastate/class-engr-update-server.php:95-97 | a null key is a `TypeError` under the `string` parameter; otherwise valid iff it is strictly equal to the stored key |
| LegacyServer.IsAuthenticationKeyValid | public/EngrUpdateServer.php:65-67 | on a string key it agrees with the typed version; a null key is accepted, not an error, exactly when the server holds no key |
| EngrServer.GenerateUniqueQueryArg | includes/Iastate/class-engr-update-server.php:102-112 | the token is URL-safe (unreserved bytes and `%`), and `base64_decode(urldecode(token))` is the digest of "download;slug;version;url" |
| EngrServer.TokenIgnoresAction | includes/Iastate/class-engr-update-server.php:102-112 | the token depends only on slug, version and site URL, never on the issuing request's action |
| EngrServer.FilterMetadata | includes/Iastate/class-engr-update-server.php:72-90 | aborts iff the request has no key; otherwise `auth_key` is the key, `download_url` is present iff the key is valid and is then the parent URL with `uid` = token, and every other entry is the parent's |
| EngrServer.IssuedTokenAccepted | includes/Iastate/class-engr-update-server.php:102-149 | the token issued for a metadata request is accepted on a download with the same slug, version and site URL |
| EngrServer.LicensedClientGetsDownload | includes/Iastate/class-engr-update-server.php:59-87 | a server that requires `secret`, asked with "Basic " + rawurlencode(base64(secret)), publishes the download URL, and the matching download is accepted |
| EngrServer.UnconfiguredServerPublishesNoDownload | includes/Iastate/class-engr-update-server.php:79-97 | before `requireAuthentication`, no request gets the download URL, and a request without a key aborts |
| EngrServer.MissingHeaderAborts | includes/Iastate/class-engr-update-server.php:80 | a request without an `Authorization` header reaches the `string` parameter with an unset key and aborts with a `TypeError` |
| LegacyServer.New | public/EngrUpdateServer.php:6-11 | the constructor stores the authentication key verbatim, null included, and installs the file cache |
| LegacyServer.InitRequest | public/EngrUpdateServer.php:28-34 | only `authKey` changes; it is always assigned, and is null iff the header is empty |
| LegacyServer.GenerateUniqueQueryArg | public/EngrUpdateServer.php:88-97 | the `urlencode`d token holds only form-safe bytes, `%` and `+`, and `urldecode` then `base64_decode` recover the digest of "download;slug;version;url" |
| LegacyServer.FilterMetadata | public/EngrUpdateServer.php:39-67 | `auth_key` is the key when the request has one, and otherwise the parent's entry; `download_url` is present iff request key `===` server key, and is then the parent URL with `uid` = token; other entries are the parent's |
| LegacyServer.IssuedTokenAccepted | public/EngrUpdateServer.php:72-97 | the issue/validate round trip also holds with `urlencode` |
| LegacyServer.SameTokenAsTypedServer | public/EngrUpdateServer.php:96 | both versions issue the same token for the same request |
| LegacyServer.NullKeyPublishesDownload | public/EngrUpdateServer.php:49-67 | with no key configured, a request without a header gets the download URL (null `===` null) |
| LegacyServer.NullKeyRefusesAnyHeader | public/EngrUpdateServer.php:49-67 | with no key configured, a request that sends a header never gets the download URL |
| LegacyServer.EntryPointClientGetsDownload | public/index.php:16 | for the key base64(ID ":" SECRET), the header "Basic " + rawurlencode(key) gets the download URL |
| LegacyServer.EntryPointPlainBasicIff | public/index.php:16 | for that key, a plain RFC 7617 header "Basic " + base64(ID ":" SECRET) gets the download URL iff the base64 text holds no `+` |

## Left out

- `Redis_Cache` and `Memcache_Cache`: each method passes the call straight to a network extension, so there is nothing to state. The Memcache expiry `time() + expiration` reads the clock.
- The client IP taken from `X-Forwarded-For` (`filter_input` in one version, a raw `$_SERVER` read in the other): it is a superglobal read that the licence gate never uses.
- The loaders and the entry point's `define()` defaults: they are configuration. The entry point's key shape appears only as `LegacyServer.EntryPointKey`.
- The hash algorithm (`tiger128,3` by default): the hash is an arbitrary deterministic function. No lemma relies on its digest being non-empty or hexadecimal.
- The parent framework: `parent::initRequest`, `filterMetadata`, `checkAuthorization`, `isSsl`, `addQueryArg`, `exitWithError` and `handleRequest`. Their results are parameters, and the 403 exit is a `Verdict` value.
- The transport of the `uid` argument: `addQueryArg` builds the query with `http_build_query`, and PHP decodes `$_GET` on the way back. The lemmas assume that the download request's `uid` parameter is exactly the issued token.
- Array-valued query parameters and headers, for which `urldecode` would raise a `TypeError`: only strings and null are modelled.
- The constructor's `serverUrl` and `serverDirectory`, which go to the parent. The log directory and file cache are kept as plain paths.
- `urldecode(null)` for a missing `uid` is read as "". This is how PHP 8.1 and later coerce null, with a deprecation notice.
- `strtolower` is ASCII-only, as in PHP 8.2 and later. Earlier versions followed the locale.
- `Base64.Decode` models only the default, non-strict mode. Strict mode is never used here.
- Php.RemoveAll: its contract says only that bytes are removed and none are added. Which occurrences are removed is stated by `Php.RemoveAllAbsent`, `Gate.BasicCutThenRest` and `Gate.BasicRemovedEverywhere`, for headers whose pieces between the "Basic "s hold no space; a header with other spaces (such as "x Basic y", whose first piece is "x ") is characterised only by this contract.
