/**
 * Request signing for the box-office API: the string to sign, its HMAC-SHA1
 * signature under the base64-decoded secret key, and the request headers.
 * HMAC-SHA1 itself (RFC 2104 over SHA-1) is the parameter `hmacSha1`.
 */
module Authorize {
  import opened Wrappers
  import opened Bytes
  import opened OrderedDict
  import Base64
  import Utf8

  /** HMAC-SHA1 as a function of key and message, both octet strings. */
  type Hmac = (seq<byte>, seq<byte>) -> seq<byte>

  /** `str.upper` on one ASCII character. */
  function UpperChar(c: char): char {
    if 'a' <= c <= 'z' then (c as int - 32) as char else c
  }

  /** `str.upper`. */
  function Upper(s: string): (u: string)
    ensures |u| == |s|
    ensures forall i :: 0 <= i < |s| ==> u[i] == UpperChar(s[i])
    ensures forall c :: c in u ==> !('a' <= c <= 'z')
  {
    seq(|s|, i requires 0 <= i < |s| => UpperChar(s[i]))
  }

  /** StringToSign: upper-cased method, newline, uri, newline, date. */
  function StringToSign(httpMethod: string, httpUri: string, httpDate: string): (s: string)
    ensures |s| == |httpMethod| + |httpUri| + |httpDate| + 2
    ensures s[..|httpMethod|] == Upper(httpMethod) && s[|httpMethod|] == '\n'
    ensures s[|httpMethod| + 1..|httpMethod| + 1 + |httpUri|] == httpUri && s[|httpMethod| + 1 + |httpUri|] == '\n'
    ensures s[|httpMethod| + |httpUri| + 2..] == httpDate
  {
    Upper(httpMethod) + "\n" + httpUri + "\n" + httpDate
  }

  /** The position of the first newline, if any. */
  function FindNewline(s: string): (r: Option<nat>)
    ensures r.None? <==> '\n' !in s
    ensures r.Some? ==> r.value < |s| && s[r.value] == '\n' && '\n' !in s[..r.value]
  {
    if s == [] then None
    else if s[0] == '\n' then Some(0)
    else
      var r := FindNewline(s[1..]);
      if r.None? then None
      else
        assert s[..r.value + 1] == [s[0]] + s[1..][..r.value];
        Some(r.value + 1)
  }

  /** Reads a StringToSign back: everything before the first newline, between
      the first and second, and after the second. */
  function SplitStringToSign(s: string): Option<(string, string, string)>
  {
    match FindNewline(s)
    case None => None
    case Some(i) =>
      match FindNewline(s[i + 1..])
      case None => None
      case Some(j) => Some((s[..i], s[i + 1..][..j], s[i + 1..][j + 1..]))
  }

  lemma FindNewlineAfter(prefix: string, rest: string)
    requires '\n' !in prefix
    ensures FindNewline(prefix + "\n" + rest) == Some(|prefix|)
  {
    var s := prefix + "\n" + rest;
    assert s[|prefix|] == '\n';
    assert s[..|prefix|] == prefix;
  }

  /** When neither the method nor the uri contains a newline, the three parts
      are recovered exactly from the string to sign; in particular nothing
      follows the date. */
  lemma SplitStringToSignInverts(httpMethod: string, httpUri: string, httpDate: string)
    requires '\n' !in httpMethod && '\n' !in httpUri
    ensures SplitStringToSign(StringToSign(httpMethod, httpUri, httpDate)) == Some((Upper(httpMethod), httpUri, httpDate))
  {
    var m := Upper(httpMethod);
    assert '\n' !in m;
    var s := StringToSign(httpMethod, httpUri, httpDate);
    var rest := httpUri + "\n" + httpDate;
    assert s == m + "\n" + rest;
    FindNewlineAfter(m, rest);
    assert s[|m| + 1..] == rest;
    FindNewlineAfter(httpUri, httpDate);
    assert s[..|m|] == m;
    assert rest[..|httpUri|] == httpUri;
    assert rest[|httpUri| + 1..] == httpDate;
  }

  /** When neither method nor uri contains a newline, different dates, uris
      or (case-insensitively) methods give different strings to sign. */
  lemma StringToSignInjective(m1: string, u1: string, d1: string, m2: string, u2: string, d2: string)
    requires '\n' !in m1 && '\n' !in u1 && '\n' !in m2 && '\n' !in u2
    requires StringToSign(m1, u1, d1) == StringToSign(m2, u2, d2)
    ensures Upper(m1) == Upper(m2) && u1 == u2 && d1 == d2
  {
    SplitStringToSignInverts(m1, u1, d1);
    SplitStringToSignInverts(m2, u2, d2);
  }

  /** `generate_signature`: base64 of HMAC-SHA1 under the decoded key of the
      UTF-8 string to sign. None where `b64decode` of the key raises. */
  function GenerateSignature(
    httpMethod: string, httpUri: string, httpDate: string,
    secretKey: string, loginName: string, hmacSha1: Hmac): (sig: Option<string>)
    ensures sig.Some? <==> Base64.Decode(secretKey).Some?
    ensures sig.Some? ==>
              Base64.Decode(sig.value)
              == Some(hmacSha1(Base64.Decode(secretKey).value, Utf8.Encode(StringToSign(httpMethod, httpUri, httpDate))))
    ensures sig.Some? ==> ':' !in sig.value
    ensures sig.Some? ==> Base64.PaddingBitsZero(sig.value)
  {
    var stringToSign := StringToSign(httpMethod, httpUri, httpDate);
    match Base64.Decode(secretKey)
    case None => None
    case Some(decodedSecretKey) =>
      var digest := hmacSha1(decodedSecretKey, Utf8.Encode(stringToSign));
      Base64.DecodeEncode(digest);
      Some(Base64.Encode(digest))
  }

  /** The login name takes no part in the signature. */
  lemma SignatureIgnoresLoginName(
    httpMethod: string, httpUri: string, httpDate: string,
    secretKey: string, login1: string, login2: string, hmacSha1: Hmac)
    ensures GenerateSignature(httpMethod, httpUri, httpDate, secretKey, login1, hmacSha1)
            == GenerateSignature(httpMethod, httpUri, httpDate, secretKey, login2, hmacSha1)
  {
  }

  /** The signature is the one base 64 text with zero padding bits that
      decodes to the digest. */
  lemma SignatureIsCanonical(
    httpMethod: string, httpUri: string, httpDate: string,
    secretKey: string, loginName: string, hmacSha1: Hmac, t: string)
    requires Base64.Decode(secretKey).Some?
    requires Base64.Decode(t) == Some(hmacSha1(Base64.Decode(secretKey).value, Utf8.Encode(StringToSign(httpMethod, httpUri, httpDate))))
    requires Base64.PaddingBitsZero(t)
    ensures t == GenerateSignature(httpMethod, httpUri, httpDate, secretKey, loginName, hmacSha1).value
  {
    var digest := hmacSha1(Base64.Decode(secretKey).value, Utf8.Encode(StringToSign(httpMethod, httpUri, httpDate)));
    assert GenerateSignature(httpMethod, httpUri, httpDate, secretKey, loginName, hmacSha1).value == Base64.Encode(digest);
    Base64.EncodeDecode(t);
  }

  /** A 20-octet SHA-1 digest is sent as 28 characters. */
  lemma SignatureLength(
    httpMethod: string, httpUri: string, httpDate: string,
    secretKey: string, loginName: string, hmacSha1: Hmac)
    requires Base64.Decode(secretKey).Some?
    requires |hmacSha1(Base64.Decode(secretKey).value, Utf8.Encode(StringToSign(httpMethod, httpUri, httpDate)))| == 20
    ensures |GenerateSignature(httpMethod, httpUri, httpDate, secretKey, loginName, hmacSha1).value| == 28
  {
    var digest := hmacSha1(Base64.Decode(secretKey).value, Utf8.Encode(StringToSign(httpMethod, httpUri, httpDate)));
    assert GenerateSignature(httpMethod, httpUri, httpDate, secretKey, loginName, hmacSha1).value == Base64.Encode(digest);
    DigestEncodedLength(digest);
  }

  lemma DigestEncodedLength(digest: seq<byte>)
    requires |digest| == 20
    ensures |Base64.Encode(digest)| == 28
  {
  }

  const SchemePrefix: string := "SpektrixAPI3 "

  /** The Authorization header value: scheme, space, user, colon, signature. */
  function AuthorizationHeader(apiUser: string, signature: string): (h: string)
    ensures |h| == |SchemePrefix| + |apiUser| + 1 + |signature|
    ensures h[..|SchemePrefix|] == SchemePrefix
    ensures h[|SchemePrefix|..|SchemePrefix| + |apiUser|] == apiUser && h[|SchemePrefix| + |apiUser|] == ':'
    ensures h[|SchemePrefix| + |apiUser| + 1..] == signature
  {
    SchemePrefix + apiUser + ":" + signature
  }

  /** The position of the last colon, if any. */
  function FindLastColon(s: string): (r: Option<nat>)
    ensures r.None? <==> ':' !in s
    ensures r.Some? ==> r.value < |s| && s[r.value] == ':' && ':' !in s[r.value + 1..]
  {
    if s == [] then None
    else if s[|s| - 1] == ':' then Some(|s| - 1)
    else
      var r := FindLastColon(s[..|s| - 1]);
      if r.None? then None
      else
        assert s[r.value + 1..] == s[..|s| - 1][r.value + 1..] + [s[|s| - 1]];
        r
  }

  /** Reads an Authorization header back into user and signature. */
  function ParseAuthorization(h: string): Option<(string, string)>
  {
    if |h| < |SchemePrefix| || h[..|SchemePrefix|] != SchemePrefix then None
    else
      var rest := h[|SchemePrefix|..];
      match FindLastColon(rest)
      case None => None
      case Some(i) => Some((rest[..i], rest[i + 1..]))
  }

  /** The header carries user and signature recoverably, whatever the user
      name, since a base64 signature contains no colon. */
  lemma ParseAuthorizationInverts(apiUser: string, signature: string)
    requires ':' !in signature
    ensures ParseAuthorization(AuthorizationHeader(apiUser, signature)) == Some((apiUser, signature))
  {
    var h := AuthorizationHeader(apiUser, signature);
    var rest := apiUser + ":" + signature;
    assert h[..|SchemePrefix|] == SchemePrefix;
    assert h[|SchemePrefix|..] == rest;
    assert rest[|apiUser|] == ':';
    assert rest[|apiUser| + 1..] == signature;
    assert rest[..|apiUser|] == apiUser;
  }

  /** The request headers for a given Authorization value and date. */
  function HeaderDict(authorization: string, date: string): (hs: Dict<string, string>)
    ensures Keys(hs) == ["Authorization", "Content-Type", "Host", "Date"]
    ensures DistinctKeys(hs)
    ensures Get(hs, "Authorization") == Some(authorization)
    ensures Get(hs, "Content-Type") == Some("application/json")
    ensures Get(hs, "Host") == Some("system.spektrix.com")
    ensures Get(hs, "Date") == Some(date)
  {
    var headers := [
      ("Authorization", authorization),
      ("Content-Type", "application/json"),
      ("Host", "system.spektrix.com"),
      ("Date", date)];
    assert Keys(headers) == ["Authorization", "Content-Type", "Host", "Date"];
    assert DistinctKeys(headers);
    GetAt(headers, 0);
    GetAt(headers, 1);
    GetAt(headers, 2);
    GetAt(headers, 3);
    headers
  }

  /** `generate_headers`: the four request headers, in this order. None where
      signing raises. */
  function GenerateHeaders(
    httpMethod: string, endpoint: string, date: string,
    apiKey: string, apiUser: string, hmacSha1: Hmac): (h: Option<Dict<string, string>>)
    ensures h.Some? <==> Base64.Decode(apiKey).Some?
    ensures h.Some? ==> Keys(h.value) == ["Authorization", "Content-Type", "Host", "Date"]
    ensures h.Some? ==> DistinctKeys(h.value)
    ensures h.Some? ==> Get(h.value, "Content-Type") == Some("application/json")
    ensures h.Some? ==> Get(h.value, "Host") == Some("system.spektrix.com")
    ensures h.Some? ==> Get(h.value, "Date") == Some(date)
    ensures h.Some? ==>
              Get(h.value, "Authorization")
              == Some(AuthorizationHeader(apiUser, GenerateSignature(httpMethod, endpoint, date, apiKey, apiUser, hmacSha1).value))
  {
    match GenerateSignature(httpMethod, endpoint, date, apiKey, apiUser, hmacSha1)
    case None => None
    case Some(signature) => Some(HeaderDict(AuthorizationHeader(apiUser, signature), date))
  }

  /** The headers authenticate their own Date header: the signature carried
      in Authorization, for the user named there, decodes to the HMAC of the
      string to sign built with exactly the date the Date header sends. */
  lemma HeadersSignTheirDate(
    httpMethod: string, endpoint: string, date: string,
    apiKey: string, apiUser: string, hmacSha1: Hmac)
    requires Base64.Decode(apiKey).Some?
    ensures var h := GenerateHeaders(httpMethod, endpoint, date, apiKey, apiUser, hmacSha1).value;
            var parsed := ParseAuthorization(Get(h, "Authorization").value);
            && parsed.Some?
            && parsed.value.0 == apiUser
            && Base64.Decode(parsed.value.1)
               == Some(hmacSha1(Base64.Decode(apiKey).value,
                                Utf8.Encode(StringToSign(httpMethod, endpoint, Get(h, "Date").value))))
  {
    var signature := GenerateSignature(httpMethod, endpoint, date, apiKey, apiUser, hmacSha1).value;
    ParseAuthorizationInverts(apiUser, signature);
  }

  /** Malformed secret keys are refused. */
  lemma MalformedKeyRefused(httpMethod: string, httpUri: string, httpDate: string, loginName: string, hmacSha1: Hmac)
    ensures GenerateSignature(httpMethod, httpUri, httpDate, "not-base64!!", loginName, hmacSha1).None?
  {
    assert Base64.Index('-').None?;
  }
}
