/**
 VerifyCookie and parseCookie, the readers of the token store.
 */
module CookieAuth {
  import opened Bytes
  import opened TokenStore

  const TOKEN_ID_LEN := 11
  const SECRET_LEN := 32

  predicate Base64UrlChar(c: char) {
    'A' <= c <= 'Z' || 'a' <= c <= 'z' || '0' <= c <= '9' || c == '_' || c == '-'
  }

  predicate Base64Url(s: string) {
    s != [] && forall i :: 0 <= i < |s| ==> Base64UrlChar(s[i])
  }

  /** The base64url alphabet (section 5 of RFC 4648). */
  function Digit64(v: nat): char
    requires v < 64
  {
    if v < 26 then 'A' + v as char
    else if v < 52 then 'a' + (v - 26) as char
    else if v < 62 then '0' + (v - 52) as char
    else if v == 62 then '-' else '_'
  }

  lemma AlphabetExact(c: char)
    ensures Base64UrlChar(c) <==> exists v: nat :: v < 64 && Digit64(v) == c
  {
    var v := if 'A' <= c <= 'Z' then c as int - 65
             else if 'a' <= c <= 'z' then c as int - 71
             else if '0' <= c <= '9' then c as int + 4
             else if c == '-' then 62 else 63;
    if Base64UrlChar(c) { assert Digit64(v) == c; }
  }

  datatype Cookie = Cookie(id: string, secret: string)

  function DotIndex(v: string, i: nat): (j: nat)
    requires i <= |v|
    ensures i <= j <= |v|
    ensures forall k :: i <= k < j ==> v[k] != '.'
    ensures j < |v| ==> v[j] == '.'
    decreases |v| - i
  {
    if i == |v| || v[i] == '.' then i else DotIndex(v, i + 1)
  }

  function ParsedCookie(v: string): Option<Cookie> {
    var i := DotIndex(v, 0);
    if i == |v| || DotIndex(v, i + 1) < |v| then None
    else
      var id, secret := v[..i], v[i + 1..];
      if |id| == TOKEN_ID_LEN && |secret| == SECRET_LEN && Base64Url(id) && Base64Url(secret)
      then Some(Cookie(id, secret)) else None
  }

  method IsBase64UrlString(s: string) returns (ok: bool)
    ensures ok == Base64Url(s)
  {
    for i := 0 to |s|
      invariant forall k :: 0 <= k < i ==> Base64UrlChar(s[k])
    {
      if !Base64UrlChar(s[i]) { return false; }
    }
    return |s| > 0;
  }

  /** The cookies accepted are exactly ID.SECRET with both parts of full length and in the base64url alphabet. */
  lemma ParsedCookieExact(v: string, id: string, secret: string)
    ensures ParsedCookie(v) == Some(Cookie(id, secret)) <==>
              v == id + "." + secret && |id| == 11 && |secret| == 32 && Base64Url(id) && Base64Url(secret)
  {
    var i := DotIndex(v, 0);
    if i < |v| {
      assert v == v[..i] + "." + v[i + 1..];
    }
    if v == id + "." + secret && |id| == TOKEN_ID_LEN && |secret| == SECRET_LEN && Base64Url(id) && Base64Url(secret) {
      assert forall k :: 0 <= k < |id| ==> v[k] == id[k];
      assert v[|id|] == '.';
      assert i == |id|;
      assert forall k :: 0 <= k < |secret| ==> v[i + 1 + k] == secret[k];
      assert forall k :: i + 1 <= k < |v| ==> v[k] == secret[k - i - 1];
      assert v[..i] == id && v[i + 1..] == secret;
    }
  }

  datatype Verdict = Verdict(id: string, token: Token)

  /** Accepted: a known token, neither revoked nor unseen for 60 days, and the right secret. */
  function Verified(store: Store, cookie: string, now: int, bcryptOk: (string, string) -> bool): Option<Verdict> {
    match ParsedCookie(cookie)
    case None => None
    case Some(c) =>
      if c.id !in store.tokens then None
      else
        var tok := store.tokens[c.id];
        if tok.revoked || (tok.lastSeen > 0 && now - tok.lastSeen > HARD_EXPIRE) || !bcryptOk(tok.hash, c.secret) then None
        else Some(Verdict(c.id, tok))
  }

  /** The cookie is the id and the secret, full length and base64url, with a dot between. */
  predicate Joins(cookie: string, id: string, secret: string) {
    cookie == id + "." + secret && |id| == 11 && |secret| == 32 && Base64Url(id) && Base64Url(secret)
  }

  /** Main result: a cookie is accepted as `id` if and only if it joins that id with a secret that
      matches the hash of its token, which is neither revoked nor unseen for over 60 days. */
  lemma VerifiedExact(store: Store, cookie: string, now: int, bcryptOk: (string, string) -> bool, id: string, tok: Token)
    ensures Verified(store, cookie, now, bcryptOk) == Some(Verdict(id, tok)) <==>
              && id in store.tokens && tok == store.tokens[id] && !tok.revoked
              && (tok.lastSeen > 0 ==> now - tok.lastSeen <= 5_184_000)
              && exists secret :: Joins(cookie, id, secret) && bcryptOk(tok.hash, secret)
  {
    var c := ParsedCookie(cookie);
    hide ParsedCookie, Base64Url;
    if c.Some? { ParsedCookieExact(cookie, c.value.id, c.value.secret); }
    forall secret | Joins(cookie, id, secret) ensures c == Some(Cookie(id, secret)) { ParsedCookieExact(cookie, id, secret); }
    if Verified(store, cookie, now, bcryptOk) == Some(Verdict(id, tok)) { assert Joins(cookie, id, c.value.secret); }
  }

  /** VerifyCookie; an unknown id is refused before the hash is touched. */
  method VerifyCookie(store: TokensStore, cookie: string, now: int, bcryptOk: (string, string) -> bool) returns (v: Option<Verdict>)
    ensures v == Verified(store.View(), cookie, now, bcryptOk)
  {
    var c := ParseCookie(cookie);
    if c == None { return None; }
    var id := c.value.id;
    if id !in store.tokens { return None; }
    var tok := store.tokens[id];
    if tok.revoked { return None; }
    if tok.lastSeen > 0 && now - tok.lastSeen > HARD_EXPIRE { return None; }
    if !bcryptOk(tok.hash, c.value.secret) { return None; }
    return Some(Verdict(id, tok));
  }

  method ParseCookie(v: string) returns (c: Option<Cookie>)
    ensures c == ParsedCookie(v)
  {
    var i := DotIndex(v, 0);
    if i == |v| || DotIndex(v, i + 1) < |v| { return None; }
    var id, secret := v[..i], v[i + 1..];
    if |id| != TOKEN_ID_LEN { return None; }
    if |secret| != SECRET_LEN { return None; }
    var idOk := IsBase64UrlString(id);
    var secretOk := IsBase64UrlString(secret);
    if !idOk || !secretOk { return None; }
    return Some(Cookie(id, secret));
  }
}
