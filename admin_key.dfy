/**
 * The Admin API key of the settings, `<id>:<secret>`, as `publishPost` splits
 * it (`const [id, secret] = key.split(":")`), and the fixed claims of the
 * token it signs with the secret.
 */
module AdminKey {
  import opened Wrappers
  import opened Text

  /** The Admin API version the plugin speaks. */
  const Version := "v4"

  datatype KeyParts = KeyParts(id: string, secret: string)

  /** The options handed to the token signer next to the decoded secret. */
  datatype Claims = Claims(keyid: string, algorithm: string, expiresIn: string, audience: string)

  /**
   * The first two `:`-separated segments of the key. Without a `:` the secret
   * is `undefined` and decoding it throws, so there is no token: `None`.
   */
  function SplitKey(key: string): (r: Option<KeyParts>)
    ensures r.Some? <==> ':' in key
    ensures r.Some? ==> IsKeySplit(key, r.value)
  {
    var parts := Split(key, ':');
    SplitCount(key, ':');
    if |parts| < 2 then None
    else
      FirstTwoSegments(parts, ':');
      Some(KeyParts(parts[0], parts[1]))
  }

  /**
   * `id` is everything before the first `:` and `secret` everything between it
   * and the second `:` (or the end).
   */
  ghost predicate IsKeySplit(key: string, k: KeyParts)
  {
    var n := |k.id| + 1 + |k.secret|;
    ':' !in k.id && ':' !in k.secret && n <= |key| &&
    key[..|k.id|] == k.id && key[|k.id|] == ':' && key[|k.id| + 1..n] == k.secret &&
    (n == |key| || key[n] == ':')
  }

  /** A text splits into more than one segment exactly when it holds the separator. */
  lemma SplitCount(s: string, sep: char)
    ensures |Split(s, sep)| >= 2 <==> sep in s
  {
    var parts := Split(s, sep);
    if |parts| >= 2 {
      assert Join(parts, sep) == parts[0] + [sep] + Join(parts[1..], sep);
      assert s[|parts[0]|] == sep;
    }
  }

  /** The layout of the first two segments inside the joined text. */
  lemma FirstTwoSegments(parts: seq<string>, sep: char)
    requires |parts| >= 2
    requires forall i :: 0 <= i < |parts| ==> sep !in parts[i]
    ensures var s := Join(parts, sep); var n := |parts[0]| + 1 + |parts[1]|;
      n <= |s| && s[..|parts[0]|] == parts[0] && s[|parts[0]|] == sep &&
      s[|parts[0]| + 1..n] == parts[1] && (n == |s| || s[n] == sep)
  {
    var rest := Join(parts[1..], sep);
    assert Join(parts, sep) == parts[0] + [sep] + rest;
    if |parts| > 2 {
      assert rest == parts[1] + [sep] + Join(parts[2..], sep);
    }
  }

  /** Round trip: a key assembled from a colon-free id and secret splits back into them. */
  lemma {:induction false} SplitKeyOfParts(id: string, secret: string, more: seq<string>)
    requires ':' !in id && ':' !in secret
    requires forall i :: 0 <= i < |more| ==> ':' !in more[i]
    ensures SplitKey(Join([id, secret] + more, ':')) == Some(KeyParts(id, secret))
  {
    var parts := [id, secret] + more;
    SplitJoin(parts, ':');
    SplitCount(Join(parts, ':'), ':');
  }

  /** The claims of the token: key id from the key, HS256, five minutes, audience `/v4/admin/`. */
  function TokenClaims(k: KeyParts): (c: Claims)
    ensures c.keyid == k.id
    ensures c.audience == "/v4/admin/" && c.algorithm == "HS256" && c.expiresIn == "5m"
  {
    Claims(k.id, "HS256", "5m", "/" + Version + "/admin/")
  }

  /** The claims for the key of the settings, if it splits. */
  function ClaimsForKey(key: string): (r: Option<Claims>)
    ensures r.Some? <==> ':' in key
    ensures r.Some? ==> |r.value.keyid| < |key| && key[..|r.value.keyid|] == r.value.keyid
                        && ':' !in r.value.keyid && key[|r.value.keyid|] == ':'
  {
    match SplitKey(key)
    case None => None
    case Some(k) => Some(TokenClaims(k))
  }
}
