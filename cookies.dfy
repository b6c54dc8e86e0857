/**
 * `readCookie(req, key)`: a simplified reading of the Cookie request header
 * (the `cookie-string` of section 4.2.1 of RFC 6265): pairs separated by `;`,
 * trimmed, name and value separated by the first `=`. Percent-decoding of the
 * value (`decodeURIComponent`) is taken as the identity.
 */
module Cookies {

  import opened Wrappers
  import Text

  /** `cookie.split(";").map((part) => part.trim())`. */
  function Pairs(header: string): (pairs: seq<string>)
    ensures |pairs| == |Text.Split(header, ';')|
  {
    var parts := Text.Split(header, ';');
    seq(|parts|, k requires 0 <= k < |parts| => Text.Trim(parts[k]))
  }

  /** The `k` of `const [k, ...rest] = pair.split("=")`: the text before the first `=`. */
  function PairKey(pair: string): string
  {
    Text.Split(pair, '=')[0]
  }

  /** `rest.join("=")`: the text after the first `=`, later `=` kept; "" when there is none. */
  function PairValue(pair: string): string
  {
    Text.Join(Text.Split(pair, '=')[1..], "=")
  }

  /** The value of the first pair whose name is exactly `key`. */
  function FirstMatch(pairs: seq<string>, key: string): (value: Option<string>)
    ensures value.None? <==> forall k :: 0 <= k < |pairs| ==> PairKey(pairs[k]) != key
    ensures value.Some? ==>
              exists k :: 0 <= k < |pairs| && PairKey(pairs[k]) == key && value.value == PairValue(pairs[k])
                          && forall j :: 0 <= j < k ==> PairKey(pairs[j]) != key
  {
    if pairs == [] then None
    else if PairKey(pairs[0]) == key then Some(PairValue(pairs[0]))
    else
      var r := FirstMatch(pairs[1..], key);
      assert forall k :: 1 <= k < |pairs| ==> pairs[k] == pairs[1..][k - 1];
      r
  }

  /** What `readCookie` returns: nothing for an absent or empty header, else the first match. */
  function CookieValue(header: Option<string>, key: string): (value: Option<string>)
    ensures header.None? || header.value == "" ==> value.None?
    ensures value.Some? ==> exists pair :: pair in Pairs(header.value) && PairKey(pair) == key && PairValue(pair) == value.value
  {
    if header.None? || header.value == "" then None
    else FirstMatch(Pairs(header.value), key)
  }

  /** `readCookie`: the loop over the pairs with its early return. */
  method ReadCookie(header: Option<string>, key: string) returns (value: Option<string>)
    ensures value == CookieValue(header, key)
  {
    if header.None? || header.value == "" {
      return None;
    }
    var pairs := Pairs(header.value);
    for i := 0 to |pairs|
      invariant FirstMatch(pairs[i..], key) == FirstMatch(pairs, key)
    {
      assert pairs[i..][1..] == pairs[i + 1..];
      var fields := Text.Split(pairs[i], '=');
      if fields[0] == key {
        return Some(Text.Join(fields[1..], "="));
      }
    }
    return None;
  }

  /** A pair written as `k=v` with no `=` in `k` has name `k` and value `v`. */
  lemma PairOf(k: string, v: string)
    requires '=' !in k
    ensures PairKey(k + "=" + v) == k && PairValue(k + "=" + v) == v
  {
    Text.SplitAfterField(k, '=', v);
    Text.JoinSplit(v, '=');
    assert Text.Split(k + "=" + v, '=')[1..] == Text.Split(v, '=');
  }

  /** A header holding one cookie `key=v` yields `v` for `key`. */
  lemma SingleCookie(key: string, v: string)
    requires key != "" && !Text.IsWhitespace(key[0])
    requires '=' !in key && ';' !in key && ';' !in v
    requires v == "" || !Text.IsWhitespace(v[|v| - 1])
    ensures CookieValue(Some(key + "=" + v), key) == Some(v)
  {
    var pair := key + "=" + v;
    assert pair[0] == key[0];
    assert pair[|pair| - 1] == if v == "" then '=' else v[|v| - 1];
    assert ';' !in pair;
    SinglePair(pair);
    PairOf(key, v);
    assert FirstMatch([pair], key) == Some(v);
  }

  /** A header with no `;` and no surrounding whitespace is a single pair. */
  lemma SinglePair(pair: string)
    requires pair != "" && ';' !in pair
    requires !Text.IsWhitespace(pair[0]) && !Text.IsWhitespace(pair[|pair| - 1])
    ensures Pairs(pair) == [pair]
  {
    Text.SplitNoSep(pair, ';');
    Text.TrimUnchanged(pair);
  }
}
