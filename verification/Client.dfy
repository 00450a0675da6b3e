/** URL building and the retry loop of the Pump.fun client (src/market_data/pumpfun_client.cpp). */
module Client {
  import opened Common
  import opened Radix
  import opened Text

  datatype Param = Param(key: ByteString, value: ByteString)

  // Percent-encoding.

  /** `isalnum` in the default locale, and the four marks. */
  predicate IsUnreserved(c: char) {
    || '0' <= c <= '9' || 'A' <= c <= 'Z' || 'a' <= c <= 'z'
    || c == '-' || c == '_' || c == '.' || c == '~'
  }

  /** The unreserved characters of section 2.3 of RFC 3986, one by one. */
  const UNRESERVED: string :=
    "ABCDEFGHIJKLMNOPQRSTUVWXYZ" + "abcdefghijklmnopqrstuvwxyz" + "0123456789" + "-._~"

  /** What prints as itself is exactly the standard's list. */
  lemma UnreservedList(c: char)
    ensures IsUnreserved(c) <==> c in UNRESERVED
  {
    var upper, lower, digits := "ABCDEFGHIJKLMNOPQRSTUVWXYZ", "abcdefghijklmnopqrstuvwxyz", "0123456789";
    assert UNRESERVED == upper + lower + digits + "-._~";
    InUpper(c);
    InLower(c);
    InDigits(c);
  }

  /** An octet prints as itself, or as '%' and its two upper-case hexadecimal digits. */
  lemma EncodedCharIs(c: octet)
    ensures EncodedChar(c) == if c in UNRESERVED then [c] else
      ['%', "0123456789ABCDEF"[c as int / 16], "0123456789ABCDEF"[c as int % 16]]
  {
    UnreservedList(c);
    HexDigitIs(c as int / 16);
    HexDigitIs(c as int % 16);
  }

  lemma HexDigitIs(d: nat)
    requires d < 16
    ensures HexDigit(d) == "0123456789ABCDEF"[d]
    ensures HexValue("0123456789ABCDEF"[d]) == HexValue("0123456789abcdef"[d]) == d
  {
  }

  function HexDigit(d: int): (c: char)
    requires 0 <= d < 16
    ensures HexValue(c) == d && ('0' <= c <= '9' || 'A' <= c <= 'F')
  {
    if d < 10 then '0' + d as char else 'A' + (d - 10) as char
  }

  function HexValue(c: char): (d: int)
    ensures -1 <= d < 16
  {
    if '0' <= c <= '9' then c as int - '0' as int
    else if 'A' <= c <= 'F' then c as int - 'A' as int + 10
    else if 'a' <= c <= 'f' then c as int - 'a' as int + 10
    else -1
  }

  function EncodedChar(c: octet): (s: string)
    ensures if IsUnreserved(c) then s == [c] else |s| == 3 && s[0] == '%'
  {
    if IsUnreserved(c) then [c] else ['%', HexDigit(c as int / 16), HexDigit(c as int % 16)]
  }

  function EncodedParam(s: ByteString): string {
    if |s| == 0 then "" else
      var n := |s| - 1;
      EncodedParam(s[..n]) + EncodedChar(s[n])
  }

  method EncodeQueryParam(value: ByteString) returns (escaped: string)
    ensures escaped == EncodedParam(value)
  {
    escaped := "";
    for i := 0 to |value|
      invariant escaped == EncodedParam(value[..i])
    {
      var c := value[i];
      EncodedSnoc(value[..i], c);
      assert value[..i + 1] == value[..i] + [c];
      if IsUnreserved(c) {
        escaped := escaped + [c];
      } else {
        escaped := escaped + ['%', HexDigit(c as int / 16), HexDigit(c as int % 16)];
      }
    }
    assert value[..|value|] == value;
  }

  lemma EncodedSnoc(s: ByteString, c: octet)
    ensures EncodedParam(s + [c]) == EncodedParam(s) + EncodedChar(c)
  {
    assert (s + [c])[..|s|] == s;
  }

  /** Percent-decoding, section 2.1 of RFC 3986: a percent sign and two hexadecimal digits stand for one octet. */
  function Unescaped(s: string): string {
    if |s| == 0 then ""
    else if |s| >= 3 && s[0] == '%' && HexValue(s[1]) >= 0 && HexValue(s[2]) >= 0 then
      [(HexValue(s[1]) * 16 + HexValue(s[2])) as char] + Unescaped(s[3..])
    else [s[0]] + Unescaped(s[1..])
  }

  lemma UnescapedChar(c: octet, rest: string)
    ensures Unescaped(EncodedChar(c) + rest) == [c] + Unescaped(rest)
  {
    var s := EncodedChar(c) + rest;
    if IsUnreserved(c) {
      assert s[1..] == rest;
    } else {
      assert s[3..] == rest;
      assert s[1] == HexDigit(c as int / 16) && s[2] == HexDigit(c as int % 16);
    }
  }

  lemma {:induction false} UnescapedParam(s: ByteString, rest: string)
    ensures Unescaped(EncodedParam(s) + rest) == s + Unescaped(rest)
  {
    if |s| == 0 {
      assert EncodedParam(s) + rest == rest;
    } else {
      var n := |s| - 1;
      UnescapedParam(s[..n], EncodedChar(s[n]) + rest);
      UnescapedChar(s[n], rest);
      Assoc(EncodedParam(s[..n]), EncodedChar(s[n]), rest);
      Assoc(s[..n], [s[n]], Unescaped(rest));
      assert s == s[..n] + [s[n]];
    }
  }

  /** Decoding undoes encoding, for every byte string. */
  lemma DecodeUndoesEncode(s: ByteString)
    ensures Unescaped(EncodedParam(s)) == s
  {
    UnescapedParam(s, "");
    assert EncodedParam(s) + "" == EncodedParam(s);
  }

  /** An encoded text has none of the characters that structure a URL. */
  lemma {:induction false} EncodedFree(s: ByteString)
    ensures Free(EncodedParam(s), '?') && Free(EncodedParam(s), '&') && Free(EncodedParam(s), '=')
  {
    if |s| > 0 {
      EncodedFree(s[..|s| - 1]);
    }
  }

  // URLs.

  function QueryPair(p: Param): string {
    EncodedParam(p.key) + ['='] + EncodedParam(p.value)
  }

  function QueryPairs(params: seq<Param>): (qs: seq<string>)
    ensures |qs| == |params|
  {
    seq(|params|, i requires 0 <= i < |params| => QueryPair(params[i]))
  }

  /** Base and endpoint, with one slash between them. */
  function Location(baseUrl: string, endpoint: string): string {
    if |endpoint| == 0 then baseUrl
    else if |baseUrl| == 0 then endpoint
    else if endpoint[0] == '/' then
      (if baseUrl[|baseUrl| - 1] == '/' then baseUrl[..|baseUrl| - 1] else baseUrl) + endpoint
    else
      (if baseUrl[|baseUrl| - 1] != '/' then baseUrl + "/" else baseUrl) + endpoint
  }

  function Url(baseUrl: string, endpoint: string, params: seq<Param>): string {
    if |params| == 0 then Location(baseUrl, endpoint)
    else Location(baseUrl, endpoint) + ['?'] + Join(QueryPairs(params), '&')
  }

  /** What a reader of the URL takes its parameters to be. */
  function ReadParams(url: string): seq<(string, string)> {
    var i := Find(url, '?');
    if i == |url| then [] else ReadPairs(Split(url[i + 1..], '&'))
  }

  function ReadPairs(pieces: seq<string>): (ps: seq<(string, string)>)
    ensures |ps| == |pieces|
  {
    seq(|pieces|, i requires 0 <= i < |pieces| => ReadPair(pieces[i]))
  }

  function ReadPair(piece: string): (string, string) {
    var i := Find(piece, '=');
    (Unescaped(piece[..i]), if i == |piece| then "" else Unescaped(piece[i + 1..]))
  }

  lemma PairRoundTrip(p: Param)
    ensures ReadPair(QueryPair(p)) == (p.key, p.value)
    ensures Free(QueryPair(p), '&')
  {
    EncodedFree(p.key);
    EncodedFree(p.value);
    FindSeparator(EncodedParam(p.key), '=', EncodedParam(p.value));
    DecodeUndoesEncode(p.key);
    DecodeUndoesEncode(p.value);
  }

  lemma PairsRoundTrip(params: seq<Param>)
    ensures |ReadPairs(QueryPairs(params))| == |params|
    ensures forall i :: 0 <= i < |params| ==> ReadPairs(QueryPairs(params))[i] == (params[i].key, params[i].value)
    ensures forall q <- QueryPairs(params) :: Free(q, '&')
  {
    forall i | 0 <= i < |params|
      ensures ReadPair(QueryPair(params[i])) == (params[i].key, params[i].value) && Free(QueryPair(params[i]), '&')
    {
      PairRoundTrip(params[i]);
    }
  }

  lemma LocationFree(baseUrl: string, endpoint: string)
    requires Free(baseUrl, '?') && Free(endpoint, '?')
    ensures Free(Location(baseUrl, endpoint), '?')
  {
  }

  /** Reading a printed URL gives the location and the very list of parameters, in order. */
  lemma UrlRoundTrip(baseUrl: string, endpoint: string, params: seq<Param>)
    requires Free(baseUrl, '?') && Free(endpoint, '?')
    ensures var url := Url(baseUrl, endpoint, params);
      && Before(url, '?') == Location(baseUrl, endpoint)
      && |ReadParams(url)| == |params|
      && forall i :: 0 <= i < |params| ==> ReadParams(url)[i] == (params[i].key, params[i].value)
  {
    LocationFree(baseUrl, endpoint);
    var location := Location(baseUrl, endpoint);
    if |params| == 0 {
      BeforeNothing(location, '?');
      FindIs(location, '?', |location|);
    } else {
      var query := Join(QueryPairs(params), '&');
      BeforeSeparator(location, '?', query);
      FindSeparator(location, '?', query);
      PairsRoundTrip(params);
      SplitOfJoin(QueryPairs(params), '&');
    }
  }

  /** Distinct parameter lists print as distinct URLs. */
  lemma UrlsDiffer(baseUrl: string, endpoint: string, params: seq<Param>, others: seq<Param>)
    requires Free(baseUrl, '?') && Free(endpoint, '?') && params != others
    ensures Url(baseUrl, endpoint, params) != Url(baseUrl, endpoint, others)
  {
    UrlRoundTrip(baseUrl, endpoint, params);
    UrlRoundTrip(baseUrl, endpoint, others);
    if |params| == |others| {
      var i :| 0 <= i < |params| && params[i] != others[i];
      assert (params[i].key, params[i].value) != (others[i].key, others[i].value);
    }
  }

  predicate Trimmed(url: string) {
    |url| == 0 || url[|url| - 1] != '/'
  }

  /** Between a base and an endpoint, neither of them empty, there is one slash where each may have brought one. */
  lemma OneSlashBetween(start: string, path: string)
    requires Trimmed(start) && (|path| > 0 ==> path[0] != '/')
    ensures start != "" && path != "" ==> Location(start, path) == start + ['/'] + path
    ensures start != "" ==> Location(start, ['/'] + path) == start + ['/'] + path
    ensures path != "" ==> Location(start + ['/'], path) == start + ['/'] + path
    ensures Location(start + ['/'], ['/'] + path) == start + ['/'] + path
  {
    Assoc(start, ['/'], path);
    SlashedBase(start + ['/'], start, path);
  }

  lemma SlashedBase(url: string, start: string, path: string)
    requires url == start + ['/']
    ensures |path| > 0 && path[0] != '/' ==> Location(url, path) == url + path
    ensures |path| > 0 && path[0] == '/' ==> Location(url, path) == start + path
    ensures Location(url, ['/'] + path) == start + (['/'] + path)
  {
    assert url[..|url| - 1] == start;
  }

  /** With one of the two empty, the location is the other. */
  lemma NothingBetween(url: string)
    ensures Location(url, "") == url && Location("", url) == url
  {
  }

  method NormalizeBaseUrl(url: string) returns (r: string)
    ensures Trimmed(r) && |r| <= |url| && url == r + Repeat('/', |url| - |r|)
  {
    r := url;
    while |r| > 0 && r[|r| - 1] == '/'
      invariant |r| <= |url| && url == r + Repeat('/', |url| - |r|)
    {
      r := r[..|r| - 1];
    }
  }

  function EnsuredEndpoint(endpoint: string): string {
    if |endpoint| > 0 && endpoint[0] != '/' then "/" + endpoint else endpoint
  }

  /** With the base and endpoint the constructor keeps, the location is their concatenation. */
  lemma LocationOfClient(baseUrl: string, endpoint: string)
    requires Trimmed(baseUrl)
    ensures Location(baseUrl, EnsuredEndpoint(endpoint)) == baseUrl + EnsuredEndpoint(endpoint)
    ensures |baseUrl| > 0 ==> Location(baseUrl, endpoint) == Location(baseUrl, EnsuredEndpoint(endpoint))
  {
  }

  method BuildUrl(baseUrl: string, endpoint: string, params: seq<Param>) returns (url: string)
    ensures url == Url(baseUrl, endpoint, params)
  {
    url := baseUrl;
    if |endpoint| > 0 {
      if |url| == 0 {
        url := endpoint;
      } else if endpoint[0] == '/' {
        if |url| > 0 && url[|url| - 1] == '/' {
          url := url[..|url| - 1];
        }
        url := url + endpoint;
      } else {
        if url[|url| - 1] != '/' {
          url := url + "/";
        }
        url := url + endpoint;
      }
    }
    if |params| > 0 {
      var query := PrintQuery(params);
      url := url + "?" + query;
    }
  }

  /** The loop that appends the parameters. */
  method PrintQuery(params: seq<Param>) returns (query: string)
    ensures query == Join(QueryPairs(params), '&')
  {
    query := "";
    var first := true;
    for i := 0 to |params|
      invariant first == (i == 0)
      invariant query == Join(QueryPairs(params[..i]), '&')
    {
      JoinPairs(params, i);
      if !first {
        query := query + "&";
      }
      first := false;
      var key := EncodeQueryParam(params[i].key);
      var value := EncodeQueryParam(params[i].value);
      query := query + key + "=" + value;
    }
    assert params[..|params|] == params;
  }

  lemma JoinPairs(params: seq<Param>, i: nat)
    requires i < |params|
    ensures Join(QueryPairs(params[..i + 1]), '&')
         == Join(QueryPairs(params[..i]), '&') + (if i == 0 then "" else "&")
            + EncodedParam(params[i].key) + "=" + EncodedParam(params[i].value)
  {
    PairsSnoc(params, i);
    JoinSnoc(QueryPairs(params[..i]), QueryPair(params[i]), '&');
    PairAssoc(Join(QueryPairs(params[..i]), '&'), EncodedParam(params[i].key), EncodedParam(params[i].value));
  }

  lemma PairsSnoc(params: seq<Param>, i: nat)
    requires i < |params|
    ensures QueryPairs(params[..i + 1]) == QueryPairs(params[..i]) + [QueryPair(params[i])]
  {
  }

  lemma PairAssoc(start: string, key: string, value: string)
    ensures start + ['&'] + (key + ['='] + value) == start + "&" + key + "=" + value
    ensures start == "" ==> key + ['='] + value == start + "" + key + "=" + value
  {
  }

  // Retrying.

  /** The attempts of one call, numbered from 1: what each of them returns or throws. */
  type Attempts = nat -> Result<string, string>

  /** `k` is the number of the first attempt that succeeds. */
  ghost predicate FirstSuccess(attempts: Attempts, k: nat) {
    k >= 1 && attempts(k).Ok? && forall j: nat :: 1 <= j < k ==> attempts(j).Err?
  }

  /** No attempt up to the limit succeeds. */
  ghost predicate NoSuccess(attempts: Attempts, limit: nat) {
    forall j: nat :: 1 <= j <= limit ==> attempts(j).Err?
  }

  class RetryPolicy {
    var maxAttempts: nat
    var backoffMs: nat

    constructor ()
      ensures maxAttempts == 3 && backoffMs == 200
    {
      maxAttempts, backoffMs := 3, 200;
    }

    method SetRetryPolicy(attempts: nat, initialBackoff: int) returns (accepted: bool)
      modifies this
      ensures accepted == (attempts >= 1 && initialBackoff >= 0)
      ensures accepted ==> maxAttempts == attempts && backoffMs == initialBackoff
      ensures !accepted ==> maxAttempts == old(maxAttempts) && backoffMs == old(backoffMs)
    {
      if attempts == 0 || initialBackoff < 0 {
        return false;
      }
      maxAttempts, backoffMs := attempts, initialBackoff;
      return true;
    }

    method PerformGet(attempts: Attempts) returns (r: Result<string, string>, calls: nat, slept: nat)
      ensures calls >= 1 && r == attempts(calls)
      ensures forall j: nat :: 1 <= j < calls ==> attempts(j).Err?
      ensures maxAttempts == 0 ==> calls == 1
      ensures maxAttempts >= 1 ==> calls <= maxAttempts && (r.Err? ==> calls == maxAttempts)
      ensures forall k: nat :: FirstSuccess(attempts, k) && k <= maxAttempts ==> calls == k
      ensures maxAttempts >= 1 && NoSuccess(attempts, maxAttempts) ==> calls == maxAttempts && r.Err?
      ensures slept == backoffMs * (Pow(2, calls - 1) - 1)
    {
      r, calls, slept := Retry(attempts, maxAttempts, backoffMs);
    }
  }

  lemma StopsAtFirst(attempts: Attempts, limit: nat, calls: nat, k: nat)
    requires 1 <= calls <= limit && (forall j: nat :: 1 <= j < calls ==> attempts(j).Err?)
    requires attempts(calls).Err? ==> calls == limit
    requires FirstSuccess(attempts, k) && k <= limit
    ensures calls == k
  {
    assert attempts(k).Ok?;
  }

  /** The retry loop; `slept` adds up the sleeps. */
  method Retry(attempts: Attempts, limit: nat, initial: nat)
    returns (r: Result<string, string>, calls: nat, slept: nat)
    ensures calls >= 1 && r == attempts(calls)
    ensures forall j: nat :: 1 <= j < calls ==> attempts(j).Err?
    ensures limit == 0 ==> calls == 1
    ensures limit >= 1 ==> calls <= limit && (r.Err? ==> calls == limit)
    ensures forall k: nat :: FirstSuccess(attempts, k) && k <= limit ==> calls == k
    ensures limit >= 1 && NoSuccess(attempts, limit) ==> calls == limit && r.Err?
    ensures slept == initial * (Pow(2, calls - 1) - 1)
  {
    var maxAttempts := if limit < 1 then 1 else limit;
    var backoff := initial;
    var attempt: nat := 0;
    slept := 0;
    while true
      invariant attempt < maxAttempts && forall j: nat :: 1 <= j <= attempt ==> attempts(j).Err?
      invariant backoff == initial * Pow(2, attempt) && slept == initial * (Pow(2, attempt) - 1)
      decreases maxAttempts - attempt
    {
      attempt := attempt + 1;
      r := attempts(attempt);
      if r.Ok? || attempt >= maxAttempts {
        forall k: nat | FirstSuccess(attempts, k) && k <= limit ensures attempt == k {
          StopsAtFirst(attempts, limit, attempt, k);
        }
        return r, attempt, slept;
      }
      slept := slept + backoff;
      backoff := if backoff == 0 then 0 else backoff * 2;
    }
  }
}
