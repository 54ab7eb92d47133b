/** The two token locators: the `Authorization` header and the naive
    `token=` scan of the raw URL. */
module Locators {
  import opened Wrappers
  import opened JsString
  import opened Interceptor

  /** The only header key consulted; the lookup is case-sensitive. */
  const AuthorizationKey: string := "Authorization"
  const Space: string := " "
  const QueryMarker: string := "token="
  const Ampersand: string := "&"

  /** Lines 119-123 of `getTokenByHeader`: split the header value on every
      space and take piece 1 when it is non-empty, else piece 0. */
  function ParseAuthorization(auth: string): (r: Result<string, Error>)
    ensures r.Failure? ==> r.error == TokenRequired
    ensures r.Success? ==> r.value != "" && ' ' !in r.value
  {
    var parts := Split(auth, Space);
    var token := if |parts| > 1 && parts[1] != "" then parts[1] else parts[0];
    SplitPiecesFree(auth, Space);
    ContainsChar(token, ' ');
    if token == "" then Failure(TokenRequired) else Success(token)
  }

  /** `getTokenByHeader`: reads only `headers["Authorization"]`. */
  function TokenByHeader(headers: map<string, string>): (r: Result<string, Error>)
    ensures r == Failure(AuthorizationRequired) <==>
      AuthorizationKey !in headers || headers[AuthorizationKey] == ""
    ensures r.Failure? ==> r.error in {AuthorizationRequired, TokenRequired}
    ensures r.Success? ==> r.value != "" && ' ' !in r.value
  {
    if AuthorizationKey !in headers || headers[AuthorizationKey] == "" then
      Failure(AuthorizationRequired)
    else
      ParseAuthorization(headers[AuthorizationKey])
  }

  /** `getTokenByUrlQueryParams`: the text after the first `token=` marker,
      up to the next marker, cut at the first `&`. */
  function TokenByQuery(url: string): (r: Result<string, Error>)
    ensures r.Failure? ==> r.error == TokenRequired
    ensures IndexOf(url, QueryMarker).None? ==> r.Failure?
    ensures r.Success? ==> r.value != "" && '&' !in r.value && !Contains(r.value, QueryMarker)
    ensures r.Success? ==>
      (IndexOf(url, QueryMarker).Some? &&
       r.value <= url[IndexOf(url, QueryMarker).value + |QueryMarker|..])
  {
    var pieces := Split(url, QueryMarker);
    if |pieces| < 2 then
      Failure(TokenRequired)
    else
      var token := Split(pieces[1], Ampersand)[0];
      SplitPiecesFree(url, QueryMarker);
      SplitPiecesFree(pieces[1], Ampersand);
      ContainsChar(token, '&');
      PrefixFree(pieces[1], QueryMarker, |token|);
      if token == "" then
        Failure(TokenRequired)
      else
        var i := IndexOf(url, QueryMarker).value;
        SplitAtFirst(url, QueryMarker, i);
        Success(token)
  }

  /** No other header than `Authorization` influences the header locator. */
  lemma HeaderReadsOnlyAuthorization(h1: map<string, string>, h2: map<string, string>)
    requires AuthorizationKey in h1 <==> AuthorizationKey in h2
    requires AuthorizationKey in h1 ==> h1[AuthorizationKey] == h2[AuthorizationKey]
    ensures TokenByHeader(h1) == TokenByHeader(h2)
  {
  }

  /** A header keyed in lower case is not found. */
  lemma LowerCaseKeyIgnored(value: string)
    ensures TokenByHeader(map["authorization" := value]) == Failure(AuthorizationRequired)
  {
  }

  /** A header value without a space is the token itself. */
  lemma {:induction false} HeaderWithoutSpace(auth: string)
    requires auth != "" && ' ' !in auth
    ensures ParseAuthorization(auth) == Success(auth)
  {
    forall j: nat
      ensures !OccursAt(auth, Space, j)
    {
      ContainsChar(auth, ' ');
      if OccursAt(auth, Space, j) {
        assert Contains(auth, Space);
      }
    }
    SplitNone(auth, Space);
  }

  /** With its first space at `i`, the header value yields piece 1 (the
      text after that space up to the next one) when non-empty, else the
      text before the space. */
  lemma HeaderUnfold(auth: string, i: nat)
    requires OccursAt(auth, Space, i)
    requires forall j: nat :: j < i ==> !OccursAt(auth, Space, j)
    ensures var second := Split(auth[i + 1..], Space)[0];
      ParseAuthorization(auth) ==
        if second != "" then Success(second)
        else if auth[..i] != "" then Success(auth[..i])
        else Failure(TokenRequired)
  {
    SplitAtFirst(auth, Space, i);
  }

  /** A header value with a space at `i` (its first) and a second piece
      `auth[i + 1..j]`: the token is that piece when non-empty, else the
      text before the first space, and the header is rejected when both are
      empty. */
  lemma {:induction false} HeaderWithSpace(auth: string, i: nat, j: nat)
    requires i < j <= |auth|
    requires ' ' !in auth[..i] && auth[i] == ' '
    requires ' ' !in auth[i + 1..j] && (j == |auth| || auth[j] == ' ')
    ensures ParseAuthorization(auth) ==
      if i + 1 < j then Success(auth[i + 1..j])
      else if i > 0 then Success(auth[..i])
      else Failure(TokenRequired)
  {
    CharAbsent(auth, ' ', 0, i);
    assert auth[i..i + 1] == Space;
    var rest := auth[i + 1..];
    var n := j - (i + 1);
    assert rest[0..n] == auth[i + 1..j];
    CharAbsent(rest, ' ', 0, n);
    if n < |rest| {
      assert rest[n..n + 1] == Space;
    }
    SplitHead(rest, Space, n);
    HeaderUnfold(auth, i);
  }

  /** The header value is rejected exactly when it is empty, or begins with
      a space that is followed by another space or by nothing. */
  lemma HeaderTokenRequiredIff(auth: string)
    ensures ParseAuthorization(auth).Failure? <==>
      auth == "" || (auth[0] == ' ' && (|auth| == 1 || auth[1] == ' '))
  {
    if auth == "" {
      SplitNone(auth, Space);
    } else if ' ' !in auth {
      HeaderWithoutSpace(auth);
    } else {
      var i := FirstIndex(auth, ' ', 0);
      var j := if ' ' in auth[i + 1..] then FirstIndex(auth, ' ', i + 1) else |auth|;
      HeaderWithSpace(auth, i, j);
    }
  }

  /** With its first `token=` marker at `i`, the query locator cuts the text
      after the marker at the next marker and then at the first `&`. */
  lemma QueryTokenUnfold(url: string, i: nat)
    requires OccursAt(url, QueryMarker, i)
    requires forall j: nat :: j < i ==> !OccursAt(url, QueryMarker, j)
    ensures var token := Split(Split(url[i + |QueryMarker|..], QueryMarker)[0], Ampersand)[0];
      TokenByQuery(url) == if token == "" then Failure(TokenRequired) else Success(token)
  {
    SplitAtFirst(url, QueryMarker, i);
  }

  /** The query token is the text after the first `token=` at `i`, up to
      `k`, where `k` is the first `&`, the next `token=`, or the end of the
      URL; it is rejected when that text is empty. */
  lemma {:induction false} QueryTokenSpan(url: string, i: nat, k: nat)
    requires OccursAt(url, QueryMarker, i)
    requires forall j: nat :: j < i ==> !OccursAt(url, QueryMarker, j)
    requires i + |QueryMarker| <= k <= |url|
    requires '&' !in url[i + |QueryMarker|..k]
    requires forall j: nat :: i + |QueryMarker| <= j < k ==> !OccursAt(url, QueryMarker, j)
    requires k == |url| || url[k] == '&' || OccursAt(url, QueryMarker, k)
    ensures TokenByQuery(url) ==
      if k > i + |QueryMarker| then Success(url[i + |QueryMarker|..k]) else Failure(TokenRequired)
  {
    var start := i + |QueryMarker|;
    var rest := url[start..];
    var n := k - start;
    forall j: nat | j <= n
      ensures OccursAt(rest, QueryMarker, j) <==> OccursAt(url, QueryMarker, start + j)
    {
      OccursInSuffix(url, QueryMarker, start, j);
    }
    assert rest[0..n] == url[start..k];
    CharAbsent(rest, '&', 0, n);
    if n < |rest| {
      assert rest[n..n + 1] == [url[k]];
    }
    SplitTwiceHead(rest, QueryMarker, '&', n);
    assert rest[..n] == url[start..k];
    QueryTokenUnfold(url, i);
  }

  /** `Bearer <token>`: a scheme, one space and a token yield the token. */
  lemma SchemeAndToken(scheme: string, token: string)
    requires ' ' !in scheme && token != "" && ' ' !in token
    ensures ParseAuthorization(scheme + " " + token) == Success(token)
  {
    var auth := scheme + " " + token;
    assert auth[..|scheme|] == scheme;
    assert auth[|scheme| + 1..|auth|] == token;
    HeaderWithSpace(auth, |scheme|, |auth|);
  }

  /** A doubled space after the scheme leaves piece 1 empty, so the scheme
      itself is taken as the token. */
  lemma DoubledSpace(scheme: string, rest: string)
    requires scheme != "" && ' ' !in scheme
    ensures ParseAuthorization(scheme + "  " + rest) == Success(scheme)
  {
    var auth := scheme + "  " + rest;
    assert auth[..|scheme|] == scheme;
    assert auth[|scheme| + 1..|scheme| + 1] == "";
    HeaderWithSpace(auth, |scheme|, |scheme| + 1);
  }

  /** A URL `pre + "token=" + value + post`, where `pre` does not already
      hold the marker and `post` is empty or starts a new parameter, yields
      `value`. Nothing stops `pre` from ending in a parameter name such as
      `?not`, so `?nottoken=x` yields `x`. */
  lemma QueryParamValue(pre: string, value: string, post: string)
    requires !Contains(pre + QueryMarker[..|QueryMarker| - 1], QueryMarker)
    requires '&' !in value && !Contains(value, QueryMarker)
    requires post == "" || post[0] == '&'
    ensures TokenByQuery(pre + QueryMarker + value + post) ==
      if value == "" then Failure(TokenRequired) else Success(value)
  {
    var url := pre + QueryMarker + value + post;
    var i := |pre|;
    var start := i + |QueryMarker|;
    var k := start + |value|;
    assert url[i..start] == QueryMarker;
    assert url[..start - 1] == pre + QueryMarker[..|QueryMarker| - 1];
    forall j: nat | j < i
      ensures !OccursAt(url, QueryMarker, j)
    {
      OccursInPrefix(url, QueryMarker, start - 1, j);
    }
    assert url[start..k] == value;
    forall j: nat | start <= j < k
      ensures !OccursAt(url, QueryMarker, j)
    {
      if j + |QueryMarker| <= k {
        OccursInPrefix(url[start..], QueryMarker, k - start, j - start);
        OccursInSuffix(url, QueryMarker, start, j - start);
        assert url[start..][..k - start] == value;
      } else if j + |QueryMarker| <= |url| {
        assert url[k] == '&';
        assert url[j..j + |QueryMarker|][k - j] == url[k];
      }
    }
    QueryTokenSpan(url, i, k);
  }
}
