/** How the client turns a transport reply into what it hands its caller:
    the captcha id of an upload (`callbackSuperAgent`), the site-key
    shortcut of the promise-based submit, and the pass-through replies of
    the solution, feedback and balance queries. */
module Responses {
  import opened Wrappers
  import opened JsString
  import opened JsNumber

  /** What the transport passes to a completion handler: a transport error,
      if any, and the response body. Only replies that carry a response
      object are modelled. */
  datatype Response = Response(err: Option<string>, text: string)

  /** What a numeric operation settles with: the transport error, or the
      number `parseInt` produced (`None` is `NaN`). */
  datatype Outcome = Failed(error: string) | Number(value: Option<int>)

  /** The marker in front of the id in the service's upload page. */
  const IdMarker: string := "name=\"captchaid\" value=\""
  /** The text that closes the upload page. */
  const PageEnd: string := "\"></body></html>"
  /** The literal offset added to the marker's index: its length. */
  const IdMarkerOffset: int := 24
  /** The parameters that frame the id in a site-key reply. */
  const IdParam: string := "&id="
  const RefreshParam: string := "&refresh="

  /** The text `callbackSuperAgent` hands to `parseInt`: the trimmed body cut
      between the end of `IdMarker` and the start of `PageEnd`, relying on
      `indexOf` returning -1 and on `substring` clamping and swapping. */
  function UploadIdText(body: string): (r: string)
    ensures |r| <= |Trim(body)|
  {
    var res := Trim(body);
    Substring(res, IndexOf(res, IdMarker) + IdMarkerOffset, IndexOf(res, PageEnd))
  }

  /** `callbackSuperAgent`: a transport error wins over whatever the body
      says; otherwise the outcome is the parsed id, which may be `NaN`. */
  function CallbackSuperAgent(resp: Response): (r: Outcome)
    ensures r.Failed? <==> resp.err.Some?
    ensures resp.err.Some? ==> r == Failed(resp.err.value)
  {
    if resp.err.Some? then Failed(resp.err.value)
    else Number(ParseIntDec(UploadIdText(resp.text)))
  }

  lemma MarkerOffsetIsMarkerLength()
    ensures |IdMarker| == IdMarkerOffset
  {
  }

  /** When the trimmed body holds the marker and the first page end lies after
      it, the id is read from exactly the text between the two. */
  lemma MarkerExtraction(body: string)
    requires var res := Trim(body);
      0 <= IndexOf(res, IdMarker) && IndexOf(res, IdMarker) + |IdMarker| <= IndexOf(res, PageEnd)
    ensures var res := Trim(body);
      var i, j := IndexOf(res, IdMarker) + |IdMarker|, IndexOf(res, PageEnd);
      CallbackSuperAgent(Response(None, body)) == Number(ParseIntDec(res[i..j]))
  {
    MarkerOffsetIsMarkerLength();
  }

  /** With neither marker present the start index is 23 and the end index -1,
      so the text is the first (at most) 23 characters of the trimmed body. */
  lemma NoMarkerFallback(body: string)
    requires IndexOf(Trim(body), IdMarker) == -1 && IndexOf(Trim(body), PageEnd) == -1
    ensures var res := Trim(body);
      UploadIdText(body) == res[..if |res| < 23 then |res| else 23]
  {
  }

  /** A bare decimal id of at most 23 digits, with any surrounding
      whitespace, is delivered as that id. */
  lemma BareIdBody(w1: string, n: nat, w2: string)
    requires AllWhitespace(w1) && AllWhitespace(w2)
    requires |NatToDec(n)| <= 23
    ensures CallbackSuperAgent(Response(None, w1 + NatToDec(n) + w2)) == Number(Some(n))
  {
    var ds := NatToDec(n);
    BareDigitsText(w1, ds, w2);
    ParseIntNat(n);
    ParsedId(w1 + ds + w2, ds, n);
  }

  lemma BareDigitsText(w1: string, ds: string, w2: string)
    requires AllWhitespace(w1) && AllWhitespace(w2)
    requires ds != [] && AllDigits(ds) && |ds| <= 23
    ensures UploadIdText(w1 + ds + w2) == ds
  {
    TrimSurrounding(w1, ds, w2);
    AbsentFirstChar(ds, IdMarker);
    AbsentFirstChar(ds, PageEnd);
    assert ds[..|ds|] == ds;
  }

  /** The reply `123456` yields the id 123456. */
  lemma BareIdExample()
    ensures CallbackSuperAgent(Response(None, "123456")) == Number(Some(123456))
  {
    BareIdText();
    BareIdNumber();
  }

  lemma BareIdText()
    ensures UploadIdText("123456") == "123456"
  {
    TrimNoOp("123456");
    AbsentFirstChar("123456", IdMarker);
    AbsentFirstChar("123456", PageEnd);
  }

  lemma BareIdNumber()
    ensures ParseIntDec("123456") == Some(123456)
  {
    assert NatToDec(123456) == "123456";
    ParseIntNat(123456);
  }

  /** A service error message is not turned into an error: it is delivered
      as a `NaN` id. */
  lemma ErrorMessageIsNaN()
    ensures CallbackSuperAgent(Response(None, "error occurred")) == Number(None)
  {
    var s := "error occurred";
    TrimNoOp(s);
    assert UploadIdText(s) == s;
  }

  /** Neither the marker nor the page end occurs in `s`. */
  predicate MarkerFree(s: string) {
    IndexOf(s, IdMarker) == -1 && IndexOf(s, PageEnd) == -1
  }

  /** In a page whose prefix does not hold the marker, the first marker is
      the one right after the prefix: no proper prefix of the marker is also
      a suffix of it, so no occurrence can straddle the two. */
  lemma MarkerAfterPrefix(pre: string, rest: string)
    requires IndexOf(pre, IdMarker) == -1
    ensures IndexOf(pre + IdMarker + rest, IdMarker) == |pre|
  {
    var page := pre + IdMarker + rest;
    assert page == pre + IdMarker + rest;
    assert page[|pre|..|pre| + |IdMarker|] == IdMarker;
    forall j | 0 <= j < |pre|
      ensures !OccursAt(page, IdMarker, j)
    {
      MarkerNotBefore(pre, rest, j);
    }
    IndexOfIsFirst(page, IdMarker, |pre|);
  }

  lemma MarkerNotBefore(pre: string, rest: string, j: int)
    requires IndexOf(pre, IdMarker) == -1
    requires 0 <= j < |pre|
    ensures !OccursAt(pre + IdMarker + rest, IdMarker, j)
  {
    var page := pre + IdMarker + rest;
    if j + |IdMarker| <= |page| {
      var w := page[j..j + |IdMarker|];
      if j + |IdMarker| <= |pre| {
        assert w == pre[j..j + |IdMarker|];
        assert !OccursAt(pre, IdMarker, j);
      } else {
        assert w[|pre| - j] == IdMarker[0] != IdMarker[|pre| - j];
      }
    }
  }

  /** After a page-end-free prefix, the marker and a digit run, the first
      page end is the one right after the digits. */
  lemma PageEndAfterDigits(pre: string, ds: string, post: string)
    requires IndexOf(pre, PageEnd) == -1
    requires ds != [] && AllDigits(ds)
    ensures IndexOf(pre + IdMarker + ds + PageEnd + post, PageEnd) == |pre| + |IdMarker| + |ds|
  {
    var page := pre + IdMarker + ds + PageEnd + post;
    var q := |pre| + |IdMarker| + |ds|;
    assert page == (pre + IdMarker + ds) + PageEnd + post;
    assert page[q..q + |PageEnd|] == PageEnd;
    forall j | 0 <= j < q
      ensures !OccursAt(page, PageEnd, j)
    {
      PageEndNotBefore(pre, ds, PageEnd + post, j);
      assert page == pre + IdMarker + ds + (PageEnd + post);
    }
    IndexOfIsFirst(page, PageEnd, q);
  }

  lemma PageEndNotBefore(pre: string, ds: string, rest: string, j: int)
    requires IndexOf(pre, PageEnd) == -1
    requires ds != [] && AllDigits(ds)
    requires 0 <= j < |pre| + |IdMarker| + |ds|
    ensures !OccursAt(pre + IdMarker + ds + rest, PageEnd, j)
  {
    var page := pre + IdMarker + ds + rest;
    var m := |pre| + |IdMarker|;
    if j + |PageEnd| <= |page| {
      var w := page[j..j + |PageEnd|];
      if j + |PageEnd| <= |pre| {
        assert w == pre[j..j + |PageEnd|];
        assert !OccursAt(pre, PageEnd, j);
      } else if j < |pre| {
        assert w[|pre| - j] == IdMarker[0] != PageEnd[|pre| - j];
      } else if j < m - 1 {
        assert w[1] == IdMarker[j + 1 - |pre|] != PageEnd[1];
      } else if j == m - 1 {
        assert w[1] == ds[0] != PageEnd[1];
      } else {
        assert w[0] == ds[j - m] != PageEnd[0];
      }
    }
  }

  /** A reply shaped like the service's upload page yields its id: `pre`,
      holding neither the marker nor the page end, then the marker, the id
      digits, the page end and anything after it, all surrounded by any
      whitespace. Every such reply splits this way with `pre` not starting
      and `post` not ending in whitespace, since surrounding whitespace
      belongs to `w1` and `w2`. */
  lemma ServicePageYieldsId(w1: string, pre: string, n: nat, post: string, w2: string)
    requires AllWhitespace(w1) && AllWhitespace(w2)
    requires MarkerFree(pre)
    requires pre == [] || !IsWhitespace(pre[0])
    requires post == [] || !IsWhitespace(post[|post| - 1])
    ensures CallbackSuperAgent(Response(None, w1 + pre + IdMarker + NatToDec(n) + PageEnd + post + w2))
         == Number(Some(n))
  {
    var ds := NatToDec(n);
    var page := pre + IdMarker + ds + PageEnd + post;
    var body := w1 + pre + IdMarker + ds + PageEnd + post + w2;
    PageRegroup(w1, page, w2, body, pre, ds, post);
    PageIdText(w1, pre, ds, post, w2, page, body);
    ParseIntNat(n);
    ParsedId(body, ds, n);
  }

  lemma PageRegroup(w1: string, page: string, w2: string, body: string, pre: string, ds: string, post: string)
    requires page == pre + IdMarker + ds + PageEnd + post
    requires body == w1 + pre + IdMarker + ds + PageEnd + post + w2
    ensures body == w1 + page + w2
  {
  }

  lemma PageIdText(w1: string, pre: string, ds: string, post: string, w2: string, page: string, body: string)
    requires AllWhitespace(w1) && AllWhitespace(w2)
    requires MarkerFree(pre)
    requires ds != [] && AllDigits(ds)
    requires pre == [] || !IsWhitespace(pre[0])
    requires post == [] || !IsWhitespace(post[|post| - 1])
    requires page == pre + IdMarker + ds + PageEnd + post
    requires body == w1 + page + w2
    ensures UploadIdText(body) == ds
  {
    PageLayout(pre, ds, post, page);
    TrimSurrounding(w1, page, w2);
    IdBetweenMarkers(body, page, ds, |pre|, |pre| + IdMarkerOffset + |ds|);
  }

  lemma ParsedId(body: string, ds: string, n: nat)
    requires UploadIdText(body) == ds && ParseIntDec(ds) == Some(n)
    ensures CallbackSuperAgent(Response(None, body)) == Number(Some(n))
  {
  }

  /** Where the markers and the id sit in such a page, which has nothing to
      trim. */
  lemma PageLayout(pre: string, ds: string, post: string, page: string)
    requires MarkerFree(pre)
    requires ds != [] && AllDigits(ds)
    requires pre == [] || !IsWhitespace(pre[0])
    requires post == [] || !IsWhitespace(post[|post| - 1])
    requires page == pre + IdMarker + ds + PageEnd + post
    ensures Trimmed(page)
    ensures IndexOf(page, IdMarker) == |pre|
    ensures IndexOf(page, PageEnd) == |pre| + IdMarkerOffset + |ds|
    ensures page[|pre| + IdMarkerOffset..|pre| + IdMarkerOffset + |ds|] == ds
  {
    MarkerOffsetIsMarkerLength();
    PageIsTrimmed(pre, ds, post);
    MarkerAfterPrefix(pre, ds + PageEnd + post);
    Regroup(pre, IdMarker, ds, PageEnd, post);
    PageEndAfterDigits(pre, ds, post);
    MiddlePart(pre, IdMarker, ds, PageEnd, post);
  }

  lemma Regroup(a: string, b: string, c: string, d: string, e: string)
    ensures a + b + c + d + e == a + b + (c + d + e)
  {
  }

  lemma MiddlePart(a: string, b: string, c: string, d: string, e: string)
    ensures (a + b + c + d + e)[|a| + |b|..|a| + |b| + |c|] == c
  {
    var s := a + b + c + d + e;
    assert s == (a + b) + c + (d + e);
  }

  /** The upload id of a body whose trim `res` has its markers at `i` and
      `j`. */
  lemma IdBetweenMarkers(body: string, res: string, id: string, i: int, j: int)
    requires Trim(body) == res
    requires IndexOf(res, IdMarker) == i && IndexOf(res, PageEnd) == j
    requires 0 <= i && i + IdMarkerOffset <= j
    requires res[i + IdMarkerOffset..j] == id
    ensures UploadIdText(body) == id
  {
    MarkerOffsetIsMarkerLength();
  }

  lemma PageIsTrimmed(pre: string, ds: string, post: string)
    requires pre == [] || !IsWhitespace(pre[0])
    requires post == [] || !IsWhitespace(post[|post| - 1])
    ensures Trimmed(pre + IdMarker + ds + PageEnd + post)
  {
    var page := pre + IdMarker + ds + PageEnd + post;
    assert page[0] == if pre == [] then IdMarker[0] else pre[0];
    assert page[|page| - 1] == if post == [] then PageEnd[|PageEnd| - 1] else post[|post| - 1];
  }

  /** The promise-based site-key submit reads the reply itself when the
      text is non-empty and `indexOf("&id=")` is truthy: any index but 0,
      including the -1 of an absent parameter. */
  function SiteKeyShortcut(text: string): (b: bool)
    ensures b <==> text != "" && !OccursAt(text, IdParam, 0)
  {
    text != "" && IndexOf(text, IdParam) != 0
  }

  /** The site-key branch of `asyncSubmit`: on the shortcut the id between
      `&id=` and `&refresh=` is parsed without looking at the transport
      error; otherwise the reply goes through `callbackSuperAgent`. */
  function SiteKeyOutcome(resp: Response): (r: Outcome)
    ensures SiteKeyShortcut(resp.text) ==> r.Number?
    ensures !SiteKeyShortcut(resp.text) ==> r == CallbackSuperAgent(resp)
  {
    var text := resp.text;
    if SiteKeyShortcut(text) then
      Number(ParseIntDec(Substring(text, IndexOf(text, IdParam) + 4, IndexOf(text, RefreshParam))))
    else CallbackSuperAgent(resp)
  }

  /** A site-key reply `pre&id=<digits>&refresh=...` with a non-empty,
      ampersand-free `pre` yields the id, whatever the transport error. */
  lemma SiteKeyReplyYieldsId(err: Option<string>, pre: string, n: nat, post: string)
    requires pre != [] && '&' !in pre
    ensures SiteKeyOutcome(Response(err, pre + IdParam + NatToDec(n) + RefreshParam + post))
         == Number(Some(n))
  {
    var ds := NatToDec(n);
    var text := pre + IdParam + ds + RefreshParam + post;
    var i, q := |pre|, |pre| + |IdParam| + |ds|;
    IdParamAfterPrefix(pre, ds + RefreshParam + post);
    assert text == pre + IdParam + (ds + RefreshParam + post);
    RefreshAfterDigits(pre, ds, post);
    assert text[i + |IdParam|..q] == ds;
    IdBetweenParams(Response(err, text), i, q);
    ParseIntNat(n);
  }

  /** The site-key id of a reply whose parameters sit at `i > 0` and `j`. */
  lemma IdBetweenParams(resp: Response, i: int, j: int)
    requires IndexOf(resp.text, IdParam) == i && IndexOf(resp.text, RefreshParam) == j
    requires 0 < i && i + |IdParam| <= j
    ensures SiteKeyOutcome(resp) == Number(ParseIntDec(resp.text[i + |IdParam|..j]))
  {
  }

  lemma IdParamAfterPrefix(pre: string, rest: string)
    requires '&' !in pre
    ensures IndexOf(pre + IdParam + rest, IdParam) == |pre|
  {
    var text := pre + IdParam + rest;
    assert text[|pre|..|pre| + |IdParam|] == IdParam;
    forall j | 0 <= j < |pre|
      ensures !OccursAt(text, IdParam, j)
    {
      if j + |IdParam| <= |text| {
        assert text[j..j + |IdParam|][0] == pre[j] != IdParam[0];
      }
    }
    IndexOfIsFirst(text, IdParam, |pre|);
  }

  lemma RefreshAfterDigits(pre: string, ds: string, post: string)
    requires '&' !in pre
    requires AllDigits(ds)
    ensures IndexOf(pre + IdParam + ds + RefreshParam + post, RefreshParam)
         == |pre| + |IdParam| + |ds|
  {
    var text := pre + IdParam + ds + RefreshParam + post;
    var m := |pre| + |IdParam|;
    var q := m + |ds|;
    assert text == (pre + IdParam + ds) + RefreshParam + post;
    assert text[q..q + |RefreshParam|] == RefreshParam;
    forall j | 0 <= j < q
      ensures !OccursAt(text, RefreshParam, j)
    {
      if j + |RefreshParam| <= |text| {
        var w := text[j..j + |RefreshParam|];
        if j < |pre| {
          assert w[0] == pre[j] != RefreshParam[0];
        } else if j < m {
          assert w[1] == (IdParam + ds + RefreshParam + post)[j + 1 - |pre|];
          assert w[1] != RefreshParam[1];
        } else {
          assert w[0] == ds[j - m] != RefreshParam[0];
        }
      }
    }
    IndexOfIsFirst(text, RefreshParam, q);
  }

  /** When `&id=` is absent the shortcut is still taken, with start index 3
      and end index -1: only the first three characters are parsed. */
  lemma SiteKeyWithoutIdParam(resp: Response)
    requires resp.text != []
    requires IndexOf(resp.text, IdParam) == -1 && IndexOf(resp.text, RefreshParam) == -1
    ensures var t := resp.text;
      SiteKeyOutcome(resp) == Number(ParseIntDec(t[..if |t| < 3 then |t| else 3]))
  {
  }

  /** So a bare reply `123456` yields 123 on the site-key path, where the
      upload path yields 123456 (`BareIdExample`). */
  lemma SiteKeyBareIdExample()
    ensures SiteKeyOutcome(Response(None, "123456")) == Number(Some(123))
  {
    var t := "123456";
    AbsentFirstChar(t, IdParam);
    AbsentFirstChar(t, RefreshParam);
    SiteKeyWithoutIdParam(Response(None, t));
    assert t[..3] == "123";
    ShortIdNumber();
  }

  lemma ShortIdNumber()
    ensures ParseIntDec("123") == Some(123)
  {
    assert NatToDec(123) == "123";
    ParseIntNat(123);
  }

  /** A reply that starts with `&id=` has index 0, which is falsy, so it is
      handled by `callbackSuperAgent`. */
  lemma SiteKeyLeadingIdParam(resp: Response)
    requires |resp.text| >= 4 && resp.text[..4] == IdParam
    ensures SiteKeyOutcome(resp) == CallbackSuperAgent(resp)
  {
    assert OccursAt(resp.text, IdParam, 0);
    IndexOfIsFirst(resp.text, IdParam, 0);
  }

  /** `asyncSubmit`: the site-key branch when a site URL is given, the
      upload handling otherwise. */
  function AsyncSubmitOutcome(siteUrl: Option<string>, resp: Response): (r: Outcome)
    ensures !Truthy(siteUrl) ==> r == CallbackSuperAgent(resp)
    ensures Truthy(siteUrl) ==> r == SiteKeyOutcome(resp)
  {
    if Truthy(siteUrl) then SiteKeyOutcome(resp) else CallbackSuperAgent(resp)
  }

  /** `getSolution`, `isCorrect` (with a callback) and `asyncIsCorrect`:
      the transport error, or the body passed through unmodified ("" for a
      solution means none yet). */
  function PassThrough(resp: Response): (r: Result<string>)
    ensures r.Err? <==> resp.err.Some?
    ensures r.Ok? ==> r.value == resp.text
  {
    if resp.err.Some? then Err(resp.err.value) else Ok(resp.text)
  }

  /** `asyncGetSolution` calls `resolve(null, res.text)`; a promise resolves
      with its first argument only, so the text never reaches the caller. */
  function AsyncGetSolution(resp: Response): (r: Result<Option<string>>)
    ensures r.Err? <==> resp.err.Some?
    ensures r.Ok? ==> r.value == None
  {
    if resp.err.Some? then Err(resp.err.value) else Ok(None)
  }

  /** `getBalance`: the transport error or `parseInt` of the body. */
  function BalanceOutcome(resp: Response): (r: Outcome)
    ensures r.Failed? <==> resp.err.Some?
    ensures resp.err.None? ==> r == Number(ParseIntDec(resp.text))
  {
    if resp.err.Some? then Failed(resp.err.value) else Number(ParseIntDec(resp.text))
  }

  /** A balance reply `42` is the number 42. */
  lemma BalanceExample()
    ensures BalanceOutcome(Response(None, "42")) == Number(Some(42))
  {
    assert NatToDec(42) == "42";
    assert NatToDec(42) + [] == "42";
    RoundTripNatural(42, []);
  }
}
