/** The `Api9kw` client object: its configuration fields, the constructor's
    defaults, and the requests its operations build before handing them to
    the transport. A request is its verb, its URL and the ordered list of
    form fields or query parameters it carries. */
module Client {
  import opened Wrappers
  import opened JsString
  import opened JsNumber
  import DataUrl

  /** The parameter names the client sends. */
  datatype Name =
    | ApiKey | Action | Source | OldSource | Debug | Captcha | PageUrl
    | Interactive | Prio | Base64 | Id | Correct | Json

  /** Each name as it appears on the wire. */
  function Key(n: Name): (k: string)
    ensures k != []
  {
    match n
    case ApiKey => "apikey"
    case Action => "action"
    case Source => "source"
    case OldSource => "oldsource"
    case Debug => "debug"
    case Captcha => "file-upload-01"
    case PageUrl => "pageurl"
    case Interactive => "interactive"
    case Prio => "prio"
    case Base64 => "base64"
    case Id => "id"
    case Correct => "correct"
    case Json => "json"
  }

  /** Distinct names are distinct on the wire. */
  lemma KeyInjective(a: Name, b: Name)
    ensures Key(a) == Key(b) <==> a == b
  {
  }

  /** One form field or query parameter; `Attachment` is a file the
      transport reads from `path` and uploads under `name`. */
  datatype Field = Field(name: Name, value: string) | Attachment(name: Name, path: string)

  datatype Verb = Get | Post

  datatype Request = Request(verb: Verb, url: string, fields: seq<Field>)

  /** The service's base address. */
  const ServiceUrl: string := "https://www.9kw.eu/"
  /** The script every request goes to, relative to the base address. */
  const Script: string := "index.cgi"

  /** `value || ""` for a string argument that may be missing. */
  function OrEmpty(s: Option<string>): (r: string)
    ensures Truthy(s) ==> r == s.value
    ensures !Truthy(s) ==> r == ""
  {
    if s.Some? then s.value else ""
  }

  /** `value || 0` for a number argument that may be `NaN` (`None`); an
      explicit 0 stays 0. */
  function OrZero(n: Option<int>): (r: int)
    ensures n.Some? ==> r == n.value
    ensures n.None? ==> r == 0
  {
    if n.Some? then n.value else 0
  }

  /** The names of a field list, in order. */
  function Names(fields: seq<Field>): (r: seq<Name>)
    ensures |r| == |fields|
  {
    seq(|fields|, i requires 0 <= i < |fields| => fields[i].name)
  }

  /** No parameter is sent twice. */
  predicate Distinct(fields: seq<Field>) {
    forall i, j :: 0 <= i < j < |fields| ==> fields[i].name != fields[j].name
  }

  /** The request sends `value` under `name`. */
  predicate Sends(fields: seq<Field>, name: Name, value: string) {
    Field(name, value) in fields
  }

  /** When no parameter is sent twice, a name carries one value only. */
  lemma SentValueUnique(fields: seq<Field>, name: Name, v: string, w: string)
    requires Distinct(fields) && Sends(fields, name, v) && Sends(fields, name, w)
    ensures v == w
  {
    var i :| 0 <= i < |fields| && fields[i] == Field(name, v);
    var j :| 0 <= j < |fields| && fields[j] == Field(name, w);
    assert !(i < j) && !(j < i);
  }

  /** A name missing from the list is sent with no value. */
  lemma NotSent(fields: seq<Field>, name: Name, v: string)
    requires name !in Names(fields)
    ensures !Sends(fields, name, v)
  {
    forall i | 0 <= i < |fields|
      ensures fields[i] != Field(name, v)
    {
      assert Names(fields)[i] == fields[i].name;
    }
  }

  /** The client object. The five configuration fields are public and may be
      reassigned by its user after construction; every request reads them
      when it is built. */
  class Api9kw {
    var apiKey: string
    var source: string
    var oldSource: string
    var prio: int
    var debug: int
    var url: string

    /** The constructor: missing or empty tags become `""`, a missing,
        `NaN` or zero priority or debug flag becomes 0. The environment
        defaults are the caller's arguments here. */
    constructor (apiKey: string, source: Option<string>, oldSource: Option<string>,
                 prio: Option<int>, debug: Option<int>)
      ensures this.apiKey == apiKey
      ensures this.source == OrEmpty(source) && this.oldSource == OrEmpty(oldSource)
      ensures this.prio == OrZero(prio) && this.debug == OrZero(debug)
      ensures this.url == ServiceUrl
    {
      this.source := OrEmpty(source);
      this.oldSource := OrEmpty(oldSource);
      this.prio := OrZero(prio);
      this.apiKey := apiKey;
      this.debug := OrZero(debug);
      this.url := ServiceUrl;
    }

    /** `generalGetRequest`: a GET of the script carrying the key and the
        debug flag. */
    function GeneralGetRequest(): (r: Request)
      reads this
      ensures r.verb == Get && r.url == url + Script
      ensures Names(r.fields) == [ApiKey, Debug]
    {
      Request(Get, url + Script, [Field(ApiKey, apiKey), Field(Debug, NumberToString(debug))])
    }

    /** `constructUploadRequest`: a multipart POST of the script carrying
        the key, the upload action, both source tags and the debug flag. */
    function UploadRequest(): (r: Request)
      reads this
      ensures r.verb == Post && r.url == url + Script
      ensures Names(r.fields) == [ApiKey, Action, Source, OldSource, Debug]
    {
      Request(Post, url + Script,
        [Field(ApiKey, apiKey), Field(Action, "usercaptchaupload"),
         Field(Source, source), Field(OldSource, oldSource),
         Field(Debug, NumberToString(debug))])
    }

    /** The priority an upload sends: the argument, or the configured one
        when it is left out. */
    function Priority(priority: Option<int>): (p: int)
      reads this
      ensures priority.Some? ==> p == priority.value
      ensures priority.None? ==> p == prio
    {
      if priority.Some? then priority.value else prio
    }

    /** `submit` and `asyncSubmit`: the upload fields, the captcha (an
        image URL or a site key), the page URL and the interactive flag
        when a site URL is given, then the priority. */
    function SubmitRequest(captcha: string, siteUrl: Option<string>, priority: Option<int>): (r: Request)
      reads this
      ensures r.verb == Post && r.url == url + Script
      ensures UploadRequest().fields <= r.fields
      ensures Names(r.fields) == [ApiKey, Action, Source, OldSource, Debug, Captcha]
        + (if Truthy(siteUrl) then [PageUrl, Interactive] else []) + [Prio]
      ensures r.fields[5] == Field(Captcha, captcha)
      ensures Truthy(siteUrl) ==> r.fields[6..8] == [Field(PageUrl, siteUrl.value), Field(Interactive, "1")]
      ensures r.fields[|r.fields| - 1] == Field(Prio, NumberToString(Priority(priority)))
    {
      var site := if Truthy(siteUrl) then [Field(PageUrl, siteUrl.value), Field(Interactive, "1")] else [];
      Request(Post, url + Script,
        UploadRequest().fields + [Field(Captcha, captcha)] + site
        + [Field(Prio, NumberToString(Priority(priority)))])
    }

    /** `submitFile` and `asyncSubmitFile`: the upload fields, the file
        attached under the captcha field, then the priority. */
    function SubmitFileRequest(path: string, priority: Option<int>): (r: Request)
      reads this
      ensures r.verb == Post && r.url == url + Script
      ensures UploadRequest().fields <= r.fields
      ensures Names(r.fields) == [ApiKey, Action, Source, OldSource, Debug, Captcha, Prio]
      ensures r.fields[5] == Attachment(Captcha, path)
      ensures r.fields[6] == Field(Prio, NumberToString(Priority(priority)))
    {
      Request(Post, url + Script,
        UploadRequest().fields + [Attachment(Captcha, path),
        Field(Prio, NumberToString(Priority(priority)))])
    }

    /** `submitBase64` and `asyncSubmitBase64`: the upload fields, the
        payload with any data-URL header removed, then the base64 flag;
        no priority is sent. */
    function SubmitBase64Request(data: string): (r: Request)
      reads this
      ensures r.verb == Post && r.url == url + Script
      ensures UploadRequest().fields <= r.fields
      ensures Names(r.fields) == [ApiKey, Action, Source, OldSource, Debug, Captcha, Base64]
      ensures r.fields[5] == Field(Captcha, DataUrl.StripDataUrl(data))
      ensures r.fields[6] == Field(Base64, "1")
    {
      Request(Post, url + Script,
        UploadRequest().fields + [Field(Captcha, DataUrl.StripDataUrl(data)), Field(Base64, "1")])
    }

    /** `getSolution` and `asyncGetSolution`: the query for the solution
        of the captcha `id`. */
    function GetSolutionRequest(id: string): (r: Request)
      reads this
      ensures r.verb == Get && r.url == url + Script
      ensures GeneralGetRequest().fields <= r.fields
      ensures Names(r.fields) == [ApiKey, Debug, Action, Id]
      ensures r.fields[2..] == [Field(Action, "usercaptchacorrectdata"), Field(Id, id)]
    {
      Request(Get, url + Script,
        GeneralGetRequest().fields + [Field(Action, "usercaptchacorrectdata"), Field(Id, id)])
    }

    /** `isCorrect`: the feedback query; the flag is sent as 1 or 0 and
        counts as false when it is left out. */
    function IsCorrectRequest(id: string, correct: Option<bool>): (r: Request)
      reads this
      ensures r.verb == Get && r.url == url + Script
      ensures GeneralGetRequest().fields <= r.fields
      ensures Names(r.fields) == [ApiKey, Debug, Action, Id, Correct]
      ensures r.fields[2..] == [Field(Action, "usercaptchacorrectback"), Field(Id, id),
        Field(Correct, if correct == Some(true) then "1" else "0")]
    {
      var flag := if correct.Some? && correct.value then "1" else "0";
      Request(Get, url + Script,
        GeneralGetRequest().fields
        + [Field(Action, "usercaptchacorrectback"), Field(Id, id), Field(Correct, flag)])
    }

    /** `asyncIsCorrect`: the same query with `json=1` appended. */
    function AsyncIsCorrectRequest(id: string, correct: Option<bool>): (r: Request)
      reads this
      ensures r.verb == Get && r.url == url + Script
      ensures IsCorrectRequest(id, correct).fields <= r.fields
      ensures Names(r.fields) == [ApiKey, Debug, Action, Id, Correct, Json]
      ensures r.fields[5] == Field(Json, "1")
    {
      var r := IsCorrectRequest(id, correct);
      Request(Get, r.url, r.fields + [Field(Json, "1")])
    }

    /** `getBalance` and `asyncGetBalance`: the balance query. */
    function BalanceRequest(): (r: Request)
      reads this
      ensures r.verb == Get && r.url == url + Script
      ensures GeneralGetRequest().fields <= r.fields
      ensures Names(r.fields) == [ApiKey, Debug, Action]
      ensures r.fields[2] == Field(Action, "usercaptchaguthaben")
    {
      Request(Get, url + Script, GeneralGetRequest().fields + [Field(Action, "usercaptchaguthaben")])
    }
  }

  /** Distinct names in the names list mean no parameter is sent twice. */
  lemma DistinctByNames(fields: seq<Field>)
    requires forall i, j :: 0 <= i < j < |fields| ==> Names(fields)[i] != Names(fields)[j]
    ensures Distinct(fields)
  {
    forall i, j | 0 <= i < j < |fields|
      ensures fields[i].name != fields[j].name
    {
      assert Names(fields)[i] == fields[i].name && Names(fields)[j] == fields[j].name;
    }
  }

  /** The configured debug flag reads back as the number it is. */
  lemma DebugReadsBack(c: Api9kw)
    ensures ParseIntDec(NumberToString(c.debug)) == Some(c.debug)
  {
    ParseIntRoundTrip(c.debug, []);
    assert NumberToString(c.debug) + [] == NumberToString(c.debug);
  }

  /** Every upload carries the client's key, both source tags and its
      debug flag, under the upload action. */
  lemma UploadCarriesConfig(c: Api9kw, fields: seq<Field>)
    requires c.UploadRequest().fields <= fields
    ensures Sends(fields, ApiKey, c.apiKey) && Sends(fields, Action, "usercaptchaupload")
    ensures Sends(fields, Source, c.source) && Sends(fields, OldSource, c.oldSource)
    ensures Sends(fields, Debug, NumberToString(c.debug))
  {
    var front := c.UploadRequest().fields;
    assert fields[0] == front[0] && fields[1] == front[1] && fields[2] == front[2];
    assert fields[3] == front[3] && fields[4] == front[4];
  }

  /** Every query carries the client's key and its debug flag. */
  lemma QueryCarriesConfig(c: Api9kw, fields: seq<Field>)
    requires c.GeneralGetRequest().fields <= fields
    ensures Sends(fields, ApiKey, c.apiKey) && Sends(fields, Debug, NumberToString(c.debug))
  {
    var front := c.GeneralGetRequest().fields;
    assert fields[0] == front[0] && fields[1] == front[1];
  }

  /** A submit sends each parameter once, the captcha among them. */
  lemma SubmitFields(c: Api9kw, captcha: string, siteUrl: Option<string>, priority: Option<int>)
    ensures var fields := c.SubmitRequest(captcha, siteUrl, priority).fields;
      Distinct(fields) && Sends(fields, Captcha, captcha)
  {
    var fields := c.SubmitRequest(captcha, siteUrl, priority).fields;
    if Truthy(siteUrl) {
      assert Names(fields) == [ApiKey, Action, Source, OldSource, Debug, Captcha, PageUrl, Interactive, Prio];
    } else {
      assert Names(fields) == [ApiKey, Action, Source, OldSource, Debug, Captcha, Prio];
    }
    DistinctByNames(fields);
    assert fields[5] in fields;
  }

  /** A submit sends the page URL and the interactive flag exactly when
      the site URL is truthy. */
  lemma SubmitSiteFields(c: Api9kw, captcha: string, siteUrl: Option<string>, priority: Option<int>)
    ensures var fields := c.SubmitRequest(captcha, siteUrl, priority).fields;
      && (Truthy(siteUrl) ==> Sends(fields, PageUrl, siteUrl.value) && Sends(fields, Interactive, "1"))
      && (PageUrl in Names(fields) <==> Truthy(siteUrl))
      && (Interactive in Names(fields) <==> Truthy(siteUrl))
  {
    var fields := c.SubmitRequest(captcha, siteUrl, priority).fields;
    if Truthy(siteUrl) {
      assert fields[6] in fields && fields[7] in fields;
      assert Names(fields)[6] == PageUrl && Names(fields)[7] == Interactive;
    }
  }

  /** The priority a submit sends reads back as the argument, or as the
      configured one when it is left out. */
  lemma SubmitPriority(c: Api9kw, captcha: string, siteUrl: Option<string>, priority: Option<int>)
    ensures var fields := c.SubmitRequest(captcha, siteUrl, priority).fields;
      && Sends(fields, Prio, NumberToString(c.Priority(priority)))
      && ParseIntDec(NumberToString(c.Priority(priority))) == Some(c.Priority(priority))
  {
    var fields := c.SubmitRequest(captcha, siteUrl, priority).fields;
    assert fields[|fields| - 1] in fields;
    ParseIntRoundTrip(c.Priority(priority), []);
    assert NumberToString(c.Priority(priority)) + [] == NumberToString(c.Priority(priority));
  }

  /** A file upload sends no captcha value, only the attachment, and the
      priority, which reads back as the argument or the configured one. */
  lemma SubmitFileFields(c: Api9kw, path: string, priority: Option<int>)
    ensures var fields := c.SubmitFileRequest(path, priority).fields;
      && Distinct(fields)
      && Attachment(Captcha, path) in fields
      && (forall v :: !Sends(fields, Captcha, v))
      && Sends(fields, Prio, NumberToString(c.Priority(priority)))
      && ParseIntDec(NumberToString(c.Priority(priority))) == Some(c.Priority(priority))
  {
    var fields := c.SubmitFileRequest(path, priority).fields;
    DistinctByNames(fields);
    forall v
      ensures !Sends(fields, Captcha, v)
    {
      forall i | 0 <= i < |fields|
        ensures fields[i] != Field(Captcha, v)
      {
        assert Names(fields)[i] == fields[i].name;
      }
    }
    ParseIntRoundTrip(c.Priority(priority), []);
    assert NumberToString(c.Priority(priority)) + [] == NumberToString(c.Priority(priority));
  }

  /** A base64 upload sends the stripped payload, which holds no comma,
      and the base64 flag, and no priority at all. */
  lemma Base64Fields(c: Api9kw, data: string)
    ensures var fields := c.SubmitBase64Request(data).fields;
      && Distinct(fields)
      && Sends(fields, Captcha, DataUrl.StripDataUrl(data))
      && ',' !in DataUrl.StripDataUrl(data)
      && Sends(fields, Base64, "1")
      && Prio !in Names(fields)
  {
    var fields := c.SubmitBase64Request(data).fields;
    DistinctByNames(fields);
    assert fields[5] in fields && fields[6] in fields;
  }

  /** A PNG data URL and its bare payload give the same upload. */
  lemma Base64HeaderIgnored(c: Api9kw, payload: string)
    requires ',' !in payload
    ensures c.SubmitBase64Request(DataUrl.PngHeader + payload) == c.SubmitBase64Request(payload)
  {
    DataUrl.PngHeaderDropped(payload);
  }

  /** The solution query names the captcha and the solution action. */
  lemma SolutionFields(c: Api9kw, id: string)
    ensures var fields := c.GetSolutionRequest(id).fields;
      && Distinct(fields)
      && Sends(fields, Action, "usercaptchacorrectdata") && Sends(fields, Id, id)
  {
    var fields := c.GetSolutionRequest(id).fields;
    DistinctByNames(fields);
    assert fields[2] == Field(Action, "usercaptchacorrectdata") && fields[3] == Field(Id, id);
  }

  /** The feedback flag is sent as 1 exactly when it is true; a missing or
      false flag is sent as 0. */
  lemma CorrectFlag(c: Api9kw, id: string, correct: Option<bool>)
    ensures var fields := c.IsCorrectRequest(id, correct).fields;
      && Distinct(fields)
      && Sends(fields, Action, "usercaptchacorrectback") && Sends(fields, Id, id)
      && (Sends(fields, Correct, "1") <==> correct == Some(true))
      && (Sends(fields, Correct, "0") <==> correct != Some(true))
  {
    var fields := c.IsCorrectRequest(id, correct).fields;
    DistinctByNames(fields);
    assert fields[2] == Field(Action, "usercaptchacorrectback") && fields[3] == Field(Id, id);
    var flag := if correct == Some(true) then "1" else "0";
    assert fields[4] == Field(Correct, flag);
    if Sends(fields, Correct, "1") {
      SentValueUnique(fields, Correct, "1", flag);
    }
    if Sends(fields, Correct, "0") {
      SentValueUnique(fields, Correct, "0", flag);
    }
  }

  /** The promise-based feedback query differs from the callback one only
      by `json=1`. */
  lemma AsyncCorrectAddsJson(c: Api9kw, id: string, correct: Option<bool>)
    ensures var sync := c.IsCorrectRequest(id, correct).fields;
      var async := c.AsyncIsCorrectRequest(id, correct).fields;
      && Json !in Names(sync)
      && Distinct(async) && Sends(async, Json, "1")
      && forall name, v :: name != Json ==> (Sends(async, name, v) <==> Sends(sync, name, v))
  {
    var sync := c.IsCorrectRequest(id, correct).fields;
    var async := c.AsyncIsCorrectRequest(id, correct).fields;
    DistinctByNames(async);
    assert async == sync + [async[5]];
    assert async[5] in async;
  }

  /** The balance query names the balance action. */
  lemma BalanceFields(c: Api9kw)
    ensures var fields := c.BalanceRequest().fields;
      Distinct(fields) && Sends(fields, Action, "usercaptchaguthaben")
  {
    var fields := c.BalanceRequest().fields;
    DistinctByNames(fields);
    assert fields[2] in fields;
  }

  /** A client built without tags, priority or debug flag uploads empty
      tags and a zero debug flag. */
  method DefaultClientUpload(apiKey: string) returns (r: Request)
    ensures Sends(r.fields, Source, "") && Sends(r.fields, OldSource, "")
    ensures Sends(r.fields, Debug, "0") && Sends(r.fields, ApiKey, apiKey)
  {
    var c := new Api9kw(apiKey, None, Some(""), None, Some(0));
    r := c.UploadRequest();
    UploadCarriesConfig(c, r.fields);
    assert NumberToString(0) == "0";
  }
}
