# A verified model of the 9kw captcha client

`Api9kw` is a small JavaScript client for the 9kw.eu captcha-solving
service. It uploads a captcha (an image URL, a reCAPTCHA site key, a file
or a base64 payload) and reads back a captcha id from the service's reply.
It then polls for the solution, sends feedback on whether the solution was
right, and queries the account balance. All real work is done by the
`superagent` HTTP library. The client's own logic is:

- cutting the captcha id out of the upload reply (`trim`, `indexOf`,
  `substring`, `parseInt`), and the separate site-key shortcut of the
  promise-based submit;
- removing a `data:...;base64,` header from a base64 payload;
- the ordered form fields and query parameters of each request, and the
  constructor's defaults for the configuration fields;
- the polling loop, which retries every 3000 ms until a deadline.

The model is in seven modules:

- `Wrappers`: `Option` and `Result`.
- `JsString`: the JavaScript string operations the client relies on.
  - `trim`, over the ECMAScript whitespace and line terminator characters.
  - `indexOf`, which returns -1 when the text is absent.
  - `substring`, which clamps and swaps its bounds.
  - `split` on one character.
- `JsNumber`: `parseInt(s, 10)` and the decimal text of an integer (a
  template literal or a form field holding a number).
- `Responses`: what each operation hands its caller for a given transport
  reply. A reply is an optional transport error plus the body text.
- `DataUrl`: the base64 header removal.
- `Client`: the `Api9kw` class.
  - Its fields are mutable: the API key, both source tags, the priority,
    the debug flag and the base URL.
  - The constructor applies the `||` defaults.
  - Each request builder is a `reads this` function returning the request:
    verb, URL and ordered fields.
- `Polling`: the polling loop and its timing.
  - `GetSolutionLoop` is a `while` loop over observed checks.
  - It is proved equal to the reference semantics `Poll`, about which the
    loop's promises are proved.
  - A check is a clock reading plus a reply.

In `Client`, `Sends(fields, name, value)` means the request carries that
value under that name. `Distinct(fields)` means no name is sent twice.

## Model

| member | source | states |
|---|---|---|
| JsString.Trim | src/index.js:24 | the result has no leading or trailing whitespace and is no longer than the input |
| JsString.TrimSurrounding | src/index.js:24 | trimming whitespace + s + whitespace, with s already trimmed, gives exactly s |
| JsString.TrimIdempotent | src/index.js:24 | trimming twice is trimming once |
| JsString.IndexOf | src/index.js:26-27 | the result is -1 or a position where the pattern occurs, and the pattern occurs at no earlier position (never, for -1) |
| JsString.IndexOfIsFirst | src/index.js:26-27 | the first occurrence is the index that is returned |
| JsString.AbsentFirstChar | src/index.js:26-27 | a pattern whose first character is missing from the string gives -1 |
| JsString.Substring | src/index.js:25-28 | in-range bounds cut s[a..b]; reversed in-range bounds cut s[b..a]; never longer than s |
| JsString.SubstringSymmetric | src/index.js:25-28 | swapping the two bounds never changes the result |
| JsString.SubstringNegativeEnd | src/index.js:25-28 | a negative end (an absent end marker) gives the prefix up to the clamped start |
| JsString.Split | src/index.js:200 | `split` gives at least one piece |
| JsString.SplitPiecesLackSep | src/index.js:200 | no piece contains the separator |
| JsString.SplitSingle | src/index.js:200-201 | there is exactly one piece iff the separator is absent, and then it is the whole string |
| JsString.SplitAfterFirst | src/index.js:200-201 | a separator-free head becomes the first piece and the rest is split on its own |
| JsString.JoinSplit | src/index.js:200 | joining the pieces with the separator gives back the string |
| JsNumber.LeadingDigits | src/index.js:35-36 | the longest run of digits at the front: a prefix made of digits, followed by a non-digit or the end |
| JsNumber.ParseIntDec | src/index.js:35-36 | `parseInt(s, 10)` is NaN exactly when the run of digits after the leading whitespace and the optional sign is empty, and is negative only after a leading minus |
| JsNumber.NumberToString | src/index.js:74-106 | the text of a number, as a template literal or a form field renders it: a minus exactly for a negative number, then only digits; `ParseIntRoundTrip` reads it back |
| JsNumber.NatToDec | src/index.js:74 | the decimal text of n: non-empty, only digits, no leading zero unless n is 0 |
| JsNumber.DecValueOfNatToDec | src/index.js:35-36 | reading the decimal text of n as digits gives n |
| JsNumber.ParseIntRoundTrip | src/index.js:35-36 | `parseInt` of the text of any integer, followed by anything not starting with a digit, gives that integer back |
| JsNumber.ParseIntNat | src/index.js:35-36 | `parseInt` of the digits of n is n |
| JsNumber.ParseIntSkipsWhitespace | src/index.js:35-36 | leading whitespace never changes what `parseInt` reads |
| JsNumber.ParseIntNaN | src/index.js:35-36 | `parseInt` is NaN exactly when the character after the leading whitespace and the optional sign is missing or not a digit |
| Responses.UploadIdText | src/index.js:24-28 | the text given to `parseInt` is no longer than the trimmed body |
| Responses.CallbackSuperAgent | src/index.js:23-38 | the outcome is an error exactly when the transport reports one, and then it is that error, whatever the body |
| Responses.MarkerOffsetIsMarkerLength | src/index.js:26 | the literal offset 24 is the length of the marker |
| Responses.MarkerExtraction | src/index.js:24-28 | when the trimmed body has the marker and the first page end lies after it, the id is `parseInt` of exactly the text between them |
| Responses.NoMarkerFallback | src/index.js:24-28 | with neither marker present, the text cut is the first min(23, length) characters of the trimmed body |
| Responses.BareIdBody | src/index.js:24-36 | a bare id of at most 23 digits, with any surrounding whitespace, is delivered as that id |
| Responses.BareIdExample | src/index.js:24-36 | the body `123456` gives the id 123456 |
| Responses.ErrorMessageIsNaN | src/index.js:24-36 | the body `error occurred` is delivered as a NaN id, not as an error |
| Responses.MarkerAfterPrefix | src/index.js:26 | when the prefix does not contain the marker, the first marker is the one right after the prefix (the marker has no proper prefix that is also its suffix, so no occurrence straddles the two) |
| Responses.PageEndAfterDigits | src/index.js:27 | after a prefix that does not contain the page end, the marker and a digit run, the first page end is the one right after the digits |
| Responses.PageIsTrimmed | src/index.js:24 | a page whose prefix does not start and whose suffix does not end with whitespace has nothing for `trim` to remove |
| Responses.IdBetweenMarkers | src/index.js:24-28 | a body whose trimmed text has the markers at i and j gives the text between them |
| Responses.ServicePageYieldsId | src/index.js:23-38 | a reply made of whitespace, a prefix holding neither the marker nor the page end, the marker, the digits of n, the page end, any suffix and whitespace yields n; the prefix not starting and the suffix not ending with whitespace costs no generality, as that whitespace belongs to the surrounding parts |
| Responses.SiteKeyShortcut | src/index.js:136 | the shortcut is taken exactly when the text is non-empty and does not start with `&id=` (an index of -1 is truthy too) |
| Responses.IdBetweenParams | src/index.js:136-141 | when `&id=` is first found at i > 0 and `&refresh=` at j after it, the id is `parseInt` of exactly the text between them, whatever the transport error |
| Responses.SiteKeyOutcome | src/index.js:136-143 | when the text is non-empty and `indexOf("&id=")` is non-zero, the result is a number whatever the error; otherwise it is `callbackSuperAgent`'s result |
| Responses.SiteKeyReplyYieldsId | src/index.js:136-141 | a reply `pre&id=<digits of n>&refresh=...`, with `pre` non-empty and free of `&`, yields n even when a transport error is set |
| Responses.SiteKeyWithoutIdParam | src/index.js:136-141 | with neither parameter present (index -1, truthy), the first min(3, length) characters are parsed |
| Responses.SiteKeyBareIdExample | src/index.js:136-141 | the bare reply `123456` yields 123 on the site-key path |
| Responses.SiteKeyLeadingIdParam | src/index.js:136-143 | a reply starting with `&id=` has index 0, which is falsy, so it goes to `callbackSuperAgent` |
| Responses.AsyncSubmitOutcome | src/index.js:124-154 | with a truthy site URL, the site-key handling; otherwise `callbackSuperAgent` |
| Responses.PassThrough | src/index.js:240-252 | an error exactly when the transport reports one; otherwise the body unchanged |
| Responses.AsyncGetSolution | src/index.js:264-279 | an error exactly when the transport reports one; otherwise it always resolves with no value |
| Responses.BalanceOutcome | src/index.js:469-498 | an error exactly when the transport reports one; otherwise `parseInt` of the body |
| Responses.BalanceExample | src/index.js:476 | the body `42` gives the balance 42 |
| DataUrl.StripDataUrl | src/index.js:200-201 | the payload kept never contains a comma, is no longer than the input, and a comma-free input is kept unchanged |
| DataUrl.StripIdempotent | src/index.js:200-201 | stripping a stripped payload changes nothing |
| DataUrl.StripSecondPiece | src/index.js:200-201 | for head,payload followed by nothing or by a comma and more, exactly the payload is kept |
| DataUrl.PngHeaderDropped | src/index.js:200-201 | `data:image/png;base64,` + P and P give the same payload P, for comma-free P |
| DataUrl.StripManyCommas | src/index.js:218-219 | with several commas only the text between the first two is kept |
| Client.KeyInjective | src/index.js:73-82 | distinct parameter names have distinct wire names |
| Client.OrEmpty | src/index.js:64-65 | the or-default to "": a truthy string is kept, a missing or empty one becomes "" |
| Client.OrZero | src/index.js:66-68 | the or-default to 0: a number is kept (0 stays 0), NaN becomes 0 |
| Client.SentValueUnique | src/index.js:75-82 | when no name is sent twice, a name carries one value only |
| Client.NotSent | src/index.js:75-82 | a name missing from the list carries no value |
| Client.Api9kw.constructor | src/index.js:57-69 | the key as given, the tags defaulted to "", priority and debug defaulted to 0, the base URL of the service |
| Client.Api9kw.GeneralGetRequest | src/index.js:70-74 | a GET of `index.cgi` under the base URL whose parameters are apikey then debug |
| Client.Api9kw.UploadRequest | src/index.js:75-82 | a POST of `index.cgi` whose fields are apikey, action, source, oldsource, debug in that order |
| Client.Api9kw.Priority | src/index.js:95-100 | the priority argument, or the configured one when it is left out |
| Client.Api9kw.SubmitRequest | src/index.js:101-113 | extends the upload fields with file-upload-01 = the captcha, then pageurl and interactive=1 when the site URL is truthy, then prio, in that order |
| Client.Api9kw.SubmitFileRequest | src/index.js:165-170 | extends the upload fields with the file attached as file-upload-01, then prio |
| Client.Api9kw.SubmitBase64Request | src/index.js:199-207 | extends the upload fields with file-upload-01 = the stripped payload, then base64=1, and no prio |
| Client.Api9kw.GetSolutionRequest | src/index.js:240-243 | extends the query with action=usercaptchacorrectdata then id |
| Client.Api9kw.IsCorrectRequest | src/index.js:386-390 | extends the query with action=usercaptchacorrectback, id, then correct = 1 for a true flag and 0 otherwise |
| Client.Api9kw.AsyncIsCorrectRequest | src/index.js:413-419 | extends the `isCorrect` query by json=1 at the end |
| Client.Api9kw.BalanceRequest | src/index.js:469-471 | extends the query with action=usercaptchaguthaben |
| Client.DebugReadsBack | src/index.js:70-82 | the debug flag as sent reads back as the configured number |
| Client.UploadCarriesConfig | src/index.js:75-82 | every request built on the upload fields sends the key, the upload action, both tags and the debug flag |
| Client.QueryCarriesConfig | src/index.js:70-74 | every request built on the query sends the key and the debug flag |
| Client.SubmitFields | src/index.js:101-113 | a submit sends no name twice and sends the captcha |
| Client.SubmitSiteFields | src/index.js:101-113 | pageurl (with the site URL) and interactive=1 are sent iff the site URL is truthy |
| Client.SubmitPriority | src/index.js:95-113 | prio is sent, and reads back as the argument or the configured priority |
| Client.SubmitFileFields | src/index.js:165-170 | a file upload sends no name twice, attaches the file, sends no captcha value, and sends a prio that reads back |
| Client.Base64Fields | src/index.js:199-207 | a base64 upload sends no name twice, sends the comma-free stripped payload and base64=1, and sends no prio |
| Client.Base64HeaderIgnored | src/index.js:199-207 | a PNG data URL and its bare payload produce the same request |
| Client.SolutionFields | src/index.js:240-243 | the solution query sends no name twice and sends the action and the id |
| Client.CorrectFlag | src/index.js:386-390 | correct=1 is sent iff the flag is true, and correct=0 iff it is false or missing |
| Client.AsyncCorrectAddsJson | src/index.js:413-419 | the promise form sends json=1, which the callback form does not, and agrees with it on every other name and value |
| Client.BalanceFields | src/index.js:469-471 | the balance query sends no name twice and sends its action |
| Client.DefaultClientUpload | src/index.js:64-82 | a client built with no source tag, an empty old source tag, a NaN priority and a zero debug flag uploads empty tags and debug=0 |
| Polling.Stop | src/index.js:308-323 | a check that ends the loop solves it iff its reply is a non-empty text, and the solution is that text |
| Polling.Poll | src/index.js:291-329 | never more checks than observations; a verdict takes at least one check; Pending iff every observed check continued the loop |
| Polling.TimeoutOrDefault | src/index.js:291 | an omitted timeout is 30 seconds, a given one is used as it is |
| Polling.GetSolutionLoop | src/index.js:291-329 | the loop's outcome and check count equal `Poll`'s for the deadline start + timeout*1000, with an omitted timeout taken as 30 |
| Polling.Report | src/index.js:308-370 | the solution on success; on timeout, "captcha timeout" for the callback form and "Captcha Timeout" for the promise form; nothing while pending |
| Polling.FirstStop | src/index.js:307-323 | the loop stops at the first check that does not continue it, with that check's verdict, after exactly that many checks |
| Polling.StoppedRun | src/index.js:307-323 | every verdict comes from the last check made, and every earlier check continued the loop |
| Polling.SolvedIsFirstSolution | src/index.js:308-324 | success only with a non-empty reply, the first one: every earlier reply was an error or empty |
| Polling.TimeoutOnlyPastDeadline | src/index.js:308-315 | timeout only when the last check failed and its clock had reached the deadline |
| Polling.FirstReplyWins | src/index.js:327-328 | the first check is made at once, and a solution there is taken even past the deadline |
| Polling.NotYetInterchangeable | src/index.js:308 | runs that agree on clocks, on which replies are "not yet" and on the solutions are the same |
| Polling.ErrorLikeEmpty | src/index.js:308 | an error reply in place of an empty reply changes nothing |
| Polling.ClockLowerBound | src/index.js:318-366 | in a well-timed run, check i happens at least 3000*i ms after the start |
| Polling.CheckBound | src/index.js:292-318 | a well-timed run makes at most floor((timeout*1000-1)/3000)+2 checks (1 for a non-positive timeout), and reaches a verdict when given that many observations |
| Polling.LoopReachesVerdict | src/index.js:291-329 | the loop over such a run ends with a verdict after 1 to MaxChecks checks |
| Polling.DefaultTimeoutChecks | src/index.js:291-318 | with the default timeout of 30 s a well-timed run makes at most 11 checks, and reaches a verdict when given 11 observations |

## Left out

- Transport. Sending requests, reading an attached file and the
  `superagent` request objects are not modelled. A request is its verb, URL
  and ordered fields; a reply is an optional error plus the body text.
- Missing response object. `callbackSuperAgent` reads `response.text`
  before it looks at `err`, so a transport error without a response object
  throws. Only replies that carry a response are modelled.
- Error pages. A service reply whose body is an error message is
  delivered as a NaN id, not as an error (`ErrorMessageIsNaN`). This
  follows the code, although the doc comment of `submit`
  (src/index.js:88) promises an integer captcha id.
- Unreturned solution text. `resolve(null, res.text)` in `asyncGetSolution` resolves with
  `null`, so the solution text never reaches the promise's caller. This is
  modelled as written (`Ok(None)`). The polling loop uses the callback
  query, which does pass the text on.
- Environment defaults. The constructor's `process.env` reads are its
  arguments here. A missing or NaN number is `None`.
- Key. The API key is a string. An undefined key, which would be sent as
  the text "undefined", is not modelled.
- `console.log` in `asyncSubmit` is a side effect with no effect on the
  result, and is not modelled.
- `serverCheck` and `asyncServerCheck` only GET a fixed file and pass its
  text through; only their shared pass-through shape (`PassThrough`) is
  modelled.
- JsNumber.NumberToString: numbers are modelled as unbounded integers, so
  it does not model
  - IEEE-754 doubles and their 53-bit precision;
  - exponent notation for large values;
  - -0;
  - a non-integral priority, debug flag or timeout, or `timeout * 1000` of
    a non-integral timeout.
- Client.Api9kw.IsCorrectRequest: the feedback flag is a boolean or missing, so
  JavaScript truthiness of other values is not modelled.
- Client.Api9kw.SubmitRequest: a priority of NaN passed explicitly, sent
  as the text "NaN", is not modelled; the argument is an integer or left
  out, which, like an explicit `undefined`, takes the configured one.
- Callback and promise forms. Apart from how the outcome is handed over,
  the callback and promise form of each operation behave alike, with three
  exceptions, each modelled separately: `asyncSubmit` has the site-key
  shortcut (`AsyncSubmitOutcome`, `SiteKeyOutcome`), `asyncIsCorrect` adds
  `json=1` (`Client.Api9kw.AsyncIsCorrectRequest`), and `asyncGetSolution`
  resolves with `null` (`AsyncGetSolution`). `Report` gives the two timeout
  texts of the polling loops.
- Polling.GetSolutionLoop: real time and `setTimeout` are replaced by the
  clock readings observed with each reply. The loop consumes a finite
  sequence of them and ends as `Pending` if they run out before a verdict.
  The 3000 ms spacing is the `WellTimed` precondition of the bound lemmas.
  The loop itself does not assume it.
- Transport errors. `if (err)` (src/index.js:31, 245 and 308) tests
  JavaScript truthiness. An error is modelled as `Some(e)` and stands for a
  truthy error object; a falsy error value such as `""` that is present is
  not modelled (the model would treat `Some("")` as an error).
- Strings. Dafny strings are sequences of Unicode code points, while
  JavaScript's `indexOf`, `substring` and `length` count UTF-16 code units.
  Indices therefore agree only on text without characters outside the
  Basic Multilingual Plane; an astral character before an id shifts the
  JavaScript indices by one, which the model does not capture.
- The parsed id is an unbounded integer. Digit strings beyond 2^53, which
  JavaScript would round, are not modelled.
