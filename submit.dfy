/**
 * The request form's submit handler (renderer.js lines 284-617): fold the headers,
 * substitute the URL, prepare the body, send the request, show the status, the body and
 * the code snippet, and record the exchange in the history.
 *
 * `fetch` is a parameter (None: the request failed); so are JSON parsing and printing,
 * the `textContent` of the rendered body, and the clock.
 */
module Submit {
  import opened Wrappers
  import opened Text
  import opened JsObject
  import opened Json
  import opened Store
  import opened Substitution
  import opened Format
  import opened Request
  import opened Snippets

  /** The form's inputs: method, URL, header rows, body text, selected environment, snippet language. */
  datatype Form = Form(
    verb: string, url: string, headerRows: seq<(string, string)>, bodyText: string,
    activeEnv: string, language: string)

  /** What is handed to `fetch`. */
  datatype FetchRequest = FetchRequest(url: string, verb: string, headers: Object<string>, body: Option<Json>)

  /** A response; header names are lower case, as the Fetch standard's `Headers` keeps them. */
  datatype Response = Response(status: nat, statusText: string, headers: Object<string>, body: string)

  /** What the handler shows: the status line and its colour class, the body markup and the snippet. */
  datatype Display = Display(statusClass: StatusClass, statusLine: string, bodyHtml: string, snippet: string)

  datatype SubmitOutcome =
    | InvalidBody                                   // "Invalid JSON in request body", nothing sent
    | RequestFailed                                 // the catch branch: "Error" is shown
    | Completed(display: Display, item: HistoryItem)

  /** Bytes a character takes in UTF-8. */
  function Utf8Width(c: char): (n: nat)
    ensures 1 <= n <= 4
    ensures c as int < 0x80 <==> n == 1
  {
    if c as int < 0x80 then 1 else if c as int < 0x800 then 2 else if c as int < 0x10000 then 3 else 4
  }

  /** `new Blob([text]).size`: the UTF-8 length of the text. */
  function Utf8Size(s: string): (n: nat)
    ensures |s| <= n <= 4 * |s|
  {
    if s == [] then 0 else Utf8Width(s[0]) + Utf8Size(s[1..])
  }

  /** ASCII text takes one byte per character. */
  lemma {:induction false} Utf8SizeAscii(s: string)
    requires forall i :: 0 <= i < |s| ==> s[i] as int < 0x80
    ensures Utf8Size(s) == |s|
  {
    if s != [] {
      assert forall i :: 0 <= i < |s[1..]| ==> s[1..][i] == s[i + 1];
      Utf8SizeAscii(s[1..]);
    }
  }

  /** `response.headers.get('content-type') || ''`. */
  function ContentType(resp: Response): string
  {
    Get(resp.headers, "content-type").GetOr([])
  }

  /**
   * An image response: its body is read with `blob()` for the preview, so the later
   * `text()` call on the consumed body rejects and the handler ends in its catch branch.
   */
  predicate IsImage(resp: Response)
  {
    var ct := Get(resp.headers, "content-type");
    ct.Some? && "image/" <= ct.value
  }

  /** The request the handler sends, or None when the body text does not parse. */
  function SentRequest(envs: Object<Object<string>>, form: Form, parse: string -> Option<Json>): (r: Option<FetchRequest>)
    ensures r.None? <==> PrepareBody(form.verb, form.bodyText, form.activeEnv, envs, parse).InvalidJson?
    ensures r.Some? ==> r.value.url == ReplaceEnvironmentVariables(form.url, form.activeEnv, envs)
    ensures r.Some? ==> r.value.headers == Headers(form.headerRows, form.activeEnv, envs)
    ensures r.Some? ==> (r.value.body.None? <==> !HasBody(form.verb, form.bodyText))
    ensures r.Some? ==> r.value.verb == form.verb
    ensures r.Some? && HasBody(form.verb, form.bodyText) ==>
      r.value.body == parse(ReplaceEnvironmentVariables(form.bodyText, form.activeEnv, envs))
  {
    match PrepareBody(form.verb, form.bodyText, form.activeEnv, envs, parse)
    case InvalidJson => None
    case NoBody =>
      Some(FetchRequest(ReplaceEnvironmentVariables(form.url, form.activeEnv, envs), form.verb,
                        Headers(form.headerRows, form.activeEnv, envs), None))
    case JsonBody(v) =>
      Some(FetchRequest(ReplaceEnvironmentVariables(form.url, form.activeEnv, envs), form.verb,
                        Headers(form.headerRows, form.activeEnv, envs), Some(v)))
  }

  /** The body markup: size line, then the view the content type selects. */
  function BodyHtml(resp: Response, parse: string -> Option<Json>, stringify: Json -> string): string
  {
    ResponseBodyHtml(SizeText(Utf8Size(resp.body)), RenderBody(ContentType(resp), resp.body, parse, stringify))
  }

  /** The history argument: the raw URL as typed, the folded headers, the parsed body and the response. */
  function HistoryRequestOf(form: Form, sent: FetchRequest, resp: Response, bodyText: string): HistoryRequest
  {
    HistoryRequest(form.verb, form.url, sent.headers, sent.body,
                   Some(ResponseRecord(resp.status, resp.statusText, Spread([], resp.headers), bodyText)))
  }

  /** What one submission does, given the environment table and everything outside the model. */
  function Outcome(envs: Object<Object<string>>, form: Form, fetch: FetchRequest -> Option<Response>,
                   parse: string -> Option<Json>, stringify: Json -> string, textContent: string -> string,
                   now: int, iso: string): SubmitOutcome
  {
    match SentRequest(envs, form, parse)
    case None => InvalidBody
    case Some(sent) =>
      match fetch(sent)
      case None => RequestFailed
      case Some(resp) =>
        if IsImage(resp) then RequestFailed
        else Completion(form, sent, resp, parse, stringify, textContent, now, iso)
  }

  /** A response that was read: status line, body markup, snippet, and the history item. */
  function Completion(form: Form, sent: FetchRequest, resp: Response,
                      parse: string -> Option<Json>, stringify: Json -> string, textContent: string -> string,
                      now: int, iso: string): SubmitOutcome
  {
    var html := BodyHtml(resp, parse, stringify);
    var snippet := SnippetText(form.language, SnippetInput(form.verb, sent.url, sent.headers, form.bodyText), stringify);
    var request := HistoryRequestOf(form, sent, resp, textContent(html));
    Completed(
      Display(ClassifyStatus(resp.status), NatToString(resp.status) + " " + resp.statusText, html, snippet),
      HistoryItem(now, iso, request.verb, request.url, request.headers, request.body, request.response))
  }

  /** The handler. Only a completed exchange touches the store, and only its history. */
  method SubmitForm(store: Storage, form: Form, fetch: FetchRequest -> Option<Response>,
                    parse: string -> Option<Json>, stringify: Json -> string, textContent: string -> string,
                    now: int, iso: string)
    returns (outcome: SubmitOutcome)
    modifies store`history, store`savedHistory
    ensures outcome == Outcome(store.environments, form, fetch, parse, stringify, textContent, now, iso)
    ensures !outcome.Completed? ==> store.history == old(store.history) && store.savedHistory == old(store.savedHistory)
    ensures outcome.Completed? ==> store.history == Pushed(old(store.history), outcome.item) && store.HistorySaved()
  {
    var headers := CollectHeaders(form.headerRows, form.activeEnv, store.environments);
    var url := ReplaceEnvironmentVariables(form.url, form.activeEnv, store.environments);
    var prepared := PrepareBody(form.verb, form.bodyText, form.activeEnv, store.environments, parse);
    if prepared.InvalidJson? {
      return InvalidBody;
    }
    var body := if prepared.JsonBody? then Some(prepared.value) else None;
    var sent := FetchRequest(url, form.verb, headers, body);
    assert SentRequest(store.environments, form, parse) == Some(sent);
    var response := fetch(sent);
    if response.None? {
      return RequestFailed;
    }
    var resp := response.value;
    if IsImage(resp) {
      return RequestFailed;
    }
    outcome := ShowResponse(store, form, sent, resp, parse, stringify, textContent, now, iso);
  }

  /** The handler once the response is in: render it, update the snippet, record the exchange. */
  method ShowResponse(store: Storage, form: Form, sent: FetchRequest, resp: Response,
                      parse: string -> Option<Json>, stringify: Json -> string, textContent: string -> string,
                      now: int, iso: string)
    returns (outcome: SubmitOutcome)
    modifies store`history, store`savedHistory
    ensures outcome == Completion(form, sent, resp, parse, stringify, textContent, now, iso)
    ensures store.history == Pushed(old(store.history), outcome.item) && store.HistorySaved()
  {
    var statusClass := ClassifyStatus(resp.status);
    var sizeLabel := FormatSize(Utf8Size(resp.body));
    var html := ResponseBodyHtml(sizeLabel, RenderBody(ContentType(resp), resp.body, parse, stringify));
    var snippet := UpdateCodeSnippet(form.language, SnippetInput(form.verb, sent.url, sent.headers, form.bodyText), stringify);
    assert html == BodyHtml(resp, parse, stringify);
    var item := store.AddToHistory(HistoryRequestOf(form, sent, resp, textContent(html)), now, iso);
    outcome := Completed(Display(statusClass, NatToString(resp.status) + " " + resp.statusText, html, snippet), item);
  }

  /** A body that does not parse stops the submission before anything is sent: `fetch` plays no part. */
  lemma InvalidBodySendsNothing(envs: Object<Object<string>>, form: Form,
                                fetch1: FetchRequest -> Option<Response>, fetch2: FetchRequest -> Option<Response>,
                                parse: string -> Option<Json>, stringify: Json -> string, textContent: string -> string,
                                now: int, iso: string)
    requires HasBody(form.verb, form.bodyText)
    requires parse(ReplaceEnvironmentVariables(form.bodyText, form.activeEnv, envs)).None?
    ensures Outcome(envs, form, fetch1, parse, stringify, textContent, now, iso) == InvalidBody
    ensures Outcome(envs, form, fetch1, parse, stringify, textContent, now, iso) ==
            Outcome(envs, form, fetch2, parse, stringify, textContent, now, iso)
  {
  }

  /** The outcome depends on `fetch` only through its answer to the one request sent. */
  lemma OneRequestSent(envs: Object<Object<string>>, form: Form,
                       fetch1: FetchRequest -> Option<Response>, fetch2: FetchRequest -> Option<Response>,
                       parse: string -> Option<Json>, stringify: Json -> string, textContent: string -> string,
                       now: int, iso: string)
    requires SentRequest(envs, form, parse).Some?
    requires fetch1(SentRequest(envs, form, parse).value) == fetch2(SentRequest(envs, form, parse).value)
    ensures Outcome(envs, form, fetch1, parse, stringify, textContent, now, iso) ==
            Outcome(envs, form, fetch2, parse, stringify, textContent, now, iso)
  {
  }

  /**
   * The history record of a completed exchange: clock id and timestamp, the method and
   * the URL as typed (not substituted), the substituted headers, the parsed body, and the
   * response's status, status text, headers and rendered text.
   */
  lemma HistoryRecord(envs: Object<Object<string>>, form: Form, fetch: FetchRequest -> Option<Response>,
                      parse: string -> Option<Json>, stringify: Json -> string, textContent: string -> string,
                      now: int, iso: string)
    requires Outcome(envs, form, fetch, parse, stringify, textContent, now, iso).Completed?
    ensures var sent := SentRequest(envs, form, parse).value;
      var resp := fetch(sent).value;
      var item := Outcome(envs, form, fetch, parse, stringify, textContent, now, iso).item;
      && item.id == now && item.timestamp == iso
      && item.verb == form.verb && item.url == form.url
      && item.headers == Headers(form.headerRows, form.activeEnv, envs)
      && (HasBody(form.verb, form.bodyText) ==>
            item.body.Some? && parse(ReplaceEnvironmentVariables(form.bodyText, form.activeEnv, envs)) == item.body)
      && (!HasBody(form.verb, form.bodyText) ==> item.body.None?)
      && item.response == Some(ResponseRecord(resp.status, resp.statusText, Spread([], resp.headers),
                                              textContent(BodyHtml(resp, parse, stringify))))
  {
  }

  /** A submission completes exactly when the body parses (or there is none), the request succeeds and no image comes back. */
  lemma CompletedWhen(envs: Object<Object<string>>, form: Form, fetch: FetchRequest -> Option<Response>,
                      parse: string -> Option<Json>, stringify: Json -> string, textContent: string -> string,
                      now: int, iso: string)
    ensures Outcome(envs, form, fetch, parse, stringify, textContent, now, iso).Completed? <==>
      && SentRequest(envs, form, parse).Some?
      && fetch(SentRequest(envs, form, parse).value).Some?
      && !IsImage(fetch(SentRequest(envs, form, parse).value).value)
  {
  }
}
