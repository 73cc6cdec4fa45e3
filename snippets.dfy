/**
 * The code snippets shown after a response (renderer.js lines 483-584): curl, axios,
 * fetch and Python renderings of the request just sent. They use the substituted URL
 * and the folded headers, but the body text exactly as typed.
 */
module Snippets {
  import opened Wrappers
  import opened Text
  import opened JsObject
  import opened Json
  import opened Request

  /** What the snippet generators read: method, substituted URL, folded headers, raw body text. */
  datatype SnippetInput = SnippetInput(verb: string, url: string, headers: Object<string>, rawBody: string)

  predicate SendsBody(inp: SnippetInput)
  {
    HasBody(inp.verb, inp.rawBody)
  }

  // curl

  function CurlHead(inp: SnippetInput): string
  {
    "curl -X " + inp.verb + " \"" + inp.url + "\""
  }

  /**
   * One `-H` option. The template literal's backslash-newline is a line continuation and
   * adds nothing, so the option follows on the same line after three spaces.
   */
  function HeaderOption(key: string, value: string): string
  {
    "   -H \"" + key + ": " + value + "\""
  }

  function HeaderOptions(headers: Object<string>): string
  {
    if headers == [] then []
    else
      var last := headers[|headers| - 1];
      HeaderOptions(headers[..|headers| - 1]) + HeaderOption(last.0, last.1)
  }

  function BodyOption(inp: SnippetInput): string
  {
    if SendsBody(inp) then "   -d '" + inp.rawBody + "'" else []
  }

  /** The curl command `generateCurlSnippet` returns. */
  function CurlText(inp: SnippetInput): string
  {
    CurlHead(inp) + HeaderOptions(inp.headers) + BodyOption(inp)
  }

  /** `generateCurlSnippet`: the command, then `+=` of one option per header, then the body option. */
  method CurlSnippet(inp: SnippetInput) returns (curl: string)
    ensures curl == CurlText(inp)
  {
    curl := CurlHead(inp);
    var entries := inp.headers;
    var i := 0;
    while i < |entries|
      invariant i <= |entries|
      invariant curl == CurlHead(inp) + HeaderOptions(entries[..i])
    {
      var (key, value) := entries[i];
      assert entries[..i + 1][..i] == entries[..i];
      curl := curl + HeaderOption(key, value);
      i := i + 1;
    }
    assert entries[..i] == entries;
    if inp.verb != "GET" && inp.rawBody != [] {
      curl := curl + "   -d '" + inp.rawBody + "'";
    }
  }

  /** No line break is added: the command is one line when its inputs are. */
  lemma {:induction false} HeaderOptionsOneLine(headers: Object<string>)
    requires forall i :: 0 <= i < |headers| ==> '\n' !in headers[i].0 && '\n' !in headers[i].1
    ensures '\n' !in HeaderOptions(headers)
  {
    if headers != [] {
      var init := headers[..|headers| - 1];
      assert forall i :: 0 <= i < |init| ==> init[i] == headers[i];
      HeaderOptionsOneLine(init);
    }
  }

  lemma CurlOneLine(inp: SnippetInput)
    requires '\n' !in inp.verb && '\n' !in inp.url && '\n' !in inp.rawBody
    requires forall i :: 0 <= i < |inp.headers| ==> '\n' !in inp.headers[i].0 && '\n' !in inp.headers[i].1
    ensures '\n' !in CurlText(inp)
  {
    HeaderOptionsOneLine(inp.headers);
  }

  /** The body option closes the command exactly when the request sends a body. */
  lemma CurlBody(inp: SnippetInput)
    ensures SendsBody(inp) ==> CurlText(inp) == CurlHead(inp) + HeaderOptions(inp.headers) + "   -d '" + inp.rawBody + "'"
    ensures !SendsBody(inp) ==> CurlText(inp) == CurlHead(inp) + HeaderOptions(inp.headers)
  {
  }

  /** A one-header PUT with a body: all on one line, the body quoted as typed. */
  lemma CurlExample()
    ensures CurlText(SnippetInput("PUT", "u", [("k", "v")], "b")) == "curl -X PUT \"u\"   -H \"k: v\"   -d 'b'"
  {
    CurlExampleParts();
  }

  lemma CurlExampleParts()
    ensures var inp := SnippetInput("PUT", "u", [("k", "v")], "b");
      && CurlHead(inp) == "curl -X PUT \"u\""
      && HeaderOptions(inp.headers) == "   -H \"k: v\""
      && BodyOption(inp) == "   -d 'b'"
  {
    HeaderOptionsOne("k", "v");
  }

  lemma HeaderOptionsOne(key: string, value: string)
    ensures HeaderOptions([(key, value)]) == HeaderOption(key, value)
  {
    assert [(key, value)][..0] == [];
  }

  // axios and fetch

  /** The headers object as JSON: the same keys in the same order, with string values. */
  function HeadersJson(headers: Object<string>): (r: Object<Json>)
    ensures Keys(r) == Keys(headers)
    ensures forall i :: 0 <= i < |r| ==> r[i].1 == JStr(headers[i].1)
  {
    seq(|headers|, i requires 0 <= i < |headers| => (headers[i].0, JStr(headers[i].1)))
  }

  /** The axios config: lower-case method, URL, headers, and `data` only when a body is sent. */
  function AxiosConfig(inp: SnippetInput): (r: Object<Json>)
    ensures Keys(r) == ["method", "url", "headers"] + (if SendsBody(inp) then ["data"] else [])
    ensures Get(r, "method") == Some(JStr(ToLower(inp.verb)))
    ensures Get(r, "url") == Some(JStr(inp.url))
    ensures Get(r, "headers") == Some(JObj(HeadersJson(inp.headers)))
    ensures Get(r, "data") == if SendsBody(inp) then Some(JStr(inp.rawBody)) else None
  {
    AxiosBaseFacts(inp);
    var base := AxiosBase(inp);
    if SendsBody(inp) then Put(base, "data", JStr(inp.rawBody)) else base
  }

  /** The config before the body check. */
  function AxiosBase(inp: SnippetInput): Object<Json>
  {
    [("method", JStr(ToLower(inp.verb))), ("url", JStr(inp.url)), ("headers", JObj(HeadersJson(inp.headers)))]
  }

  lemma AxiosBaseFacts(inp: SnippetInput)
    ensures var base := AxiosBase(inp);
      && Keys(base) == ["method", "url", "headers"]
      && Get(base, "method") == Some(JStr(ToLower(inp.verb)))
      && Get(base, "url") == Some(JStr(inp.url))
      && Get(base, "headers") == Some(JObj(HeadersJson(inp.headers)))
      && Get(base, "data") == None
  {
    var base := AxiosBase(inp);
    assert base[1..][1..][1..] == [];
  }

  /** The fetch options: the method as selected, headers, and `body` only when a body is sent. */
  function FetchOptions(inp: SnippetInput): (r: Object<Json>)
    ensures Keys(r) == ["method", "headers"] + (if SendsBody(inp) then ["body"] else [])
    ensures Get(r, "method") == Some(JStr(inp.verb))
    ensures Get(r, "headers") == Some(JObj(HeadersJson(inp.headers)))
    ensures Get(r, "body") == if SendsBody(inp) then Some(JStr(inp.rawBody)) else None
  {
    FetchBaseFacts(inp);
    var base := FetchBase(inp);
    if SendsBody(inp) then Put(base, "body", JStr(inp.rawBody)) else base
  }

  /** The options before the body check. */
  function FetchBase(inp: SnippetInput): Object<Json>
  {
    [("method", JStr(inp.verb)), ("headers", JObj(HeadersJson(inp.headers)))]
  }

  lemma FetchBaseFacts(inp: SnippetInput)
    ensures var base := FetchBase(inp);
      && Keys(base) == ["method", "headers"]
      && Get(base, "method") == Some(JStr(inp.verb))
      && Get(base, "headers") == Some(JObj(HeadersJson(inp.headers)))
      && Get(base, "body") == None
  {
    var base := FetchBase(inp);
    assert base[1..][1..] == [];
  }

  function AxiosSnippet(inp: SnippetInput, stringify: Json -> string): string
  {
    "axios(" + stringify(JObj(AxiosConfig(inp))) + ")\n" +
    "  .then(response => {\n" +
    "    console.log(response.data);\n" +
    "  })\n" +
    "  .catch(error => {\n" +
    "    console.error(error);\n" +
    "  });"
  }

  function FetchSnippet(inp: SnippetInput, stringify: Json -> string): string
  {
    "fetch(\"" + inp.url + "\", " + stringify(JObj(FetchOptions(inp))) + ")\n" +
    "  .then(response => response.json())\n" +
    "  .then(data => {\n" +
    "    console.log(data);\n" +
    "  })\n" +
    "  .catch(error => {\n" +
    "    console.error(error);\n" +
    "  });"
  }

  // Python

  const PythonImport: string := "import requests\n\n"
  const PythonEnd: string := "\n)\n\nprint(response.json())"

  /** The `data = ...` line, only when a body is sent; the body text is pasted as it was typed. */
  function PythonData(inp: SnippetInput): string
  {
    if SendsBody(inp) then "data = " + inp.rawBody + "\n" else []
  }

  function PythonHeaders(inp: SnippetInput, stringify: Json -> string): string
  {
    "headers = " + stringify(JObj(HeadersJson(inp.headers))) + "\n\n"
  }

  function PythonCall(inp: SnippetInput): string
  {
    "response = requests." + ToLower(inp.verb) + "(\n    \"" + inp.url + "\",\n    "
  }

  /** The keyword arguments: `json=data` only when a body is sent. */
  function PythonArgs(inp: SnippetInput): string
  {
    "headers=headers" + if SendsBody(inp) then ",\n    json=data" else []
  }

  /** The script `generatePythonSnippet` returns. */
  function PythonText(inp: SnippetInput, stringify: Json -> string): string
  {
    PythonImport + PythonData(inp) + PythonHeaders(inp, stringify) + PythonCall(inp) + PythonArgs(inp) + PythonEnd
  }

  /** `generatePythonSnippet`: the script built up with `+=`. */
  method PythonSnippet(inp: SnippetInput, stringify: Json -> string) returns (code: string)
    ensures code == PythonText(inp, stringify)
  {
    code := PythonImport;
    if inp.verb != "GET" && inp.rawBody != [] {
      code := code + ("data = " + inp.rawBody + "\n");
    } else {
      assert code == PythonImport + PythonData(inp);
    }
    code := code + PythonHeaders(inp, stringify);
    code := code + PythonCall(inp);
    code := code + PythonArgs(inp);
    code := code + PythonEnd;
  }

  /**
   * The script opens with the import and, when a body is sent, the `data` line; it closes
   * with the keyword arguments and the print.
   */
  lemma PythonShape(inp: SnippetInput, stringify: Json -> string)
    ensures var code := PythonText(inp, stringify);
      && PythonImport + PythonData(inp) <= code
      && |PythonArgs(inp) + PythonEnd| <= |code|
      && code[|code| - |PythonArgs(inp) + PythonEnd|..] == PythonArgs(inp) + PythonEnd
  {
    Regroup(PythonImport, PythonData(inp), PythonHeaders(inp, stringify), PythonCall(inp), PythonArgs(inp), PythonEnd);
    FrontBack(PythonImport + PythonData(inp), PythonHeaders(inp, stringify) + PythonCall(inp), PythonArgs(inp) + PythonEnd);
  }

  lemma Regroup(a: string, b: string, c: string, d: string, e: string, f: string)
    ensures a + b + c + d + e + f == (a + b) + (c + d) + (e + f)
  {
  }

  lemma FrontBack(front: string, middle: string, back: string)
    ensures var s := front + middle + back;
      front <= s && |back| <= |s| && s[|s| - |back|..] == back
  {
    var s := front + middle + back;
    assert s == front + (middle + back);
  }

  // Language switch

  /** The snippet for the selected language; an unknown language gives the empty string. */
  function SnippetText(language: string, inp: SnippetInput, stringify: Json -> string): string
  {
    if language == "curl" then CurlText(inp)
    else if language == "axios" then AxiosSnippet(inp, stringify)
    else if language == "fetch" then FetchSnippet(inp, stringify)
    else if language == "python" then PythonText(inp, stringify)
    else []
  }

  /** `updateCodeSnippet`. */
  method UpdateCodeSnippet(language: string, inp: SnippetInput, stringify: Json -> string) returns (code: string)
    ensures code == SnippetText(language, inp, stringify)
  {
    code := [];
    if language == "curl" {
      code := CurlSnippet(inp);
    } else if language == "axios" {
      code := AxiosSnippet(inp, stringify);
    } else if language == "fetch" {
      code := FetchSnippet(inp, stringify);
    } else if language == "python" {
      code := PythonSnippet(inp, stringify);
    }
  }
}
