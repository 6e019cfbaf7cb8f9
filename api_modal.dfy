/**
 * The endpoint explorer's modal (rest-api-v1-main/api-page/script.js): opening
 * it for an endpoint, the parameter form built from the path's query template,
 * input validation, the submit handler and the request runner.
 *
 * The network is a parameter: each request is answered by a `FetchOutcome`
 * chosen by the caller, and the request runs to completion at once.
 */
module ApiModal {
  import opened Wrappers
  import opened Decimal
  import opened JsText
  import opened UrlEncoded
  import opened Catalog

  /** What the response area shows: text, or an image whose `alt` is the endpoint name. */
  datatype Content = Text(text: string) | Image(alt: string)

  /** One generated parameter input with its group's class, its value and its `is-invalid` flag. */
  datatype ParamInput = ParamInput(
    param: string, placeholder: string, groupClass: string, required: bool,
    value: string, invalid: bool)

  /** Reading the body: the pretty-printed JSON text or the image, or the error it threw. */
  datatype Body = Read(text: string) | ReadError(message: string)

  datatype Response = Response(ok: bool, status: nat, contentType: Option<string>, body: Body)

  /** What `fetch` does: reject with an error, or resolve with a response. */
  datatype FetchOutcome = NetworkError(message: string) | Got(response: Response)

  /** The message the content shows when a submit finds a blank input. */
  const FillInMessage: string := "Please fill in all required fields."

  // ---------------------------------------------------------------------------
  // The request runner's result

  /** The text of the error thrown for a response that is not ok. */
  function HttpErrorMessage(status: nat): string {
    "HTTP error! status: " + NatToString(status)
  }

  /** `contentType && contentType.startsWith('image/')`. */
  predicate IsImage(contentType: Option<string>) {
    contentType.Some? && "image/" <= contentType.value
  }

  /** The error `handleApiRequest` catches, if any. */
  function Thrown(outcome: FetchOutcome): Option<string> {
    match outcome
    case NetworkError(m) => Some(m)
    case Got(r) =>
      if !r.ok then Some(HttpErrorMessage(r.status))
      else if r.body.ReadError? then Some(r.body.message)
      else None
  }

  /**
   * What the response area ends up showing: `Error: <message>` after a throw,
   * otherwise the image or the JSON text.
   */
  function ShownContent(name: string, outcome: FetchOutcome): Content {
    match Thrown(outcome)
    case Some(m) => Text("Error: " + m)
    case None =>
      if IsImage(outcome.response.contentType) then Image(name) else Text(outcome.response.body.text)
  }

  /** A response that is not ok shows the HTTP status error, whatever its body and type. */
  lemma NotOkShowsStatus(name: string, r: Response)
    requires !r.ok
    ensures ShownContent(name, Got(r)) == Text("Error: HTTP error! status: " + NatToString(r.status))
    ensures Thrown(Got(r)).Some?
  {
    var d := NatToString(r.status);
    assert "Error: " + ("HTTP error! status: " + d) == "Error: HTTP error! status: " + d;
  }

  /** The image branch is taken exactly for an ok, readable response whose type starts with `image/`. */
  lemma ImageBranch(name: string, outcome: FetchOutcome)
    ensures ShownContent(name, outcome).Image? <==>
      outcome.Got? && outcome.response.ok && outcome.response.body.Read? && IsImage(outcome.response.contentType)
    ensures ShownContent(name, outcome).Image? ==> ShownContent(name, outcome).alt == name
  {
  }

  /** A missing content type, or one that is not `image/...` (case-sensitively), takes the JSON branch. */
  lemma JsonBranch(name: string, r: Response)
    requires r.ok && r.body.Read?
    requires r.contentType.None? || !("image/" <= r.contentType.value)
    ensures ShownContent(name, Got(r)) == Text(r.body.text)
  {
  }

  // ---------------------------------------------------------------------------
  // The parameter form

  /** `new URLSearchParams(apiPath.split('?')[1])`; `undefined` gives the empty list. */
  function ParamsOf(apiPath: string): Pairs {
    match SecondField(apiPath, '?')
    case None => []
    case Some(q) => Parse(q)
  }

  /** `params.toString().length > 0`: the template names at least one parameter. */
  function HasParams(apiPath: string): (r: bool)
    ensures r <==> ParamsOf(apiPath) != []
  {
    SerializeNonEmpty(ParamsOf(apiPath));
    |Serialize(ParamsOf(apiPath))| > 0
  }

  /** The input created for entry `index` of `count`. */
  function NewInput(name: string, index: nat, count: nat): ParamInput {
    ParamInput(name, "input " + name + "...", if index < count - 1 then "mb-2" else "", true, "", false)
  }

  /** The form for a parameter list: one input per entry, in order. */
  function InputsFor(params: Pairs): seq<ParamInput> {
    seq(|params|, k requires 0 <= k < |params| => NewInput(params[k].0, k, |params|))
  }

  /**
   * The form has one input per parameter name, in order, each required, empty
   * and unflagged, with a bottom margin on every group but the last.
   */
  lemma InputsForFacts(params: Pairs)
    ensures |InputsFor(params)| == |params|
    ensures forall k :: 0 <= k < |params| ==>
              var r := InputsFor(params)[k];
              r.param == params[k].0 && r.placeholder == "input " + params[k].0 + "..." &&
              r.required && r.value == "" && !r.invalid &&
              (r.groupClass == "mb-2" <==> k < |params| - 1) && (r.groupClass == "" <==> k == |params| - 1)
  {
  }

  /**
   * A path gets no parameter inputs exactly when it has no `?`, or when the text
   * between its first and second `?` is made of `&` only (the empty text included).
   */
  lemma NoParamsIff(apiPath: string)
    ensures ParamsOf(apiPath) == [] <==>
              SecondField(apiPath, '?').None? ||
              forall i :: 0 <= i < |SecondField(apiPath, '?').value| ==> SecondField(apiPath, '?').value[i] == '&'
  {
    match SecondField(apiPath, '?')
    case None =>
    case Some(q) => ParseEmpty(q);
  }

  /** The first catalog item with the given path (`Array.prototype.find`). */
  function FindByPath(items: seq<Item>, path: string): (r: Option<Item>)
    ensures r.None? <==> forall i :: 0 <= i < |items| ==> items[i].path != path
    ensures r.Some? ==> exists i :: 0 <= i < |items| && items[i] == r.value && r.value.path == path &&
                          forall j :: 0 <= j < i ==> items[j].path != path
  {
    if items == [] then None
    else if items[0].path == path then
      assert items[0] == items[0];
      Some(items[0])
    else
      var r := FindByPath(items[1..], path);
      if r.Some? then
        var i :| 0 <= i < |items[1..]| && items[1..][i] == r.value && r.value.path == path &&
                 forall j :: 0 <= j < i ==> items[1..][j].path != path;
        assert items[i + 1] == r.value;
        r
      else
        r
  }

  /** The item's extra note with line breaks as `<br>`, when it has a non-empty one. */
  function NoteFor(items: seq<Item>, path: string): Option<string> {
    match FindByPath(items, path)
    case None => None
    case Some(it) =>
      if it.innerDesc.Some? && it.innerDesc.value != "" then Some(ReplaceNewlines(it.innerDesc.value)) else None
  }

  // ---------------------------------------------------------------------------
  // Validation and submit

  /** `validateInputs`: every input is non-blank after `trim`. */
  predicate AllFilled(inputs: seq<ParamInput>) {
    forall k :: 0 <= k < |inputs| ==> !Blank(inputs[k].value)
  }

  /** The `(name, trimmed value)` pairs of the non-blank inputs, in order. */
  function FilledPairs(inputs: seq<ParamInput>): Pairs
    decreases |inputs|
  {
    if inputs == [] then []
    else
      var last := inputs[|inputs| - 1];
      var rest := FilledPairs(inputs[..|inputs| - 1]);
      if Blank(last.value) then rest else rest + [(last.param, Trim(last.value))]
  }

  /**
   * There is one pair per input exactly when no input is blank, and then pair
   * `k` is the name and trimmed value of input `k`.
   */
  lemma {:induction false} FilledPairsFacts(inputs: seq<ParamInput>)
    ensures |FilledPairs(inputs)| <= |inputs|
    ensures AllFilled(inputs) <==> |FilledPairs(inputs)| == |inputs|
    ensures AllFilled(inputs) ==>
              forall k :: 0 <= k < |inputs| ==> FilledPairs(inputs)[k] == (inputs[k].param, Trim(inputs[k].value))
    decreases |inputs|
  {
    if inputs != [] {
      var init := inputs[..|inputs| - 1];
      var last := inputs[|inputs| - 1];
      var rest := FilledPairs(init);
      FilledPairsFacts(init);
      AllFilledSnoc(inputs);
      if Blank(last.value) {
        assert FilledPairs(inputs) == rest;
      } else {
        var r := FilledPairs(inputs);
        assert r == rest + [(last.param, Trim(last.value))];
        if AllFilled(inputs) {
          forall k | 0 <= k < |inputs| ensures r[k] == (inputs[k].param, Trim(inputs[k].value)) {
            if k < |init| {
              assert init[k] == inputs[k];
            }
          }
        }
      }
    }
  }

  /** All inputs are filled exactly when all but the last are and the last is too. */
  lemma AllFilledSnoc(inputs: seq<ParamInput>)
    requires inputs != []
    ensures AllFilled(inputs) <==> AllFilled(inputs[..|inputs| - 1]) && !Blank(inputs[|inputs| - 1].value)
  {
    var init := inputs[..|inputs| - 1];
    assert forall k :: 0 <= k < |init| ==> init[k] == inputs[k];
  }

  /** The inputs with `is-invalid` set on exactly the blank ones. */
  function Flagged(inputs: seq<ParamInput>): (r: seq<ParamInput>)
    ensures |r| == |inputs|
  {
    seq(|inputs|, k requires 0 <= k < |inputs| => inputs[k].(invalid := Blank(inputs[k].value)))
  }

  /**
   * Flagging marks exactly the blank inputs and changes nothing else; some
   * input ends up flagged exactly when not all are filled, and flagging twice
   * is flagging once.
   */
  lemma FlaggedFacts(inputs: seq<ParamInput>)
    ensures forall k :: 0 <= k < |inputs| ==>
              (Flagged(inputs)[k].invalid <==> Blank(inputs[k].value)) &&
              Flagged(inputs)[k].(invalid := inputs[k].invalid) == inputs[k]
    ensures !AllFilled(inputs) <==> exists k :: 0 <= k < |inputs| && Flagged(inputs)[k].invalid
    ensures Flagged(Flagged(inputs)) == Flagged(inputs)
  {
  }

  /** An input counts as filled exactly when its value holds a character that is not whitespace. */
  lemma AllFilledIff(inputs: seq<ParamInput>)
    ensures AllFilled(inputs) <==> forall k :: 0 <= k < |inputs| ==> HasContent(inputs[k].value)
  {
    forall k | 0 <= k < |inputs| ensures !Blank(inputs[k].value) <==> HasContent(inputs[k].value) {
      BlankIff(inputs[k].value);
    }
  }

  /** The value holds a character that is not whitespace. */
  predicate HasContent(v: string) {
    exists i :: 0 <= i < |v| && !IsJsWhitespace(v[i])
  }

  /** The URL a valid submit requests. */
  function SubmitUrl(origin: string, apiPath: string, pairs: Pairs): string {
    origin + BeforeFirst(apiPath, '?') + "?" + Serialize(pairs)
  }

  lemma {:induction false} SerializeHasNoQuestionMark(l: Pairs)
    ensures '?' !in Serialize(l)
  {
    SerializeBytesAscii(l);
    var bs := SerializeBytes(l);
    forall i | 0 <= i < |bs| ensures bs[i] != 0x3F {
    }
  }

  /**
   * The query of a submitted URL is exactly the serialized pairs, and parsing
   * it yields those pairs: template values never reach the request.
   */
  lemma SubmitQueryRoundTrip(origin: string, apiPath: string, pairs: Pairs)
    requires '?' !in origin
    ensures SecondField(SubmitUrl(origin, apiPath, pairs), '?') == Some(Serialize(pairs))
    ensures ParamsOf(SubmitUrl(origin, apiPath, pairs)) == pairs
  {
    var before := BeforeFirst(apiPath, '?');
    FirstField(apiPath, '?');
    SerializeHasNoQuestionMark(pairs);
    var u := SubmitUrl(origin, apiPath, pairs);
    var head := origin + before;
    assert '?' !in head;
    assert u == head + ['?'] + Serialize(pairs);
    assert IndexOf(u, '?') == Some(|head|);
    assert u[|head| + 1..] == Serialize(pairs);
    assert IndexOf(Serialize(pairs), '?') == None;
    ParseSerialize(pairs);
  }

  /** Scanning one more input extends the filled pairs and the validity by that input. */
  lemma ScanStep(inputs: seq<ParamInput>, k: nat)
    requires k < |inputs|
    ensures FilledPairs(inputs[..k + 1]) ==
              FilledPairs(inputs[..k]) + (if Blank(inputs[k].value) then [] else [(inputs[k].param, Trim(inputs[k].value))])
    ensures AllFilled(inputs[..k + 1]) <==> AllFilled(inputs[..k]) && !Blank(inputs[k].value)
  {
    var s := inputs[..k + 1];
    assert s[..|s| - 1] == inputs[..k];
    assert s[|s| - 1] == inputs[k];
    AllFilledSnoc(s);
  }

  /** Flagging one more input in place extends the flagged prefix by that input. */
  lemma FlagStep(inputs: seq<ParamInput>, k: nat)
    requires k < |inputs|
    ensures (Flagged(inputs[..k]) + inputs[k..])[k := inputs[k].(invalid := Blank(inputs[k].value))] ==
            Flagged(inputs[..k + 1]) + inputs[k + 1..]
  {
  }

  /** The `forEach` that creates one input per parameter name, in order. */
  method BuildInputs(params: Pairs) returns (built: seq<ParamInput>)
    ensures built == InputsFor(params)
  {
    built := [];
    var k := 0;
    while k < |params|
      invariant 0 <= k <= |params|
      invariant built == InputsFor(params)[..k]
    {
      built := built + [NewInput(params[k].0, k, |params|)];
      k := k + 1;
    }
  }

  /**
   * The submit handler's `forEach` over the inputs: flag each blank one, unflag
   * each other one and append its name and trimmed value to the new parameters.
   */
  method ScanInputs(inputs: seq<ParamInput>) returns (flagged: seq<ParamInput>, isValid: bool, newParams: Pairs)
    ensures flagged == Flagged(inputs)
    ensures isValid <==> AllFilled(inputs)
    ensures newParams == FilledPairs(inputs)
  {
    flagged := inputs;
    isValid := true;
    newParams := [];
    var k := 0;
    assert inputs[..0] == [] && inputs[0..] == inputs;
    while k < |inputs|
      invariant 0 <= k <= |inputs|
      invariant flagged == Flagged(inputs[..k]) + inputs[k..]
      invariant isValid <==> AllFilled(inputs[..k])
      invariant newParams == FilledPairs(inputs[..k])
    {
      var input := inputs[k];
      FlagStep(inputs, k);
      ScanStep(inputs, k);
      if Blank(input.value) {
        isValid := false;
        flagged := flagged[k := input.(invalid := true)];
      } else {
        flagged := flagged[k := input.(invalid := false)];
        newParams := newParams + [(input.param, Trim(input.value))];
      }
      k := k + 1;
    }
    assert inputs[..k] == inputs;
  }

  // ---------------------------------------------------------------------------
  // The modal

  class Modal {
    const origin: string
    var heading: string
    var desc: string
    var content: Content
    var contentHidden: bool
    var spinnerHidden: bool
    var endpoint: string
    var endpointHidden: bool
    var inputs: seq<ParamInput>
    var note: Option<string>
    var submitHidden: bool
    var submitDisabled: bool
    /** The endpoint the submit handler was created for. */
    var apiPath: string
    var apiName: string
    /** Every URL fetched, in order. */
    var requests: seq<string>

    constructor(origin: string)
      ensures this.origin == origin && requests == [] && inputs == [] && !submitDisabled
    {
      this.origin := origin;
      heading, desc := "", "";
      content := Text("");
      contentHidden, spinnerHidden, endpointHidden, submitHidden := true, true, true, true;
      endpoint := "";
      inputs := [];
      note := None;
      submitDisabled := false;
      apiPath, apiName := "", "";
      requests := [];
    }

    /**
     * `handleApiRequest`: show the spinner, fetch, fill the response area, show
     * the endpoint on success, and always end with the spinner hidden and the
     * content shown.
     */
    method HandleApiRequest(url: string, name: string, outcome: FetchOutcome)
      modifies this
      ensures requests == old(requests) + [url]
      ensures spinnerHidden && !contentHidden
      ensures content == ShownContent(name, outcome)
      ensures Thrown(outcome).None? ==> endpoint == url && !endpointHidden
      ensures Thrown(outcome).Some? ==> endpoint == old(endpoint) && endpointHidden == old(endpointHidden)
      ensures heading == old(heading) && desc == old(desc) && inputs == old(inputs) && note == old(note)
      ensures submitHidden == old(submitHidden) && submitDisabled == old(submitDisabled)
      ensures apiPath == old(apiPath) && apiName == old(apiName)
    {
      spinnerHidden, contentHidden := false, true;
      requests := requests + [url];
      match outcome {
        case NetworkError(m) =>
          content := Text("Error: " + m);
        case Got(r) =>
          if !r.ok {
            content := Text("Error: " + HttpErrorMessage(r.status));
          } else if IsImage(r.contentType) {
            match r.body {
              case ReadError(m) =>
                content := Text("Error: " + m);
              case Read(_) =>
                content, endpoint, endpointHidden := Image(name), url, false;
            }
          } else {
            match r.body {
              case ReadError(m) =>
                content := Text("Error: " + m);
              case Read(text) =>
                content, endpoint, endpointHidden := Text(text), url, false;
            }
          }
      }
      spinnerHidden, contentHidden := true, false;
    }

    /**
     * The first half of the click handler: title and description set, the
     * content, endpoint and form emptied, spinner, content, endpoint and submit
     * button hidden, and the handler bound to this endpoint.
     */
    method Reset(path: string, name: string, description: string)
      modifies this
      ensures heading == name && desc == description && apiPath == path && apiName == name
      ensures content == Text("") && endpoint == "" && inputs == [] && note == None
      ensures spinnerHidden && contentHidden && endpointHidden && submitHidden
      ensures submitDisabled == old(submitDisabled) && requests == old(requests)
    {
      heading, desc, content, endpoint := name, description, Text(""), "";
      spinnerHidden, contentHidden, endpointHidden := true, true, true;
      inputs, note, submitHidden := [], None, true;
      apiPath, apiName := path, name;
    }

    /** Fill the emptied form with one input per parameter and the note, and show the submit button. */
    method ShowForm(params: Pairs, extra: Option<string>)
      modifies this
      ensures inputs == InputsFor(params) && note == extra && !submitHidden
      ensures heading == old(heading) && desc == old(desc) && apiPath == old(apiPath) && apiName == old(apiName)
      ensures content == old(content) && endpoint == old(endpoint) && requests == old(requests)
      ensures spinnerHidden == old(spinnerHidden) && contentHidden == old(contentHidden)
      ensures endpointHidden == old(endpointHidden) && submitDisabled == old(submitDisabled)
    {
      var built := BuildInputs(params);
      inputs, note, submitHidden := built, extra, false;
    }

    /**
     * The click on an endpoint's GET button: reset the modal, build one input per
     * parameter of the path's query template, or request the path at once when
     * there is none. `outcome` answers that immediate request.
     */
    method Open(path: string, name: string, description: string, items: seq<Item>, outcome: FetchOutcome)
      modifies this
      ensures heading == name && desc == description && apiPath == path && apiName == name
      ensures ParamsOf(path) != [] ==>
                inputs == InputsFor(ParamsOf(path)) && note == NoteFor(items, path) &&
                !submitHidden && requests == old(requests) &&
                content == Text("") && contentHidden && spinnerHidden && endpointHidden && endpoint == ""
      ensures ParamsOf(path) == [] ==>
                inputs == [] && note == None && submitHidden &&
                requests == old(requests) + [origin + path] &&
                content == ShownContent(name, outcome) && !contentHidden && spinnerHidden &&
                (Thrown(outcome).None? <==> !endpointHidden) &&
                (Thrown(outcome).None? ==> endpoint == origin + path) &&
                (Thrown(outcome).Some? ==> endpoint == "")
      ensures submitDisabled == old(submitDisabled)
    {
      Reset(path, name, description);
      var baseApiUrl := origin + path;
      var params := ParamsOf(path);
      if HasParams(path) {
        ShowForm(params, NoteFor(items, path));
      } else {
        HandleApiRequest(baseApiUrl, name, outcome);
      }
    }

    /** The `input` event on a parameter input: store the text, then `validateInputs`. */
    method TypeInto(k: nat, text: string)
      requires k < |inputs|
      modifies this
      ensures inputs == old(inputs)[k := old(inputs)[k].(value := text)]
      ensures submitDisabled <==> !AllFilled(inputs)
      ensures requests == old(requests) && content == old(content) && submitHidden == old(submitHidden)
      ensures heading == old(heading) && desc == old(desc) && apiPath == old(apiPath) && apiName == old(apiName)
      ensures note == old(note) && endpoint == old(endpoint) && endpointHidden == old(endpointHidden)
      ensures spinnerHidden == old(spinnerHidden) && contentHidden == old(contentHidden)
    {
      inputs := inputs[k := inputs[k].(value := text)];
      ValidateInputs();
    }

    /** `validateInputs`: the submit button is disabled exactly when some input is blank. */
    method ValidateInputs()
      modifies this
      ensures submitDisabled <==> !AllFilled(inputs)
      ensures inputs == old(inputs) && requests == old(requests) && content == old(content)
      ensures submitHidden == old(submitHidden)
      ensures heading == old(heading) && desc == old(desc) && apiPath == old(apiPath) && apiName == old(apiName)
      ensures note == old(note) && endpoint == old(endpoint) && endpointHidden == old(endpointHidden)
      ensures spinnerHidden == old(spinnerHidden) && contentHidden == old(contentHidden)
    {
      submitDisabled := !AllFilled(inputs);
    }

    /** The submit button can be clicked: it is neither hidden (`d-none`) nor disabled. */
    predicate Clickable()
      reads this
    {
      !submitHidden && !submitDisabled
    }

    /**
     * A click on the submit button. A hidden or disabled button takes no click.
     * Otherwise every blank input is flagged and every other one unflagged; with
     * a blank input the content asks to fill them in and nothing is requested;
     * otherwise the form is cleared and the URL built from the trimmed values is
     * requested.
     */
    method Submit(outcome: FetchOutcome)
      modifies this
      ensures !old(Clickable()) ==>
                inputs == old(inputs) && content == old(content) && contentHidden == old(contentHidden) &&
                requests == old(requests) && submitHidden == old(submitHidden) && note == old(note) &&
                endpoint == old(endpoint) && endpointHidden == old(endpointHidden) && spinnerHidden == old(spinnerHidden)
      ensures old(Clickable()) && !AllFilled(old(inputs)) ==>
                inputs == Flagged(old(inputs)) && content == Text(FillInMessage) && !contentHidden &&
                requests == old(requests) && submitHidden == old(submitHidden) && note == old(note) &&
                endpoint == old(endpoint) && endpointHidden == old(endpointHidden) && spinnerHidden == old(spinnerHidden)
      ensures old(Clickable()) && AllFilled(old(inputs)) ==>
                inputs == [] && note == None && submitHidden &&
                requests == old(requests) + [SubmitUrl(origin, apiPath, FilledPairs(old(inputs)))] &&
                content == ShownContent(apiName, outcome) && spinnerHidden && !contentHidden
      ensures old(Clickable()) && AllFilled(old(inputs)) && Thrown(outcome).None? ==>
                endpoint == SubmitUrl(origin, apiPath, FilledPairs(old(inputs))) && !endpointHidden
      ensures old(Clickable()) && AllFilled(old(inputs)) && Thrown(outcome).Some? ==>
                endpoint == old(endpoint) && endpointHidden == old(endpointHidden)
      ensures heading == old(heading) && desc == old(desc) && apiPath == old(apiPath) && apiName == old(apiName)
      ensures submitDisabled == old(submitDisabled)
    {
      if !Clickable() {
        return;
      }
      var flagged, isValid, newParams := ScanInputs(inputs);
      inputs := flagged;
      if !isValid {
        content, contentHidden := Text(FillInMessage), false;
        return;
      }
      SendForm(newParams, outcome);
    }

    /** The valid branch of the submit handler: clear and hide the form, then request the URL with the pairs. */
    method SendForm(pairs: Pairs, outcome: FetchOutcome)
      modifies this
      ensures inputs == [] && note == None && submitHidden
      ensures requests == old(requests) + [SubmitUrl(origin, apiPath, pairs)]
      ensures content == ShownContent(apiName, outcome) && spinnerHidden && !contentHidden
      ensures Thrown(outcome).None? ==> endpoint == SubmitUrl(origin, apiPath, pairs) && !endpointHidden
      ensures Thrown(outcome).Some? ==> endpoint == old(endpoint) && endpointHidden == old(endpointHidden)
      ensures heading == old(heading) && desc == old(desc) && apiPath == old(apiPath) && apiName == old(apiName)
      ensures submitDisabled == old(submitDisabled)
    {
      var apiUrlWithParams := origin + BeforeFirst(apiPath, '?') + "?" + Serialize(pairs);
      inputs, note, submitHidden := [], None, true;
      HandleApiRequest(apiUrlWithParams, apiName, outcome);
    }
  }
}
