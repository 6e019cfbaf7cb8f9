# Rest-API-V1: response envelope and endpoint explorer

A Dafny model of the two pieces of logic in Rest-API-V1 that go beyond framework wiring.

**The response envelope of the Express server (`index.js`).** A middleware counts in `global.totalreq` every request that reaches it. Requests for existing static files are answered by `express.static` before it (`index.js:17-18`), so they are not counted. It also replaces `res.json`:
- a truthy payload of type `"object"` is sent as `{ status: data.status, creator: <configured creator or "Created Using Skyzo">, ...data }`;
- anything else is sent unchanged.

JavaScript values are the datatype `Envelope.Value`. An object is the list of its own enumerable properties, in the order ECMA-262 reports them (section 10.1.11.1): array-index keys first, ascending, then the other keys in creation order. The spread is CopyDataProperties (section 7.3.25 of ECMA-262) over CreateDataPropertyOrThrow. The server is the class `Envelope.Server`, and its counter is updated in place.

**The endpoint explorer page (`api-page/script.js`).**
- Each category's item array is sorted in place by name.
- Cards are rendered with an `mb-4`/`mb-2` class.
- The search box shows the matching cards and the headers of the rows that keep one.
- A modal runs requests:
  - it builds one input per parameter of the path's query template;
  - it validates the inputs and builds the request URL on submit;
  - it shows the response, an image or an error.

The query template is parsed and serialized as `application/x-www-form-urlencoded`, following sections 5.1 and 5.2 of the WHATWG URL Standard (`UrlEncoded`). Strings are encoded with UTF-8 as in the WHATWG Encoding Standard (`Utf8`), and its decoder replaces ill-formed input. `JsText` models the string built-ins used (`toLowerCase`, `includes`, `trim`, `split`, `replace`). The catalog page and the modal are classes whose methods update their fields as the DOM handlers do.

Files:
- `wrappers.dfy`: `Option`.
- `decimal.dfy`: decimal numerals and array-index keys.
- `envelope.dfy`: `index.js`.
- `js_text.dfy`, `utf8.dfy`, `url_encoded.dfy`: the built-ins the page relies on.
- `catalog.dfy`: the catalog, the sort and the search.
- `api_modal.dfy`: the modal.

Two details of the code's behaviour:
- Parameter names keep their duplicates, because `URLSearchParams.keys()` yields every entry (`api-page/script.js:111`).
- A handler's own `status` and `creator` win over the envelope's values, because the spread comes last (`index.js:31-35`).

## Model

| member | source | states |
|---|---|---|
| Envelope.JsonArgument | rest-api-v1-main/index.js:29-40 | `null`, `undefined`, booleans, numbers and strings reach the original `json` unchanged; an object or array becomes a plain object holding the envelope's properties |
| Envelope.EnvelopeContents | rest-api-v1-main/index.js:31-35 | the envelope is a well-formed object whose keys are `status`, `creator` and the payload's own keys; each key holds the payload's value when the payload has it, otherwise the creator for `creator` and `undefined` for `status` |
| Envelope.EnvelopeOrder | rest-api-v1-main/index.js:31-35 | the envelope's non-index keys are `status`, `creator`, then the payload's other non-index keys in the payload's order |
| Envelope.StatusField | rest-api-v1-main/index.js:32-34 | the result has a `status` key holding the payload's own `status`, `undefined` when the payload has none |
| Envelope.CreatorField | rest-api-v1-main/index.js:33-34 | the result's `creator` is the payload's own `creator` if present, else the configured creator if truthy, else `"Created Using Skyzo"` |
| Envelope.PayloadFieldsKept | rest-api-v1-main/index.js:31-35 | every payload key is in the result with its value, and the result has no key besides `status`, `creator` and the payload's keys |
| Envelope.KeyOrderNoIndex | rest-api-v1-main/index.js:31-35 | for an object without array-index keys, the keys are exactly `status`, `creator`, then the payload's keys other than those two, in the payload's order |
| Envelope.WrapIdempotent | rest-api-v1-main/index.js:30-36 | wrapping an already wrapped value gives the same value: same keys, values and order |
| Envelope.ArrayPayload | rest-api-v1-main/index.js:30-35 | an array becomes a plain object holding its index keys `"0"`, `"1"`, … in order, then `status` (undefined) and `creator` |
| Envelope.CopyIntoContents | rest-api-v1-main/index.js:34 | the spread keeps the target well formed; its keys are the target's and the source's, and a source value overrides the target's |
| Envelope.CopyIntoOrder | rest-api-v1-main/index.js:34 | the spread keeps the target's non-index keys in place and appends the source's new non-index keys in source order |
| Envelope.SetFacts | rest-api-v1-main/index.js:34 | defining one property keeps the object well formed, sets that key's value, leaves every other value alone, and appends a new non-index key at the end |
| Envelope.Server.constructor | rest-api-v1-main/index.js:26 | a fresh server has the configured creator and no request count yet |
| Envelope.Server.Handle | rest-api-v1-main/index.js:26-40 | each request sets `totalreq` to its previous value (0 when unset) plus one, and sends the `JsonArgument` of the payload the handler passes |
| Decimal.NatToString | rest-api-v1-main/api-page/script.js:195 | the decimal numeral of a number is a canonical digit string (no leading zero), one digit long exactly below 10 |
| Decimal.ValueOfNatToString | rest-api-v1-main/index.js:34 | the numeral reads back as the number |
| Decimal.NatToStringOfValue | rest-api-v1-main/index.js:34 | a canonical digit string is the numeral of its value |
| Decimal.NatToStringInjective | rest-api-v1-main/index.js:34 | distinct numbers have distinct numerals, so array index keys are distinct |
| JsText.LowerFacts | rest-api-v1-main/api-page/script.js:60 | lower-casing keeps the length, leaves no ASCII capital, maps each capital to its small letter and leaves every other character alone |
| JsText.Includes | rest-api-v1-main/api-page/script.js:67 | `s.includes(t)` holds exactly when `t` occurs in `s` at some position |
| JsText.IncludesBounds | rest-api-v1-main/api-page/script.js:67 | every string includes `""` and itself, and nothing longer than itself |
| JsText.Trim | rest-api-v1-main/api-page/script.js:151 | a non-empty trim starts and ends with a non-whitespace character |
| JsText.TrimIsInfix | rest-api-v1-main/api-page/script.js:151 | the trim is the infix left after cutting whitespace from both ends |
| JsText.BlankIff | rest-api-v1-main/api-page/script.js:182 | a value trims to `""` exactly when every character is whitespace |
| JsText.IndexOf | rest-api-v1-main/api-page/script.js:104 | the result is the position of the first occurrence, and there is none exactly when the element does not occur |
| JsText.FirstField | rest-api-v1-main/api-page/script.js:166 | `split(c)[0]` is a `c`-free prefix, the whole string when there is no `c`, followed by the first `c` otherwise |
| JsText.SecondFieldFacts | rest-api-v1-main/api-page/script.js:104 | `split(c)[1]` is the `c`-free text after the first `c`, ending at the next `c` or the end of the string |
| JsText.ReplaceNewlines | rest-api-v1-main/api-page/script.js:138 | the result has no line feed, and a text without one is unchanged |
| JsText.ReplaceNewlinesChar | rest-api-v1-main/api-page/script.js:138 | a line feed alone becomes `<br>`, and any other character alone stays as it is |
| JsText.ReplaceNewlinesAppend | rest-api-v1-main/api-page/script.js:138 | the replacement of a concatenation is the concatenation of the replacements, so every line feed, and only a line feed, becomes `<br>` in place |
| Utf8.EncodeChar | rest-api-v1-main/api-page/script.js:166 | a character encodes to one to four bytes, to one exactly when it is ASCII |
| Utf8.DecodeEncode | rest-api-v1-main/api-page/script.js:104 | decoding the UTF-8 encoding of a string gives the string back |
| Utf8.EncodeAscii | rest-api-v1-main/api-page/script.js:166 | an ASCII string encodes byte for byte |
| Utf8.AsciiOfEncode | rest-api-v1-main/api-page/script.js:104 | only an ASCII string encodes to bytes below 0x80 |
| UrlEncoded.PercentEncodeSafe | rest-api-v1-main/api-page/script.js:166 | a percent-encoded name or value holds only unreserved bytes, `+` and `%` |
| UrlEncoded.SerializeBytesAscii | rest-api-v1-main/api-page/script.js:166 | the serialization holds only those bytes, `=` and `&`, so it is ASCII |
| UrlEncoded.HexRoundTrip | rest-api-v1-main/api-page/script.js:166 | an upper-case hex digit reads back as its value |
| UrlEncoded.ComponentRoundTrip | rest-api-v1-main/api-page/script.js:156 | a serialized name or value parses back to the string |
| UrlEncoded.PieceRoundTrip | rest-api-v1-main/api-page/script.js:156 | a serialized `name=value` parses back to the pair |
| UrlEncoded.ParseSerialize | rest-api-v1-main/api-page/script.js:147-166 | parsing the serialization of a name-value list gives the same list, in order |
| UrlEncoded.SerializeNonEmpty | rest-api-v1-main/api-page/script.js:105 | the serialization is non-empty exactly when the list is |
| UrlEncoded.ParseBytesEmpty | rest-api-v1-main/api-page/script.js:104 | a byte string parses to no pairs exactly when every byte is `&` |
| UrlEncoded.ParseEmpty | rest-api-v1-main/api-page/script.js:104-105 | a string parses to no pairs exactly when every character is `&`, the empty string included |
| Catalog.InsertPermutes | rest-api-v1-main/api-page/script.js:37 | inserting one item adds exactly that item to the multiset |
| Catalog.InsertSorted | rest-api-v1-main/api-page/script.js:37 | inserting into a name-sorted list keeps it sorted |
| Catalog.SortByNameFacts | rest-api-v1-main/api-page/script.js:37 | the sorted list is ordered by the name comparator and is a permutation of the original |
| Catalog.InsertAt | rest-api-v1-main/api-page/script.js:37 | an item lands after the items it does not sort before and ahead of those that sort after it |
| Catalog.InsertStep | rest-api-v1-main/api-page/script.js:37 | in a sorted list, the place where the backward scan stops is where the insertion puts the item |
| Catalog.SortStep | rest-api-v1-main/api-page/script.js:37 | sorting one more item splices it in where the backward scan over the sorted rest stops |
| Catalog.ShiftUp | rest-api-v1-main/api-page/script.js:37 | the items before `a[i]` that sort after it move up one place, and the scan stops behind an item it does not sort before |
| Catalog.InsertLast | rest-api-v1-main/api-page/script.js:37 | after one step, the prefix is `a[i]` spliced in where the scan stopped, and the rest of the array is untouched |
| Catalog.SortItems | rest-api-v1-main/api-page/script.js:37 | the array is sorted in place: its new contents are the stable sort of the old ones by name |
| Catalog.CategoryCards | rest-api-v1-main/api-page/script.js:38-55 | a row has one card per item |
| Catalog.CardClassSuffix | rest-api-v1-main/api-page/script.js:38-40 | every card is an `api-item`; the last card's class ends in `mb-4` and every earlier one's in `mb-2`, so a one-item row gets `mb-4` |
| Catalog.EmptyTermMatches | rest-api-v1-main/api-page/script.js:60-67 | the empty search term matches every card |
| Catalog.CountShownPositive | rest-api-v1-main/api-page/script.js:72-73 | the count of shown cards in a row is non-zero exactly when some card of the row is shown |
| Catalog.Category.constructor | rest-api-v1-main/api-page/script.js:36 | a category holds its name and its item array |
| Catalog.CatalogPage.constructor | rest-api-v1-main/api-page/script.js:35 | the page starts with no headers and no cards |
| Catalog.CatalogPage.AppendRow | rest-api-v1-main/api-page/script.js:54 | a header and its row of cards are appended, all shown; earlier rows are unchanged |
| Catalog.CatalogPage.AddCategory | rest-api-v1-main/api-page/script.js:36-55 | the category's items are sorted in place, then its header and the cards of the sorted items are appended as a new row, all shown; earlier rows, headers and visibility are unchanged |
| Catalog.CatalogPage.Render | rest-api-v1-main/api-page/script.js:36-56 | every category's items end sorted in place; the new header and row `p` belong to category `p`; every new card and header is shown; every earlier header, row and visibility flag is unchanged |
| Catalog.CatalogPage.RenderStep | rest-api-v1-main/api-page/script.js:36-55 | one turn of the `forEach` sorts and appends category `p` and keeps what the earlier turns produced |
| Catalog.CatalogPage.ShowMatchingCards | rest-api-v1-main/api-page/script.js:64-68 | a card is shown exactly when the term occurs in its lower-cased name or description |
| Catalog.CatalogPage.CountVisible | rest-api-v1-main/api-page/script.js:72 | the count is the number of shown cards in the header's row |
| Catalog.CatalogPage.ShowNonEmptyRows | rest-api-v1-main/api-page/script.js:70-74 | a header is shown exactly when its row still has a shown card |
| Catalog.CatalogPage.Search | rest-api-v1-main/api-page/script.js:58-75 | a card is shown exactly when the lower-cased input occurs in its lower-cased name or description, and a header exactly when some card of its row matches; a term matching nothing hides every card and header |
| ApiModal.NotOkShowsStatus | rest-api-v1-main/api-page/script.js:193-196 | a response that is not ok shows `Error: HTTP error! status: <status>`, whatever its body and type |
| ApiModal.ImageBranch | rest-api-v1-main/api-page/script.js:198-211 | an image is shown exactly for an ok, readable response whose content type starts with `image/`, and its `alt` is the endpoint name |
| ApiModal.JsonBranch | rest-api-v1-main/api-page/script.js:212-215 | an ok response with no content type, or one not starting with `image/` (case-sensitively), shows its JSON text |
| ApiModal.HasParams | rest-api-v1-main/api-page/script.js:104-105 | the form is built exactly when the parse of the query template is non-empty |
| ApiModal.InputsForFacts | rest-api-v1-main/api-page/script.js:111-128 | one input per parsed entry, in order, with duplicates kept; each has `dataset.param` set to the name, placeholder `input <name>...`, `required`, empty and unflagged, and `mb-2` on every group but the last |
| ApiModal.NoParamsIff | rest-api-v1-main/api-page/script.js:104-105 | a path gets no inputs exactly when it has no `?`, or the text between its first and second `?` is only `&` characters (e.g. `/a?`, `/a?&`) |
| ApiModal.FindByPath | rest-api-v1-main/api-page/script.js:130-132 | the result is the first item with the path, and there is none exactly when no item has it |
| ApiModal.FilledPairsFacts | rest-api-v1-main/api-page/script.js:150-158 | there is one pair per input exactly when no input is blank, and then pair `k` is input `k`'s name and trimmed value |
| ApiModal.FlaggedFacts | rest-api-v1-main/api-page/script.js:150-158 | exactly the blank inputs are flagged `is-invalid`, nothing else about an input changes, some input is flagged exactly when one is blank, and flagging is idempotent |
| ApiModal.AllFilledIff | rest-api-v1-main/api-page/script.js:182 | the inputs are valid exactly when every value holds a non-whitespace character |
| ApiModal.SerializeHasNoQuestionMark | rest-api-v1-main/api-page/script.js:166 | a serialized query holds no `?` |
| ApiModal.SubmitQueryRoundTrip | rest-api-v1-main/api-page/script.js:147-166 | the query of the submitted URL (the text after its first `?`) is the serialization of the submitted pairs, and parsing it back gives exactly those pairs, so template values never reach the request |
| ApiModal.BuildInputs | rest-api-v1-main/api-page/script.js:111-128 | the `forEach` builds exactly the form of the parameter list |
| ApiModal.ScanInputs | rest-api-v1-main/api-page/script.js:147-158 | the scan flags exactly the blank inputs, reports validity exactly when none is blank, and collects the filled pairs in input order |
| ApiModal.Modal.constructor | rest-api-v1-main/api-page/script.js:82-90 | a fresh modal has no inputs and has made no request |
| ApiModal.Modal.HandleApiRequest | rest-api-v1-main/api-page/script.js:186-225 | the URL is requested once; the content shows the error text, the image or the JSON; the endpoint is set to the URL and shown only when nothing is thrown; the spinner always ends hidden and the content always ends shown |
| ApiModal.Modal.Reset | rest-api-v1-main/api-page/script.js:92-101 | the title, description and bound endpoint are set; content, endpoint text and form are emptied; spinner, content, endpoint and submit button are hidden |
| ApiModal.Modal.ShowForm | rest-api-v1-main/api-page/script.js:107-143 | the form holds one input per parameter and the note, the submit button is shown, and nothing else changes |
| ApiModal.Modal.Open | rest-api-v1-main/api-page/script.js:80-174 | with parameters the form and its note are shown and nothing is requested; without them `origin + path` is requested at once and the endpoint is shown, holding that URL, exactly when nothing is thrown; in every other case the endpoint text is `""` |
| ApiModal.Modal.TypeInto | rest-api-v1-main/api-page/script.js:124 | typing stores the text, then the submit button is disabled exactly when some input is blank; no other field changes |
| ApiModal.Modal.ValidateInputs | rest-api-v1-main/api-page/script.js:179-184 | the submit button is disabled exactly when some input is blank after `trim`; no other field changes |
| ApiModal.Modal.Submit | rest-api-v1-main/api-page/script.js:145-171 | a hidden or disabled button takes no click and nothing changes; with a blank input, the inputs are flagged, the fill-in message is shown, nothing is requested and nothing else changes; otherwise the form is emptied and hidden, then `origin + path before '?' + '?' + serialized (name, trimmed value) pairs` is requested for the endpoint the modal was opened on; the title, the bound endpoint and the disabled flag never change |
| ApiModal.Modal.SendForm | rest-api-v1-main/api-page/script.js:166-170 | the form is emptied and hidden, then the URL with the serialized pairs is requested and its response shown |
| ApiModal.ParamsOf | rest-api-v1-main/api-page/script.js:104 | `new URLSearchParams(apiPath.split('?')[1])`: the parse of the text between the first and second `?`, empty without a `?`; characterised by `NoParamsIff` |
| ApiModal.SubmitUrl | rest-api-v1-main/api-page/script.js:166 | origin, the path before its first `?`, `?`, then the serialized pairs; its query reads back by `SubmitQueryRoundTrip` |
| ApiModal.Thrown | rest-api-v1-main/api-page/script.js:190-221 | the message the `catch` receives: the rejection's, `HTTP error! status: <n>` when not ok, or the body's read error; none on success |
| ApiModal.ShownContent | rest-api-v1-main/api-page/script.js:191-220 | the content area after a request: the error text, the image or the JSON text; characterised by `NotOkShowsStatus`, `ImageBranch` and `JsonBranch` |
| ApiModal.Flagged | rest-api-v1-main/api-page/script.js:150-158 | each input with `is-invalid` exactly when its value is blank; characterised by `FlaggedFacts` |
| ApiModal.FilledPairs | rest-api-v1-main/api-page/script.js:150-158 | the `newParams.append` calls: (name, trimmed value) of each filled input in order; characterised by `FilledPairsFacts` |
| ApiModal.NoteFor | rest-api-v1-main/api-page/script.js:130-139 | the first item with the path, if it has an `innerDesc`, gives that text with line feeds replaced by `<br>` |
| ApiModal.AllFilled | rest-api-v1-main/api-page/script.js:182 | no input is blank after `trim`; characterised by `AllFilledIff` |
| Catalog.CardMatches | rest-api-v1-main/api-page/script.js:64-67 | a card matches when the term occurs in its lower-cased name or description |
| Catalog.CardClass | rest-api-v1-main/api-page/script.js:39-40 | `col-md-6 col-lg-4 api-item` then `mb-4` on the last card and `mb-2` otherwise; characterised by `CardClassSuffix` |
| Catalog.Insert | rest-api-v1-main/api-page/script.js:37 | one insertion into a name-sorted list, behind every item it does not sort before; characterised by `InsertPermutes`, `InsertSorted` and `InsertAt` |
| Catalog.SortByName | rest-api-v1-main/api-page/script.js:37 | the stable sort by `localeCompare` of the names; characterised by `SortByNameFacts` |
| Envelope.EnvelopeProps | rest-api-v1-main/index.js:31-35 | the literal `{ status, creator, ...data }`; characterised by `EnvelopeContents` and `EnvelopeOrder` |
| Envelope.CopyInto | rest-api-v1-main/index.js:34 | the spread `...data`; characterised by `CopyIntoContents` and `CopyIntoOrder` |
| Envelope.Set | rest-api-v1-main/index.js:32-34 | defining one property on an object literal; characterised by `SetFacts` and `SetOrder` |
| Envelope.CreatorOf | rest-api-v1-main/index.js:33 | the configured creator when truthy, else `"Created Using Skyzo"`; characterised by `CreatorField` |
| UrlEncoded.Parse | rest-api-v1-main/api-page/script.js:104 | `new URLSearchParams(s)`; characterised by `ParseSerialize` and `ParseEmpty` |
| UrlEncoded.Serialize | rest-api-v1-main/api-page/script.js:105 | `params.toString()`; characterised by `ParseSerialize` and `SerializeNonEmpty` |
| JsText.Lower | rest-api-v1-main/api-page/script.js:60 | `toLowerCase` on the ASCII letters; characterised by `LowerFacts` |
| JsText.BeforeFirst | rest-api-v1-main/api-page/script.js:166 | `split(c)[0]`; characterised by `FirstField` |
| JsText.SecondField | rest-api-v1-main/api-page/script.js:104 | `split(c)[1]`, undefined without a `c`; characterised by `FirstField` and `SecondFieldFacts` |

## Left out

- The route loader (`index.js:43-60`) is left out: it reads directories and loads arbitrary route modules. It only counts `.js` files inside sub-directories into `totalRoutes`.
- Express setup, body parsers, CORS, static files, the `/` route, the 404 and 500 handlers and the `serverless` export are left out. They are library plumbing.
- Logging with `chalk` and `console` has no effect on the modelled state.
- The network is a parameter. Each request is answered by a `FetchOutcome` that the caller chooses:
  - a rejection with a message;
  - or a response whose ok flag, status, content type and readable or failing body are given.
- `response.json()`, `JSON.stringify` pretty-printing, `Blob` and object URLs are not modelled: the JSON text and the image are abstract.
- HTML templating and DOM construction are not modelled. Cards, headers and inputs are records, so the unescaped interpolation of item fields is not captured.
- The Bootstrap modal, the loading overlay's timer and the scroll handler are UI and timing, and are left out.
- Each request runs to completion when it is issued. Overlapping asynchronous submissions and handlers are not interleaved.
- JsText.Lower: only the ASCII case mapping is modelled. The full Unicode `toLowerCase` tables are not.
- Catalog.SortItems: `localeCompare` is an abstract comparator. Only the laws the sort relies on are assumed: antisymmetric sign and transitive "not after". The sort is modelled as a stable insertion sort. Stability is what ECMA-262 requires, but it is not stated as a separate lemma.
- Strings are sequences of Unicode scalar values, so lone UTF-16 surrogates cannot occur.
- Numbers are integers. Floating point, `NaN` and `-0` are not modelled.
- Only plain objects and arrays are modelled. Prototypes, getters, symbols and other object kinds are not.
- Whatever the original `json` does afterwards is not modelled. That includes `JSON.stringify` dropping `undefined` members such as an absent `status`.
- ApiModal.Modal.Open: `settings.categories.flatMap(...)` is passed in as the flattened item list `items`.
- ApiModal.Modal.Open: the submit button's disabled flag is not reset when the modal is reopened. This follows the code, which never clears it there.
