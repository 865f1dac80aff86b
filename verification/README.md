# webex-js-sdk: service URIs, HTML allow-listing and namespaced storage

A Dafny model of three self-contained pieces of the Webex JavaScript SDK,
with proofs of what each promises.

- **Service interceptor** (`ServiceInterceptor`, `service_interceptor.dfy`).
  Before a request goes out, a descriptor without a `uri` has its legacy
  `api` property folded into `service`, is checked for `resource` and then
  `service`, and gets `uri` set to the service's base URL from the service
  catalog joined with the resource. The catalog is a map from service name to
  base URL; a name it lacks is an unknown service.
- **HTML sanitiser** (`HtmlFilter`, `html_filter.dfy`; `HtmlStyle`,
  `html_style.dfy`). `filterSync` and `filterEscapeSync` rewrite the parsed
  document bottom-up against an allow-list of tags (each with its allowed
  attributes) and of style properties. The document is a tree of `Text`,
  `Other` and `Element` nodes. Disallowed elements are unwrapped, or in the
  escape mode replaced by `<name>`/`</name>` text markers around their
  children. Attributes not on the tag's list go, script URLs in `href`/`src`
  unwrap their element, and `style` values are filtered declaration by
  declaration.
- **localforage storage adapter** (`LocalForage`, `local_forage.dfy`). `bind`
  validates its arguments and returns a binding to a namespace; the binding's
  `get`, `put`, `del` and `clear` act on one store shared by every namespace.
  The store is a map, and every call is one atomic step over it. `put`,
  `del` and `clear` return the new store. `get` returns only its result, so
  it cannot change the store.

`Strings` (`strings.dfy`) holds the JavaScript string primitives the code
uses: the `\s` class, `toLowerCase`, `indexOf`, `split`, `join` and
`String.prototype.trim`. `JsValues` (`js_values.dfy`) holds `Option` (an
absent property or argument is `None`) and `Result` (a settled call).

Behaviour worth noting:

- The base URL and the resource each lose **at most one** slash, because the
  pattern `/(?:^\/)|(?:\/$)/` has no `g` flag. The leading slash goes if there
  is one, otherwise a trailing one. So `"/path/"` becomes `"path/"`, and
  joining `"https://svc.example.com/"` with `"/path/"` gives
  `"https://svc.example.com/path/"`
  (`GenerateUriKeepsSecondSlash`).
- A truthy `api` is deleted even when `service` is already set; it is only
  copied into `service` when `service` is falsy.
- `onRequest` normalises the caller's own descriptor before validating it,
  so even a call that throws or rejects leaves `api` folded into `service`
  (`CallerDescriptor`, `FailedCallStillNormalizes`).
- Filter mode checks `href`/`src` values after the native `trim()` and
  lower-casing. Escape mode only lower-cases, so `" javascript:..."` passes
  escape mode (`ScriptUrlModesDiffer`).
- The sanitiser's own `trim` (used for style names) removes only one
  whitespace character from each end (`TrimDropsOnlyOne`).

## Model

| member | source | states |
|---|---|---|
| `ServiceInterceptor.StripSlash` | packages/@webex/webex-core/src/lib/services/interceptors/service.js:7 | at most one slash goes; the leading one wins over a trailing one; the string is unchanged exactly when it has no slash at either end |
| `ServiceInterceptor.GenerateUri` | packages/@webex/webex-core/src/lib/services/interceptors/service.js:62-67 | the composed uri is never empty, so a resolved descriptor is truthy in `uri` |
| `ServiceInterceptor.GenerateUriPlain` | packages/@webex/webex-core/src/lib/services/interceptors/service.js:62-67 | with no slash at the ends of either input, the uri is base + "/" + resource |
| `ServiceInterceptor.GenerateUriDefaultResource` | packages/@webex/webex-core/src/lib/services/interceptors/service.js:62 | an absent resource defaults to "", giving the stripped base followed by "/" |
| `ServiceInterceptor.GenerateUriExample` | packages/@webex/webex-core/src/lib/services/interceptors/service.js:62-67 | "https://example.com/api/" joined with "/widgets/7" is "https://example.com/api/widgets/7" |
| `ServiceInterceptor.GenerateUriKeepsSecondSlash` | packages/@webex/webex-core/src/lib/services/interceptors/service.js:63-64 | "/path/" keeps its trailing slash: the join with "https://svc.example.com/" ends in "path/" |
| `ServiceInterceptor.Normalize` | packages/@webex/webex-core/src/lib/services/interceptors/service.js:75-82 | a truthy `api` is removed and `service` becomes the old `service` if truthy, else `api`; a falsy `api` changes nothing; `uri`, `resource` and other properties are kept |
| `ServiceInterceptor.Validate` | packages/@webex/webex-core/src/lib/services/interceptors/service.js:90-98 | passes iff `resource` and `service` are both truthy; a falsy `resource` throws the resource error, otherwise a falsy `service` throws the service error |
| `ServiceInterceptor.OnRequest` | packages/@webex/webex-core/src/lib/services/interceptors/service.js:27-52 | succeeds iff `uri` is truthy or the normalised descriptor is valid and its service is catalogued; a truthy `uri` returns the descriptor as is; a falsy `resource` throws; success yields the normalised descriptor with only `uri` set; a rejection means a valid descriptor whose service the catalog lacks, with the unknown-service message |
| `ServiceInterceptor.CallerDescriptor` | packages/@webex/webex-core/src/lib/services/interceptors/service.js:33-51 | the caller's object after the call, whatever the outcome: untouched on the `uri` shortcut; otherwise every property but `uri` is that of the normalised descriptor, and `uri` is set exactly when the call succeeds |
| `ServiceInterceptor.FailedCallStillNormalizes` | packages/@webex/webex-core/src/lib/services/interceptors/service.js:33-51 | every call without a `uri` that throws or rejects still leaves the caller with the normalised descriptor: a truthy `api` is gone and held in `service`; a missing `resource` is one such throw |
| `ServiceInterceptor.UriShortcut` | packages/@webex/webex-core/src/lib/services/interceptors/service.js:29-31 | a descriptor with a truthy `uri` comes back unchanged whatever the catalog |
| `ServiceInterceptor.CatalogNotConsultedWhenInvalid` | packages/@webex/webex-core/src/lib/services/interceptors/service.js:33-42 | a descriptor failing validation throws the same error under any two catalogs |
| `ServiceInterceptor.ResourceCheckedFirst` | packages/@webex/webex-core/src/lib/services/interceptors/service.js:90-98 | a descriptor missing both `resource` and `service` reports the `resource` error |
| `ServiceInterceptor.UnknownServiceRejects` | packages/@webex/webex-core/src/lib/services/interceptors/service.js:48-51 | an uncatalogued service rejects with "service-interceptor: '<name>' is not a known service", which quotes the name at a fixed offset |
| `ServiceInterceptor.OnRequestIdempotent` | packages/@webex/webex-core/src/lib/services/interceptors/service.js:29-47 | feeding a resolved descriptor back in returns it unchanged, whatever the catalog |
| `ServiceInterceptor.ResolveExample` | packages/@webex/webex-core/src/lib/services/interceptors/service.js:27-52 | with "example" catalogued at "https://example.com/api/", resource "/widgets/7" resolves to "https://example.com/api/widgets/7" |
| `LocalForage.Bind` | packages/@webex/storage-adapter-local-forage/src/index.js:130-143 | succeeds iff the namespace is truthy and a logger is given, binding that namespace; a falsy namespace is reported before a missing logger |
| `LocalForage.StoreKey` | packages/@webex/storage-adapter-local-forage/src/index.js:79 | the store key is the namespace, one "/", then the key |
| `LocalForage.Del` | packages/@webex/storage-adapter-local-forage/src/index.js:59-65 | the prefixed key is gone and every other entry is unchanged |
| `LocalForage.Put` | packages/@webex/storage-adapter-local-forage/src/index.js:111-120 | a defined value is stored at the prefixed key, `undefined` removes it, and every other entry is unchanged |
| `LocalForage.Clear` | packages/@webex/storage-adapter-local-forage/src/index.js:43-47 | the whole store is emptied |
| `LocalForage.Get` | packages/@webex/storage-adapter-local-forage/src/index.js:78-102 | `get` itself carries no contract; `GetIsLookup`, `GetStoredNull`, `GetAfterPut` and `GetAfterDel` characterise it |
| `LocalForage.GetIsLookup` | packages/@webex/storage-adapter-local-forage/src/index.js:78-102 | the `getItem`-then-`keys` lookup equals a plain map lookup: the stored value if present, else `NotFoundError("No value found for <ns>/<key>")` |
| `LocalForage.GetStoredNull` | packages/@webex/storage-adapter-local-forage/src/index.js:85-93 | a stored `null` is returned as `null`, not reported missing |
| `LocalForage.PutUndefinedIsDel` | packages/@webex/storage-adapter-local-forage/src/index.js:111-114 | `put(key, undefined)` is `del(key)` |
| `LocalForage.GetAfterPut` | packages/@webex/storage-adapter-local-forage/src/index.js:78-120 | after `put(key, v)` with `v` defined, `null` included, `get(key)` yields `v` |
| `LocalForage.GetAfterDel` | packages/@webex/storage-adapter-local-forage/src/index.js:59-96 | after `del(key)`, `get(key)` rejects with `NotFoundError` |
| `LocalForage.PutFrame` | packages/@webex/storage-adapter-local-forage/src/index.js:111-120 | a `put` leaves `get` unchanged for every other store key, through any binding |
| `LocalForage.NamespacesCollide` | packages/@webex/storage-adapter-local-forage/src/index.js:115-119 | namespaces are not isolated: ("a/b", "c") and ("a", "b/c") share a store key |
| `LocalForage.ClearEmptiesAllNamespaces` | packages/@webex/storage-adapter-local-forage/src/index.js:43-47 | after `clear` through one binding, `get` through any binding reports the key missing |
| `Strings.IsSpace` | packages/@webex/helper-html/src/html.shim.js:274 | the `\s` class, ECMAScript WhiteSpace plus LineTerminator, that both trims remove; `Trim` and `StripAll` are stated over it |
| `Strings.IndexOf` | packages/@webex/helper-html/src/html.shim.js:88 | -1 iff there is no occurrence, otherwise the first position where the pattern occurs |
| `Strings.IndexOfZeroIsPrefix` | packages/@webex/helper-html/src/html.shim.js:122 | `indexOf(p) === 0` iff the string starts with `p` |
| `Strings.Lower` | packages/@webex/helper-html/src/html.shim.js:104 | same length, no ASCII capital left, each capital replaced by the same letter in lower case, every other character kept in place |
| `Strings.LowerIdempotent` | packages/@webex/helper-html/src/html.shim.js:104 | lower-casing twice is lower-casing once |
| `Strings.LowerFixesIff` | packages/@webex/helper-html/src/html.shim.js:104 | lower-casing leaves a string unchanged exactly when it holds no ASCII capital |
| `Strings.Split` | packages/@webex/helper-html/src/html.shim.js:131 | at least one piece, no piece holds the separator, and joining the pieces gives back the input |
| `Strings.Join` | packages/@webex/helper-html/src/html.shim.js:142 | `join(';')` carries no contract of its own; `Split` (which joins back to its input) and `SplitJoin` characterise it |
| `Strings.SplitJoin` | packages/@webex/helper-html/src/html.shim.js:131-142 | splitting a join of separator-free pieces gives back the pieces |
| `Strings.StripAll` | packages/@webex/helper-html/src/html.shim.js:117 | native `trim()`: the result is the input's middle slice, everything removed before and after it is whitespace, and its own first and last characters are not |
| `HtmlStyle.Trim` | packages/@webex/helper-html/src/html.shim.js:274-282 | the result is a contiguous slice of the input, short by at most one character at each end, each removed character being whitespace |
| `HtmlStyle.TrimDropsOnlyOne` | packages/@webex/helper-html/src/html.shim.js:274 | "  color " trims to " color": only one blank goes from the front |
| `HtmlStyle.StyleName` | packages/@webex/helper-html/src/html.shim.js:133 | the text before the first `:`, trimmed; `StyleNameBeforeColon` characterises it |
| `HtmlStyle.StyleNameBeforeColon` | packages/@webex/helper-html/src/html.shim.js:133 | for `name:rest` with no colon in `name`, the style name is `trim(name)`; a declaration without a colon is its own trimmed name |
| `HtmlStyle.Keep` | packages/@webex/helper-html/src/html.shim.js:134-141 | a declaration survives iff it is non-empty and its name is allowed; `KeepDecls` and `KeepDeclsSingle` state the consequences |
| `HtmlStyle.KeepDecls` | packages/@webex/helper-html/src/html.shim.js:132-141 | every kept declaration is non-empty, has an allowed trimmed name and comes from the input; every such input declaration is kept |
| `HtmlStyle.KeepDeclsAppend` | packages/@webex/helper-html/src/html.shim.js:131-142 | filtering distributes over concatenation, so kept declarations keep their original order and multiplicity |
| `HtmlStyle.KeepDeclsSingle` | packages/@webex/helper-html/src/html.shim.js:134-141 | a single declaration is kept exactly once if it survives, otherwise dropped |
| `HtmlStyle.FilterStyle` | packages/@webex/helper-html/src/html.shim.js:126-145 | the new value splits back into exactly the kept declarations, verbatim and in order, and is "" when none is kept |
| `HtmlStyle.FilterStyleIdempotent` | packages/@webex/helper-html/src/html.shim.js:126-145 | filtering a style value twice equals filtering it once |
| `HtmlFilter.RewriteAttrs` | packages/@webex/helper-html/src/html.shim.js:110-146 | every attribute left is on the tag's list; every allowed non-`style` attribute survives unchanged and every other survivor comes unchanged from the input; an allowed `style` survives as `FilterStyle` of its value, and every `style` left is a fixed point of the style filter; order and multiplicity are carried by `RewriteAttrsAppend` and `RewriteAttrsSingle` |
| `HtmlFilter.RewriteAttrsAppend` | packages/@webex/helper-html/src/html.shim.js:110-146 | the rewrite distributes over concatenation, so surviving attributes keep their input order and count |
| `HtmlFilter.RewriteAttrsSingle` | packages/@webex/helper-html/src/html.shim.js:112-146 | one attribute is dropped when not on the tag's list, replaced by its filtered value when it is `style`, and kept unchanged otherwise |
| `HtmlFilter.IsElement` | packages/@webex/helper-html/src/html.shim.js:326-344 | `isElement` holds exactly of element nodes; `NonElementUntouched` uses it |
| `HtmlFilter.IsScriptUrl` | packages/@webex/helper-html/src/html.shim.js:116-124 | the script-scheme test; `ScriptUrlIsPrefix` and `ScriptUrlModesDiffer` characterise it |
| `HtmlFilter.Unwraps` | packages/@webex/helper-html/src/html.shim.js:112-124 | some allowed `href`/`src` attribute holds a script URL; `ScriptUrlUnwraps` and `AllowedElementKept` state its effect |
| `HtmlFilter.FilterNode` | packages/@webex/helper-html/src/html.shim.js:99-151 | `filterNode` carries no contract of its own; `NonElementUntouched`, `DisallowedUnwrapped`, `DisallowedEscaped`, `ScriptUrlUnwraps`, `AllowedElementKept`, `FilterNodeClean`, `FilterNodeFixesClean` and `FilterNodeLeaves` characterise it |
| `HtmlFilter.FilterList` | packages/@webex/helper-html/src/html.shim.js:315-319 | the rewrite of a sibling list carries no contract of its own; `DepthFirstForEach`, `FilterListClean`, `FilterListFixesClean`, `FilterIdempotent` and `FilterListLeaves` characterise it |
| `HtmlFilter.ScriptUrlIsPrefix` | packages/@webex/helper-html/src/html.shim.js:116-124 | the script test is "the (trimmed, for filter mode) lower-cased value starts with `javascript:` or `vbscript:`" |
| `HtmlFilter.ScriptUrlModesDiffer` | packages/@webex/helper-html/src/html.shim.js:117-122 | " JavaScript:x" is a script URL for filter mode but not for escape mode |
| `HtmlFilter.NonElementUntouched` | packages/@webex/helper-html/src/html.shim.js:99-102 | a non-element node stays in place, unchanged |
| `HtmlFilter.DisallowedUnwrapped` | packages/@webex/helper-html/src/html.shim.js:148-150 | in filter mode a disallowed element is replaced in place by its filtered children |
| `HtmlFilter.DisallowedEscaped` | packages/@webex/helper-html/src/html.shim.js:250-272 | in escape mode a disallowed element becomes Text("<name>"), its filtered children, Text("</name>") |
| `HtmlFilter.ScriptUrlUnwraps` | packages/@webex/helper-html/src/html.shim.js:116-124 | an allowed element with an allowed script `href`/`src` is replaced by its filtered children |
| `HtmlFilter.AllowedElementKept` | packages/@webex/helper-html/src/html.shim.js:104-146 | any other allowed element keeps its name, with rewritten attributes and filtered children |
| `HtmlFilter.DepthFirstForEach` | packages/@webex/helper-html/src/html.shim.js:315-319 | visiting the live child list right to left and splicing each replacement in place gives the filtered list; no spliced-in node is visited again |
| `HtmlFilter.FilterNodeClean` | packages/@webex/helper-html/src/html.shim.js:99-151 | the nodes replacing any node satisfy the allow-list |
| `HtmlFilter.FilterListClean` | packages/@webex/helper-html/src/html.shim.js:99-151 | after filtering, in either mode, every element has an allowed lower-cased tag, only attributes allowed for it, no allowed `href`/`src` that the mode's own script test flags, and filtered `style` values |
| `HtmlFilter.FilterNodeFixesClean` | packages/@webex/helper-html/src/html.shim.js:99-151 | a node that already satisfies the allow-list is left as it is |
| `HtmlFilter.FilterListFixesClean` | packages/@webex/helper-html/src/html.shim.js:99-151 | a list that already satisfies the allow-list is left as it is |
| `HtmlFilter.FilterIdempotent` | packages/@webex/helper-html/src/html.shim.js:99-151 | filtering twice equals filtering once, in both modes |
| `HtmlFilter.FilterNodeLeaves` | packages/@webex/helper-html/src/html.shim.js:99-151 | the non-element nodes of a node's replacement are its own, plus escape markers for disallowed elements |
| `HtmlFilter.FilterListLeaves` | packages/@webex/helper-html/src/html.shim.js:99-151 | the same for a whole sibling list |
| `HtmlFilter.FilterPreservesText` | packages/@webex/helper-html/src/html.shim.js:99-107 | filter mode keeps the in-order sequence of text and other non-element nodes unchanged |
| `HtmlFilter.EscapePreservesText` | packages/@webex/helper-html/src/html.shim.js:201-272 | escape mode keeps every non-element node in order and adds the two markers around each disallowed element's contents |
| `HtmlFilter.Sanitize` | packages/@webex/helper-html/src/html.shim.js:74-92 | an absent `html` is a TypeError; "" is returned unchanged; a non-empty `html` fails iff `allowedTags` or `allowedStyles` is missing; otherwise it succeeds with the serialised filtered body, wrapped in `<body>` iff `html.indexOf('body') === 1` |
| `HtmlFilter.WrapsInBody` | packages/@webex/helper-html/src/html.shim.js:88 | the `html.indexOf('body') === 1` test; `WrapsInBodyIff` characterises it and `Sanitize` uses it |
| `HtmlFilter.WrapsInBodyIff` | packages/@webex/helper-html/src/html.shim.js:88-92 | the body wrapping happens iff "body" sits at position 1 (which rules out an occurrence at position 0) |

## Left out

- `oneFlight` on `get` and `del`: it deduplicates concurrent calls, and each call here is one sequential, atomic step.
- The logger calls of the storage adapter and localforage's asynchrony. The logger is assumed to provide `info` (called by `bind`) and `debug` (called by every other operation); only its presence, which `bind` checks, is modelled.
- Parsing markup (`DOMParser`) and serialising it (`innerHTML`). They are parameters of `HtmlFilter.Sanitize`.
- The callback passed to the sanitiser: it is the identity here.
- The `removeNode` fallbacks for old browsers, the Promise wrappers `_filter` and `_filterEscape`, and the `curry` exports. Only the synchronous transform is modelled.
- `escape` and `escapeSync`, re-exported from `html-base`, which is not part of this model.
- `Strings.Lower`: lower-cases ASCII letters only, not the full Unicode mapping of `toLowerCase`. The only non-ASCII characters whose lower case contains an ASCII letter are U+0130 and U+212A (KELVIN SIGN), and neither can complete `javascript:` or `vbscript:`, so the script test gives the same answer. Tag names outside ASCII may be matched differently.
- Descriptor properties and stored values are strings or absent. Other JavaScript values (numbers, objects), and the truthiness rules for them, are not modelled.
- The `Interceptor` base class and the request pipeline around it: `@webex/http-core` is not part of this model. The catalog's `waitForService` is modelled as a map lookup; a lookup that fails for any reason counts as an unknown service.
- `listAttributeNames` and DOM attribute storage: an element's attributes are a sequence of name/value pairs. A DOM element never holds two attributes of the same name; the model does not impose this, since `parse` is a free parameter, and its contracts hold for any sequence.
- `HtmlFilter.Sanitize`: string positions are Unicode code points, while JavaScript's `indexOf` counts UTF-16 code units. A character outside the Basic Multilingual Plane before "body" (as in `"\U{1F600}body"`) therefore changes the `<body>` wrap decision: the model wraps and the code does not.
- `Strings.IndexOf`: returns a code-point position, not the UTF-16 code-unit position JavaScript returns. The two agree at 0, so the `javascript:`/`vbscript:` prefix test is unaffected.
- The rest of the repository: the authorization plugin and its `whileInFlight` flag, the test fixture servers, the tooling scripts and the configuration objects.
