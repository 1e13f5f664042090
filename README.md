# YouTube New Tab Search — a Dafny model

The extension adds an "open in new tab" button next to YouTube's search box.
A click sends the background script a message with the results URL for the
trimmed query. The background script then opens that URL in a new tab right
after the tab the message came from. An options page keeps four settings in
the browser's sync storage.

This project models the decisions those scripts make:

- `Background` (background.js) and `EventPage` (eventPage.js): the two copies
  of the message listener and the placement rule `min(senderIndex + 1, tabCount)`.
  Browser calls are values of type `BrowserTabs.TabsCall`, in the order the
  script makes them. The tab count that `tabs.query({})` reports is a parameter.
- `Options` (options/options.js) covers the defaults, `clamp`, the record
  `persistFromUI` builds, the merge in `loadOptions`, and what the page shows
  for stored values. The page is the class `Options.OptionsPage`; its fields
  are the page's inputs. Sync storage is a map from key to value.
- `ContentScript` (main.js) covers the search-element lookup, `insertAfter`,
  `addNewTabButton` and the click listener. The page is the class
  `ContentScript.Document`. Its state is held in map fields: elements, child
  lists, parents, connected nodes and click listeners.
- Supporting modules: `JsValues` (JavaScript values and truthiness),
  `JsStrings` (`trim`, `parseInt(…, 10)`, number-to-string) and `UriComponent`
  (`encodeURIComponent` and its inverse `decodeURIComponent`, per section
  19.2.6 of ECMA-262, 2022 edition). `Relay` joins the content script to the
  background script.

Strings are sequences of Unicode scalar values. JavaScript numbers are
integers or NaN; a tab's index is an integer or missing.

Facts about this code that shape the model:

- No URL is remembered between clicks: nothing de-duplicates repeated clicks or messages.
- A message carries only `url`.
- `tabs.query({})` counts the tabs of all windows.
- The fallback `tabs.create` in background.js passes only the url. It does
  not pass `active`, so the browser's default applies.
- A failed create is not retried.
- main.js has no hashtag mode and no click debounce. The saved `urlFormat`
  and `debounceMs` options are not read by any modelled script.
- A space in the query becomes `%20`, never `+` (`UriComponent.EncodeSpace`).

## Model

| member | source | states |
|---|---|---|
| `Background.NextIndex` | background.js:7-10 | The index is `min(i + 1, n)`: never above the tab count, exactly `i + 1` when that is below the count, and in `[0, n]` for `i >= 0` |
| `Background.OpenTabNextToActive` | background.js:5-13 | Queries all tabs first, then makes one create with the url at `NextIndex`; `isActive` is false when not passed |
| `Background.Decide` | background.js:17-23 | A falsy url is ignored; a truthy url with a sender tab whose index is a number is placed next to it; any other truthy url gets default placement |
| `Background.Perform` | background.js:19-22 | Ignoring makes no call. Otherwise exactly one create with the url. Placing next to the sender makes exactly two calls, the query and then an inactive create at `NextIndex`. The fallback is exactly one create carrying only the url, with neither `active` nor `index` |
| `Background.OnMessage` | background.js:16-25 | A falsy url makes no call. Any other message makes exactly one create with that url. With a numeric sender index, the calls are exactly the query and then an inactive create at `NextIndex`. Without one, the create carries only the url. No create explicitly asks for an active tab: the fallback leaves `active` to the browser's default |
| `EventPage.NextTabIndex` | eventPage.js:12-15 | The same `min(i + 1, n)` rule; a NaN index stays NaN |
| `EventPage.OpenTabRightNextToActiveTab` | eventPage.js:4-19 | An undefined `isActive` becomes false; one query, then one create at `NextTabIndex` |
| `EventPage.OnMessage` | eventPage.js:21-24 | Throws exactly when the sender or its tab is missing. Otherwise it makes exactly two calls: one query, then one inactive create with the request's url, whatever that url is, at `NextTabIndex` of the sender's index (NaN when that index is missing) |
| `EventPage.IndexValue` | eventPage.js:23 | `sender.tab.index` read as a number: NaN exactly when the index is missing, the index itself otherwise |
| `EventPage.NextTabIndexAgrees` | eventPage.js:12-15 | For every integer index and tab count, the two files' index rules agree |
| `EventPage.ListenersAgree` | eventPage.js:21-24 | Where background.js places a tab next to its sender, this listener makes the same calls. For a falsy url, when the sender has a tab, it still creates one tab where background.js makes none. A non-numeric index gives a NaN index |
| `Options.Clamp` | options/options.js:63-66 | NaN gives the lower bound `a`, whatever `b` is. When `a <= b`, an integer lands in `[a, b]`: itself when already inside, `a` below, `b` above. When `b < a`, every integer gives `b` |
| `Options.ClampIdempotent` | options/options.js:63-66 | When `a <= b` (the call site's `0, 1000`), clamping a clamped value changes nothing |
| `Options.CheckedValueOr` | options/options.js:55 | With no checked radio, or an empty value, the fallback is used; otherwise the radio's value |
| `Options.DebounceFromSlider` | options/options.js:56 | The saved delay is always in `[0, 1000]`. An unparsable reading or 0 becomes 500. Readings in `(0, 1000]` are kept and larger ones become 1000. 0 is saved exactly when the reading is negative |
| `Options.PersistRecord` | options/options.js:54-59 | The record has a non-empty url format and tab behaviour. Each is the checked radio's value when that is non-empty, and `'search'` / `'background'` when no radio is checked or the checked one has an empty value. The delay is the slider's reading through `DebounceFromSlider`, so in `[0, 1000]`. The checkbox state is kept |
| `Options.OptionsPage.PersistFromUI` | options/options.js:53-59 | The same guarantees, read off the page's current inputs: a checked non-empty radio value is saved as it is, an unchecked group or an empty value gives the default, and the delay is `DebounceFromSlider` of the slider's text |
| `Options.ToStorage` | options/options.js:54-60 | The stored object has exactly the keys of `DEFAULT_OPTIONS` |
| `Options.SaveOptions` | options/options.js:46-51 | After `storage.sync.set`, storage holds its old keys plus the option keys. The option keys hold the record's values; every other key keeps its old value |
| `Options.StorageGet` | options/options.js:23 | `storage.sync.get(defaults)` answers exactly the asked-for keys: the stored value where there is one, the default otherwise |
| `Options.LoadedOptions` | options/options.js:23-24 | The merged options have exactly the keys of `DEFAULT_OPTIONS` |
| `Options.LoadedOptionsMerge` | options/options.js:23-24 | The merged options have exactly the default keys. A stored key overrides its default; a missing key takes its `DEFAULT_OPTIONS` value |
| `Options.SaveThenLoad` | options/options.js:46-61 | A saved record, merged over the defaults on load, comes back unchanged, whatever else storage holds |
| `Options.UrlFormatSelection` | options/options.js:26-30 | `'hashtag'` is selected only for the stored string `'hashtag'`; every other value selects `'search'` |
| `Options.TabBehaviorSelection` | options/options.js:32-36 | `'foreground'` is selected only for the stored string `'foreground'`; every other value selects `'background'` |
| `Options.OptionsPage.LoadOptions` | options/options.js:21-44 | The page shows the merged options. The radios follow the two selections, the slider and its label show the stored delay, and the checkbox shows the truthiness of `clearAfterClick` |
| `Options.OptionsPage.Show` | options/options.js:26-41 | The radios follow the two selections. The slider holds the text of the stored delay, and its label holds the same text followed by `ms`. The checkbox shows the truthiness of `clearAfterClick` |
| `Options.OptionsPage.OnRangeInput` | options/options.js:72-73 | The label shows the slider's value followed by `ms` |
| `Options.OptionsPage.constructor` | options/options.js:11-17 | The page's inputs start in the given state |
| `Options.PersistThenLoadShowsSame` | options/options.js:53-61 | Consider a page with the usual radio values and a slider reading in `(0, 1000]`. Saving it and loading it back shows the same radios, slider reading and checkbox |
| `Options.PersistWithNothingSelected` | options/options.js:55-57 | With no radio checked and an unparsable slider, the defaults `'search'`, 500 and `'background'` are saved |
| `JsStrings.Trim` | main.js:83 | The trimmed query is no longer than the input and neither starts nor ends with whitespace |
| `JsStrings.TrimIsInfix` | main.js:83 | The trimmed query is a contiguous piece of the input with only whitespace cut from either side |
| `JsStrings.TrimEmptyIffBlank` | main.js:83-84 | The query trims to empty exactly when it is all whitespace |
| `JsStrings.TrimIdempotent` | main.js:83 | Trimming twice is trimming once |
| `JsStrings.NatToDecimal` | options/options.js:38-39 | The number's decimal form is non-empty, all digits, without leading zeros, and denotes the number |
| `JsStrings.ParseInt` | options/options.js:56 | NaN exactly when no digit follows the leading whitespace and the optional sign. A negative result needs a leading `-`, and without one the result is not negative |
| `JsStrings.ParseIntReadsLeadingNumeral` | options/options.js:56 | Whitespace, at most one sign, digits, then anything that does not start with a digit: the result is the digits' value, negated after `-`. What follows the digits is ignored |
| `JsStrings.ParseIntSkipsPadding` | options/options.js:56 | Leading whitespace does not change the result |
| `JsStrings.IntToDecimal` | options/options.js:38-39 | The text of an integer starts with `-` exactly when it is negative. The rest is non-empty, all digits, has no leading zero and denotes the magnitude |
| `JsStrings.ToJsString` | options/options.js:38-39 | The text of a number reads back to that number through `parseInt`, NaN included. The text is empty only for the empty string |
| `JsStrings.ParseIntOfDecimal` | options/options.js:56 | `parseInt` reads back the decimal text of every integer, so `parseInt(String(n), 10)` is `n` wherever `String(n)` is that text |
| `UriComponent.Encode` | main.js:85 | The encoding is at least as long as the query and at most twelve times as long. A query made only of unreserved characters is left as it is |
| `UriComponent.Decode` | main.js:85 | A decoded text is never longer than its input. Text without `%` decodes to itself |
| `UriComponent.DecodeEncode` | main.js:85 | Decoding the encoded query gives back the query |
| `UriComponent.EncodeInjective` | main.js:85 | Different queries never encode to the same text |
| `UriComponent.EncodeIsEncodedForm` | main.js:85 | The encoding consists of unreserved characters and `%XY` escapes with upper-case hex digits |
| `UriComponent.EncodeHasNoDelimiters` | main.js:85 | The encoding holds only letters, digits, `- _ . ! ~ * ' ( )` and `%`. So it has no space, `&`, `#`, `=`, `+`, `?` or `/` |
| `UriComponent.EncodeSpace` | main.js:85 | Every space in the query becomes `%20` (never `+`), wherever it stands |
| `UriComponent.EncodeAppend` | main.js:85 | The query is encoded character by character: encoding distributes over concatenation |
| `ContentScript.ResultsUrl` | main.js:83-85 | No URL exactly when the query is all whitespace. Otherwise the URL is the fixed results prefix followed by text that decodes to the trimmed query and holds only unreserved characters and `%` |
| `ContentScript.PrefixedEncoding` | main.js:85 | For any search term, the URL starts with the results prefix, the rest decodes back to the term, and that rest holds only unreserved characters and `%` |
| `ContentScript.ListenerMessages` | main.js:77-91 | A listener sends at most one message. It sends one exactly when it found a search input whose text is not blank. That message carries only the results URL |
| `ContentScript.Dispatch` | main.js:77-91 | One click sends at most one message per listener. A single listener sends exactly its own `ListenerMessages` |
| `ContentScript.DispatchAppend` | main.js:77-91 | Listeners added earlier send their messages first: a click on the concatenation of two listener lists sends the first list's messages, then the second's |
| `ContentScript.OneMessagePerListener` | main.js:77 | Suppose k listeners all read the same search input and its text is not blank. Then one click sends k messages, all equal |
| `ContentScript.InsertedAfter` | main.js:103 | The new node lands right after the reference. Taking it out gives back the old child list, so the other children keep their order |
| `ContentScript.InsertedAfterMembers` | main.js:103 | The new child list holds only the old children and the inserted node |
| `ContentScript.InsertedAfterDistinct` | main.js:103 | Inserting a node that is not yet a child keeps the child list free of repeats |
| `ContentScript.InsertKeepsValid` | main.js:103 | Inserting a detached, childless node after a node that has a parent keeps the document consistent: parent and child lists agree, and connectedness follows the parents |
| `ContentScript.Document.InsertAfter` | main.js:98-104 | Without a reference node, or when the reference has no parent, nothing changes. Otherwise the node joins the reference's parent right after the reference. It is connected exactly when that parent is |
| `ContentScript.Document.QuerySelector` | main.js:32-33 | Returns a connected matching element, or nothing exactly when there is none |
| `ContentScript.Document.FindSearchButton` | main.js:9-12 | Returns the first of `#search-icon-legacy`, `#search-btn` and `input[name="search_query"]` that finds something; nothing when none does |
| `ContentScript.Document.CreateElement` | main.js:36 | A new element with a fresh identity, in no child list and not connected |
| `ContentScript.Document.AttachAfter` | main.js:103 | The node joins the reference's parent right after the reference, and it is connected exactly when that parent is. Everything else stays as it was, and the document stays consistent |
| `ContentScript.Document.CreateNewTabButton` | main.js:36-65 | A new div with id `button-newTab` goes right after the search element when that element has a parent. Otherwise the div stays detached |
| `ContentScript.Document.AddClickListener` | main.js:77 | The element gets one more click listener; no other element's listeners change |
| `ContentScript.Document.UseOrCreateButton` | main.js:32-66 | The result is placed as `ButtonPlaced` states. It has id `button-newTab`. A connected button found by the id lookup is kept and the document does not change. Otherwise a new div is created; with a parent for the search element it joins that parent's children right after it and is connected exactly when the parent is, and without one it stays detached and nothing else changes. With a connected parent, the id lookup finds a button afterwards. Click listeners are untouched |
| `ContentScript.Document.AddNewTabButton` | main.js:25-95 | Without a search element nothing changes. Otherwise the result has id `button-newTab`. A connected one is reused and the document does not change. When none exists, a new one is created and inserted as `UseOrCreateButton` states, with the whole new state given. Each call adds one more click listener, as `ListenerAdded` states: bound to the search input found during that call, and no other element's listeners change. A button that found a connected parent is connected afterwards, so later calls create no second button |
| `ContentScript.Document.Click` | main.js:77-91 | A click on an element sends at most as many messages as it has listeners |
| `ContentScript.Document.PollForSearchButtonTick` | main.js:9-17 | The search element is the first of the three lookups that finds something, in the page as it was. The poll stops, returning the button, exactly when there is one. Until then the page is unchanged. Once found, the page changes exactly as `AddNewTabButton` states for that element, through the same `ButtonPlaced` and `ListenerAdded` predicates: the button is reused or created and inserted, with the whole new state given. The button then has id `button-newTab` and one more click listener bound to the search input found in that tick, and no other element's listeners change |
| `Relay.ClickOpensOneTabNextToSender` | main.js:83-86 | A click that sends a message, from a sender tab with a numeric index as every content-script message has, makes background.js open exactly one tab: inactive, right after the sender (or at the end), with a URL whose query decodes to the trimmed search text |

## Left out

- The browser APIs (`tabs.query`, `tabs.create`, `runtime.onMessage`, `runtime.sendMessage`, `storage.sync`) are not executed. Their calls are values, and the tab count is a parameter.
- Timers and polling loops are not modelled: the 50 ms search poll (main.js:8-21), the 500 ms URL poll and `currentUrl` (main.js:106-115), and the 300 ms save delay with `saveTimer` (options/options.js:19, 72-79). `PollForSearchButtonTick` models one tick's body.
- Event wiring (options/options.js:68-70, 81-101) and the storage change listener are not modelled; they only call the modelled operations.
- Async/await, and the `catch` blocks that swallow storage errors, are not modelled. A failed read or write is not modelled.
- Styling, the SVG `innerHTML`, the `aria-label`, the mousedown/mouseup listeners and console logging in main.js are left out; none of them affects the logic.
- `Options.OptionsPage.LoadOptions`: the browser's sanitisation of a range input's value (clamping to its min/max and step) is not modelled. The slider holds the string assigned to it.
- options.html is not part of this model. The radios are assumed to carry the values `search`, `hashtag`, `background` and `foreground`.
- `ContentScript.Document.QuerySelector`: returns some connected match rather than the first in tree order. The two agree when at most one connected element matches.
- `ContentScript.Document.InsertAfter`: requires the new node to be detached and childless, as the freshly created button always is. Moving an attached node and `HierarchyRequestError` are not modelled.
- `ContentScript.Document.AddNewTabButton`: its `try`/`catch` is not modelled, since nothing on the modelled path throws.
- JavaScript numbers other than integers and NaN (fractions, infinities, a distinct `-0`) are not modelled. A non-numeric `sender.tab.index` is read as `undefined`.
- `BrowserTabs.Tab`: its index is an integer or missing, so a NaN `sender.tab.index` (of type "number", which background.js:18 accepts) is not representable.
- `JsStrings.IntToDecimal`: integers are unbounded, so the exponent form `Number::toString` uses from `10^21` and the rounding of integers above `2^53` are not modelled.
- `JsStrings.ParseIntOfDecimal`: carries over to JavaScript only below `10^21` in magnitude. From there `String` writes exponent form, which `parseInt` reads only up to the `e`. An integer above `2^53` need not be a JavaScript number at all.
- Message properties other than `url`, and a `url` that is an object, are not modelled.
- The whitespace set of `trim` and `parseInt` lists the Unicode 15 space separators.
