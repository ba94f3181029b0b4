# Front-end widget logic, modelled in Dafny

The repository is a set of independent React widgets. Most of each file is
rendering. This project models the plain logic four of them contain:

- **Post details** (`post_details.dfy`, module `PostDetails`). The store
  reducer handles four action types plus a fall-through. `getPost` dispatches
  `SHOW_LOADER` and one outcome action. A self-rescheduling 500 ms
  `promiseClose` timer dispatches `HIDE_LOADER` only after the fetch has
  settled. The fetch and the timer are events the caller supplies:
  `Resolve(post)`, `Reject` and `Tick`. An abort makes the fetch reject, so it
  is a `Reject`. Each `PostRequest` object records the actions it dispatched
  and the store they produce.
- **Column filter** (`column_filter.dfy`, module `ColumnFilter`). It has the
  pure list filters `getStateDropdown` and `listOfColumns`. The dropdown's
  draft is a class whose checkbox toggles add or remove an accessor. The page
  state (`useFilter`) is a class with apply, cancel and toggle.
- **URL-fragment language** (`urlencoded.dfy` and `url_lang.dfy`, modules
  `Urlencoded` and `UrlLang`). `Urlencoded` covers the
  `application/x-www-form-urlencoded` parser and serializer from section 5 of
  the WHATWG URL Standard, and `URLSearchParams` `get`/`set` from section
  6.2. `UrlLang` models `prepareUrl`, `readLangFromUrl` and `getState`.
  `useUrlState` is a class: the `lang` state, the `isInitState` flag, the
  page's fragment and the history entries pushed so far.
- **Calorie tabs** (`calories.dfy`, module `Calories`). The `activeButton`
  state, the guarded click handler and the per-table `isActive` derivation.

`wrappers.dfy` holds `Option`, which stands for `null`/`undefined`, and the
`NoDuplicates` predicate both list widgets use.

The code has no stale-response guard, and the model follows the code. A
rejected (aborted) fetch still dispatches `CLEAR_DETAILS`. In the model each
`getPost` call dispatches to its own store, so its loader is cleared by its
own timer. In the source all calls share one store. When `postId` changes,
the aborted older call's pending timer can dispatch `HIDE_LOADER` while the
newer call is still loading (see "Left out").

In the URL model, strings are their UTF-8 bytes. The fragment is the text
after `#`, already percent-encoded, as the URL stores it. No fragment and an
empty fragment are the same: `URL.hash` is `""` for both. `new
URLSearchParams(s)` drops a leading `?` of `s` before parsing. Assigning
`URL.hash` removes tabs and newlines and percent-encodes the fragment
percent-encode set. All paths below are under `src/`.

## Model

| member | source | states |
|---|---|---|
| `PostDetails.DefaultStoreIsEmpty` | src/questions-1319143/questions-1319143.tsx:38-41 | the initial store is not loading and has no details |
| `PostDetails.Reduce` | src/questions-1319143/questions-1319143.tsx:87-105 | `SET_DETAILS` sets the details to the payload; `CLEAR_DETAILS` sets them to null; neither touches the loader. `SHOW_LOADER`/`HIDE_LOADER` set the loader on/off and keep the details. Any other type returns the state unchanged |
| `PostDetails.ReduceIdempotent` | src/questions-1319143/questions-1319143.tsx:87-105 | for every store and action, applying the action twice equals applying it once |
| `PostDetails.ReduceAllAppend` | src/questions-1319143/questions-1319143.tsx:118 | dispatching the log `a + b` gives the same store as dispatching `a`, then `b` |
| `PostDetails.LoaderFollowsLastLoaderAction` | src/questions-1319143/questions-1319143.tsx:96-102 | after any log of actions, the loader flag is set by the last `SHOW_LOADER`/`HIDE_LOADER` in the log; with neither, it is the initial flag |
| `PostDetails.GetPostLogEffect` | src/questions-1319143/questions-1319143.tsx:58-82 | for every prefix of a `getPost` dispatch log, the loader is on iff `HIDE_LOADER` has not been dispatched. Once the outcome is in, the details are the fetched post, or empty after a failure |
| `PostDetails.PostRequest.Dispatch` | src/questions-1319143/questions-1319143.tsx:118 | `dispatch(a)` appends `a` to the dispatched actions and replaces the store with `reduce(store, a)`; nothing else changes |
| `PostDetails.PostRequest.Start` | src/questions-1319143/questions-1319143.tsx:55-74 | `getPost` first dispatches `SHOW_LOADER`. It raises `isRequestLoading`, and its first `promiseClose` arms the timer instead of hiding the loader |
| `PostDetails.PostRequest.PromiseClose` | src/questions-1319143/questions-1319143.tsx:62-70 | with the flag down it dispatches `HIDE_LOADER` and arms nothing; with the flag up it dispatches nothing and re-arms the timer |
| `PostDetails.PostRequest.Resolve` | src/questions-1319143/questions-1319143.tsx:75-77 | success dispatches exactly `SET_DETAILS(data)` and lowers the flag. The timer stays pending and the invariant is kept (see `Tick`) |
| `PostDetails.PostRequest.Reject` | src/questions-1319143/questions-1319143.tsx:78-81 | failure lowers the flag and dispatches exactly `CLEAR_DETAILS` |
| `PostDetails.PostRequest.Tick` | src/questions-1319143/questions-1319143.tsx:62-69 | while the fetch is pending a firing dispatches nothing and re-arms. After it settles, the next firing dispatches `HIDE_LOADER` once, after the outcome, and schedules nothing more. The invariant `Valid` holds throughout: the log is `SHOW_LOADER`, one outcome, then `HIDE_LOADER`; `HIDE_LOADER` never precedes settlement or the first firing; the store is the log applied to the starting store |
| `ColumnFilter.Without` | src/questions-1318331/questions-1318331.tsx:52-54 | the result keeps the entries of the input that are not excluded, in their original order. It is a subsequence of the input, and each entry occurs in it as often as in the input if it is not excluded, and not at all if it is |
| `ColumnFilter.WithoutNoDuplicates` | src/questions-1318331/questions-1318331.tsx:53 | filtering a duplicate-free list leaves it duplicate-free |
| `ColumnFilter.GetStateDropdown` | src/questions-1318331/questions-1318331.tsx:31-34 | the result is the accessors not in `filter`, in column order: a subsequence of the accessors, containing exactly those not in `filter` |
| `ColumnFilter.GetStateDropdownEmpty` | src/questions-1318331/questions-1318331.tsx:142 | with an empty filter it returns every accessor, `["col1", "col2"]`, which is the initial committed filter |
| `ColumnFilter.ListOfColumns` | src/questions-1318331/questions-1318331.tsx:161-163 | the result is a subsequence of the columns. Each column whose accessor is in the filter occurs in it as often as in the columns; every other column does not occur |
| `ColumnFilter.Dropdown.constructor` | src/questions-1318331/questions-1318331.tsx:45 | the draft starts equal to the committed filter |
| `ColumnFilter.Dropdown.HandleChange` | src/questions-1318331/questions-1318331.tsx:46-56 | with `flag` true, `field` is appended and earlier entries are kept. With `flag` false, every occurrence of `field` is removed and the rest stay in order |
| `ColumnFilter.Dropdown.ToggleCheckbox` | src/questions-1318331/questions-1318331.tsx:62-69 | the checkbox passes `!isChecked`, so an absent field is appended and a present one is removed. Every other entry's membership is unchanged, and a duplicate-free draft stays duplicate-free |
| `ColumnFilter.FilterPage.constructor` | src/questions-1318331/questions-1318331.tsx:141-143 | the committed filter starts as all accessors, with the dropdown hidden |
| `ColumnFilter.FilterPage.ShownColumns` | src/questions-1318331/questions-1318331.tsx:177 | the table gets, in column order, exactly the columns whose accessor is in the committed filter |
| `ColumnFilter.FilterPage.HandleToggleClick` | src/questions-1318331/questions-1318331.tsx:151 | flips the visibility, so two calls restore it. The committed filter is unchanged, so cancel only hides. Showing mounts a fresh dropdown whose draft is the committed filter |
| `ColumnFilter.FilterPage.HandleFilterUpdate` | src/questions-1318331/questions-1318331.tsx:144-150 | the committed filter becomes the given draft and the dropdown is hidden |
| `ColumnFilter.FilterPage.ApplyDraft` | src/questions-1318331/questions-1318331.tsx:77 | the save button commits the dropdown's current draft and hides the dropdown |
| `Urlencoded.DecodeEncode` | src/questions-1320212/questions-1320212.tsx:28-30 | decoding the urlencoded form of any name or value gives it back |
| `Urlencoded.ParseSerialize` | src/questions-1320212/questions-1320212.tsx:30 | parsing what `params.toString()` wrote gives back the same list of pairs |
| `Urlencoded.FromInitSerialize` | src/questions-1320212/questions-1320212.tsx:28 | `new URLSearchParams(params.toString())` holds the same pairs as `params` |
| `Urlencoded.Get` | src/questions-1320212/questions-1320212.tsx:48 | null iff no pair has the name; otherwise the value of the first pair with that name |
| `Urlencoded.SetFacts` | src/questions-1320212/questions-1320212.tsx:29 | after `set("lang", v)`: `get` gives `v`; exactly one `lang` pair remains, at the first `lang` pair's index (or appended at the end); all other pairs keep their order and values |
| `UrlLang.FragmentEncodeIdempotent` | src/questions-1320212/questions-1320212.tsx:35-38 | pushing the prepared URL and parsing it again leaves the fragment unchanged |
| `UrlLang.ReadLangFromUrl` | src/questions-1320212/questions-1320212.tsx:40-49 | null when there is no fragment or no `lang` pair in it; otherwise the value of the first `lang` pair of the fragment |
| `UrlLang.PrepareUrlAsWritten` | src/questions-1320212/questions-1320212.tsx:19-33 | with no fragment, the stored fragment is `lang=` followed by the hash-setter encoding of the raw value. With a fragment, its pairs are the old pairs with `set("lang", nextLang)` applied. Either way the fragment is non-empty |
| `UrlLang.PrepareUrl` | src/questions-1320212/questions-1320212.tsx:19-33 | the corrected `prepareUrl`: in both branches the stored pairs are the old pairs with `set("lang", nextLang)` applied; with a fragment it stores the same as the code as written |
| `UrlLang.PrepareUrlRoundTrip` | src/questions-1320212/questions-1320212.tsx:19-33 | for the corrected `prepareUrl`, reading `lang` back yields `nextLang` for every fragment and value; with no fragment the stored pairs are just `lang=<nextLang>` |
| `UrlLang.PrepareUrlAsWrittenWithFragment` | src/questions-1320212/questions-1320212.tsx:28-32 | as written, a write into an existing fragment reads back `nextLang` for every value |
| `UrlLang.PrepareUrlAsWrittenPlainRoundTrip` | src/questions-1320212/questions-1320212.tsx:23-25 | as written, with no fragment, a value without `&`, `+`, `%`, tab or newline reads back unchanged |
| `UrlLang.PrepareUrlAsWrittenLosesAmpersand` | src/questions-1320212/questions-1320212.tsx:23-25 | as written, with no fragment, choosing `a&b` stores `lang=a&b`, which reads back as `a` |
| `UrlLang.GetState` | src/questions-1320212/questions-1320212.tsx:128-131 | the initial `lang` is the URL's `lang` value when present, an empty value included; otherwise it is the first configured language id |
| `UrlLang.UrlState.Mount` | src/questions-1320212/questions-1320212.tsx:133-154 | `lang` starts as `getState`, so it is the URL's `lang` when the URL has one. The mount run of the effect writes no URL |
| `UrlLang.UrlState.Effect` | src/questions-1320212/questions-1320212.tsx:149-158 | the first run only sets `isInitState`. Every later run replaces the fragment with `prepareUrl(lang)` as written and pushes it |
| `UrlLang.UrlState.SetLang` | src/questions-1320212/questions-1320212.tsx:135 | setting `lang` to a new value runs the effect, which writes the as-written `prepareUrl` fragment and pushes it once. The URL then reads back the value if it already had a fragment or the value is plain. Setting the current value writes nothing |
| `UrlLang.UrlState.HandleSelectChange` | src/questions-1320212/questions-1320212.tsx:138-141 | `lang` becomes the select's value. If that changed it, one as-written URL was pushed; it reads back the new value if there was a fragment or the value is plain |
| `UrlLang.UrlState.HandleRadioInputChange` | src/questions-1320212/questions-1320212.tsx:144-147 | `lang` becomes the chosen id. If that changed it, one as-written URL was pushed; it reads back the id if there was a fragment or the id is plain |
| `UrlLang.UrlState.Navigate` | src/questions-1320212/questions-1320212.tsx:20 | a location change made by the browser replaces the fragment that the next `prepareUrl` reads. It keeps `lang` and pushes nothing |
| `Calories.FirstButton` | src/questions-1317782/questions-1317782.tsx:64 | the first button when there is one; undefined when `buttons` is absent or empty |
| `Calories.RenderedButtons` | src/questions-1317782/questions-1317782.tsx:15-23 | nothing is rendered when `items` is absent; otherwise one button per item, in order |
| `Calories.Tables` | src/questions-1317782/questions-1317782.tsx:89-91 | one table per button, in order; a table is active iff its id equals `activeButton` |
| `Calories.OneActiveTable` | src/questions-1317782/questions-1317782.tsx:90 | with distinct ids at most one table is active. Exactly one is active when `activeButton` is one of the ids |
| `Calories.DataCalories.constructor` | src/questions-1317782/questions-1317782.tsx:60-64 | the active button starts as the first button, or undefined; it is then one of the buttons |
| `Calories.DataCalories.HandleClick` | src/questions-1317782/questions-1317782.tsx:70-78 | the buttons never change. Clicking the active button leaves the state unchanged, and any other click makes that button active. A click on a rendered button keeps the active button among the buttons |
| `Calories.DataCalories.ReceiveButtons` | src/questions-1317782/questions-1317782.tsx:61-64 | a new `buttons` prop leaves `activeButton` as it was. It stays among the buttons if the new list holds it; otherwise no table is active |
| `Calories.DataCalories.RenderedTables` | src/questions-1317782/questions-1317782.tsx:89-91 | in the current state, a rendered table is active iff its id is `activeButton` |

## Findings

| source | as written | input that shows it | evidently intended | confidence | as-written member | corrected member |
|---|---|---|---|---|---|---|
| src/questions-1320212/questions-1320212.tsx:23-25 | with no fragment, `prepareUrl` stores `lang=` followed by the raw value. The value is not urlencoded, while the other branch encodes it through `URLSearchParams` | no fragment, `nextLang = "a&b"`: the fragment becomes `lang=a&b`, and `readLangFromUrl` returns `"a"` | encode the value in both branches, so that reading the URL gives back the chosen language | not executed; medium: the configured ids `en` and `ua` are unaffected (see `PrepareUrlAsWrittenPlainRoundTrip`) | `UrlLang.PrepareUrlAsWrittenLosesAmpersand` | `UrlLang.PrepareUrlRoundTrip` |

`UrlLang.PrepareUrlAsWritten` is the code as written, and `UrlState` uses it,
so the widget's model keeps the defect. `UrlLang.PrepareUrl` is the corrected
`prepareUrl`, and `UrlLang.PrepareUrlRoundTrip` proves that the corrected
version reads back every value.

## Left out

- Rendering: JSX, `styled-components`, `classnames`, the `react-table`
  example table, and the `JSON.stringify` displays.
- `src/questions-1309511` is not part of this model: it is route matching by
  `react-router` plus `alert`.
- `src/questions-1273361` is not part of this model: it is a wrapper over
  `localStorage` with a `??` default.
- The network and timers are left out: `fetch`, `.json()`, `AbortController`,
  `setTimeout`/`clearTimeout` and `console.log`. They appear only as the
  events `Resolve`, `Reject` and `Tick`. The 500 ms period is not measured:
  the loader's minimum display is stated as "at least one timer firing".
- Several `getPost` calls sharing one store (a new `postId` while an older
  request is outstanding) are not modelled. Each `PostRequest` dispatches to
  its own copy of the store. So an older call's timer hiding the loader
  during a newer request is not captured.
- An action whose type is `SET_DETAILS` but which has no payload sets
  `details` to `undefined` in the source. The model uses `None`, the same as
  `null`.
- UTF-8 decoding of parsed names and values is left out, and with it the
  replacement of invalid sequences and lone surrogates by U+FFFD. Strings are
  modelled by their UTF-8 bytes.
- Full URL parsing and serialization, `window.history.pushState` and
  `document.title` are left out. Only the fragment is modelled.
- React scheduling details are left out: batched updates, StrictMode's double
  effect runs, callback identity from `useCallback`/`useMemo`, and
  `event.preventDefault()`.
- `UrlLang.GetState` excludes, by its requires, the case with no `lang` in
  the URL and no configured languages. There the source throws a
  `TypeError` reading `langs[0].id`, and the model does not describe it.
- `UrlLang.UrlState.Mount` has the same requires as `GetState`, for the same
  reason.
- `Calories.DataCalories.HandleClick` keeps the active button among the
  buttons only for clicks on a rendered button. The source's handler accepts
  any string.
