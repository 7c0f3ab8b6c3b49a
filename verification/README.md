# Pokédex search history — a Dafny model

This project models the search/history state machine of a small Pokédex web
application. The user types a Pokémon name into a search form. The form asks
a lazy lookup client for that name and watches the lookup's lifecycle. Each
lifecycle change becomes at most one action on the `searchHistory` store
slice. The slice holds an ordered history of resolved Pokémon (newest first,
one entry per name) and the presentation status of the result panel
(`initial`, `loading`, `error`, `success`). Clicking an older history entry
re-adds it, which moves it to the front.

Three modules:

- `SearchHistorySlice` (`searchhistory.dfy`) holds the slice's value, its
  initial state, its three reducers as pure functions, and the store class
  `SearchHistoryStore`. The class keeps the value in a field that each reducer
  method replaces. The module also proves the history invariants: unique
  names, the new entry at the head, the other entries kept in order, the
  length rule, idempotence, and move-to-front.
- `LeftSideBar` (`leftsidebar.dfy`) holds the search form's effect as a pure
  choice of at most one action per lookup snapshot, and the history list's
  click rule. It also has the class `SearchForm`, whose `searchName` field is
  updated by the change and submit handlers, plus the submit button's
  disable rule.
- `Session` (`session.dfy`) composes the two. A session is a sequence of
  events: a new lookup snapshot, a click on a history entry, or a `clear`.
  The session remembers the snapshot the effect last ran on. A snapshot
  whose effect dependencies (`loading`, `pokemon`, `error`) did not change
  does not run the effect again. Its lemmas cover the invariants every
  reachable value keeps, the persistence of `initial`, the "last reported
  settlement wins" behaviour, and a few example sessions.

The model follows the code as written:

- The submit guard is only "the name is non-empty". Names are not trimmed.
- Lower-casing happens in the input's change handler, not at submit.
- `setStatus` accepts every status, `success` included. Nothing prevents a
  caller from setting `success` directly. The effect never does, and
  `EffectAction` proves that.
- The history has no capacity bound.

## Model

| member | source | states |
|---|---|---|
| SearchHistorySlice.WithoutName | src/redux/searchHistorySlice.ts:25-27 | the filter's result is no longer than the history and contains exactly the entries whose name differs from the payload's |
| SearchHistorySlice.WithEntry | src/redux/searchHistorySlice.ts:24-32 | after `addEntry(p)` the status is `success`, the history is non-empty with `p` at index 0, no other index carries `p.name`, and it grows by at most one |
| SearchHistorySlice.Reduce | src/redux/searchHistorySlice.ts:17-33 | `clear` gives the initial value; `setStatus(s)` sets `s` and keeps the history; `addEntry(p)` gives `success` with `p` at the head |
| SearchHistorySlice.WithoutNameIsFilter | src/redux/searchHistorySlice.ts:25-27 | the filtered history is a subsequence of the old one (relative order kept) and holds every entry with another name exactly as often as before, and none with the removed name |
| SearchHistorySlice.WithoutAbsentName | src/redux/searchHistorySlice.ts:25-27 | filtering out a name that no entry carries returns the history unchanged |
| SearchHistorySlice.WithoutUniqueName | src/redux/searchHistorySlice.ts:25-27 | with unique names, filtering out the name of entry `i` removes exactly that entry and nothing else |
| SearchHistorySlice.WithoutNameKeepsUnique | src/redux/searchHistorySlice.ts:25-27 | filtering a history with unique names leaves unique names |
| SearchHistorySlice.AddEntryKeepsUnique | src/redux/searchHistorySlice.ts:25-29 | if names were unique before `addEntry(p)`, they are unique after |
| SearchHistorySlice.AddEntryKeepsOthersInOrder | src/redux/searchHistorySlice.ts:25-29 | behind the head, `addEntry(p)` keeps every older entry with a different name, with its multiplicity, in its old relative order |
| SearchHistorySlice.AddEntryLength | src/redux/searchHistorySlice.ts:25-30 | with unique names the length is unchanged when `p.name` was present and grows by one otherwise |
| SearchHistorySlice.AddEntryIdempotent | src/redux/searchHistorySlice.ts:24-32 | `addEntry(p)` twice in a row gives the same value as once |
| SearchHistorySlice.AddExistingMovesToFront | src/redux/searchHistorySlice.ts:25-29 | with unique names, re-adding entry `i` yields `[h[i]] + h[..i] + h[i+1..]`, a permutation of the old history; re-adding the head changes nothing |
| SearchHistorySlice.SearchHistoryStore.constructor | src/redux/searchHistorySlice.ts:10-12 | the store starts with an empty history and status `initial` |
| SearchHistorySlice.SearchHistoryStore.Clear | src/redux/searchHistorySlice.ts:18-20 | from any prior value, `clear` leaves an empty history with status `initial` |
| SearchHistorySlice.SearchHistoryStore.SetStatus | src/redux/searchHistorySlice.ts:21-23 | `setStatus(s)` sets the status to `s`, whatever `s` is, and leaves the history unchanged |
| SearchHistorySlice.SearchHistoryStore.AddEntry | src/redux/searchHistorySlice.ts:24-32 | `addEntry(p)` replaces the value with `p` before the filtered old history and status `success`, and keeps unique names unique |
| SearchHistorySlice.SearchHistoryStore.Dispatch | src/redux/searchHistorySlice.ts:36-37 | dispatching an action updates the value as the slice's reducer does |
| LeftSideBar.EffectAction | src/components/LeftSideBar/LeftSideBar.tsx:19-29 | `setStatus(loading)` exactly when `isLoading` or `isFetching`, even if an error or data is present; `setStatus(error)` exactly when not loading and an error is present; `addEntry(data)` exactly when not loading, with no error and with data; it never dispatches `clear`, `initial` or `success` |
| LeftSideBar.EffectStep | src/components/LeftSideBar/LeftSideBar.tsx:21-29 | loading keeps the history and sets `loading`; an error keeps the history and sets `error`; data becomes the head with status `success`; an idle snapshot changes nothing; the effect never brings the status to `initial` |
| LeftSideBar.EffectReadsOnlyDeps | src/components/LeftSideBar/LeftSideBar.tsx:21-29 | two snapshots with the same dependencies (`loading`, `pokemon`, `error`) make the effect dispatch the same action |
| LeftSideBar.EffectStepIdempotent | src/components/LeftSideBar/LeftSideBar.tsx:21-29 | running the effect twice in a row on the same snapshot equals running it once |
| LeftSideBar.HistoryClickAction | src/components/LeftSideBar/LeftSideBar.tsx:93-94 | the head's button dispatches nothing; the button of entry `i > 0` dispatches `addEntry(history[i])` |
| LeftSideBar.ToLower | src/components/LeftSideBar/LeftSideBar.tsx:58-60 | the stored name has the typed name's length and no upper-case letter; each letter A–Z becomes its lower-case letter and every other character is kept |
| LeftSideBar.SubmitLookup | src/components/LeftSideBar/LeftSideBar.tsx:33-35 | a lookup is triggered exactly when the name is non-empty, and for that very name |
| LeftSideBar.SearchForm.constructor | src/components/LeftSideBar/LeftSideBar.tsx:14 | the form mounts with an empty name |
| LeftSideBar.SearchForm.OnChange | src/components/LeftSideBar/LeftSideBar.tsx:58-60 | each change stores the lower-cased value, so the form's name is always lower-case |
| LeftSideBar.SearchForm.HandleSubmit | src/components/LeftSideBar/LeftSideBar.tsx:31-38 | submit triggers a lookup only for a non-empty name, the triggered name is lower-case, and the name is reset to `''` in every case |
| LeftSideBar.SearchForm.SubmitDisabled | src/components/LeftSideBar/LeftSideBar.tsx:66 | the button is enabled exactly when the snapshot reports neither `isLoading` nor `isFetching` and submitting would trigger a lookup, i.e. the name is non-empty |
| Session.Step | src/components/LeftSideBar/LeftSideBar.tsx:21-29 | a snapshot that changes a dependency runs the effect and is remembered; one that does not changes nothing; a click on entry `i > 0` applies `addEntry(history[i])`; a click on the head does nothing; `clear` resets the value; clicks and `clear` keep the remembered snapshot |
| Session.StepKeepsCoherent | src/components/LeftSideBar/LeftSideBar.tsx:21-29 | every event (snapshot, history click, clear) keeps names unique, keeps `success` paired with a non-empty history, and keeps `initial` paired with an empty one |
| Session.RunKeepsCoherent | src/redux/searchHistorySlice.ts:24-32 | from a coherent value, the invariant holds after any event sequence |
| Session.ReachableIsCoherent | src/components/PokemonDisplay/PokemonDisplay.tsx:99 | every value reached from start-up is coherent, so when the status is `success` the result panel's `history[0]` exists |
| Session.RunAppend | src/components/LeftSideBar/LeftSideBar.tsx:21-29 | running two event sequences one after the other equals running their concatenation |
| Session.LastReportedSettlementWins | src/components/LeftSideBar/LeftSideBar.tsx:26-27 | whatever came before, a settled snapshot with data that changes a dependency puts that data at the head with status `success`, whichever lookup was submitted first; a snapshot that changes no dependency changes nothing |
| Session.NoObserveKeepsLastSeen | src/components/LeftSideBar/LeftSideBar.tsx:29 | clicks and `clear` leave the effect's dependencies as they were |
| Session.UnchangedDepsIgnored | src/components/LeftSideBar/LeftSideBar.tsx:29 | after a snapshot and then only clicks or `clear`, a snapshot with the same dependencies changes nothing, so it cannot undo a click or a `clear` |
| Session.NeverBackToInitial | src/components/LeftSideBar/LeftSideBar.tsx:21-29 | over snapshots alone, a status other than `initial` never returns to `initial` |
| Session.InitialUntilFirstDispatch | src/components/LeftSideBar/LeftSideBar.tsx:21-29 | over snapshots alone, from a session whose effect has dispatched nothing yet, the status is still `initial` exactly when it started `initial` and no snapshot would dispatch anything; when none would, the value is untouched |
| Session.SelectMovesToFront | src/components/LeftSideBar/LeftSideBar.tsx:89-97 | clicking entry `i > 0` moves it to the front, sets `success` and keeps the same entries; the head's button does nothing |
| Session.ClearResets | src/redux/searchHistorySlice.ts:18-20 | `clear` after any sequence of events yields the initial value |
| Session.SuccessPath | src/__tests__/app.test.tsx:80-106 | from start-up, idle keeps `initial`; a pending lookup gives `loading`; settling with pikachu gives `success` with history `[pikachu]` |
| Session.ErrorPath | src/__tests__/app.test.tsx:58-78 | a pending lookup, then a failure, gives `error` with the history still empty |
| Session.TwoDistinctSuccesses | src/redux/searchHistorySlice.ts:24-32 | pikachu, then scyther (its pending snapshot still reporting pikachu) gives `[scyther, pikachu]` |
| Session.ResearchExisting | src/redux/searchHistorySlice.ts:24-32 | searching pikachu again from `[scyther, pikachu]` gives `[pikachu, scyther]`, same length |
| Session.ReinsertHead | src/redux/searchHistorySlice.ts:25-29 | re-adding bulbasaur to `[bulbasaur, A]` leaves `[bulbasaur, A]` |

## Left out

- The lookup client (the RTK Query lazy query) is not modelled. Network
  I/O, caching, retries and the `preferCacheValue` flag passed at
  `LeftSideBar.tsx:34` are all out of scope. Its state enters the model only
  as the `Snapshot` input values, and `HandleSubmit` returns the name it
  would hand to the client.
- Overlapping lookups are not modelled. Which settlement the client reports,
  and when, is its own asynchronous behaviour. A session takes the reported
  snapshots as a given sequence, and `LastReportedSettlementWins` states the
  result.
- React compares the effect's dependencies by reference (`Object.is`). The
  model compares them by value, so a settled result that arrives as a new
  object with the same contents does not run the effect in the model.
- LeftSideBar.ToLower: handles only the letters A–Z. `toLowerCase` also maps
  non-ASCII upper-case letters, and Unicode case mapping is not modelled.
- Re-focusing the input after submit, `preventDefault`, the rendering of the
  form, the history list and the result panel (CSS classes, images,
  attributes) and the React list keys are UI only and are not modelled.
- The store wiring, the Next.js page and layout, the styling, and the
  catalog's record schema are framework plumbing. `Pokemon` keeps only `name`
  and `id`.
- Mounting and unmounting the components is not modelled. A session
  assumes the form stays mounted while events arrive.
