# tip.js bookkeeping, modelled in Dafny

`tip.js` is a self-contained browser widget. It shows toasts, confirm and
prompt dialogs, and a loading overlay. Under its markup and styles sits some
module-level state:

- the children of the toast container and the `_activeToasts` record;
- `_modalCallbacks`, which maps a modal id to its callback and
  `id + '_keydown'` to its keydown handler;
- what the modal container currently holds;
- the nesting counter `_loadingCount`;
- the `_defaults` configuration;
- `_isInitialized`.

This project models that state and proves what its operations do to it.

The model is organised as follows.

- `values.dfy` (`JsValues`): the JavaScript values the API receives,
  JavaScript truthiness, and `_validateParams`.
- `config.dfy` (`Config`): `_defaults` and what `config` accepts.
- `toasts.dfy` (`Toasts`):
  - type and display-time defaulting;
  - the capacity check with its eviction of the oldest toast;
  - `_removeToast` on the ordered list of toast elements.
- `modals.dfy` (`Modals`):
  - the entries of `_modalCallbacks`;
  - the Enter/Escape mapping;
  - the argument a close timer passes to a callback;
  - the text a prompt's input field starts with.
- `tip.dfy` (`TipState`): the class `Tip`.
  - Its fields mirror the module state.
  - It has one method per public operation and one per timer callback.
  - Each `setTimeout` whose callback affects the bookkeeping appends a
    `Timer` to `timers`, holding the values the callback captured.
  - Each timer's `Fire...` method runs that callback. It takes any pending
    timer, so timers may fire in any order.
  - Every call a close timer makes to a user callback is appended to
    `deliveries`, which is how at-most-once delivery is stated.
  - `Valid()` is the invariant every method keeps:
    - the toast ids are distinct and are exactly `_activeToasts`;
    - the toast elements are in the order their ids were handed out, so the
      first one is the oldest (a ghost rank per handed-out id states this);
    - `_loadingCount >= 0`;
    - both configured numbers are positive;
    - every key of `_modalCallbacks` belongs to a modal that was created;
    - no modal's callback was called twice, and a called one is gone;
    - nothing is held before initialization or after `destroy`.
- `scenarios.dfy` (`Scenarios`): short call sequences checked against the
  contracts of `Tip`. One of them shows a property the code does not have.

Ids from `_generateId` are parameters (`freshId`). They are required to have
the generated shape and never to have been handed out. Numbers are `real`,
so `toastMaxCount` and `animationDuration` may be fractional, as the code
allows. The containers exist exactly while the module is initialized.
`generation` counts how many times they have been created, so a timer can
tell whether the container element it captured is still in the document.

Where the behaviour differs from a natural reading of the library's own
description:

- `loading.show` replaces the overlay's content on every call, not only on
  the first one. See `LoadingShow`.
- The overlay is not visible exactly when the count is positive. The
  overlay hide timer clears whatever the container holds at the time, and
  does not look at the count. That includes an overlay that a later `show`
  put up. See `FireLoadingHideTimer` and `Scenarios.OverlayClearedWhileCounted`.
- A close timer empties the modal container whatever modal it now holds,
  so a stale close removes a newer modal. That newer modal's callback stays
  registered, and `closeModal` can no longer find its element. See the
  `mounted == None` clause of `FireCloseTimer`.
- The size bound is kept, but never restored. It is `|toasts| < max + 1`,
  which for a fractional maximum is the ceiling of max. See `Admit` and
  `OverfullStaysOverfull`.
- Mounting a new modal replaces the old one in the container. It calls
  nothing, and it leaves the old modal's entries in `_modalCallbacks`
  untouched. See `Mount`.

## Model

| member | source | states |
|---|---|---|
| JsValues.ValidateParams | tip.js:102-112 | accepted exactly when the message is a non-empty string and the callback is a function or falsy |
| Config.ApplyConfig | tip.js:699-711 | a non-object argument changes nothing; each number is taken iff it is a positive number, the easing iff it is a string; positivity of both numbers is preserved |
| Config.ConfigIdempotent | tip.js:699-711 | applying the same options twice equals applying them once |
| Toasts.ConfigKeyAsWritten | tip.js:261-266 | the `_toastConfig` key as the code picks it: a type name or an inherited property name stays, everything else becomes "info" |
| Toasts.InheritedKeyEscapesFallback | tip.js:261-266 | type "toString" is not replaced by "info" although it names no toast type |
| Toasts.ResolveType | tip.js:248-266 | one of the four type names selects its type, anything else (missing, unknown, inherited, non-string) selects info |
| Toasts.ResolveTypeAgreesOutsideInherited | tip.js:248-266 | the intended resolution agrees with the code on every type that is not an inherited property name |
| Toasts.DisplaySeconds | tip.js:250-256 | display time is always positive: a positive time is kept, a missing, zero or negative time becomes 3 |
| Toasts.Admit | tip.js:278-289 | the new toast comes last; at or above the maximum exactly the oldest toast is dropped, below it none; the bound size < max + 1 is preserved |
| Toasts.AdmitWholeBound | tip.js:279-289 | for a whole maximum n, size <= n is preserved |
| Toasts.OverfullStaysOverfull | tip.js:279-286 | a registry over the bound keeps its size, so lowering the maximum is never caught up |
| Toasts.AdmitIds | tip.js:278-289 | ids stay distinct; the id set loses exactly the evicted oldest id and gains the new one |
| Toasts.RemoveId | tip.js:219-225 | exactly the toasts with other ids remain |
| Toasts.RemoveAbsentId | tip.js:219-225 | removing an absent id is the identity |
| Toasts.RemoveIdSpec | tip.js:219-225 | ids stay distinct, the id set loses exactly that id, one element goes when present and the others keep their order, nothing changes when absent |
| Toasts.RemoveIdKeepsOrder | tip.js:219-225 | for a present id, the result is the list with that one element cut out |
| Toasts.CutAfterHead | tip.js:219-225 | cutting out element k+1 of a list is keeping its head and cutting element k out of its tail |
| Toasts.SetPhase | tip.js:292-303 | a restyle keeps length, ids, type and display time position by position; the toasts with that id get the new phase and all others stay as they were |
| Toasts.SetPhaseIds | tip.js:292-303 | a restyle keeps the id set and distinctness |
| Modals.HandlerKeyHasUnderscore | tip.js:382 | a handler key contains "_keydown" and hence an underscore |
| Modals.HandlerKeyInjective | tip.js:382 | different modals have different handler keys |
| Modals.NoUnderscoreNoKeydown | tip.js:646-647 | a key without an underscore never passes the `indexOf('_keydown')` test |
| Modals.KeyAction | tip.js:371-379 | Enter confirms, Escape cancels, and every other key is ignored, each in both directions |
| Modals.CallbackArgument | tip.js:526-538 | a confirm receives `confirmed` verbatim; a prompt receives its captured text iff `confirmed` is truthy, else null |
| Modals.KeyDelivers | tip.js:371-379 | Enter gives a prompt its text (also an empty one) and a confirm true; Escape gives a prompt null and a confirm false |
| Modals.Sanitize | tip.js:427 | the input keeps every character except line breaks and NUL, adds none but U+FFFD, and is the identity on clean text |
| Modals.UpToQuote | tip.js:427 | the kept attribute text is the longest quote-free prefix of the default value |
| Modals.UpToQuoteExample | tip.js:427 | the kept attribute text for `say "hi"` is "say " |
| Modals.InitialInputAsWritten | tip.js:409-427 | as written, the prompt's initial text never contains a double quote |
| Modals.InitialInput | tip.js:409-427 | the intended initial text is the default value itself whenever it needs no sanitizing |
| Modals.QuoteTruncatesDefault | tip.js:423-427 | as written and as intended, the initial text differs exactly when the default value contains a double quote |
| Modals.QuotedDefaultExample | tip.js:427 | `defaultValue: 'say "hi"'` starts the input at "say " as written, and at the whole value as intended |
| TipState.HandlerKeysOf | tip.js:645-653 | the `for...in` loop detaches exactly the keys containing "_keydown" |
| TipState.FirstIsOldest | tip.js:279-286 | in a valid registry the first toast was handed out before every other one, so the capacity check evicts the oldest |
| TipState.OrderTail | tip.js:279-286 | dropping the first toast keeps the others in the order they were handed out |
| TipState.OrderCut | tip.js:219-225 | cutting one toast out keeps the others in the order they were handed out |
| TipState.OrderAppend | tip.js:288 | appending a toast with a new, higher rank keeps the issue order |
| TipState.EvictKeepsRegistry | tip.js:279-286 | evicting the oldest toast keeps the registry valid, with its id gone from `_activeToasts` |
| TipState.AppendKeepsRegistry | tip.js:285-289 | appending a toast with a fresh id, which gets the next rank, keeps the registry valid, with the id added to `_activeToasts` |
| TipState.AdmitKeepsRegistry | tip.js:278-289 | eviction and append keep the toast ids distinct, equal to `_activeToasts` and in the order they were handed out |
| TipState.RemoveKeepsRegistry | tip.js:219-225 | `_removeToast` keeps the registry valid, with the id gone from `_activeToasts` |
| TipState.SetPhaseKeepsRegistry | tip.js:292-303 | a restyle keeps the registry valid |
| TipState.MountKeepsCallbacks | tip.js:350-382 | the two new keys are not yet present, and registering them keeps the callback invariant |
| TipState.CloseKeepsCallbacks | tip.js:517-542 | a close timer removes the handler key and, if a callback is waiting, logs one call and removes it, keeping at-most-once delivery |
| TipState.Tip.constructor | tip.js:211-216 | initial settings 300 ms, the default easing, max 5; empty registries; initialized iff the document is ready |
| TipState.Tip.Init | tip.js:197-209 | idempotent: containers are created on the first call only |
| TipState.Tip.Toast | tip.js:243-311 | initializes; an invalid message returns no id and changes no registry; a valid one returns the id, applies the capacity check, and schedules show and hide |
| TipState.Tip.AddToast | tip.js:278-309 | new registry is `Admit` of the old one; `_activeToasts` loses the evicted oldest id exactly when at capacity; the new id gets the next rank; two timers added |
| TipState.Tip.RemoveToast | tip.js:219-225 | the element and the record entry of that id go; an absent id changes nothing |
| TipState.Tip.CloseToast | tip.js:623-627 | removes an active toast; an empty or unknown id is a no-op |
| TipState.Tip.ClearToasts | tip.js:630-636 | container and `_activeToasts` emptied |
| TipState.Tip.FireShowTimer | tip.js:292-297 | slides the toast in only if it is still active |
| TipState.Tip.FireHideTimer | tip.js:300-308 | only for a still active toast: slides it out and schedules the removal |
| TipState.Tip.FireRemoveTimer | tip.js:304-306 | removes by id; for an id already gone nothing changes |
| TipState.Tip.Mount | tip.js:346-382 | the new modal replaces the container's content; its callback and handler keys are added; every earlier key keeps its value, and nothing is called |
| TipState.Tip.Confirm | tip.js:322-387 | invalid arguments return no id and leave the modal state alone; valid ones mount a confirm and register callback and handler |
| TipState.Tip.Prompt | tip.js:401-491 | like confirm, the input field starting at the corrected initial text `InitialInput(defaultValue)` |
| TipState.Tip.EditInput | tip.js:504-505 | the text the close timer will capture is whatever the user typed last |
| TipState.Tip.CloseModal | tip.js:499-509 | nothing unless `#id` is in the document; otherwise one close timer capturing prompt-ness and the input text at call time |
| TipState.Tip.KeyDown | tip.js:371-379 | Enter or Escape closes the handler's modal confirmed or cancelled; other keys do nothing |
| TipState.Tip.FireCloseTimer | tip.js:510-544 | empties the container; removes the handler key; a waiting callback is called once with `CallbackArgument` and removed; otherwise nothing is called |
| TipState.Tip.CloseAllModals | tip.js:638-655 | container and `_modalCallbacks` emptied, no callback called; the detached keys are exactly the handler keys |
| TipState.Tip.LoadingShow | tip.js:551-572 | initializes, count + 1, overlay replaced by the message or the default text |
| TipState.Tip.LoadingHide | tip.js:574-589 | count - 1 while above 1, otherwise 0, never negative; the overlay hide timer only at 0 and only with a container |
| TipState.Tip.FireLoadingHideTimer | tip.js:590-593 | clears the overlay of the current container whatever the count |
| TipState.Tip.CloseAllLoading | tip.js:657-664 | overlay cleared, count 0 |
| TipState.Tip.ClearAll | tip.js:666-670 | all three registries emptied |
| TipState.Tip.Destroy | tip.js:673-696 | registries emptied, count 0 and uninitialized; configuration untouched |
| TipState.Tip.Configure | tip.js:699-711 | defaults become `ApplyConfig` of the old defaults |
| TipState.Tip.GetConfig | tip.js:714-720 | returns exactly the current settings, both numbers positive |

## Left out

- Markup, inline styles, hover and focus effects, and the show and hide
  animations are not modelled. This covers `_createContainers`,
  `_addStyles`, `_createModalBase` and `_showModalAnimation`. A toast's
  animation is kept only as its `Phase`.
- `_generateId` is not modelled, because it reads the clock and a random
  source. Callers pass the id instead.
- `setTimeout` delays are not modelled. Any pending timer may fire at any
  time.
- `_escapeHtml` is not modelled. It sets a text node and reads it back as
  markup, so its escaping comes from the browser's serializer. Its effect
  on the prompt's `value` attribute is modelled only as the function
  `InitialInputAsWritten`, which no member of `Tip` uses (see the
  `Tip.Prompt` line below).
- Tip.Prompt: the class starts the input field at the corrected
  `InitialInput(defaultValue)`, not at the truncated text the code yields.
  The two differ when the default value contains a `"`. For such a value
  the code starts the field at the part before the first quote, and a
  confirm without editing delivers that part. The model starts the field
  at the whole value and delivers the whole value. The difference is the
  second row of "## Findings", and `Modals.QuoteTruncatesDefault` states it.
- Tip.Toast: the stored toast type is the corrected `ResolveType(kind)`.
  For an inherited property name such as "toString", the code skips the
  fallback and builds the toast's markup from an unrelated inherited
  value, while the model records `Info`. Only markup depends on the type,
  so no bookkeeping differs. This is the first row of "## Findings".
- The module loading before `document.body` exists is not modelled. There
  `_init` throws at `document.body.appendChild` and leaves the module
  uninitialized. In the model every `_init` succeeds, including one
  that `toast` or `confirm` triggers through `_ensureInit` when
  `constructor(false)` was used.
- `console` output is left out.
- `addEventListener` and `removeEventListener` are left out. A keydown
  handler exists only as its `_modalCallbacks` entry. Note that one key
  press runs every attached handler. The model runs the handlers one at a
  time, through one `KeyDown` call per modal.
- The backdrop click listener is not modelled, and neither are the button
  click listeners. Each one calls `closeModal`, whose model is `CloseModal`.
  The backdrop listeners also accumulate on the container, one per dialog,
  and that is not modelled either.
- The prompt's focus and select timer is not modelled, because it changes
  no bookkeeping.
- Pages that already contain elements with the library's ids are not
  modelled, nor is code that removes the containers. The containers
  therefore exist exactly while the module is initialized, and the
  container-missing branches of `toast`, `confirm`, `prompt` and
  `loading.show` cannot be reached.
- `Tip.ElementPresent` answers for the elements the library itself puts
  into the document. Other elements are not modelled.
- Ids that are not valid CSS selectors are not modelled, because they make
  `querySelector` throw.
- Only finite numbers are modelled, so NaN and Infinity are not. This
  applies to toast times, which may also be missing, and to the numbers
  given to `config`. Non-number toast times, such as strings, are not
  modelled either. `config({toastMaxCount: Infinity})` is accepted by the
  code and turns eviction off, and the model cannot express it.
- Non-string loading messages and non-string default values are not
  modelled.
- Toasts.ConfigKeyAsWritten: non-string toast types are taken to fall back
  to "info". The code converts the type to a property name, so an array
  `['error']` selects the error type and the number 0 selects info. Only
  markup depends on the type.
- `title`, `placeholder`, `confirmText` and `cancelText` are not modelled.
  They only affect markup.
- Inherited property names are not modelled for lookups on `_activeToasts`
  and `_modalCallbacks`, for example `closeToast("toString")`. Ids are
  generated strings.
- The shortcuts `success`, `error`, `info`, `warning`, `showLoading` and
  `closeLoading` are not modelled separately. Each one only forwards to
  `toast`, `loading.show` or `loading.hide`.
- User callback bodies are not modelled. A callback is a token plus a flag
  saying whether it throws. Throwing does not change the cleanup.
- `FireCloseTimer`: its guarded `delete` of the handler key is a plain map
  removal. The guard only decided whether to call `removeEventListener`,
  which is not modelled.

## Findings

| source | as written | input that shows it | evidently intended | confidence | as-written member | corrected member |
|---|---|---|---|---|---|---|
| tip.js:261-266 | `_toastConfig[type]` also finds properties inherited from `Object.prototype`, so the fallback to "info" is skipped and the toast is built from an unrelated value | `tip.toast('hi', 'toString')` | every type that is not one of the four names falls back to info | not executed | Toasts.ConfigKeyAsWritten | Toasts.ResolveType |
| tip.js:423-427 | the default value is escaped for text content only and then placed inside `value="..."`, so the attribute ends at its first double quote | `tip.prompt('m', cb, {defaultValue: 'say "hi"'})` starts the field at `say ` | the field starts with the whole default value | not executed | Modals.InitialInputAsWritten | Modals.InitialInput |
