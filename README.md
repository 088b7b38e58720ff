# Omni site: hex-grid background, pilot form, request-access modal, preferences

This is a Dafny model of the parts of the Omni marketing site that hold logic.

- **Hex grid** (`hex_grid.dfy`, module `HexGrid`): the builder of the hero background's hexagonal grid.
  - Nested row/column loops lay the nodes out in row-major order, together with a `(col, row) → index` lookup.
  - One pass over the nodes then gives each node its neighbour list. The list comes from the even-column or odd-column table of six offsets, keeping only cells that exist and have a larger index.
  - The builder is imperative Dafny: `while` loops over sequences, whose invariants say what has been built so far.
  - It is proved against `Retained`, a specification of every node's neighbour list by index arithmetic.
- **Background render loop** (`background.dfy`, module `OmniBackground`): the state the render loop drives, as the class `BackgroundLoop`.
  - State: the 0-or-1 pulse slot, the time of the last pulse, the viewport size, the requested frame, the resize listener and the one-shot start-up timer.
  - Operations: `Frame(now)`, `TriggerPulse(time)`, `Resize(w, h)`, `StartupTimer(now)` and `Dispose()`.
  - The pulse origin is chosen by JavaScript's floating `%` on seconds. The model has a truncating remainder, and proofs reduce it to whole seconds modulo the number of eligible nodes.
- **Pilot-access form** (`pilot_form.dfy`, module `PilotForm`):
  - the compliance toggle, built on an order-preserving filter (`seqs.dfy`, module `Seqs`);
  - the plain mail body and its line structure;
  - the `isSubmitting` / `isSubmitted` transitions, as the class `Form`.
- **Request-access modal** (`request_access_modal.dfy`, module `RequestAccessModal`): the hash-routed open/close state machine, as the class `Modal`.
  - Its state is `isOpen`, the remembered trigger element, and the session history as a sequence of URLs whose last entry is the current location.
- **Preferred action** (`user_prefs.dfy`, module `UserPrefs`): the normaliser and the write, over a key/value store that is either working (a map) or throwing (`Unavailable`).

Host effects are modelled as follows:

- Each animation frame, timer firing, resize event, hash change and click is an explicit method call.
- Time is a parameter (`Millis`, a non-negative real).
- The viewport size and the reduced-motion preference are constructor parameters.
- The mail link's navigation and painting on the canvas are not modelled.

Numbers are exact reals and unbounded integers:

- The grid's horizontal spacing 70 × 1.5 = 105 is exact.
- The row height is the exact value of the double `70 * Math.sqrt(3)`: 121.243556529821404410540708340704441070556640625.

Three behaviours of the code are worth noting:

- The resize handler only records the new viewport and resizes the canvas. It does not rebuild the grid, so the node list and the pulse state are unchanged.
- Disposal cancels the animation frame and the resize listener, but not the pending start-up timer.
- A change of the reduced-motion preference tears the whole loop down and starts a new one. That resets the pulse state and the drift origin.

## Model

| member | source | states |
|---|---|---|
| HexGrid.ColumnCount | src/components/shared/OmniBackground.tsx:61 | at least 4 columns; cols − 4 is the least whole number of 105-px columns covering the width (ceil(width/105)) |
| HexGrid.RowCount | src/components/shared/OmniBackground.tsx:62 | at least 4 rows; rows − 4 is the least whole number of row heights covering the height (ceil(height/hexHeight)) |
| HexGrid.CellIndexRoundTrip | src/components/shared/OmniBackground.tsx:66-72 | for an in-grid cell, the row-major index row*cols+col is non-negative and `(index % cols, index / cols)` recovers the cell |
| HexGrid.CellAtRoundTrip | src/components/shared/OmniBackground.tsx:66-72 | every index below rows*cols names an in-grid cell whose row-major index is that index |
| HexGrid.CellIndexInjective | src/components/shared/OmniBackground.tsx:70-71 | distinct grid cells get distinct lookup indices |
| HexGrid.LayOutNodes | src/components/shared/OmniBackground.tsx:66-74 | the nested loops create exactly rows*cols nodes, each grid cell's node at its row-major index with its coordinates and no neighbours, and a lookup holding exactly the grid cells mapped to their indices |
| HexGrid.LinkNode | src/components/shared/OmniBackground.tsx:78-89 | one node's offset loop appends exactly the specified neighbour list `Retained` (existing cells with larger index, in offset order) and changes no other node |
| HexGrid.ConnectNeighbors | src/components/shared/OmniBackground.tsx:77-90 | after the pass over all nodes, every node carries its specified neighbour list |
| HexGrid.BuildGrid | src/components/shared/OmniBackground.tsx:55-90 | the built nodes and lookup form the full grid for ColumnCount(width) × RowCount(height) |
| HexGrid.KeptByLookup | src/components/shared/OmniBackground.tsx:84-88 | the lookup-based test "neighbour key present and its index above the node's" agrees with the index-arithmetic specification |
| HexGrid.RetainedOnlyAdjacent | src/components/shared/OmniBackground.tsx:79-88 | every listed neighbour is a valid index strictly above the node's own, one offset-table step away |
| HexGrid.RetainedAllAdjacent | src/components/shared/OmniBackground.tsx:79-88 | every in-grid cell one offset step away with a larger index is listed |
| HexGrid.RetainedCharacterization | src/components/shared/OmniBackground.tsx:79-88 | an index is listed if and only if it is a valid index above the node's and one offset step away |
| HexGrid.RetainedShape | src/components/shared/OmniBackground.tsx:79-88 | a neighbour list has at most 6 entries and no duplicates |
| HexGrid.AdjacentIsClose | src/components/shared/OmniBackground.tsx:79-81 | an offset step changes the column and the row by at most one each, and never maps a cell to itself |
| HexGrid.AdjacentSymmetric | src/components/shared/OmniBackground.tsx:79-81 | the even and odd offset tables are mutual inverses: b is a step from a exactly when a is a step from b |
| HexGrid.EdgeStoredOnce | src/components/shared/OmniBackground.tsx:77-90 | for two adjacent grid cells, each lists the other exactly when it has the lower index, so exactly one of them does |
| HexGrid.GridNodeAt | src/components/shared/OmniBackground.tsx:61-74 | in a built grid the node at index i has col = i % cols, row = i / cols, that cell's coordinates, the lookup maps its cell back to i, and its neighbours are the specified list |
| HexGrid.GridNeighbors | src/components/shared/OmniBackground.tsx:83-88 | in a built grid every neighbour entry j satisfies i < j < |nodes| (no self-edges), is one offset step away, and differs by at most 1 in col and row; at most 6 entries, no duplicates |
| HexGrid.GridEdgeOnce | src/components/shared/OmniBackground.tsx:153-159 | when the edge pass walks every node's list, each pair of adjacent nodes is visited once: only the lower-indexed node lists the other |
| OmniBackground.JsRemainder | src/components/shared/OmniBackground.tsx:106 | JavaScript's `%` (also used on line 140): the remainder has the sign of the dividend and magnitude below the divisor, in [0, m) for x ≥ 0 and (−m, 0] for x < 0 |
| OmniBackground.RemainderByWhole | src/components/shared/OmniBackground.tsx:106 | for x ≥ 0 and whole n > 0, JavaScript's `x % n` is (floor(x) mod n) plus the fractional part of x |
| OmniBackground.SelectIndex | src/components/shared/OmniBackground.tsx:106 | `Math.floor((time / 1000) % n)` is a valid index in [0, n) |
| OmniBackground.SelectIndexBySeconds | src/components/shared/OmniBackground.tsx:106 | the selected index is floor(time/1000) mod n |
| OmniBackground.SelectIndexAtWholeMillis | src/components/shared/OmniBackground.tsx:106 | for a whole number of milliseconds t, the index is (t div 1000) mod n |
| OmniBackground.DriftPhase | src/components/shared/OmniBackground.tsx:140 | the drift progress `(elapsed % 200000) / 200000` lies in [0, 1) for non-negative elapsed time and in (−1, 1) always |
| OmniBackground.Expired | src/components/shared/OmniBackground.tsx:206-207 | the test `currentTime - startTime < duration` fails exactly when now ≥ startTime + duration |
| OmniBackground.EligibleNodes | src/components/shared/OmniBackground.tsx:99-102 | the filtered nodes keep grid order (a subsequence), all lie strictly inside the central box, and a grid node is kept exactly when it lies inside |
| OmniBackground.PulseOrigin | src/components/shared/OmniBackground.tsx:98-107 | no origin exactly when no node is eligible; otherwise an eligible grid node, the one at position floor(time/1000) mod (number eligible) among the eligible nodes |
| OmniBackground.BackgroundLoop.constructor | src/components/shared/OmniBackground.tsx:38-96 | mounting sizes the canvas to the viewport, builds the full grid for that viewport, starts with an empty slot and lastPulseTime = 0, requests a frame, registers the resize listener and arms the start-up timer |
| OmniBackground.BackgroundLoop.AfterExpiry | src/components/shared/OmniBackground.tsx:205-237 | the slot after the expiry step is either unchanged or empty, and it changes exactly when motion is not reduced and the pulse in it has reached startTime + duration |
| OmniBackground.BackgroundLoop.TriggerPulse | src/components/shared/OmniBackground.tsx:98-116 | with no eligible node the slot and lastPulseTime are unchanged; otherwise the slot holds a pulse at the chosen node's position with startTime = time and duration 3500, and lastPulseTime = time; nothing else changes |
| OmniBackground.BackgroundLoop.Frame | src/components/shared/OmniBackground.tsx:125-243 | drift is Still exactly with reduced motion, else the drift phase of now − startTime; without reduced motion an expired pulse is dropped first; then a pulse starts only if motion is allowed, the slot is free and now − lastPulseTime > 12000 strictly; an unexpired pulse survives; with reduced motion nothing changes |
| OmniBackground.BackgroundLoop.Resize | src/components/shared/OmniBackground.tsx:41-48 | runs only while the resize listener is registered; only width, height and the canvas size change, to the new viewport; grid and pulse state are untouched |
| OmniBackground.BackgroundLoop.StartupTimer | src/components/shared/OmniBackground.tsx:258 | the one-shot timer triggers a pulse with no slot, interval or reduced-motion check, and is spent |
| OmniBackground.BackgroundLoop.Dispose | src/components/shared/OmniBackground.tsx:262-268 | removes the resize listener and cancels the requested frame, idempotently; the start-up timer is left pending |
| Seqs.Filter | src/components/shared/OmniBackground.tsx:99 | `filter` (also RequestPilotAccessForm.tsx:77) is no longer than its input, keeps only elements that pass, and keeps an input element exactly when it passes |
| Seqs.FilterIsSubsequence | src/components/RequestPilotAccessForm.tsx:77 | `filter` keeps its survivors in their original relative order |
| Seqs.FilterMultiset | src/components/RequestPilotAccessForm.tsx:77 | `filter` keeps every occurrence of a passing value and none of a failing one |
| PilotForm.Toggle | src/components/RequestPilotAccessForm.tsx:76-78 | after a toggle the toggled value is present exactly when it was absent, and every other value's membership is unchanged |
| PilotForm.ToggleAppendsAbsent | src/components/RequestPilotAccessForm.tsx:78 | toggling an absent value appends it at the end, the existing elements and their order unchanged |
| PilotForm.ToggleRemovesPresent | src/components/RequestPilotAccessForm.tsx:76-77 | toggling a present value removes every occurrence and keeps all other elements, with multiplicity, in their original order |
| PilotForm.ToggleTwiceAbsent | src/components/RequestPilotAccessForm.tsx:76-78 | toggling an absent value twice gives back the original list |
| PilotForm.Join | src/components/RequestPilotAccessForm.tsx:59 | `join` of no parts is empty, of one part is that part; for two or more parts it begins with the first part followed by the separator, and its length is at least (parts − 1) × separator length |
| PilotForm.JoinEmpty | src/components/RequestPilotAccessForm.tsx:59 | with a non-empty separator the join is empty exactly for `[]` and `[""]` |
| PilotForm.ComplianceText | src/components/RequestPilotAccessForm.tsx:59 | the compliance value is "None specified" for `[]` (and `[""]`), and the selections joined with ", " otherwise |
| PilotForm.MailBody | src/components/RequestPilotAccessForm.tsx:53-60 | the body begins with the title line, an empty line and the Email line, and ends with a line break |
| PilotForm.MailBodyLines | src/components/RequestPilotAccessForm.tsx:53-60 | with field values free of line breaks, the body's lines are exactly: title, empty line, Email, Company/Organization, Use Case, Timeline, Compliance Requirements, then the empty rest after the final line break |
| PilotForm.Form.constructor | src/components/RequestPilotAccessForm.tsx:37-45 | a new form has all fields empty, no compliance selections and neither flag set |
| PilotForm.Form.HandleComplianceChange | src/components/RequestPilotAccessForm.tsx:73-80 | only the compliance list changes, to its toggle; email, company, use case and timeline are unchanged |
| PilotForm.Form.HandleSubmit | src/components/RequestPilotAccessForm.tsx:47-71 | submitting sets isSubmitting, yields the mail body of the current fields and schedules one delayed completion |
| PilotForm.Form.CompleteSubmission | src/components/RequestPilotAccessForm.tsx:66-70 | the delayed completion clears isSubmitting, sets isSubmitted and runs the success callback exactly when one was given |
| PilotForm.Form.ResetForm | src/components/RequestPilotAccessForm.tsx:82-91 | reset clears isSubmitted and every field |
| RequestAccessModal.TriggerAfterOpen | src/hooks/useRequestAccessModal.ts:31-33 | the stored trigger is replaced by the event's current target when that is an element, and kept otherwise (also when there is no event) |
| RequestAccessModal.Modal.constructor | src/hooks/useRequestAccessModal.ts:10-27 | mounting starts closed with no trigger, registers the hashchange listener and opens exactly when the initial fragment is `#request-access` |
| RequestAccessModal.Modal.CheckHash | src/hooks/useRequestAccessModal.ts:15-19 | the modal is open afterwards exactly when it was open or the fragment is exactly `#request-access`; it never closes |
| RequestAccessModal.Modal.HashChanged | src/hooks/useRequestAccessModal.ts:25 | a fragment navigation adds one history entry and, while the listener is registered, opens on `#request-access` |
| RequestAccessModal.Modal.Unmount | src/hooks/useRequestAccessModal.ts:26 | the hashchange listener is removed |
| RequestAccessModal.Modal.OpenModal | src/hooks/useRequestAccessModal.ts:29-38 | pushes exactly one history entry (same path and query, fragment `#request-access`), opens, and updates the trigger only for an element target |
| RequestAccessModal.Modal.CloseModal | src/hooks/useRequestAccessModal.ts:40-50 | replaces the current entry by path+query without fragment (history length and earlier entries unchanged), closes, focuses the stored trigger if any (none otherwise) and clears it |
| RequestAccessModal.Modal.HandleRequestAccessClick | src/hooks/useRequestAccessModal.ts:53-56 | the event's default action is prevented and the state changes exactly as OpenModal's with that event |
| RequestAccessModal.Modal.ClickThenClose | src/hooks/useRequestAccessModal.ts:29-56 | a click on an element followed by close leaves one extra history entry for the same page without fragment, earlier entries intact, the modal closed and focus returned to the clicked element |
| UserPrefs.PreferredIn | src/lib/userPrefs.ts:5-13 | the result is Email exactly when the stored item is "email"; a missing key, any other string or a throwing store give Call |
| UserPrefs.LocalStorage.GetPreferredAction | src/lib/userPrefs.ts:5-13 | reading the handle's store gives Email exactly when the stored item is "email", and Call otherwise |
| UserPrefs.RecognisedValues | src/lib/userPrefs.ts:7-8 | a stored string is returned as the action it encodes exactly when it is "call" or "email" |
| UserPrefs.WithPreferred | src/lib/userPrefs.ts:15-21 | a write never turns a throwing store into a working one or back; on a working store the key holds the action's string |
| UserPrefs.ReadAfterWrite | src/lib/userPrefs.ts:5-17 | with a working store, reading after writing an action gives that action |
| UserPrefs.UnavailableStore | src/lib/userPrefs.ts:5-21 | a throwing store is left as it is by a write (the failure is swallowed) and reads as Call |
| UserPrefs.OnlyKeyTouched | src/lib/userPrefs.ts:3-17 | a write changes no key other than `omni_preferred_action` |
| UserPrefs.LastWriteWins | src/lib/userPrefs.ts:15-17 | two writes in a row leave the store as the last write alone |
| UserPrefs.LocalStorage.SetPreferredAction | src/lib/userPrefs.ts:15-21 | the store handle is updated to the written store, after which a working store reads back the action |

## Left out

- The mount's early return is not modelled. When the canvas element or its 2D context is missing, the source creates no grid, listener, timer or frame (src/components/shared/OmniBackground.tsx:32-36). The `BackgroundLoop` constructor always mounts.
- Canvas painting is not modelled: the gradient, edge strokes, node opacity and glow, the ring and origin glow, and the vignette. They are floating-point geometry over the canvas API. A frame reports only its drift phase.
- The sin/cos drift offsets are left out. `Drift` carries only the phase, and the offset is (0, 0) exactly when it is `Still`.
- Floating-point rounding is not modelled. The box test `width * 0.2` and the division by 1000 are exact real arithmetic.
- The host scheduler is not modelled: `requestAnimationFrame`, `setTimeout`, `matchMedia` and the window listeners.
  - A frame, the start-up timer and a resize are method calls the caller makes.
  - `Frame` requires a requested frame.
  - The re-request at the end of each frame, and the start-up timer's 3000 ms delay, are not separate state.
- The reduced-motion preference change is a teardown and a new `BackgroundLoop`, not a method.
- The node coordinates are modelled exactly. Eligibility is the concrete box test on them, not an abstract predicate.
- The `"col,row"` string key of the lookup is a `Cell(col, row)` value. The string encoding is injective on integer pairs, so the lookup behaves the same.
- `encodeURIComponent`, the mail link's URL and the navigation to it are not modelled (library encoding and I/O). `HandleSubmit` returns the unencoded body.
- The per-field `onChange` handlers of the form are not modelled; they are JSX event plumbing.
- The form's JSX, with `disabled={isSubmitting}` on the submit button, is not modelled. That is why `HandleSubmit` has no precondition on `isSubmitting`.
- Objects, DOM focus and React re-rendering are not modelled. The trigger element is its id, and `CloseModal` returns the id that receives focus.
- Back and forward navigation through the history is not modelled; the current entry is always the last one. A `hashchange` is modelled only as a navigation to a new fragment on the same page (`HashChanged`).
- The store's other failure modes are not modelled (quota, serialisation). Every access either works on a map or throws.
