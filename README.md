# bv_extract in Dafny

A verified model of the decision logic of a browser extension that copies the
BV number (a video identifier) out of video links. The extension has three parts.
The content script runs in the page. It extracts the identifier from a clicked
link, keeps the copied-identifier history and decorates copied links. The
background worker keeps a per-tab liveness table and badge. The popup toggles the
mode, clears the history, copies it, and checks whether the content script is alive.

Files:

- `wrappers.dfy`: `Option`.
- `text.dfy`: `\w` characters, `startsWith`, substring search (what `[href*=...]` does), `join`/`split` on one character.
- `platform.dfy`: message names and reply records, the persisted store `{isBVModeEnabled, bvHistory}`, and what the storage wrappers return when a call fails.
- `history.dfy`: extraction with `/\/video\/(BV\w+)/` and the history update `[bv, ...h].slice(0, 50)`.
- `decoration.dfy`: links as values (`href`, the `bv-copied` class, overlay none/plain/copied, check-mark count, copy cursor), and what marking, clearing and the mode affordance do to them.
- `content_script.dfy`: class `ContentAgent`. It holds the mode flag and the click listener, and keeps the page's links in an `array` that its loops update in place.
- `background.dfy`: class `Coordinator`. It holds the liveness table and the badge maps, with one method per event listener.
- `popup.dfy`: how the popup classifies message outcomes and builds its view, plus class `PopupView` with one method per handler.

How the browser is abstracted:

- Storage is a `Store` value that is passed in and returned.
- Each storage call gets a flag: `readOk`/`writeOk` means the extension context is valid and the platform reported no error.
- A failed read yields `{}`. A failed write leaves the store unchanged.
- A content-script message is sent only when `contextValid` holds.
- A popup message's fate is an input `Delivery`: replied, rejected with a message, or lost the 2-second race.
- The current time is the `now` parameter.

## Model

| member | source | states |
|---|---|---|
| Text.ContainsIff | contentScript.js:131 | the selector test `href*=` holds exactly when the string occurs at some index of the href |
| History.ExtractBv | contentScript.js:204-205 | definition of `url.match(/\/video\/(BV\w+)/)?.[1]`; its meaning is stated by `History.ExtractBvSpec` and `History.CaptureShape` |
| History.NewHistory | contentScript.js:215 | definition of `[bv, ...h].slice(0, 50)`; its meaning is stated by `History.NewHistoryShape` |
| History.AddToHistory | contentScript.js:214-215 | definition of the `includes`-guarded update; its meaning is stated by `History.AddToHistorySpec` |
| History.WordRun | contentScript.js:204 | `\w+` is greedy: the run is all word characters and stops at the first non-word character or the end |
| History.CaptureShape | contentScript.js:204-207 | the captured identifier is `BV` plus at least one word character, sits right after `/video/`, and is followed by a non-word character or the end |
| History.ExtractBvSpec | contentScript.js:204-205 | extraction gives nothing exactly when the pattern matches nowhere, and otherwise gives the capture at the leftmost match |
| History.ExtractAtFirstMatch | contentScript.js:204-207 | whatever the leftmost match is, extraction returns its capture |
| History.ExtractExample | contentScript.js:204-207 | `https://x.test/video/BV1xx411c7mD` yields exactly `BV1xx411c7mD` |
| History.NewHistoryShape | contentScript.js:215 | the new identifier comes first, the old entries follow in their order, and the length is min(old length + 1, 50) |
| History.NewHistoryDistinct | contentScript.js:214-215 | prepending an absent identifier to a duplicate-free history keeps it duplicate-free |
| History.AddToHistorySpec | contentScript.js:214-216 | after a copy the identifier is in the history; an identifier already present leaves the history unchanged; the result stays within 50 entries and duplicate-free |
| History.AddAllInvariant | contentScript.js:214-216 | after any sequence of copies the history has at most 50 entries, no duplicates, and contains the last identifier copied |
| Decoration.MarkLink | contentScript.js:134-179 | definition of marking one link; see `Decoration.MarkLinkSpec` |
| Decoration.Marked | contentScript.js:129-184 | definition of `markCopiedVideo` on the page; see `Decoration.MarkedSpec` |
| Decoration.MarkedByAll | contentScript.js:187-199 | definition of marking a whole history in order; see `Decoration.MarkedByAllSpec` |
| Decoration.Cleared | contentScript.js:350-365 | definition of the two clearing passes; see `Decoration.ClearedSpec` |
| Decoration.Afforded | contentScript.js:94-120 | definition of the affordance on one video link; see `Decoration.ToggleOnThenOff` and `Decoration.FeedbackWellFormed` |
| Decoration.Feedback | contentScript.js:92-126 | definition of the effect of `setVisualFeedback`; see `Decoration.ToggleOnThenOff` and `Decoration.FeedbackWellFormed` |
| Decoration.MarkLinkSpec | contentScript.js:134-179 | marking adds the class, adds a check mark only if none exists, upgrades an existing overlay, creates a copied overlay only when none exists and the mode is on, and keeps the link well formed |
| Decoration.MarkedSpec | contentScript.js:131-133 | marking an identifier changes exactly the links whose href contains `/video/<bv>` and no others |
| Decoration.MarkIdempotent | contentScript.js:134-179 | marking twice equals marking once |
| Decoration.MarkReachesLongerIds | contentScript.js:131 | a link of a longer identifier that starts with `bv` is also selected by `bv` (substring match) |
| Decoration.SelectedHasAffordance | contentScript.js:131 | a link selected by an extracted identifier is also a link that gets the mode affordance (`a[href*="/video/BV"]`) |
| Decoration.MarkedByAllSpec | contentScript.js:187-199 | marking a whole history marks exactly the links that some entry selects, each once, and leaves the rest unchanged |
| Decoration.MarkedWellFormed | contentScript.js:134-179 | marking keeps every link consistent (copied overlay only on copied links, one check mark exactly on copied links) |
| Decoration.ClearedSpec | contentScript.js:350-365 | after clearing, no link has a check mark, the copied class or a copied overlay; plain overlays stay and URLs are unchanged |
| Decoration.ToggleOnThenOff | contentScript.js:92-120 | turning the mode on and then off removes every affordance overlay and the copy cursor, and leaves copy marks as the first toggle left them; a link that is neither a video link nor selected by the history comes back unchanged |
| Decoration.FeedbackWellFormed | contentScript.js:92-126 | applying or removing the affordance keeps every link consistent |
| ContentScript.ContentAgent.constructor | contentScript.js:3 | the script starts with the mode off and no click listener |
| ContentScript.ContentAgent.MarkCopiedVideo | contentScript.js:129-184 | the in-place loop leaves the page equal to the marked page and keeps the invariant |
| ContentScript.ContentAgent.MarkHistory | contentScript.js:191-195 | marking each history entry in turn leaves the page marked by the whole history |
| ContentScript.ContentAgent.MarkAllCopiedVideos | contentScript.js:187-199 | the stored history is marked; a failed read leaves every link as it was |
| ContentScript.ContentAgent.ClearCopiedMarks | contentScript.js:350-371 | the two passes leave the page cleared; the mode and the store are untouched |
| ContentScript.ContentAgent.SetVisualFeedback | contentScript.js:92-126 | video links get or lose the affordance, and when enabled the stored history is marked again |
| ContentScript.ContentAgent.ToggleBVMode | contentScript.js:310-327 | the flag becomes `e`; the listener is registered exactly when `e`; the affordance follows `e` |
| ContentScript.ContentAgent.GetAndCopyBV | contentScript.js:202-246 | with no match nothing is read, written, sent or marked; otherwise the identifier is returned; a new one is written as `[bv, ...h].slice(0, 50)` and announced with `BV_COPIED`; a known one writes and sends nothing; a failed write leaves the store as it was; the links are marked either way |
| ContentScript.ContentAgent.HandleVideoClick | contentScript.js:298-307 | a click does nothing while the mode is off or outside a video link; otherwise it suppresses navigation and has exactly the effect of copying from the link's URL: the identifier, the history update `[bv, ...h].slice(0, 50)` when it is new, the `BV_COPIED` message, and the marked links |
| ContentScript.ContentAgent.OnMessage | contentScript.js:330-347 | toggle replies success after toggling, clear replies success after clearing, the liveness check replies alive with version 1.0, other actions get no reply and change nothing |
| ContentScript.ContentAgent.OnDomSettled | contentScript.js:374-383 | a settled mutation batch re-applies the affordance when the mode is on and re-marks the history when it is off |
| ContentScript.ContentAgent.Initialize | contentScript.js:416-456 | the stored flag is applied only if defined; the history is marked in any mode; the loaded message is sent only with a valid context |
| Platform.StorageGet | contentScript.js:31-52 | definition of the read wrapper (the stored values, or `{}` on failure); its properties are stated by the three lemmas below |
| Platform.SetHistory | contentScript.js:55-76 | definition of the `bvHistory` write (unchanged store on failure); see the lemmas below |
| Platform.SetModeFlag | popup.js:21-37 | definition of the `isBVModeEnabled` write (unchanged store on failure); see the lemmas below |
| Platform.HistoryRoundTrip | contentScript.js:31-76 | a successful history write reads back as written and leaves the mode flag as it was |
| Platform.ModeFlagRoundTrip | popup.js:1-37 | a successful flag write reads back as written and leaves the history as it was |
| Platform.FailedCallsAreSafe | contentScript.js:31-76 | the wrappers fail safe: a failed read gives an empty history and mode off whatever is stored; a failed write changes nothing |
| Background.StampHttpTabs | background.js:12-19 | definition of the install-time badge loop; see `Background.StampHttpTabsSpec` |
| Background.ProbeTargets | background.js:85-87 | definition of the sweep's filter; see `Background.ProbeTargetsSpec` |
| Background.StampHttpTabsSpec | background.js:12-19 | stamping sets the badge of exactly the tabs with an http URL and leaves every other entry unchanged |
| Background.ProbeTargetsSpec | background.js:85-87 | a tab is probed exactly when its id is non-zero and its URL starts with `http` |
| Background.Coordinator.constructor | background.js:3 | the table starts empty |
| Background.Coordinator.OnInstalled | background.js:6-21 | an `update` gives every http tab the green `NEW` badge; any other reason changes nothing; the table is untouched |
| Background.Coordinator.OnMessage | background.js:24-54 | no sender tab id means no change and no reply; the loaded message sets `table[t] := (true, now)`, clears t's badge and replies `background_received`; `BV_COPIED` replies success and changes nothing |
| Background.Coordinator.OnRemoved | background.js:57-61 | the tab's record is removed and every other record stays |
| Background.Coordinator.OnUpdated | background.js:64-73 | a completed http load sets the red `!` badge exactly when the tab has no record or a disconnected one |
| Background.Coordinator.OnClicked | background.js:76-80 | the tab's badge text is cleared and the table is untouched |
| Background.Coordinator.Sweep | background.js:83-89 | the sweep probes exactly the filtered active tabs, in order |
| Background.Coordinator.OnProbeReply | background.js:90-98 | an alive reply sets `table[t] := (true, now)`, creating the record if absent; nothing else changes |
| Background.Coordinator.OnProbeFailure | background.js:99-107 | a connected tab becomes disconnected with its `lastActive` kept and gets the `!` badge; otherwise nothing changes |
| Background.LivenessScenario | background.js:90-106 | after a load, two failed probes and an alive probe, the tab is connected again but its badge still reads `!` |
| Popup.SafeSendMessage | popup.js:40-63 | the outcome is an error exactly when there is no active tab or the send did not reply; the target is the given id if truthy, else the active tab; the error kinds are `no_active_tab`, the rejection message or `通信失败`, and `timeout` |
| Popup.ToggleErrorText | popup.js:317 | the failure reason is `连接超时` for `timeout` and the raw error otherwise |
| Popup.ToggleViewOf | popup.js:88-101 | definition of the toggle's class and label; see `Popup.ToggleViewSpec` |
| Popup.Rows | popup.js:121-130 | definition of the table rows; see `Popup.RowsSpec` |
| Popup.CopyAllText | popup.js:171-176 | definition of the copy-all text; see `Popup.CopyAllRoundTrip` |
| Popup.ToggleViewSpec | popup.js:88-101 | the button is active and reads `关闭BV获取模式` exactly when the mode is on |
| Popup.RowsSpec | popup.js:121-130 | there is one row per entry, numbered index+1, and the identifier column reads back as the history |
| Popup.CopyAllRoundTrip | popup.js:171-176 | the copied block splits on newlines back into the history when no entry holds a newline |
| Popup.ExtractedHasNoNewline | contentScript.js:204 | an extracted identifier holds no newline, so a history of extracted identifiers round-trips through copy-all |
| Popup.PopupView.UpdateUI | popup.js:88-101 | the toggle shows the view for the given state |
| Popup.PopupView.UpdateBVList | popup.js:104-132 | an absent or empty list shows the empty state and hides the table and the clear button; otherwise one row per entry is shown |
| Popup.PopupView.SendMessage | popup.js:40-63 | the outcome is the classification above, and a notice appears only when there is no active tab |
| Popup.PopupView.HandleModeToggle | popup.js:303-347 | the new state is the negated stored flag (absent gives true); it is persisted and shown whatever the send outcome, so a failure never rolls it back; a failed read toggles to on; a failed write leaves the store unchanged; on failure the reason is reported and a refresh button is added only if none exists |
| Popup.PopupView.ClearBVList | popup.js:350-366 | `[]` is persisted (the store is unchanged when the write fails) and the empty list is shown whatever the outcome; only the notice differs on error |
| Popup.PopupView.HandleCopyAll | popup.js:168-201 | an empty or absent history copies nothing and reports it; otherwise the history joined by newlines is copied and its length reported; a failed read copies nothing |
| Popup.PopupView.CheckContentScriptStatus | popup.js:228-300 | with no active tab it returns false and adds nothing; otherwise it returns true exactly when the reply says alive, with a green or red indicator, and adds a refresh button when not alive |
| Popup.PopupView.OnRuntimeMessage | popup.js:408-423 | every message is answered success; `BV_COPIED` re-renders the list from storage (empty state, table and clear button follow whether the history is empty); other messages change no view state |
| Popup.PopupView.Initialize | popup.js:369-405 | the result is true exactly when there is an active tab and its probe replies alive; the indicator and refresh buttons follow the liveness check; the toggle shows `isBVModeEnabled \|\| false`; the list, table and clear button follow `bvHistory` (default `[]`); no notice is added |

Two behaviours of the liveness code are worth knowing:

- A successful probe after a disconnection does not clear the `!` badge (background.js:91-96). `Background.LivenessScenario` proves it.
- A single failed probe on a connected tab already sets the badge (background.js:101-105).

## Left out

- The clipboard (`navigator.clipboard`, the hidden-textarea `execCommand` fallback) and the popup's per-row copy (`handleBVCopy`) are browser side effects. The model returns the text that would be copied.
- Notification text, the single-notification slot of the content script and the 2-second removal timers are presentation. Popup notices are a `Notice` datatype; only the toggle failure reason is kept as text. Content-script notices are not modelled.
- `debounce`, the timing of `setVisualFeedback` and the `MutationObserver` are timer- and event-driven. Each is modelled by its effect, applied at once. The page is a fixed array: links inserted later are not modelled.
- CSS and style injection, including the cursor and overlay styles, are presentation. Only whether the copy cursor is set is kept.
- The `Promise.race` timeout is an input. The cross-component read-modify-write race on `bvHistory` is concurrency, so each handler is modelled as running alone.
- Every content-script wrapper checks the extension context first (contentScript.js:17, 32, 56). So the content-script handlers require that an invalid context makes reads and writes fail.
- ContentScript.ContentAgent.Initialize: `main` reads `isBVModeEnabled` (contentScript.js:419) and later `bvHistory` (contentScript.js:189) in two separate calls. The model gives both reads one `readOk`, so it does not cover one read succeeding while the other fails.
- The `chrome.*` APIs are replaced by the `Store` value, the ok flags, the badge maps and the `Delivery` input.
- The storage-error catch path of `getAndCopyBV` (contentScript.js:247-252) is unreachable because the wrappers never throw.
- The `catch` branches that reply `{status: 'error'}` or show an error (contentScript.js:342-345, background.js:48-51, popup.js:275-298 and 418-421) are unreachable because nothing in the modelled handlers throws.
- A rejected `chrome.tabs.query` inside the popup's `safeSendMessage` (popup.js:59-61) is not modelled.
- The unused popup `initialize`/`updateStatusText` (popup.js:70-85) are never called.
- The window `error` handlers (popup.js:426-431, contentScript.js:447-453) only show notices.
- The HTML string and its escaping in `updateBVList` are presentation. Rows are `(number, identifier)` records.
- The refresh button's click action (reload the tab, close the popup) is not modelled; only the number of refresh buttons is kept.
- A history entry containing characters that break the CSS selector would make `querySelectorAll` throw, and the `catch` would mark nothing. The model treats every entry as a plain substring, which is faithful for every identifier that extraction produces.
- The model keeps one href per link for both the `href` attribute the selectors test and the `anchor.href` property the click handler reads.
- The model allows at most one overlay per link. The source never creates a second one.
- A `TOGGLE_BV_MODE` message without `enabled` stores `undefined` in the source's flag. The model stores `false`, which every truthiness test treats the same way.
- When a tab closes, the browser discards its badge. The model's badge maps keep the entry.
- Both the background and the open popup answer runtime messages, and the popup answers every action with success. Which reply reaches the sender first is concurrency and is left out.
- Popup.PopupView.constructor: popup.html is not part of this model, so the popup's initial markup is abstracted as a default view.
