# Google Maps Enhanced Edits: status filter model

This project models the status filter of the "Google Maps Enhanced Edits"
userscript (`gmee.user.js`). The script adds a small panel to the
contributions list on Google Maps. The panel has one button per edit status
("Accepted", "Pending", "Not Accepted") that occurs in the list. Clicking a
button hides every titled edit whose trimmed title does not start with the
status's three-letter prefix; edits without a title are never hidden.
Whenever the list's children change, the buttons are reconciled with the
statuses present, and the filter is re-applied.

The model has three layers:

- `Titles` (titles.dfy): the text rules. These are the trim applied to a
  title, the match prefix of a status name, the display decision for one
  item, and the set of three-character title prefixes. The prefix rule
  gives `"Not"` for names starting with "Not" and the first three
  characters otherwise. `StatusPrefix` proves the special case is the same
  as the general rule: the prefix is always the first three characters.
  This is why filtering and presence detection agree
  (`FilterAgreesWithPrefix`, `PresentIffSomeItemShown`).
- `Reconciler` (reconciler.dfy): `updateButtons` stated on values. A
  `Panel` holds the filter, the status-to-button map, the button container
  order and the next button id. `Step` is one iteration over `STATUSES`.
  `Reconcile` folds `Step` over a list of names. Lemmas state what the
  reconciliation guarantees: which buttons exist, that existing buttons
  keep their identity and order, when the filter is cleared, that a second
  pass changes nothing, and that the panel invariant is kept.
- `EditsPanel` (edits_panel.dfy): the script's mutable state as the class
  `EditsFilter`. It has `currentFilter`, `shownStatuses`, the button
  container `buttons`, a button id counter, the items' titles as an array
  and their display flags as an array. The methods `FilterEdits`,
  `UpdateButtons` (with the per-status callback `ReconcileStatus`), `Click`
  and the observer body `Sync` update this state in place. Each method is
  proved against `Reconcile` and `Displayed`.

A DOM button is modelled by a natural-number id taken from a counter, so
"the same button" can be stated as "the same id". An item's
`.fontTitleSmall` element is modelled as `Option<string>`: `None` when
absent, otherwise its `innerText`. `style.display` is modelled as a boolean:
true for `''`, false for `'none'`.

The button click always sets the filter; clicking the active status again
does not clear it (gmee.user.js:100-103).

## Model

| member | source | states |
|---|---|---|
| Titles.Trim | gmee.user.js:38 | The trimmed title neither starts nor ends with whitespace (the white-space and line-terminator characters `trim` strips). It is an infix of the title, and everything cut off on either side is whitespace. |
| Titles.TitlePrefix | gmee.user.js:80-81 | An item's prefix is the first three characters of its trimmed title (all of it when shorter). |
| Titles.Displayed | gmee.user.js:34-38 | An untitled item keeps its display flag. With no prefix a titled item is shown. With a prefix of at most three characters, a titled item is shown exactly when its three-character title prefix starts with the prefix. `FilterAgreesWithPrefix` relates it to presence. |
| Titles.TitlePrefixes | gmee.user.js:77-84 | Every prefix in the set is non-empty and at most three characters long (the `filter(Boolean)` drops empty ones). `PresentIffSomeItemShown` characterises membership. |
| Titles.Present | gmee.user.js:86-87 | A status is present exactly when the first three characters of its name are among the title prefixes. `PresentIffSomeItemShown` states it in terms of the items. |
| Titles.StatusPrefix | gmee.user.js:86 | The status prefix is a prefix of the name. It is always its first three characters (all of it when shorter), so the "Not" special case agrees with slicing. |
| Titles.FilterPrefix | gmee.user.js:30-32 | There is no prefix exactly when the filter is null or empty. Otherwise the prefix is the filter name's first three characters (all of it when shorter), and is non-empty. |
| Titles.StatusPrefixesDistinct | gmee.user.js:20-24 | Every status name has at least three characters. The three statuses have the distinct prefixes "Acc", "Pen" and "Not". |
| Titles.FilterAgreesWithPrefix | gmee.user.js:81-87 | A title passes a status's filter if and only if its three-character trimmed prefix equals the status's prefix. Filtering and presence detection use the same rule. |
| Titles.PresentIffSomeItemShown | gmee.user.js:77-87 | A status counts as present if and only if some titled item would be shown when filtering by that status. |
| Reconciler.Step | gmee.user.js:86-115 | One status's step gives the status a button exactly when it is present and leaves every other status's membership alone. Kept buttons keep their ids, the filter is either kept or cleared, and the counter never decreases. `StepWellFormed` and the `Reconcile*` lemmas state the rest. |
| Reconciler.Reconcile | gmee.user.js:85-116 | The forEach over a list of statuses never decreases the counter and never sets the filter to a new value, only keeps or clears it. `ReconcileKeys`, `ReconcileKeepsIds`, `ReconcileButtonOrder`, `ReconcileFilter` and `ReconcileIdempotent` specify it. |
| Reconciler.Without | gmee.user.js:109 | Removing a button leaves exactly the other buttons. |
| Reconciler.StepWellFormed | gmee.user.js:85-116 | One status's reconciliation keeps the panel invariant. Only known statuses have buttons, and each has its own button. The container holds exactly those buttons once each. Ids are below the counter. The filter is null or a shown status. |
| Reconciler.ReconcileWellFormed | gmee.user.js:85-116 | Reconciling known statuses in order keeps the panel invariant. |
| Reconciler.ReconcileKeys | gmee.user.js:87-110 | After reconciling, a reconciled status has a button if and only if it is present. Any other status has a button if and only if it had one before. |
| Reconciler.ButtonsMatchPresentStatuses | gmee.user.js:77-116 | After a pass over STATUSES, the statuses with buttons are exactly the STATUSES names whose prefix occurs among the trimmed title prefixes. Unknown prefixes never create buttons. |
| Reconciler.ReconcileKeepsIds | gmee.user.js:88-106 | A status that keeps its button keeps the same button id. A newly created button has an id no earlier button had. The counter never decreases. |
| Reconciler.ReconcileButtonOrder | gmee.user.js:104-109 | Surviving buttons stay at the front of the container in their old relative order. Every button after them is newly created, and the new buttons are in creation order (increasing ids). |
| Reconciler.ReconcileFilter | gmee.user.js:107-115 | The active filter becomes null exactly when its status had a button, was reconciled and is no longer present. Otherwise the filter is unchanged. |
| Reconciler.ReconcileStable | gmee.user.js:85-116 | If every reconciled status already has a button exactly when it is present, reconciling changes nothing. |
| Reconciler.ReconcileIdempotent | gmee.user.js:76-117 | Reconciling twice against the same items gives the same panel as reconciling once. |
| Reconciler.UpdateOutcome | gmee.user.js:76-117 | For a panel that keeps the invariant, one pass over STATUSES keeps the invariant. Exactly the present statuses have buttons, kept buttons keep their ids and order, and new buttons are appended in creation order. The filter is cleared exactly when its status vanished. |
| EditsPanel.EditsFilter.constructor | gmee.user.js:148-152 | Setup starts with no filter and an empty button container. It then reconciles once, so exactly the present statuses have buttons and no display flag changes. |
| EditsPanel.EditsFilter.FilterEdits | gmee.user.js:27-40 | Items without a title keep their display flag. With no filter every titled item is shown. With a filter, a titled item is shown exactly when its trimmed title starts with the filter's prefix. Nothing but the display flags changes. |
| EditsPanel.EditsFilter.ReconcileStatus | gmee.user.js:85-116 | One status's callback performs exactly `Step`. The display flags change only when it clears the active filter, and then every titled item is shown. |
| EditsPanel.EditsFilter.UpdateButtons | gmee.user.js:76-117 | The new panel is the reconciliation of the old one. Buttons exist for exactly the present statuses, with kept ids and order, and new buttons are appended in creation order. A filter whose status vanished is cleared and every titled item is re-shown. Otherwise the filter and all display flags are unchanged. |
| EditsPanel.EditsFilter.Click | gmee.user.js:100-103 | Clicking a shown status's button sets the filter to that status, even when it is already active, and re-filters by its prefix. The buttons are unchanged and the invariant is kept. |
| EditsPanel.EditsFilter.Sync | gmee.user.js:153-156 | The observer body reconciles the buttons. If a filter was set, the display flags are then the filter's result. If no filter was set, they are unchanged. |
| EditsPanel.EditsFilter.ChildListChanged | gmee.user.js:153-157 | After a child-list change the panel tracks the new items. Buttons and filter are reconciled against them and the observer body runs. |

## Left out

- `makeDraggable` (gmee.user.js:43-73): pointer-event dragging of the popup, which is presentation only.
- `createPopup` (gmee.user.js:120-144) and the button styling (gmee.user.js:89-99): DOM construction and colours. Buttons are ids and the container is a sequence of ids.
- `watchForContainer` and `init` (gmee.user.js:147-179): the `readyState` check, the body observer that waits for the container, and the class-name lookup of the fourth `m6QErb XiKgde` element. The model starts once the container is found (the constructor). Each child-list notification is a call to `ChildListChanged`.
- EditsPanel.EditsFilter.FilterEdits: the source looks the container up again (gmee.user.js:28-29) and returns when it is missing. The model assumes it finds the same container that `updateButtons` scans.
- `innerText` and `querySelector`: a title is taken as the given string, with no rendering or CSS effects.
- EditsPanel.EditsFilter.Click: a click can only reach a button in the container, so the method requires the status to have a button.
