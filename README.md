# site.js controllers, modelled in Dafny

`scripts/site.js` is the enhancement script of a static site. Its event
handlers are small state machines over the page. This project models them
over an abstract page state: DOM lookups become indices into sequences, and
attributes and styles become fields. The modelled handlers are:

- the **detail-panel accordion** (`togglePanel` with its click and
  Enter/Space keydown listeners);
- the **preview modal** (`openPreview`, `closePreview`, and the backdrop,
  close-button and Escape dismissals);
- the **card filter** (`applyFilter`);
- the **preview-link detection and insertion** loop;
- the **theme switch** (persisted as `"dark"`/`"light"`) and the
  **mobile menu** toggle.

Each imperative handler is a class whose fields are the state the script
writes. The accordion, modal, filter and link-insertion methods are proved
equal to a pure transition function on a datatype
(`State() == Toggle(old(State()), b)`, and so on). The theme and menu
methods state their new fields directly. The properties
are lemmas about those functions. The pure parts (the per-card match, the
`.html`/`.htm` test) are functions.

Files: `dom.dfy` (shared types), `text.dfy` (ASCII `toLowerCase`, `trim`,
`includes`, `endsWith`), `accordion.dfy`, `card_filter.dfy`,
`preview_links.dfy`, `preview_modal.dfy`, `toggles.dfy`.

Points where the behaviour is easy to misread (the model follows the code):

- A preview button opens the modal with the **link** `a` as its focus anchor,
  not the button itself (scripts/site.js:127). `PreviewLinks.PreviewButtonRoundTrip`
  proves focus returns to the link.
- `togglePanel` resolves `aria-controls` again on every activation. Buttons
  whose panel is missing are not dropped at start-up; each activation of one
  is a no-op.
- A collapsing activation closes only its own pair. "At most one managed
  panel visible" is preserved by every activation on its own
  (`Accordion.RunKeepsAtMostOneOpen`), and so is "at most one button
  expanded" (`Accordion.RunKeepsAtMostOneExpanded`);
  `Accordion.RunKeepsExclusive` is their conjunction. Every
  opening activation establishes both (`Accordion.OpeningIsExclusive`), so
  both hold from the first opening on (`Accordion.ExclusiveAfterOpening`).
  Neither holds of an arbitrary page as loaded.
- `lastFocused` is never cleared. An Escape long after a close still moves
  focus back to the last previewed link (`PreviewModal.StrayEscapeRefocuses`).
- On load the theme code only adds the `dark` class. A body that already has
  it stays dark whatever was saved (`Toggles.DarkOnLoad`).
- `closePreview` does not reset the open-in-new link. After a close it still
  points at the last previewed href.

## Model

| member | source | states |
|---|---|---|
| `Dom.BoolStringRoundTrip` | scripts/site.js:78-79 | writing `String(b)` into an attribute and testing it with `=== "true"` gives back `b` |
| `Text.LowerChar` | scripts/site.js:90-92 | no contract; ASCII `toLowerCase` of one character, specified by `ToLowerChars` |
| `Text.ToLower` | scripts/site.js:90-92 | the result has the input's length |
| `Text.ToLowerChars` | scripts/site.js:90-92 | each character of the result is the input's character at that index, with an ASCII capital replaced by its lower-case letter |
| `Text.ToLowerAppend` | scripts/site.js:90-92 | lower-casing a concatenation is concatenating the lower-cased parts |
| `Text.ToLowerIdempotent` | scripts/site.js:90-92 | lower-casing twice is lower-casing once |
| `Text.TrimStart` | scripts/site.js:90 | no contract; specified by `TrimStartSpec` |
| `Text.TrimEnd` | scripts/site.js:90 | no contract; specified by `TrimEndSpec` |
| `Text.Trim` | scripts/site.js:90 | no contract; specified by `TrimEmptyIffAllSpace` and `TrimLowerCommute` |
| `Text.TrimStartSpec` | scripts/site.js:90 | the result is a suffix of the input; everything removed is white space; the result is empty or starts with a non-space |
| `Text.TrimEndSpec` | scripts/site.js:90 | the result is a prefix of the input; everything removed is white space; the result is empty or ends with a non-space |
| `Text.TrimEmptyIffAllSpace` | scripts/site.js:90 | a string trims to `""` if and only if every character is white space |
| `Text.TrimLowerCommute` | scripts/site.js:90 | trimming and lower-casing commute, so the order in `trim().toLowerCase()` does not matter |
| `Text.Includes` | scripts/site.js:93 | no contract; specified by `IncludesIff` |
| `Text.IncludesIff` | scripts/site.js:93 | the left-to-right scan `includes` is true if and only if the substring occurs at some index |
| `Text.IncludesEmpty` | scripts/site.js:93 | every string includes `""` |
| `Text.EndsWith` | scripts/site.js:117-118 | no contract; specified by `EndsWithIff` |
| `Text.EndsWithIff` | scripts/site.js:117-118 | `endsWith(s, t)` holds if and only if `s` is some string followed by `t` |
| `Accordion.PanelOf` | scripts/site.js:21-34 | no contract; `getElementById(aria-controls)`, specified through `ActivationPaths` and `SameShapeControlled` |
| `Accordion.CollapseAll` | scripts/site.js:30-35 | no contract; specified by `OpeningIsExclusive` and `DetailsController.TogglePanel` |
| `Accordion.Toggle` | scripts/site.js:20-40 | activation never changes any button's `aria-controls` resolution, the number of buttons or panels, or any panel's links |
| `Accordion.Step` | scripts/site.js:10-17 | a click or a keydown on a button keeps the same shape |
| `Accordion.Run` | scripts/site.js:9-18 | any sequence of clicks and keydowns keeps the same shape |
| `Accordion.OpeningIsExclusive` | scripts/site.js:28-38 | after opening a collapsed button whose panel resolves, that button is the only `aria-expanded="true"` one; its panel is the only visible managed panel; unmanaged panels are unchanged; focus moves to the panel's first link if there is one, otherwise it stays |
| `Accordion.CollapsingTouchesOnlyItsPair` | scripts/site.js:24-27 | collapsing an expanded button sets it to `"false"` and hides its panel; every other button and panel, and the focus, are unchanged |
| `Accordion.ActivationPaths` | scripts/site.js:11-23 | an unresolved `aria-controls` makes activation a no-op; Enter or Space gives the same state as a click; any other key changes nothing |
| `Accordion.ToggleKeepsExclusive` | scripts/site.js:20-40 | from a state with at most one managed panel open and at most one button expanded, each activation keeps both |
| `Accordion.RunKeepsExclusive` | scripts/site.js:9-40 | from a page with at most one managed panel open and at most one button expanded, both hold after every sequence of clicks and key presses |
| `Accordion.ToggleKeepsAtMostOneOpen` | scripts/site.js:20-40 | from a state with at most one managed panel open, whatever the buttons' `aria-expanded`, each activation keeps at most one open |
| `Accordion.RunKeepsAtMostOneOpen` | scripts/site.js:9-40 | from a page with at most one managed panel open, at most one is open after every sequence of clicks and key presses |
| `Accordion.ToggleKeepsAtMostOneExpanded` | scripts/site.js:20-40 | from a state with at most one button expanded, whatever the panels show, each activation keeps at most one expanded |
| `Accordion.RunKeepsAtMostOneExpanded` | scripts/site.js:9-40 | from a page with at most one button expanded, at most one is expanded after every sequence of clicks and key presses |
| `Accordion.IsOpening` | scripts/site.js:11-28 | no contract; the activation of a collapsed button whose panel resolves, used by `ExclusiveAfterOpening` |
| `Accordion.ExclusiveAfterOpening` | scripts/site.js:9-40 | from any page, after any inputs followed by an opening activation, at most one managed panel is open and at most one button expanded after every later sequence of inputs |
| `Accordion.ReactivationClosesAll` | scripts/site.js:24-37 | opening a collapsed button and then activating it again leaves no button expanded and no managed panel open |
| `Accordion.ToggleKeepsSynced` | scripts/site.js:24-37 | when no two buttons control the same panel, each resolvable button's `aria-expanded` keeps matching its panel's visibility |
| `Accordion.DetailsController.constructor` | scripts/site.js:9 | the controller starts from the page's buttons, panels and focus |
| `Accordion.DetailsController.TogglePanel` | scripts/site.js:20-40 | the in-place loop over all buttons leaves exactly the state `Toggle` describes |
| `Accordion.DetailsController.Handle` | scripts/site.js:10-17 | both listeners go through `TogglePanel`, and only Enter and Space activate |
| `CardFilter.NormalizedQuery` | scripts/site.js:90 | no contract; specified by `BlankQueryShowsAll` and `MatchIgnoresCase` |
| `CardFilter.Matches` | scripts/site.js:92-93 | no contract; specified by `MatchesIff` |
| `CardFilter.DisplayFor` | scripts/site.js:94 | no contract; specified by `BlankQueryShowsAll` |
| `CardFilter.Filtered` | scripts/site.js:89-96 | no contract; specified by `FilterIdempotent` and `CardGrid.ApplyFilter` |
| `CardFilter.MatchesIff` | scripts/site.js:90-93 | a card matches if and only if the trimmed, lower-cased query is empty or occurs in the lower-cased text; equivalently, if and only if it occurs at all, so the `s === ""` test never changes the outcome |
| `CardFilter.BlankQueryShowsAll` | scripts/site.js:89-95 | a missing, empty or white-space-only query gives every card `display == ""` |
| `CardFilter.MatchIgnoresCase` | scripts/site.js:90-92 | lower-casing the query, the card text, or both does not change the outcome; a capitalised query shows the same cards as its lower-case form |
| `CardFilter.FilterIdempotent` | scripts/site.js:89-96 | applying the same query twice gives the same display state as once |
| `CardFilter.CardGrid.constructor` | scripts/site.js:87 | the grid holds the page's cards |
| `CardFilter.CardGrid.ApplyFilter` | scripts/site.js:89-96 | each card keeps its text, and its display becomes `""` when it matches and `"none"` otherwise |
| `PreviewModal.Open` | scripts/site.js:140-149 | no contract; specified by `OpenThenCloseFocusesAnchor` |
| `PreviewModal.Close` | scripts/site.js:151-157 | no contract; specified by `CloseResets` |
| `PreviewModal.Step` | scripts/site.js:125-166 | no contract; specified by `DismissalsConverge` and `StepKeepsHiddenIsBlank` |
| `PreviewModal.Run` | scripts/site.js:159-166 | no contract; specified by `RunSplit`, `RunKeepsHiddenIsBlank` and `AbsentModalIsInert` |
| `PreviewModal.CloseResets` | scripts/site.js:151-157 | with a modal present, close leaves `aria-hidden="true"`, frame `about:blank` and `overflow ""` from any state, re-establishes the invariant, and a second close changes nothing |
| `PreviewModal.OpenThenCloseFocusesAnchor` | scripts/site.js:140-157 | open sets the frame and open-in-new to the same href, shows the modal, locks scrolling and records the anchor; the following close focuses the anchor and leaves open-in-new as it was |
| `PreviewModal.AbsentModalIsInert` | scripts/site.js:140-166 | without a `#previewModal` no sequence of inputs changes anything |
| `PreviewModal.DismissalsConverge` | scripts/site.js:160-166 | a `[data-dismiss]` click, the close button and Escape each perform exactly `closePreview` |
| `PreviewModal.StepKeepsHiddenIsBlank` | scripts/site.js:140-166 | every single input preserves "not shown implies `about:blank`" |
| `PreviewModal.RunKeepsHiddenIsBlank` | scripts/site.js:140-166 | every sequence of opens and closes, redundant closes included, preserves the invariant |
| `PreviewModal.RunSplit` | scripts/site.js:159-166 | running two input sequences in turn is running their concatenation |
| `PreviewModal.IsDismissal` | scripts/site.js:160-166 | no contract; the three inputs that run `closePreview`: a `[data-dismiss]` click, the close button, Escape |
| `PreviewModal.InvariantAfterDismissal` | scripts/site.js:151-166 | whatever the page started with, once any of the three dismissals has run, the invariant holds after every later input |
| `PreviewModal.StrayEscapeRefocuses` | scripts/site.js:138-166 | close keeps `lastFocused`, so an Escape pressed after a close, with focus anywhere, puts focus back on the last anchor |
| `PreviewModal.PreviewController.constructor` | scripts/site.js:134-138 | the controller starts from the page's modal state with `lastFocused` null |
| `PreviewModal.PreviewController.OpenPreview` | scripts/site.js:140-149 | the new state is `Open` of the old; with a modal, the frame and open-in-new get `href`, `aria-hidden` is `"false"`, and `lastFocused` is the anchor or else the active element |
| `PreviewModal.PreviewController.ClosePreview` | scripts/site.js:151-157 | the new state is `Close` of the old; with a modal, `aria-hidden` is `"true"`, the frame is `about:blank`, `overflow` is `""`, and focus is on `lastFocused` when one was recorded |
| `PreviewModal.PreviewController.Handle` | scripts/site.js:125-166 | each listener performs exactly the transition `Step` gives |
| `PreviewLinks.HrefText` | scripts/site.js:115 | no contract; specified by `MissingHrefIsNotPreviewable` |
| `PreviewLinks.IsPreviewable` | scripts/site.js:116-119 | no contract; specified by `PreviewableIff` |
| `PreviewLinks.Expand` | scripts/site.js:114-130 | no contract; specified by `ButtonFollowsLinkIff` |
| `PreviewLinks.WithPreviewButtons` | scripts/site.js:113-131 | no contract; specified by `InsertionOnlyAddsButtons` and `ButtonFollowsLinkIff` |
| `PreviewLinks.PreviewableIff` | scripts/site.js:115-119 | an href is previewable if and only if its lower-cased form is some path followed by `.html` or `.htm` |
| `PreviewLinks.UpperCaseSuffixIsPreviewable` | scripts/site.js:116-118 | the suffix test ignores case: any path followed by `.HTML` qualifies |
| `PreviewLinks.PreviewableIgnoresCase` | scripts/site.js:116-118 | lower-casing an href beforehand never changes whether it is previewable |
| `PreviewLinks.MissingHrefIsNotPreviewable` | scripts/site.js:115-119 | a link without an href reads as `""` and gets no button |
| `PreviewLinks.WithPreviewButtonsAppend` | scripts/site.js:114 | inserting buttons into two lists and concatenating them equals inserting into their concatenation |
| `PreviewLinks.InsertionOnlyAddsButtons` | scripts/site.js:113-131 | removing the inserted buttons gives back the original siblings in their original order |
| `PreviewLinks.ButtonFollowsLinkIff` | scripts/site.js:113-131 | in the result a link is directly followed by its preview button if and only if its href is previewable; every preview button directly follows its link and opens that link's href |
| `PreviewLinks.ClickPreviewButton` | scripts/site.js:125-128 | no contract; specified by `PreviewButtonRoundTrip` |
| `PreviewLinks.PreviewButtonRoundTrip` | scripts/site.js:125-128 | clicking an inserted button loads its link's href into the frame and open-in-new; the next close focuses the link |
| `PreviewLinks.SiblingList.constructor` | scripts/site.js:113 | the list holds the parent's children |
| `PreviewLinks.SiblingList.InsertAfter` | scripts/site.js:129 | `insertBefore(btn, a.nextSibling)` puts the button directly after the link and keeps every other child in order |
| `PreviewLinks.SiblingList.InsertPreviewButtons` | scripts/site.js:113-131 | visiting a snapshot of the links in order and inserting after each previewable one yields exactly `WithPreviewButtons` of the original list |
| `Toggles.ThemeToken` | scripts/site.js:64 | no contract; specified by `ThemeTokenReloads` |
| `Toggles.DarkOnLoad` | scripts/site.js:58-59 | no contract; specified by `ThemeTokenReloads` |
| `Toggles.ThemeTokenReloads` | scripts/site.js:58-64 | the stored token reloads as the same theme, and a body without the class loads dark exactly when the saved value is `"dark"` |
| `Toggles.ThemeSwitch.Load` | scripts/site.js:56-60 | on load, dark holds if the body had the class or the saved value is `"dark"`, and `aria-pressed` mirrors it when the button exists |
| `Toggles.ThemeSwitch.UpdateThemeButton` | scripts/site.js:67-72 | with a button, `aria-pressed` becomes `String(isDark)`; without one, nothing changes |
| `Toggles.ThemeSwitch.Click` | scripts/site.js:61-66 | a click flips dark, stores `"dark"` exactly when dark and `"light"` otherwise, and leaves `aria-pressed == String(dark)` |
| `Toggles.FlipExpanded` | scripts/site.js:78-79 | the new `aria-expanded` is `"true"` or `"false"` and reads as true exactly when the old one did not |
| `Toggles.FlipExpandedTwice` | scripts/site.js:78-79 | two clicks restore an `aria-expanded` that held `"true"` or `"false"` |
| `Toggles.MenuToggle.constructor` | scripts/site.js:75-76 | the menu starts from the page's attribute and class |
| `Toggles.MenuToggle.Click` | scripts/site.js:77-81 | a click flips `aria-expanded` and the nav's `open` class, and keeps them in step if they were |

## Left out

- The year stamp (scripts/site.js:4-6): it depends on the clock.
- Smooth scrolling of in-page links (scripts/site.js:43-53): it needs CSS selector resolution and `scrollIntoView`.
- The load-in animation (scripts/site.js:101-110): it is timer-driven and only visual.
- The tilt effect (scripts/site.js:169-186): floating-point geometry from `getBoundingClientRect`.
- The button labels set through `textContent`/`innerText` (scripts/site.js:70, 124), the preview button's class, type and title: presentation only.
- DOM querying, listener registration and `preventDefault`: the model has explicit transitions instead (`Handle` methods and `Step` functions).
- `localStorage`: it is a string-valued field (`stored`). No storage failure is modelled.
- Card text is given as a string. How `textContent` gathers it from the card's subtree is not modelled.
- Full Unicode `toLowerCase` and `trim`: only ASCII capitals are lowered and only ASCII white space is trimmed.
- Loading and cancelling the iframe document, and focus semantics beyond recording which element is active. Whether `.modal-panel` can take focus, and focusing an element that has left the document, are not modelled.
- `#previewFrame`, `#openInNew` and `#mainNav` are taken to exist. (In the source a missing one throws when it is used.)
- The insertion loop runs over all `.card-body a` in document order. It is modelled on one parent's child list at a time. Each insertion touches only its link's own parent, so the lists are independent.
- Accordion.ToggleKeepsSynced: requires that no two buttons control the same panel. With a shared panel, opening through one button leaves the other at `"false"` while the panel shows.
- Focus is tracked separately by each controller (`Details.focused` and `Modal.focused`), although both stand for the one `document.activeElement`. A focus move made by one handler, such as Escape returning focus to `lastFocused`, is not seen by the other. No proved property reads the other controller's focus.
