# SipadEvaluationSkipper content script, modelled in Dafny

The extension's content script (`content.js`) runs over an evaluation form page.
It finds elements with a selector search that also enters shadow roots. It clicks
the first "perform evaluation" detail button whose inline handler is exactly
`OnDetailClick(this);`. It reads the radio inputs whose ids are `rb<row><column>`
into a grid and checks row 4 in every column. Then it clicks the submit
("continue") button. It does all this for the top document and, recursively, for
every iframe document it can reach.

This project models that logic over an abstract DOM snapshot and proves what it does.

- `dom.dfy` (`Dom`): elements as a datatype. Each element has an identity `key`, an
  `id`, an optional `onclick` attribute, the set of the script's selectors it
  matches, light-DOM children, an optional shadow root, and what reading its
  iframe document gives (`Loaded`, `NoDocument`, `Throws`). It also has light-DOM
  `querySelectorAll` (`Query`) in document order.
- `deep_query.dfy` (`DeepQuery`): `querySelectorAllDeep`, written the way the script
  builds it. It is proved against an independent description: the node set of
  the composed (light + shadow) tree.
- `radio_grid.dfy` (`RadioGrid`): parsing of radio ids, the `coords` list, `maxX`
  and `maxY`, and the in-place fill of a `(maxX+1) x (maxY+1)` `array2`. It also
  has the row-4 selection as a specification function with its closed form.
- `effects.dfy` (`Effects`): the page as a `Page` object whose `trace` records every
  click and every `checked = true`. It also holds the TypeErrors a pass can throw
  (`RowFourMissing`, `EmptyCell(i)`, `NoContinueButton`).
- `form_pass.dfy` (`FormPass`): `processDocument` as methods over the page. They are
  proved against the function `Pass(doc)`, which gives the events and the
  exception. Lemmas state the order of effects and when the pass fails. The
  tail of `processDocument` (content.js:68-87) is its own method,
  `SelectAndContinue`, which `ProcessDocument` calls, so that each proof stays
  small; the effects and their order are those of the single function.
- `frame_walk.dfy` (`FrameWalk`): `processAllFrames` as a recursive method with a
  per-iframe try/catch. It is proved against the function `Walk(doc)`.
- `scenarios.dfy` (`Scenarios`): a worked example with radios
  rb00, rb01, rb10, rb11, rb40, rb41 and rb42.

An element's `key` stands for its object identity: distinct elements of a
snapshot are assumed to carry distinct keys. Events (`Clicked(k)`,
`Checked(k)`) name elements by key, so the statements about which element is
clicked or checked read as statements about elements under that assumption.

Two behaviours of the code are easy to misread:

- Only an iframe's own try/catch catches errors, and that catch wraps both
  document access and the whole recursive walk of that frame
  (content.js:99-108). An error while processing a nested document is caught
  at its iframe, and the next sibling is still walked. An error while
  processing the top document is not caught, and none of its iframes is
  visited.
- Selection throws when row 4 does not exist (`maxX < 4`), at the first column.
  It throws at the first column whose row-4 cell is null. Checks already made
  stay made, and the continue button is not clicked.

## Model

| member | source | states |
|---|---|---|
| `Dom.Select` | content.js:13 | the result holds exactly the elements of the input that match the selector |
| `Dom.Query` | content.js:13-14 | light-DOM `querySelectorAll` returns exactly the matching light-DOM descendants (no shadow or iframe content) |
| `DeepQuery.QuerySelectorAllDeep` | content.js:12-21 | the light-DOM matches of the root, then the deep matches of each shadow root hosted by a light-DOM descendant, in document order; proved equal in members to the composed tree's matches by `DeepQueryMembers` |
| `DeepQuery.ShadowMatches` | content.js:15-19 | the loop over `querySelectorAll('*')`: each host's deep matches concatenated in host order; described by `ShadowMatchesMembers` and `ShadowMatchesAppend` |
| `DeepQuery.DeepQueryMembers` | content.js:12-21 | the deep query returns exactly the elements of the composed light+shadow tree that match the selector |
| `DeepQuery.ShadowMatchesMembers` | content.js:15-19 | the host loop contributes exactly the matches found in the composed trees of the shadow roots hosted by the listed hosts |
| `DeepQuery.ShadowMatchesAppend` | content.js:15-19 | host results are concatenated in host (document) order: splitting the host list splits the result |
| `DeepQuery.DeepQueryEmpty` | content.js:12-21 | the result is empty if and only if no element of the composed tree matches |
| `DeepQuery.NoMatchNoHostIsEmpty` | content.js:12-21 | a root with no light-DOM match and no shadow host gives the empty result |
| `RadioGrid.DigitChar` | content.js:60 | a column or row below 10 is written as one ASCII digit |
| `RadioGrid.ParseRadioId` | content.js:60-63 | a parsed id has row and column below 10 and is exactly `rb` followed by their digits |
| `RadioGrid.ParseRadioIdExact` | content.js:60-63 | an id yields (x, y) exactly when it is `rb` followed by the ASCII digits of x and y, so both are at most 9; any other id yields nothing |
| `RadioGrid.RadioIdRoundTrip` | content.js:60-63 | the id of row x, column y parses back to (x, y) |
| `RadioGrid.ParsedCoords` | content.js:58-66 | reference definition of `coords`: one entry per radio whose id parses, in query order; the loop `CollectCoords` is proved equal to it |
| `RadioGrid.ParsedCoordsMembers` | content.js:58-66 | every coordinate comes from a queried radio whose id parses to it, every such radio yields its coordinate, and there are at most as many as radios |
| `RadioGrid.CollectCoords` | content.js:58-66 | the `forEach` that pushes coordinates produces the `coords` list in query order |
| `RadioGrid.MaxRow` | content.js:73 | `maxX` bounds every row index and is reached by some coordinate |
| `RadioGrid.MaxColumn` | content.js:74 | `maxY` bounds every column index and is reached by some coordinate |
| `RadioGrid.CellAt` | content.js:75-78 | reference definition of a grid cell after the fill: the radio of the last coordinate mapping to it, or null; `BuildRadioGrid` is proved equal to it |
| `RadioGrid.CellAtLast` | content.js:75-78 | a cell is null exactly when no coordinate maps to it, otherwise it holds the radio of the last coordinate in query order that maps to it |
| `RadioGrid.CellAtRadios` | content.js:55-78 | over the queried radios: a cell is null exactly when no radio's id parses to it, otherwise it holds the last radio in query order whose id does |
| `RadioGrid.CellAtPlace` | content.js:76-78 | placing one more radio overwrites its own cell and no other |
| `RadioGrid.BuildRadioGrid` | content.js:73-78 | the grid is fresh, has exactly maxX+1 rows of maxY+1 cells, every write is in bounds, and each cell ends up as `CellAt` says |
| `RadioGrid.RowChecks` | content.js:81-83 | reference definition of the row-4 loop over the first `cols` columns of an existing row 4, stopping at the first null cell |
| `RadioGrid.SelectRowFour` | content.js:81-83 | reference definition of the selection: `RowFourMissing` before any check when `maxX < 4`, otherwise `RowChecks` over columns 0..maxY; `CheckRowFour` is proved equal to it |
| `RadioGrid.RowChecksStops` | content.js:81-83 | once a column throws, no later column is reached |
| `RadioGrid.RowChecksSpec` | content.js:81-83 | the loop checks row-4 radios of columns 0, 1, ... in order up to the first null cell; it fails exactly when there is one, naming that column |
| `RadioGrid.SelectRowFourSpec` | content.js:81-83 | selection succeeds iff row 4 exists and is filled in every column 0..maxY, and then checks exactly those radios in column order |
| `RadioGrid.SelectionChecksOnlyRowFour` | content.js:55-83 | every radio the selection checks is a queried radio whose id is `rb4` followed by a digit |
| `Effects.Page.Click` | content.js:43 | a click is appended to the page's trace and nothing else changes |
| `Effects.Page.Check` | content.js:82 | a `checked = true` is appended to the page's trace and nothing else changes |
| `FormPass.DetailButtons` | content.js:36-37 | the deep query for detail buttons followed by the exact-handler filter; described by `WithHandler` and `WithHandlerFirst` |
| `FormPass.WithHandler` | content.js:37 | the filter keeps exactly the buttons whose onclick attribute equals the handler |
| `FormPass.WithHandlerFirst` | content.js:37-43 | the head of the filtered list is the first button in query order with that exact handler |
| `FormPass.DetailClick` | content.js:42-44 | the click on the first filtered detail button, or nothing; its contract is stated by `DetailClickFirst` |
| `FormPass.DetailClickFirst` | content.js:36-44 | nothing is clicked iff no detail button has the exact handler; otherwise exactly one click, on the first one that has it |
| `FormPass.PassCoords` | content.js:55-66 | the deep query for radios followed by the `coords` list; described by `ParsedCoordsMembers` and `CellAtRadios` |
| `FormPass.RadioStep` | content.js:68-87 | reference definition of the steps after the detail click: nothing without coordinates, else selection, then the continue click or `NoContinueButton` |
| `FormPass.Pass` | content.js:30-89 | reference definition of a pass: the detail click, then `RadioStep`; `ProcessDocument` is proved equal to it |
| `FormPass.CheckRowFour` | content.js:81-83 | the loop over the grid appends exactly the selection's checks to the trace and throws exactly the selection's fault |
| `FormPass.SelectAndContinue` | content.js:68-87 | early return without coordinates; otherwise grid, selection, and a continue click only after a successful selection |
| `FormPass.ProcessDocument` | content.js:30-89 | the pass appends exactly `Pass(doc).events` to the trace and throws exactly `Pass(doc).fault` |
| `FormPass.PassCompletes` | content.js:42-87 | a completed pass with coordinates makes the detail click first, then checks row 4 of every column 0..maxY in order, and clicks the first continue button last |
| `FormPass.PassFaults` | content.js:68-87 | a pass throws iff coordinates exist and row 4 is missing, a row-4 cell in 0..maxY is null, or there is no continue button; then the events after the detail click are in-order row-4 checks (`PassFaultKind` names the failing column and the exception); without coordinates only the detail click happens |
| `FormPass.RadioStepFaultKind` | content.js:68-87 | after the detail click: `RowFourMissing` iff `maxX < 4`, with no check; `EmptyCell(i)` names the first null row-4 cell, after checks of columns 0..i-1, with i <= maxY; `NoContinueButton` after all maxY+1 checks |
| `FormPass.PassFaultKind` | content.js:30-89 | the same, for the whole pass counted after the detail click: which exception is thrown and how many checks precede it |
| `FormPass.PassChecksOnlyRowFour` | content.js:55-83 | the pass sets `checked` only on queried radios whose id is `rb4` followed by a digit |
| `FrameWalk.Frames` | content.js:98 | `rootDoc.querySelectorAll('iframe')`: the light-DOM iframes in document order, as `Query` states |
| `FrameWalk.Walk` | content.js:95-109 | reference definition of processAllFrames' effects: the root's pass, then, unless it threw, the iframes' walks in order |
| `FrameWalk.FramesWalk` | content.js:99-108 | reference definition of the iframe loop: each frame's walk in order, a throwing or missing frame contributing only what happened before its exception |
| `FrameWalk.FrameEffects` | content.js:100-107 | the body of one iframe's try block: the nested walk of a loaded document, nothing for a missing document or a throwing access; isolation is stated by `FramesWalk` and `FailingFrameIsolated` |
| `FrameWalk.ProcessAllFrames` | content.js:95-109 | the walk appends exactly `Walk(doc)` to the trace, and its outcome is that of processing the root document alone: nothing thrown inside an iframe escapes |
| `FrameWalk.FramesWalkAppend` | content.js:99-108 | iframes are walked one after another in light-DOM order: the walk of a split list is the walks of its parts in sequence |
| `FrameWalk.FailingFrameIsolated` | content.js:99-108 | an iframe whose access throws, whose document is missing, or whose own pass throws contributes only the effects made before the exception, and its later siblings are walked unchanged |
| `FrameWalk.WalkOrder` | content.js:95-109 | the root's pass comes before any iframe; if it throws, no iframe is walked; otherwise the iframes follow in order |
| `Scenarios.SevenRadiosSelection` | content.js:55-83 | radios rb00, rb01, rb10, rb11, rb40, rb41, rb42 give maxX = 4, maxY = 2 and checks of rb40, rb41, rb42 in that order, without error |

## Left out

- Scheduling (content.js:111-135): the `setInterval` started at load and on every mutation batch, and the `MutationObserver`. This is event-loop and timer behaviour, including the build-up of repeating timers, not sequential logic.
- Console logging throughout content.js: it is diagnostic only.
- The `if (!doc) return;` guard (content.js:31): a pass is modelled on a document. The frame walk never passes a missing document, because a falsy frame document is skipped at content.js:102.
- Real CSS selector matching, `getAttribute`, `click()`, `.shadowRoot` and `contentDocument`: each element records which of the script's selectors it matches, what its `shadowRoot` gives (closed shadow roots appear as none), and what reading its iframe document gives.
- Page reactions to clicks and to `checked = true` (navigation, handlers, DOM changes): they are recorded as events. The DOM is a snapshot taken at the start of the pass, and the events do not change it.
- The empty `detailButtons.forEach` (content.js:38-40): it has no effect.
- background.js: a wrapper over the browser's extension APIs that only injects content.js.
