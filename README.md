# Portfolio page script: a Dafny model

This project models the discrete logic in the page script of a personal portfolio site (`script.js`). That logic has four parts:

- **Menu toggle.** A click on `.menu-toggle` toggles the `open` class of `.menu`. It then sets the toggle's `aria-expanded` attribute to `"true"` or `"false"` to match the new state.
- **Active link.** The page name is the last `/`-separated segment of `location.pathname`, or `index.html` when that segment is empty. Every `.menu a` link whose `href` attribute equals the page name gains the `active` class.
- **Falling-characters canvas.** The module covers its bookkeeping only:
  - the column count is `floor(w / 20)`, with one drop per column, each starting at `Math.random() * h`;
  - on every tick each drop falls by `0.35`, or goes back to `0` when its column resets;
  - the resize handler assigns `w` and `h` and the canvas size, and does not recompute the columns.
- **Back-to-list link.** A click is intercepted exactly when `history.length > 1`: the default is prevented and the page calls `history.back()`. Otherwise the link's own target is followed.

Modules:

- `Dom` (`dom.dfy`): a page element as a class with a class list and attributes that the script updates in place. It also holds `getAttribute` and `DOMTokenList.toggle`.
- `PagePath` (`page_path.dfy`): `split('/')`, `pop()` and the `|| 'index.html'` default, as functions. The lemmas relate them to an independent "after the last `/`" definition and to joining with `/`.
- `Chrome` (`chrome.dfy`): the menu-toggle click handler, which changes the two elements, and the active-link loop, which updates each link's class list in place. The script recomputes the page name inside the loop's callback. The location does not change during the loop, so the model computes the name once and passes it to the loop.
- `MatrixRain` (`matrix_rain.dfy`): the canvas state as a class. It has the window size fields `w` and `h`, the canvas size, the fixed column count, and the `drops` array. `Tick` updates that array in place.
- `BackToList` (`back_to_list.dfy`): the click decision, plus a small model of the tab's session history that shows what the click leads to.

Two facts about the code shape the model:

- The resize handler (script.js:75-80) does not recompute `cols` or `drops`. It only assigns `w`, `h` and the canvas size. `cols` and `drops` keep the sizes computed at script.js:86-87, and `Rain.Resize` states this.
- There is no referrer check on the back-to-list link. The click rule is only `history.length > 1` (script.js:179-184), and that is all `BackToList` models.

## Model

| member | source | states |
|---|---|---|
| `Dom.Element.GetAttribute` | script.js:22 | `getAttribute` gives the attribute's value when it is present, and null (None) exactly when the element has no such attribute |
| `Dom.Toggle` | script.js:14 | toggling a class token removes it when present and adds it when absent. The value returned is true exactly when the token is now present. No other token changes |
| `Dom.ToggleTwice` | script.js:14 | toggling the same token twice restores the original class list, and the second toggle reports the original presence |
| `Chrome.AriaValue` | script.js:15 | the attribute value is `"true"` exactly when the menu is open, and `"false"` otherwise |
| `Chrome.ClickMenuToggle` | script.js:13-16 | a click flips whether the menu has the `open` class. No other class changes. `aria-expanded` is updated and no other attribute changes. It reads `"true"` exactly when the menu is now open |
| `PagePath.LastSplitsOff` | script.js:21 | `pop()` returns the last element: removing it leaves the others, in order |
| `PagePath.Split` | script.js:21 | `split('/')` yields at least one segment and no segment contains `/`. Together with `JoinSplit` and `SplitJoin`, it is the only `/`-free list of segments whose `/`-join is the path |
| `PagePath.JoinSplit` | script.js:21 | joining the segments of a split with `/` gives back the path |
| `PagePath.SplitJoin` | script.js:21 | splitting a `/`-join of `/`-free segments gives back those segments |
| `PagePath.LastSegmentAfterLastSlash` | script.js:21 | the segment `pop()` returns is exactly the part of the path after its last `/`, or the whole path when there is no `/` |
| `PagePath.PageName` | script.js:21 | the page name is never empty and never contains `/`. It is the part after the last `/`, except that it is `index.html` when that part is empty |
| `PagePath.PageNameOfDirectory` | script.js:21 | an empty path, or one ending in `/`, gives `index.html` |
| `PagePath.PageNameOfNestedFile` | script.js:21 | a path that holds a `/` but does not end in one gives the part after its last `/` |
| `PagePath.PageNameOfBareFile` | script.js:21 | a non-empty path without `/` gives itself |
| `PagePath.PageNameExamples` | script.js:21 | `projects.html` names itself, while `/` and the empty path both give `index.html` |
| `PagePath.NestedPageNameExample` | script.js:21 | `/portfolio/projects.html` gives `projects.html` |
| `Chrome.Highlighted` | script.js:22 | a link's classes only grow. It holds `active` afterwards exactly when it held it before or its `href` equals the page name. A link whose `href` differs, or that has none, keeps its classes |
| `Chrome.HighlightedIdempotent` | script.js:22 | marking a link a second time changes nothing |
| `Chrome.MarkLinks` | script.js:20-23 | after the `forEach` over the links, every listed link's class list is its old class list marked against the given page name. Only class lists of listed links change, and a link listed twice ends up the same as if listed once |
| `Chrome.HighlightActive` | script.js:20-23 | every listed link ends up marked against the page name of the current path, and nothing else changes |
| `BackToList.OnBackClick` | script.js:179-184 | the default is prevented, and history goes back, exactly when `history.length > 1` |
| `BackToList.Back` | script.js:182 | `history.back()` shows the previous entry, or stays put when there is none. History entries are unchanged |
| `BackToList.FollowLink` | script.js:180 | when the click is not intercepted, the link's target becomes the current entry and forward entries are dropped |
| `BackToList.AfterBackClick` | script.js:179-184 | the session after a click on the back link is valid. With more than one history entry it is `history.back()` of the session. With one entry it is the link followed to its target |
| `BackToList.BackClickOutcome` | script.js:180-183 | with one history entry, the click leads to the link's target. Otherwise it shows the previous entry. When the current entry is the first one, the click changes nothing |
| `BackToList.BackClickStallsOnFirstEntry` | script.js:180-183 | a concrete two-entry history shown at its first entry: the click is intercepted and nothing changes |
| `MatrixRain.ColumnCount` | script.js:86 | the column count `n` is the number of whole 20-pixel columns in the width: `20n <= w < 20(n+1)` |
| `MatrixRain.InitialDrop` | script.js:87 | `Math.random() * h` with the random number in `[0,1)` gives a start in `[0,h)` when `h > 0`, and exactly `0` when `h == 0` |
| `MatrixRain.InitialDrops` | script.js:87 | one start per random number, in column order |
| `MatrixRain.Fall` | script.js:138-139 | one tick keeps the number of drops. A column whose reset flag is set is back at `0`, and every other column has fallen by `0.35` |
| `MatrixRain.FallColumn` | script.js:138-139 | after a tick each drop is its old value plus `0.35`, or `0`. It is `0` exactly when its column resets, and a non-negative drop stays non-negative |
| `MatrixRain.FallAll` | script.js:115-139 | a run of ticks keeps the number of drops |
| `MatrixRain.FallAllWithoutReset` | script.js:138 | a column that no tick resets has fallen by `0.35` per tick |
| `MatrixRain.FallAllLastReset` | script.js:139 | a column that resets on the last tick ends at `0`, whatever came before |
| `MatrixRain.Rain.constructor` | script.js:75-87 | start-up records the window size in `w`, `h` and the canvas size. The array has `floor(w/20)` drops, each `Math.random() * h`, and all of them are non-negative |
| `MatrixRain.Rain.Resize` | script.js:75-80 | resize sets `w` and `h` and the canvas's width and height to the window size. The column count and the contents of `drops` stay as they were at start-up |
| `MatrixRain.Rain.Tick` | script.js:115-139 | one tick visits every column once. The new array is the old one advanced by one tick, the length is unchanged, and drops stay non-negative |

## Left out

- Footer year (script.js:6-7): it only reads the clock and writes the text of an element.
- Holographic parallax easing (script.js:29-60) and cursor glow easing (script.js:150-169): floating-point smoothing driven by animation frames and element geometry, with no discrete state to model.
- Collider geometry and the click radius change (script.js:90-106, 119-132): square roots and float forces that only move where characters are drawn, plus a timer.
- Canvas drawing: the bitmap resize and clear caused by assigning `canvas.width` and `canvas.height` (script.js:76-77; the model only records the new values), the fade `fillRect`, font and fill style, the random character choice and `fillText` (script.js:109-113, 135-136). Also the 90 ms `setInterval` and every event-listener registration.
- `MatrixRain.Rain.Tick`: the reset flag of a column is an input. In the script it is `y > h && Math.random() > 0.98`, where `y` is the draw position after the collider moved it. The model does not state that a reset needs the column to be below the canvas.
- `MatrixRain.Rain.constructor`: `Math.random()` values are inputs, one per column, each assumed to be in `[0,1)`.
- The reduced-motion and pointer checks (`matchMedia`, script.js:30, 41, 67) and the null checks for missing elements (script.js:12, 177) are not modelled. The model assumes the elements exist and the animation runs.
- `MatrixRain`: drops are `real` numbers. JavaScript's binary floating-point rounding of repeated `+ 0.35` is not modelled.
- `Dom.Element`: a class list is modelled as a set of tokens, so the order of tokens in `className` is not modelled.
- `Dom.Element`: the `class` attribute is not tied to the class list; they are separate fields. If `.menu-toggle` were also `.menu`, the script would change that element's `class` attribute as well, which `Chrome.ClickMenuToggle`'s attribute clause does not state.
- `BackToList`: the session history model (`Session`, `Back`, `FollowLink`) is a simplification of the browser's. It has no entry limit and no same-document navigations.
