# Treasure Hunt — a Dafny model of the game state machine

The page `TreasureHunt` shows a board of 100 boxes. One box hides a treasure,
placed at a random index once the page has mounted. Each click on a box opens
it and counts a click. Opening the treasure box wins the game, after which
clicks do nothing. The page also derives, for display, each box's button
variant and glyph, a one-based hint naming the treasure box, and a status line
with the click count and, on a win, the treasure code.

This project models that state machine as immutable values and pure functions:

- `wrappers.dfy` — `Option`, standing for the source's nullable treasure index.
- `boxes.dfy` (module `Boxes`) — the `BoxState` record as `Box`, the grid size
  100, and the counts of opened boxes and treasures used by the invariants.
  The source's `opened` field is called `isOpen` here, because `opened` is a
  Dafny keyword.
- `game.dfy` (module `Game`) — the `GameState` (boxes, treasure index, win
  flag, click count), the initial state, the placement effect, the click
  handler, click sequences (`Play`), and the reachable-state invariants with
  their proofs.
- `render.dfy` (module `Render`) — button variant, glyph, hint and status line.

Each React state update is modelled as one synchronous transition computed
from the state before the event. The random draw becomes a parameter: either
the drawn index itself (`Init(idx)` with `0 <= idx < 100`) or the uniform
sample from which `DrawIndex` computes it.

The click handler has no guard for a box that is already open. Clicking an
open box again, while the game is live, still adds one to the click count; see
`ReclickCounts` and `DoubleClickCountsTwice`. A description of this game that
makes such a re-click a no-op does not match the code; the model follows the
code. For the same reason the click invariant is `clicks >= opened boxes`, not
equality.

## Model

| member | source | states |
|---|---|---|
| Boxes.ClosedGrid | src/app/page.tsx:15-17 | the initial grid has the requested length and every box is closed and holds no treasure |
| Game.Fresh | src/app/page.tsx:15-20 | before placement the board has 100 boxes, none open, no treasure, the treasure index is unset, the game is not won and no click is counted |
| Game.DrawIndex | src/app/page.tsx:24 | scaling a sample from [0, 1) by 100 and rounding down gives an index in [0, 100), namely the integer part of the scaled sample |
| Game.PlaceTreasure | src/app/page.tsx:25-28 | placement records the treasure index and marks only that box as the treasure, keeping its open flag; every other box, the win flag and the click count are unchanged |
| Game.Init | src/app/page.tsx:15-28 | after placement at a drawn index the board has 100 boxes, none open, exactly the drawn box is the treasure, the index is recorded, the game is not won and no click is counted |
| Game.InitReachable | src/app/page.tsx:15-28 | the initial game satisfies both invariants and has exactly one treasure and no open box |
| Game.Click | src/app/page.tsx:31-43 | a click on a won game changes nothing; a live click adds exactly one click, opens the clicked box keeping its treasure flag, leaves every other box and the treasure index alone, and the game is won afterwards exactly when it was won before or the clicked index is the treasure index (so never while the index is unset) |
| Game.Play | src/app/page.tsx:31-43 | any click sequence keeps the grid length, the treasure index and every box's treasure flag |
| Game.ClickPreservesReachable | src/app/page.tsx:31-43 | a click keeps the treasure invariant (one in-range treasure, won exactly when the treasure box is open) and the click invariant (clicks at least the number of open boxes) |
| Game.PlayPreservesReachable | src/app/page.tsx:31-43 | any click sequence from a state with both invariants ends in a state with both invariants and exactly one treasure |
| Game.ReachableFromInit | src/app/page.tsx:23-43 | every state reached from initialisation by clicks satisfies both invariants and has exactly one treasure |
| Game.FoundTookAClick | src/app/page.tsx:34-42 | in a reachable state a won game has counted at least one click |
| Game.PlayMonotone | src/app/page.tsx:31-43 | over any click sequence open boxes stay open, a won game stays won and the click count never decreases |
| Game.PlayFrozenAfterWin | src/app/page.tsx:32 | once the game is won any click sequence leaves the whole state unchanged |
| Game.UnplacedNeverWins | src/app/page.tsx:40-42 | while the treasure index is unset no click sequence wins, and every click is counted |
| Game.FirstClick | src/app/page.tsx:31-43 | the first click of a new game wins exactly on the treasure box, counts one click, opens exactly one box, and that box is the treasure exactly when it is the drawn index |
| Game.ReclickCounts | src/app/page.tsx:31-38 | re-clicking an open box of a live game leaves the board unchanged and does not win, yet adds one click |
| Game.DoubleClickCountsTwice | src/app/page.tsx:31-38 | clicking the same non-treasure box twice on a new game counts two clicks while only one box is open |
| Render.VariantOf | src/app/page.tsx:86-92 | a closed box is outlined, an open treasure box is destructive and an open empty box is secondary, each in both directions |
| Render.GlyphOf | src/app/page.tsx:98 | the gem glyph appears exactly on an open treasure box; every other box shows nothing |
| Render.DestructiveIffFound | src/app/page.tsx:86-92 | in a reachable state some box is drawn destructive exactly when the game is won, and a destructive box is the treasure box |
| Render.Hint | src/app/page.tsx:64-68 | the hint is shown exactly while the game is not won, the hint is enabled and the treasure is placed, and then it is the treasure index plus one |
| Render.HintPointsAtTreasure | src/app/page.tsx:68 | in a reachable state a shown hint lies in [1, 100] and the box it names, counting from 1, holds the treasure |
| Render.BannerOf | src/app/page.tsx:51-62 | the status line congratulates exactly when the game is won, always reports the current click count, and on a win carries the treasure code |
| Render.BannerReportsAClick | src/app/page.tsx:55 | in a reachable won state the reported click count is at least one and at least the number of open boxes |

## Left out

- React hooks and re-rendering: each `setState` is taken as a synchronous update from the state before the event. The stale closure in `setClicks(clicks + 1)` therefore has no effect in the model.
- The placement effect is modelled on the fresh grid, since its closure captures the initial board. Clicks landing before the effect has run are covered only in the state without a treasure (`UnplacedNeverWins`). The model does not describe the effect overwriting such clicks.
- `Math.random`: the sample is a parameter. `DrawIndex` works over exact reals rather than IEEE doubles, so it does not model floating-point rounding.
- Click counts and indices are unbounded integers. A JavaScript number is exact up to 2^53, far beyond any reachable click count.
- Click: requires an index inside the grid, because the handler is only bound to existing boxes through `boxes.map`. Out-of-range indices, which would grow a JavaScript array, are not modelled.
- The `showHint` toggle (the "Hide Hint" button) is only a parameter of `Hint`. It is cosmetic and never changes the game state.
- The `disabled={found}` attribute on each box is not modelled separately. The handler's own guard already makes clicks on a won game inert (`Game.Click`, `Game.PlayFrozenAfterWin`).
- JSX markup, styling, the `Button`/`Alert` components and Next.js page wiring are left out. They are library code that is not part of this model.
- Persistence, resume from storage, win timestamps and their formatting, reset and celebratory effects are absent from the source, so they are not modelled.
