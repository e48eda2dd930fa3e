# Theme park game state, modelled in Dafny

This project models the game state of the grid-based theme-park browser game
(`ThemePark` in `script.js`). All drawing is stripped away. What is left:

- a player on an integer grid with a score;
- two seeded gold items, each with a one-way `collected` flag;
- two fixed obstacles;
- a growing list of placed rides, each with a kind and a one-way `visited` flag;
- the ride kind armed for placement (`selectedRide`).

The arrow keys and placement clicks change this state.

Files:

- `rules.dfy`, module `Rules`. The entities as datatypes (`Cell`, `Item`,
  `Ride`, `RideKind`, `Player`). Pure rules: the cell size of 40 pixels, the
  10-point reward, the arrow-key mapping, pixel-to-cell floor division, the grid
  bound, the `some` scans over obstacles and rides, and what standing on a cell
  does (`VisitAt`, `Alerts`, `CollectAt`, `FreshCount`). Also the lemmas about
  these rules.
- `park.dfy`, module `Park`. The class `ThemePark`. Its fields are updated in
  place: `player`, `items` and `rides` are datatype values and sequences that
  the methods reassign. `width`, `height` and `obstacles` are constants.
  - `Valid()` is the game invariant. The player is inside the grid and off
    every obstacle. No two rides share a cell. The score equals 10 times the
    number of collected items, so it is never negative and always a multiple
    of 10.
  - The handlers and operations `MovePlayer`, `CheckInteractions`, `KeyDown`,
    `AddRide`, `AddRideAtPosition` and `Click` require and keep `Valid()`.
    The loop helpers `VisitRides` and `CollectItems` and the redraw `Draw`
    state their exact effect instead. Each mutating method states its whole
    new state. The twostate predicates `Moved` and `Placed` spell out the effect
    of a move and of a placement.
  - The ghost counter `frames` stands in for `draw()`. It lets the contracts
    say when a redraw happens: a rejected move does not redraw, and a rejected
    placement does not redraw.
- `scenarios.dfy`, module `Scenarios`. Play-throughs from the start-up state,
  driven only through the key and click handlers (`KeyDown`, `AddRide`,
  `Click`), with two lemmas (`CollectSeed`, `CollectSecondSeed`) that work
  out the pickups on the seed item list:
  - collecting both seed items scores exactly 20;
  - the obstacle at (6, 6) stops a move from (5, 6);
  - a carousel click on cell (3, 3), then a repeated click, then a click with
    a different armed kind, leaves exactly one Carousel;
  - a ride announces itself once, and stepping off and back onto it raises
    nothing.

## Model

| member | source | states |
|---|---|---|
| `Rules.KindId` | script.js:317-326 | each ride kind's toolbar identifier is recognised by the placement switch as that same kind |
| `Rules.ParseKind` | script.js:317-327 | a kind is placed exactly for "ferrisWheel", "carousel" and "rollerCoaster"; every other value places nothing |
| `Rules.ParseKindInverse` | script.js:317-326 | a value selects kind k if and only if it is k's identifier |
| `Rules.KindName` | script.js:319-325 | a placed ride's display name is one of "Ferris Wheel", "Carousel" and "Roller Coaster" |
| `Rules.KindNameInjective` | script.js:319-325 | two kinds carry the same display name if and only if they are the same kind |
| `Rules.ReachedMessage` | script.js:78 | the notification is "You have reached the ", then the ride's display name, then "!" |
| `Rules.ReachedMessageInjective` | script.js:78 | two kinds raise the same notification if and only if they are the same kind, so a notification names its ride |
| `Rules.KeyStep` | script.js:32-45 | exactly the four arrow keys move; each move is one cardinal unit step; every other key is ignored |
| `Rules.CellAt` | script.js:53-54 | the clicked cell is the floor of the pixel offset divided by 40, i.e. the cell whose 40-pixel span contains the click |
| `Rules.InBounds` | script.js:65-66 | the integer bound `x * 40 < width` agrees with the source's `x < width / gridSize` on real numbers, on both axes, with `x >= 0` |
| `Rules.ObstacleAt` | script.js:67 | the obstacle scan finds a match exactly when the cell is one of the obstacle cells |
| `Rules.RideAt` | script.js:316 | the ride scan finds a match exactly when some ride stands on the cell |
| `Rules.PlaceKeepsDistinct` | script.js:316-325 | appending a ride at a cell the scan found free keeps every ride on its own cell |
| `Rules.VisitAt` | script.js:76-81 | after a visit at c, every ride at c is visited; flags never go back to false; cells, kinds and all rides elsewhere are unchanged |
| `Rules.Alerts` | script.js:77-78 | a visit raises no more notifications than there are rides |
| `Rules.AlertsCount` | script.js:76-81 | a visit at c raises exactly as many notifications as there are rides at c not yet visited |
| `Rules.AlertsOne` | script.js:76-81 | with rides on distinct cells and an unvisited ride at c, the visit raises exactly that ride's notification and no other |
| `Rules.VisitStep` | script.js:76-81 | scanning one more ride extends the visit and the notifications by exactly that ride's part |
| `Rules.AlertsEmptyIff` | script.js:76-81 | a visit at c is silent if and only if every ride at c is already visited |
| `Rules.VisitAgainSilent` | script.js:76-81 | visiting the same cell again changes nothing and raises nothing, so each ride's notification fires at most once |
| `Rules.VisitElsewhere` | script.js:76-81 | visiting a cell with no ride changes nothing and raises nothing |
| `Rules.AlertsAtMostOne` | script.js:76-81 | with rides on distinct cells, one visit raises at most one notification |
| `Rules.CollectAt` | script.js:83-89 | after collecting at c, every item at c is collected; flags never go back to false; cells and all items elsewhere are unchanged |
| `Rules.FreshCount` | script.js:84 | the number of uncollected items at c is at most the number of items |
| `Rules.CollectedCount` | script.js:85 | the number of collected items is at most the number of items |
| `Rules.CollectedCountIsSize` | script.js:84-86 | CollectedCount equals the size of the set of indices of collected items, which is what the score invariant counts |
| `Rules.FreshCountIsSize` | script.js:83-89 | FreshCount equals the size of the set of indices of uncollected items at c |
| `Rules.CollectStep` | script.js:83-89 | scanning one more item extends the collection and the count by exactly that item's part |
| `Rules.CollectAtCount` | script.js:83-89 | collecting at c raises the collected count by exactly the number of uncollected items at c |
| `Rules.FreshCountZeroIff` | script.js:84-86 | nothing is left to collect at c if and only if every item at c is collected |
| `Rules.CollectAgainIdle` | script.js:84-86 | collecting again at the same cell changes nothing and earns no points |
| `Rules.CollectElsewhere` | script.js:83-89 | collecting at a cell with no item changes nothing and earns nothing |
| `Park.ThemePark.constructor` | script.js:2-28 | the start state the constructor evidently intends (as written it throws; see "## Left out"): player at (0, 0) with score 0, items at (7, 4) and (12, 9) uncollected, obstacles at (6, 6) and (9, 10), no rides, nothing armed, one redraw; the invariant holds |
| `Park.ThemePark.Draw` | script.js:301-309 | a redraw changes no game state |
| `Park.ThemePark.CanEnter` | script.js:65-67 | a cell may be entered exactly when both coordinates are at least 0 and below the canvas size divided by 40 (on real numbers), and no obstacle is on it |
| `Park.ThemePark.Armed` | script.js:51 | a click acts on every recognised ride identifier, and not when nothing or the empty string is selected |
| `Park.ThemePark.CheckInteractions` | script.js:75-90 | keeps the invariant; marks rides at the player's cell visited and returns one notification per newly visited ride; collects items there and adds 10 per newly collected item; the player's cell is unchanged |
| `Park.ThemePark.VisitRides` | script.js:76-81 | the ride loop leaves exactly `VisitAt` of the old rides and returns exactly `Alerts` of them |
| `Park.ThemePark.CollectItems` | script.js:83-89 | the item loop leaves exactly `CollectAt` of the old items and adds 10 times `FreshCount` to the score |
| `Park.ThemePark.MovePlayer` | script.js:61-73 | a step off the grid or onto an obstacle changes nothing and does not redraw; otherwise the player lands on old position + (dx, dy) and the ride visits and item pickups run. The invariant is kept, flags are one-way, the score never decreases, and at most one notification is raised |
| `Park.ThemePark.KeyDown` | script.js:30-47 | an arrow key is exactly the corresponding move; any other key changes nothing |
| `Park.ThemePark.AddRide` | script.js:311-313 | arms the given kind, changes nothing else and keeps the invariant |
| `Park.ThemePark.AddRideAtPosition` | script.js:315-330 | on an occupied cell, rides and frames are unchanged; otherwise one unvisited ride of the recognised kind is appended after the unchanged old rides (none for an unrecognised kind) and the frame is redrawn; rides stay on distinct cells |
| `Park.ThemePark.Click` | script.js:49-59 | with nothing armed it changes nothing; with a kind armed it places that kind at the clicked cell and disarms the selection, whether or not the placement was accepted |
| `Scenarios.Press` | script.js:30-47 | one press of an arrow key onto an enterable cell with no item and no ride moves the player one step that way and changes nothing else; the invariant is kept |
| `Scenarios.Walk` | script.js:30-73 | repeated presses of one arrow key along a clear path end at the path's end with items, rides and score unchanged |
| `Scenarios.CollectSeed` | script.js:15-18 | standing on one seed item collects exactly that item, for one item's reward |
| `Scenarios.CollectSecondSeed` | script.js:15-18 | with the first seed item taken, standing on the second collects it, for one item's reward |
| `Scenarios.WalkRight` | script.js:42-44 | seven right arrows from the start reach (7, 0) with score 0 |
| `Scenarios.CollectFirstSeed` | script.js:83-89 | seven right and four down arrows reach (7, 4) with score 10, the first item collected and the second not |
| `Scenarios.CollectSeedItems` | script.js:83-89 | after collecting both seed items the score is exactly 20 |
| `Scenarios.WalkDown` | script.js:36-38 | six down arrows from the start reach (0, 6) with score 0 |
| `Scenarios.BlockedByObstacle` | script.js:65-67 | a right arrow from (5, 6) towards the obstacle at (6, 6) leaves the player at (5, 6) |
| `Scenarios.PlaceCarousel` | script.js:49-58 | one carousel click at cell (3, 3) adds one Carousel there; a second click, or a click with another armed kind, adds nothing; the selection ends up cleared |
| `Scenarios.PlaceNextToStart` | script.js:315-322 | a carousel click at pixel (40, 0) puts one unvisited Carousel on cell (1, 0) |
| `Scenarios.VisitNewRide` | script.js:76-81 | stepping onto the new Carousel raises "You have reached the Carousel!" and marks it visited |
| `Scenarios.RevisitRide` | script.js:76-81 | stepping off the visited Carousel and back onto it raises nothing |

Behaviour of the code that the model keeps, although it may look unintended:

- After a click with a kind armed, the selection is cleared even when the
  placement is rejected (script.js:55-56).
- `addRideAtPosition` redraws whenever the cell is free, even when the kind
  is not recognised and nothing is appended (script.js:328).
- The item and ride scans read the player's cell, not any single match.
  Every matching item is collected, and every matching unvisited ride is
  announced, in list order.
- A ride object is pushed without a `visited` property (script.js:319-325),
  so it reads as `undefined`, which is falsy. The model starts every new
  ride with `visited` set to false.

## Left out

- Park.ThemePark.constructor: as written, the source constructor throws.
  script.js:12 calls `createPlayerSprite` while the object literal for
  `this.player` is still being built, so `this.player` is still `undefined`
  when script.js:109 reads `this.player.size`, and that raises a TypeError.
  Lines 14-27 then never run: no items, obstacles, rides or listeners exist
  and nothing is drawn, so none of the handlers can ever be reached. The
  model gives the start state the code evidently intends. Sprite creation is
  presentation and is not modelled.

- Rendering: `draw`, `drawGrid`, `drawPlayer`, `createPlayerSprite`,
  `drawItems`, `drawObstacles`, `drawVisitors`, `drawAttractions`,
  `drawFerrisWheel`, `drawCarousel` and `drawRollerCoaster`. They issue canvas
  calls with floating-point and trigonometric coordinates and change no game
  state. `Draw` only counts redraws in the ghost field `frames`.
- `alert`: the message is returned as a value (`alerts`) instead of being
  shown.
- `updateGameStatus`: it writes "Score: n" into a page element after each
  pickup. The score itself is modelled; the DOM write is not.
- Event registration (`addEventListener`) and `getBoundingClientRect`. The
  handlers are the methods `KeyDown(key)` and `Click(px, py)`. `px` and `py`
  are integer pixel offsets from the canvas corner, so fractional offsets are
  not modelled.
- The canvas size comes from the host page, which is not part of this model.
  It is a constructor parameter, and the constructor requires it to be
  positive in both axes so that the start cell (0, 0) lies on the grid.
- `visitors`: it is never populated or changed.
- The presentation fields `color`, `size` and `sprite`. The bound draw routine
  stored on each ride is replaced by the `RideKind` datatype, and the ride's
  display name is derived from the kind by `KindName`.
- JavaScript truthiness of `selectedRide` is modelled for strings only: it is
  armed when present and non-empty. Other value types that a caller could pass
  to `addRide` are not modelled.
- Coordinates and steps are unbounded integers. JavaScript numbers are
  doubles, but every value the game produces is a small integer, so precision
  loss never arises.
