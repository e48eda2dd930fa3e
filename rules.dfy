/** Entities of the theme-park game and the pure rules over them: grid
    geometry, the arrow-key mapping, the obstacle and ride scans, and the
    effect of standing on a cell (visiting rides, collecting items). */
module Rules {

  datatype Option<+T> = None | Some(value: T)

  /** Side of one grid cell, in pixels. */
  const GridSize: int := 40

  /** Points awarded for each collected item. */
  const ItemReward: int := 10

  datatype Cell = Cell(x: int, y: int)

  /** A collectable item; `collected` only ever goes from false to true. */
  datatype Item = Item(pos: Cell, collected: bool)

  /** The three ride kinds; each replaces the drawing routine a ride carries. */
  datatype RideKind = FerrisWheel | Carousel | RollerCoaster

  /** A placed ride; `visited` only ever goes from false to true. */
  datatype Ride = Ride(pos: Cell, kind: RideKind, visited: bool)

  datatype Player = Player(pos: Cell, score: int)

  // ---------------------------------------------------------------------
  // Ride kinds

  /** The identifier a toolbar passes to select a kind. */
  function KindId(k: RideKind): (id: string)
    ensures ParseKind(id) == Some(k)
  {
    match k
    case FerrisWheel => "ferrisWheel"
    case Carousel => "carousel"
    case RollerCoaster => "rollerCoaster"
  }

  /** The display name stored with a placed ride. */
  function KindName(k: RideKind): (name: string)
    ensures name in {"Ferris Wheel", "Carousel", "Roller Coaster"}
  {
    match k
    case FerrisWheel => "Ferris Wheel"
    case Carousel => "Carousel"
    case RollerCoaster => "Roller Coaster"
  }

  /** The `switch (rideType)` of a placement: only the three identifiers
      name a kind; any other value places nothing. */
  function ParseKind(rideType: string): (r: Option<RideKind>)
    ensures r.Some? <==> rideType in {"ferrisWheel", "carousel", "rollerCoaster"}
  {
    if rideType == "ferrisWheel" then Some(FerrisWheel)
    else if rideType == "carousel" then Some(Carousel)
    else if rideType == "rollerCoaster" then Some(RollerCoaster)
    else None
  }

  /** A selection names a kind exactly when it is that kind's identifier. */
  lemma ParseKindInverse(rideType: string, k: RideKind)
    ensures ParseKind(rideType) == Some(k) <==> rideType == KindId(k)
  {
  }

  /** Distinct kinds carry distinct display names. */
  lemma KindNameInjective(j: RideKind, k: RideKind)
    ensures KindName(j) == KindName(k) <==> j == k
  {
    if KindName(j) == KindName(k) {
      assert KindName(j)[0] == KindName(k)[0];
      assert |KindName(j)| == |KindName(k)|;
    }
  }

  /** The notification shown when the player first reaches a ride: the fixed
      greeting, then the ride's display name, then an exclamation mark. */
  function ReachedMessage(k: RideKind): (msg: string)
    ensures |msg| == |"You have reached the "| + |KindName(k)| + 1
    ensures msg[..|"You have reached the "|] == "You have reached the "
    ensures msg[|"You have reached the "|..|msg| - 1] == KindName(k)
    ensures msg[|msg| - 1] == '!'
  {
    "You have reached the " + KindName(k) + "!"
  }

  /** A notification names the ride it was raised for: distinct kinds raise
      distinct notifications. */
  lemma {:induction false} ReachedMessageInjective(j: RideKind, k: RideKind)
    ensures ReachedMessage(j) == ReachedMessage(k) <==> j == k
  {
    if ReachedMessage(j) == ReachedMessage(k) {
      var m := ReachedMessage(j);
      assert KindName(j) == m[|"You have reached the "|..|m| - 1] == KindName(k);
      KindNameInjective(j, k);
    }
  }

  // ---------------------------------------------------------------------
  // Input mapping and grid geometry

  /** The key switch: each arrow key is one cardinal unit step; every other
      key does nothing. */
  function KeyStep(key: string): (r: Option<(int, int)>)
    ensures r.Some? <==> key in {"ArrowUp", "ArrowDown", "ArrowLeft", "ArrowRight"}
    ensures r.Some? ==> -1 <= r.value.0 <= 1 && -1 <= r.value.1 <= 1
    ensures r.Some? ==> (r.value.0 == 0 <==> r.value.1 != 0)
  {
    if key == "ArrowUp" then Some((0, -1))
    else if key == "ArrowDown" then Some((0, 1))
    else if key == "ArrowLeft" then Some((-1, 0))
    else if key == "ArrowRight" then Some((1, 0))
    else None
  }

  /** The cell under a click at pixel offset (px, py) from the canvas corner:
      floor division by the cell size in each axis. */
  function CellAt(px: int, py: int): (c: Cell)
    ensures c.x * GridSize <= px < (c.x + 1) * GridSize
    ensures c.y * GridSize <= py < (c.y + 1) * GridSize
    ensures c.x == (px as real / GridSize as real).Floor
    ensures c.y == (py as real / GridSize as real).Floor
  {
    Cell(px / GridSize, py / GridSize)
  }

  /** The cell lies on a canvas of `width` by `height` pixels: each coordinate
      is at least 0 and below the pixel size divided by the cell size. */
  predicate InBounds(c: Cell, width: int, height: int)
    ensures InBounds(c, width, height) <==>
      0 <= c.x && (c.x as real) < width as real / GridSize as real &&
      0 <= c.y && (c.y as real) < height as real / GridSize as real
  {
    0 <= c.x && c.x * GridSize < width && 0 <= c.y && c.y * GridSize < height
  }

  // ---------------------------------------------------------------------
  // Scans over obstacles and rides

  /** Some obstacle occupies `c` (the first match ends the scan). */
  function ObstacleAt(obstacles: seq<Cell>, c: Cell): (b: bool)
    ensures b <==> c in obstacles
  {
    |obstacles| > 0 && (obstacles[0] == c || ObstacleAt(obstacles[1..], c))
  }

  /** Some ride occupies `c` (the first match ends the scan). */
  function RideAt(rides: seq<Ride>, c: Cell): (b: bool)
    ensures b <==> exists k :: 0 <= k < |rides| && rides[k].pos == c
  {
    |rides| > 0 && (rides[0].pos == c || RideAt(rides[1..], c))
  }

  /** No two rides share a cell. */
  ghost predicate DistinctCells(rides: seq<Ride>)
  {
    forall i, j :: 0 <= i < j < |rides| ==> rides[i].pos != rides[j].pos
  }

  /** Appending a ride at a free cell keeps the rides on distinct cells. */
  lemma PlaceKeepsDistinct(rides: seq<Ride>, r: Ride)
    requires DistinctCells(rides)
    requires !RideAt(rides, r.pos)
    ensures DistinctCells(rides + [r])
  {
    var s := rides + [r];
    forall i, j | 0 <= i < j < |s| ensures s[i].pos != s[j].pos {
      if j == |rides| {
        assert s[i] == rides[i];
      }
    }
  }

  /** From `before` to `after` no ride was removed, moved or re-kinded, rides
      may only have been appended, and no `visited` flag went back to false. */
  ghost predicate RidesAdvance(before: seq<Ride>, after: seq<Ride>)
  {
    && |before| <= |after|
    && forall k :: 0 <= k < |before| ==>
         after[k].pos == before[k].pos && after[k].kind == before[k].kind &&
         (before[k].visited ==> after[k].visited)
  }

  // ---------------------------------------------------------------------
  // Visiting rides

  function Visit(r: Ride, c: Cell): Ride
  {
    if r.pos == c then r.(visited := true) else r
  }

  /** Every ride at `c` becomes visited; all other rides stay as they were. */
  function VisitAt(rides: seq<Ride>, c: Cell): (r: seq<Ride>)
    ensures |r| == |rides|
    ensures forall k :: 0 <= k < |rides| ==>
      r[k].pos == rides[k].pos && r[k].kind == rides[k].kind &&
      r[k].visited == (rides[k].visited || rides[k].pos == c)
  {
    if rides == [] then []
    else VisitAt(rides[..|rides| - 1], c) + [Visit(rides[|rides| - 1], c)]
  }

  /** The notifications a visit at `c` raises, in ride order: one for each
      ride at `c` that was not yet visited. */
  function Alerts(rides: seq<Ride>, c: Cell): (msgs: seq<string>)
    ensures |msgs| <= |rides|
  {
    if rides == [] then []
    else
      var last := rides[|rides| - 1];
      Alerts(rides[..|rides| - 1], c) +
        (if last.pos == c && !last.visited then [ReachedMessage(last.kind)] else [])
  }

  /** One more ride scanned: the visit and the notifications extend by that
      ride's part. */
  lemma VisitStep(rides: seq<Ride>, c: Cell, i: nat)
    requires i < |rides|
    ensures VisitAt(rides[..i + 1], c) == VisitAt(rides[..i], c) + [Visit(rides[i], c)]
    ensures Alerts(rides[..i + 1], c) == Alerts(rides[..i], c) +
      (if rides[i].pos == c && !rides[i].visited then [ReachedMessage(rides[i].kind)] else [])
    ensures (VisitAt(rides[..i], c) + rides[i..])[i := Visit(rides[i], c)] ==
      VisitAt(rides[..i + 1], c) + rides[i + 1..]
  {
    assert rides[..i + 1][..i] == rides[..i];
  }

  /** A visit at `c` is silent exactly when every ride at `c` is visited. */
  lemma {:induction false} AlertsEmptyIff(rides: seq<Ride>, c: Cell)
    ensures Alerts(rides, c) == [] <==>
      forall k :: 0 <= k < |rides| && rides[k].pos == c ==> rides[k].visited
  {
    if rides != [] {
      var init := rides[..|rides| - 1];
      AlertsEmptyIff(init, c);
      assert forall k :: 0 <= k < |init| ==> init[k] == rides[k];
    }
  }

  /** A second visit at the same cell raises nothing and changes nothing:
      each ride's notification fires at most once. */
  lemma VisitAgainSilent(rides: seq<Ride>, c: Cell)
    ensures VisitAt(VisitAt(rides, c), c) == VisitAt(rides, c)
    ensures Alerts(VisitAt(rides, c), c) == []
  {
    var once := VisitAt(rides, c);
    AlertsEmptyIff(once, c);
    var twice := VisitAt(once, c);
    assert forall k :: 0 <= k < |once| ==> twice[k] == once[k];
  }

  /** A cell that holds no ride: visiting there changes nothing and raises
      nothing. */
  lemma {:induction false} VisitElsewhere(rides: seq<Ride>, c: Cell)
    requires !RideAt(rides, c)
    ensures VisitAt(rides, c) == rides
    ensures Alerts(rides, c) == []
  {
    if rides != [] {
      var init := rides[..|rides| - 1];
      assert forall k :: 0 <= k < |init| ==> init[k] == rides[k];
      VisitElsewhere(init, c);
      assert init + [rides[|rides| - 1]] == rides;
    }
  }

  /** Rides on distinct cells: one visit raises at most one notification. */
  lemma {:induction false} AlertsAtMostOne(rides: seq<Ride>, c: Cell)
    requires DistinctCells(rides)
    ensures |Alerts(rides, c)| <= 1
  {
    if rides != [] {
      var n := |rides|;
      var init := rides[..n - 1];
      assert forall k :: 0 <= k < |init| ==> init[k] == rides[k];
      if rides[n - 1].pos == c {
        AlertsEmptyIff(init, c);
      } else {
        AlertsAtMostOne(init, c);
      }
    }
  }

  /** The positions of the rides at `c` not yet visited. */
  ghost function FreshRides(rides: seq<Ride>, c: Cell): set<int>
  {
    set k | 0 <= k < |rides| && rides[k].pos == c && !rides[k].visited
  }

  /** A visit raises exactly one notification per ride at `c` not yet
      visited. */
  lemma {:induction false} AlertsCount(rides: seq<Ride>, c: Cell)
    ensures |Alerts(rides, c)| == |FreshRides(rides, c)|
  {
    if rides != [] {
      var n := |rides|;
      var init := rides[..n - 1];
      AlertsCount(init, c);
      assert forall k :: 0 <= k < |init| ==> init[k] == rides[k];
      if rides[n - 1].pos == c && !rides[n - 1].visited {
        assert FreshRides(rides, c) == FreshRides(init, c) + {n - 1};
      } else {
        assert FreshRides(rides, c) == FreshRides(init, c);
      }
    }
  }

  /** Rides on distinct cells, with the ride at `c` not yet visited: the visit
      raises exactly that ride's notification. */
  lemma {:induction false} AlertsOne(rides: seq<Ride>, c: Cell, k: nat)
    requires DistinctCells(rides)
    requires k < |rides| && rides[k].pos == c && !rides[k].visited
    ensures Alerts(rides, c) == [ReachedMessage(rides[k].kind)]
  {
    var n := |rides|;
    var init := rides[..n - 1];
    assert forall j :: 0 <= j < |init| ==> init[j] == rides[j];
    if k == n - 1 {
      AlertsEmptyIff(init, c);
    } else {
      AlertsOne(init, c, k);
    }
  }

  // ---------------------------------------------------------------------
  // Collecting items

  predicate UncollectedAt(item: Item, c: Cell)
  {
    item.pos == c && !item.collected
  }

  function Collect(item: Item, c: Cell): Item
  {
    if item.pos == c then item.(collected := true) else item
  }

  /** Every item at `c` becomes collected; all other items stay as they were. */
  function CollectAt(items: seq<Item>, c: Cell): (r: seq<Item>)
    ensures |r| == |items|
    ensures forall k :: 0 <= k < |items| ==>
      r[k].pos == items[k].pos && r[k].collected == (items[k].collected || items[k].pos == c)
  {
    if items == [] then []
    else CollectAt(items[..|items| - 1], c) + [Collect(items[|items| - 1], c)]
  }

  /** From `before` to `after` the items kept their number and their cells,
      and no `collected` flag went back to false. */
  ghost predicate ItemsAdvance(before: seq<Item>, after: seq<Item>)
  {
    && |before| == |after|
    && forall k :: 0 <= k < |before| ==>
         after[k].pos == before[k].pos && (before[k].collected ==> after[k].collected)
  }

  /** How many items at `c` are not yet collected. */
  function FreshCount(items: seq<Item>, c: Cell): (n: nat)
    ensures n <= |items|
  {
    if items == [] then 0
    else FreshCount(items[..|items| - 1], c) + (if UncollectedAt(items[|items| - 1], c) then 1 else 0)
  }

  /** How many items are collected. */
  function CollectedCount(items: seq<Item>): (n: nat)
    ensures n <= |items|
  {
    if items == [] then 0
    else CollectedCount(items[..|items| - 1]) + (if items[|items| - 1].collected then 1 else 0)
  }

  /** The positions of the collected items. */
  ghost function CollectedIndices(items: seq<Item>): set<int>
  {
    set k | 0 <= k < |items| && items[k].collected
  }

  /** CollectedCount counts exactly the collected items. */
  lemma {:induction false} CollectedCountIsSize(items: seq<Item>)
    ensures CollectedCount(items) == |CollectedIndices(items)|
  {
    if items != [] {
      var n := |items|;
      var init := items[..n - 1];
      CollectedCountIsSize(init);
      assert forall k :: 0 <= k < |init| ==> init[k] == items[k];
      if items[n - 1].collected {
        assert CollectedIndices(items) == CollectedIndices(init) + {n - 1};
      } else {
        assert CollectedIndices(items) == CollectedIndices(init);
      }
    }
  }

  /** The positions of the items at `c` not yet collected. */
  ghost function FreshIndices(items: seq<Item>, c: Cell): set<int>
  {
    set k | 0 <= k < |items| && UncollectedAt(items[k], c)
  }

  /** FreshCount counts exactly the uncollected items at `c`. */
  lemma {:induction false} FreshCountIsSize(items: seq<Item>, c: Cell)
    ensures FreshCount(items, c) == |FreshIndices(items, c)|
  {
    if items != [] {
      var n := |items|;
      var init := items[..n - 1];
      FreshCountIsSize(init, c);
      assert forall k :: 0 <= k < |init| ==> init[k] == items[k];
      if UncollectedAt(items[n - 1], c) {
        assert FreshIndices(items, c) == FreshIndices(init, c) + {n - 1};
      } else {
        assert FreshIndices(items, c) == FreshIndices(init, c);
      }
    }
  }

  /** One more item scanned: the collection and the count extend by that
      item's part. */
  lemma CollectStep(items: seq<Item>, c: Cell, i: nat)
    requires i < |items|
    ensures CollectAt(items[..i + 1], c) == CollectAt(items[..i], c) + [Collect(items[i], c)]
    ensures FreshCount(items[..i + 1], c) ==
      FreshCount(items[..i], c) + (if UncollectedAt(items[i], c) then 1 else 0)
    ensures (CollectAt(items[..i], c) + items[i..])[i := Collect(items[i], c)] ==
      CollectAt(items[..i + 1], c) + items[i + 1..]
  {
    assert items[..i + 1][..i] == items[..i];
  }

  /** Collecting at `c` adds to the collected count exactly the items there
      that were not yet collected. */
  lemma {:induction false} CollectAtCount(items: seq<Item>, c: Cell)
    ensures CollectedCount(CollectAt(items, c)) == CollectedCount(items) + FreshCount(items, c)
  {
    if items != [] {
      var n := |items|;
      var init := items[..n - 1];
      CollectAtCount(init, c);
      var r := CollectAt(items, c);
      assert r[..n - 1] == CollectAt(init, c);
    }
  }

  /** Nothing is left to collect at `c` exactly when every item there is
      collected. */
  lemma {:induction false} FreshCountZeroIff(items: seq<Item>, c: Cell)
    ensures FreshCount(items, c) == 0 <==>
      forall k :: 0 <= k < |items| && items[k].pos == c ==> items[k].collected
  {
    if items != [] {
      var init := items[..|items| - 1];
      FreshCountZeroIff(init, c);
      assert forall k :: 0 <= k < |init| ==> init[k] == items[k];
    }
  }

  /** Collecting again at the same cell changes nothing and earns nothing. */
  lemma CollectAgainIdle(items: seq<Item>, c: Cell)
    ensures CollectAt(CollectAt(items, c), c) == CollectAt(items, c)
    ensures FreshCount(CollectAt(items, c), c) == 0
  {
    var once := CollectAt(items, c);
    FreshCountZeroIff(once, c);
    var twice := CollectAt(once, c);
    assert forall k :: 0 <= k < |once| ==> twice[k] == once[k];
  }

  /** A cell that holds no item: collecting there changes nothing. */
  lemma {:induction false} CollectElsewhere(items: seq<Item>, c: Cell)
    requires forall k :: 0 <= k < |items| ==> items[k].pos != c
    ensures CollectAt(items, c) == items
    ensures FreshCount(items, c) == 0
  {
    if items != [] {
      var init := items[..|items| - 1];
      CollectElsewhere(init, c);
      assert init + [items[|items| - 1]] == items;
    }
  }
}
