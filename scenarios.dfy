/** Play-throughs of the game from its start-up state, driven only through the
    key and click handlers; each states what the player sees at the end. */
module Scenarios {
  import opened Rules
  import opened Park

  /** `t` unit steps in direction `u`, one of -1, 0 and 1. */
  function Scale(u: int, t: int): int
  {
    if u == 0 then 0 else if u > 0 then t else -t
  }

  /** The cell `t` steps from `c` in the unit direction `d`. */
  function Shift(c: Cell, d: (int, int), t: int): Cell
  {
    Cell(c.x + Scale(d.0, t), c.y + Scale(d.1, t))
  }

  /** Every cell of the `steps` unit steps from `from` in direction `d` lies
      on the grid, off the obstacles, and holds no item and no ride. */
  ghost predicate ClearPath(width: int, height: int, obstacles: seq<Cell>, items: seq<Item>,
                            rides: seq<Ride>, from: Cell, d: (int, int), steps: nat)
  {
    forall t :: 1 <= t <= steps ==>
      var c := Shift(from, d, t);
      InBounds(c, width, height) && c !in obstacles && !RideAt(rides, c) &&
      forall k :: 0 <= k < |items| ==> items[k].pos != c
  }

  /** Presses the arrow key `key`, whose unit step is `d`, once, onto an
      enterable cell that holds no item and no ride: the player moves there
      and nothing else changes. */
  method Press(park: ThemePark, key: string, d: (int, int))
    requires park.Valid() && KeyStep(key) == Some(d)
    requires park.CanEnter(Cell(park.player.pos.x + d.0, park.player.pos.y + d.1))
    requires !RideAt(park.rides, Cell(park.player.pos.x + d.0, park.player.pos.y + d.1))
    requires forall k :: 0 <= k < |park.items| ==>
      park.items[k].pos != Cell(park.player.pos.x + d.0, park.player.pos.y + d.1)
    modifies park`player, park`items, park`rides, park`frames
    ensures park.Valid()
    ensures park.player == old(park.player).(pos := Cell(old(park.player.pos.x) + d.0, old(park.player.pos.y) + d.1))
    ensures park.items == old(park.items) && park.rides == old(park.rides)
  {
    var target := Cell(park.player.pos.x + d.0, park.player.pos.y + d.1);
    CollectElsewhere(park.items, target);
    VisitElsewhere(park.rides, target);
    var alerts := park.KeyDown(key);
  }

  /** Presses the arrow key `key`, whose unit step is `d`, `steps` times
      along a path of enterable cells that hold no item and no ride: the
      player arrives at the end and nothing else changes. */
  method Walk(park: ThemePark, key: string, d: (int, int), steps: nat)
    requires park.Valid() && KeyStep(key) == Some(d)
    requires ClearPath(park.width, park.height, park.obstacles, park.items, park.rides,
                       park.player.pos, d, steps)
    modifies park`player, park`items, park`rides, park`frames
    ensures park.Valid()
    ensures park.player.pos == Shift(old(park.player.pos), d, steps)
    ensures park.player.score == old(park.player.score)
    ensures park.items == old(park.items) && park.rides == old(park.rides)
  {
    ghost var start := park.player.pos;
    var n := 0;
    while n < steps
      invariant 0 <= n <= steps && park.Valid()
      invariant park.player.pos == Shift(start, d, n) && park.player.score == old(park.player.score)
      invariant park.items == old(park.items) && park.rides == old(park.rides)
    {
      var target := Shift(start, d, n + 1);
      assert target == Cell(park.player.pos.x + d.0, park.player.pos.y + d.1);
      Press(park, key, d);
      n := n + 1;
    }
  }

  /** The start-up items. */
  const SeedItems := [Item(Cell(7, 4), false), Item(Cell(12, 9), false)]

  /** Standing on one seed item collects that one alone. */
  lemma CollectSeed(c: Cell, k: nat)
    requires k < 2 && c == SeedItems[k].pos
    ensures FreshCount(SeedItems, c) == 1
    ensures CollectAt(SeedItems, c) == SeedItems[k := SeedItems[k].(collected := true)]
  {
    assert SeedItems[..1] == [SeedItems[0]];
  }

  /** Standing on the second seed item after the first was collected. */
  lemma CollectSecondSeed()
    ensures var after := SeedItems[0 := SeedItems[0].(collected := true)];
      FreshCount(after, Cell(12, 9)) == 1 &&
      CollectAt(after, Cell(12, 9)) == [Item(Cell(7, 4), true), Item(Cell(12, 9), true)]
  {
    var after := SeedItems[0 := SeedItems[0].(collected := true)];
    assert after[..1] == [after[0]];
  }

  /** Seven steps right from the start cross no item and no obstacle. */
  method WalkRight(width: int, height: int) returns (park: ThemePark)
    requires 13 * GridSize <= width && 10 * GridSize <= height
    ensures fresh(park) && park.Valid() && park.width == width && park.height == height
    ensures park.player == Player(Cell(7, 0), 0)
    ensures park.items == SeedItems
    ensures park.obstacles == [Cell(6, 6), Cell(9, 10)] && park.rides == []
  {
    park := new ThemePark(width, height);
    Walk(park, "ArrowRight", (1, 0), 7);
  }

  /** Seven right and four down arrows reach the first item at (7, 4) and
      score 10, leaving the second item. */
  method CollectFirstSeed(width: int, height: int) returns (park: ThemePark)
    requires 13 * GridSize <= width && 10 * GridSize <= height
    ensures fresh(park) && park.Valid() && park.width == width && park.height == height
    ensures park.player == Player(Cell(7, 4), 10)
    ensures park.items == [Item(Cell(7, 4), true), Item(Cell(12, 9), false)]
    ensures park.obstacles == [Cell(6, 6), Cell(9, 10)] && park.rides == []
  {
    park := WalkRight(width, height);
    Walk(park, "ArrowDown", (0, 1), 3);
    assert park.player.pos == Cell(7, 3);
    CollectSeed(Cell(7, 4), 0);
    assert KeyStep("ArrowDown") == Some((0, 1));
    var alerts := park.KeyDown("ArrowDown");
  }

  /** Five right and five down arrows more reach the second item at (12, 9):
      both seed items are collected and the score is 20. */
  method CollectSeedItems(width: int, height: int) returns (first: int, second: int)
    requires 13 * GridSize <= width && 10 * GridSize <= height
    ensures first == 10 && second == 20
  {
    var park := CollectFirstSeed(width, height);
    first := park.player.score;
    Walk(park, "ArrowRight", (1, 0), 5);
    assert park.player.pos == Cell(12, 4);
    Walk(park, "ArrowDown", (0, 1), 4);
    assert park.player.pos == Cell(12, 8);
    CollectSecondSeed();
    assert KeyStep("ArrowDown") == Some((0, 1));
    var alerts := park.KeyDown("ArrowDown");
    second := park.player.score;
  }

  /** Six steps down from the start cross no item and no obstacle. */
  method WalkDown(width: int, height: int) returns (park: ThemePark)
    requires 13 * GridSize <= width && 10 * GridSize <= height
    ensures fresh(park) && park.Valid() && park.width == width && park.height == height
    ensures park.player == Player(Cell(0, 6), 0)
    ensures park.items == SeedItems
    ensures park.obstacles == [Cell(6, 6), Cell(9, 10)] && park.rides == []
  {
    park := new ThemePark(width, height);
    Walk(park, "ArrowDown", (0, 1), 6);
  }

  /** Six down and five right arrows reach (5, 6); a right arrow towards the
      obstacle at (6, 6) then leaves the player where it was. */
  method BlockedByObstacle(width: int, height: int) returns (before: Player, after: Player)
    requires 13 * GridSize <= width && 10 * GridSize <= height
    ensures before == after == Player(Cell(5, 6), 0)
  {
    var park := WalkDown(width, height);
    Walk(park, "ArrowRight", (1, 0), 5);
    before := park.player;
    assert KeyStep("ArrowRight") == Some((1, 0));
    var alerts := park.KeyDown("ArrowRight");
    after := park.player;
  }

  /** Arming "carousel" and clicking inside cell (3, 3) places one Carousel
      there; clicking again does nothing since the selection was cleared;
      arming "rollerCoaster" and clicking the same cell places nothing and
      still clears the selection. */
  method PlaceCarousel(width: int, height: int, px: int, py: int)
    returns (first: seq<Ride>, second: seq<Ride>, third: seq<Ride>, armed: bool)
    requires 0 < width && 0 < height
    requires 3 * GridSize <= px < 4 * GridSize && 3 * GridSize <= py < 4 * GridSize
    ensures first == [Ride(Cell(3, 3), Carousel, false)]
    ensures KindName(first[0].kind) == "Carousel"
    ensures second == first && third == first && !armed
  {
    var park := new ThemePark(width, height);
    assert CellAt(px, py) == Cell(3, 3);
    assert ParseKind("carousel") == Some(Carousel);
    park.AddRide("carousel");
    park.Click(px, py);
    first := park.rides;
    park.Click(px, py);
    second := park.rides;
    park.AddRide("rollerCoaster");
    park.Click(px, py);
    third := park.rides;
    armed := park.Armed();
  }

  /** Arming "carousel" and clicking at pixel (40, 0) places a Carousel on
      cell (1, 0), next to the start. */
  method PlaceNextToStart(width: int, height: int) returns (park: ThemePark)
    requires 2 * GridSize <= width && 0 < height
    ensures fresh(park) && park.Valid() && park.width == width && park.height == height
    ensures park.player == Player(Cell(0, 0), 0) && park.items == SeedItems
    ensures park.obstacles == [Cell(6, 6), Cell(9, 10)]
    ensures park.rides == [Ride(Cell(1, 0), Carousel, false)]
  {
    park := new ThemePark(width, height);
    assert CellAt(GridSize, 0) == Cell(1, 0);
    park.AddRide("carousel");
    park.Click(GridSize, 0);
  }

  /** Stepping onto the new Carousel announces it and marks it visited. */
  method VisitNewRide(width: int, height: int) returns (park: ThemePark, alerts: seq<string>)
    requires 2 * GridSize <= width && 0 < height
    ensures fresh(park) && park.Valid() && park.width == width && park.height == height
    ensures park.player == Player(Cell(1, 0), 0) && park.items == SeedItems
    ensures park.obstacles == [Cell(6, 6), Cell(9, 10)]
    ensures park.rides == [Ride(Cell(1, 0), Carousel, true)]
    ensures alerts == ["You have reached the Carousel!"]
  {
    park := PlaceNextToStart(width, height);
    assert KeyStep("ArrowRight") == Some((1, 0));
    CollectElsewhere(park.items, Cell(1, 0));
    alerts := park.KeyDown("ArrowRight");
    assert Alerts([Ride(Cell(1, 0), Carousel, false)], Cell(1, 0)) == [ReachedMessage(Carousel)];
    assert ReachedMessage(Carousel) == "You have reached the " + "Carousel" + "!";
    assert "You have reached the " + "Carousel" + "!" == "You have reached the Carousel!";
  }

  /** Stepping off the visited Carousel and back onto it raises nothing: its
      notification fired once. */
  method RevisitRide(width: int, height: int) returns (firstVisit: seq<string>, secondVisit: seq<string>)
    requires 2 * GridSize <= width && 0 < height
    ensures firstVisit == ["You have reached the Carousel!"]
    ensures secondVisit == []
  {
    var park;
    park, firstVisit := VisitNewRide(width, height);
    assert KeyStep("ArrowRight") == Some((1, 0)) && KeyStep("ArrowLeft") == Some((-1, 0));
    CollectElsewhere(park.items, Cell(0, 0));
    VisitElsewhere(park.rides, Cell(0, 0));
    var away := park.KeyDown("ArrowLeft");
    CollectElsewhere(park.items, Cell(1, 0));
    VisitAgainSilent([Ride(Cell(1, 0), Carousel, false)], Cell(1, 0));
    secondVisit := park.KeyDown("ArrowRight");
  }
}
