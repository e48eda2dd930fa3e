/** The game object: the player, the seeded items and obstacles, the rides
    placed so far and the ride kind armed for placement, updated in place by
    the key and click handlers. */
module Park {
  import opened Rules

  class ThemePark {
    /** Canvas size in pixels. */
    const width: int
    const height: int
    /** Obstacle cells; fixed at start-up. */
    const obstacles: seq<Cell>

    var player: Player
    var items: seq<Item>
    var rides: seq<Ride>
    /** The ride kind armed by the toolbar, or none (`null`). */
    var selectedRide: Option<string>

    /** Number of full redraws so far; `draw()` only repaints, so this marker
        is all of it the model keeps. */
    ghost var frames: nat

    /** The game invariant: the player stands on the grid and off every
        obstacle, no two rides share a cell, and the score is the reward for
        the items collected so far (hence non-negative and a multiple of 10). */
    ghost predicate Valid()
      reads this
    {
      && InBounds(player.pos, width, height)
      && !ObstacleAt(obstacles, player.pos)
      && DistinctCells(rides)
      && player.score == ItemReward * CollectedCount(items)
    }

    /** The move guard: the player may step onto `c` exactly when it lies on
        the canvas and is none of the obstacle cells. */
    predicate CanEnter(c: Cell): (b: bool)
      reads this
      ensures b <==>
        0 <= c.x && (c.x as real) < width as real / GridSize as real &&
        0 <= c.y && (c.y as real) < height as real / GridSize as real &&
        c !in obstacles
    {
      InBounds(c, width, height) && !ObstacleAt(obstacles, c)
    }

    /** A placement click acts only when the selection is truthy: present and
        not the empty string. */
    predicate Armed(): (b: bool)
      reads this
      ensures selectedRide.Some? && ParseKind(selectedRide.value).Some? ==> b
      ensures selectedRide == None || selectedRide == Some("") ==> !b
    {
      selectedRide.Some? && selectedRide.value != ""
    }

    /** The start-up state on a canvas of `width` by `height` pixels, followed
        by one redraw. */
    constructor (width: int, height: int)
      requires 0 < width && 0 < height
      ensures Valid()
      ensures this.width == width && this.height == height
      ensures player == Player(Cell(0, 0), 0)
      ensures items == [Item(Cell(7, 4), false), Item(Cell(12, 9), false)]
      ensures obstacles == [Cell(6, 6), Cell(9, 10)]
      ensures rides == [] && selectedRide == None
      ensures frames == 1
    {
      this.width := width;
      this.height := height;
      player := Player(Cell(0, 0), 0);
      rides := [];
      items := [Item(Cell(7, 4), false), Item(Cell(12, 9), false)];
      obstacles := [Cell(6, 6), Cell(9, 10)];
      selectedRide := None;
      frames := 0;
      new;
      Draw();
    }

    /** A full redraw: no game state changes. */
    method Draw()
      modifies this`frames
      ensures frames == old(frames) + 1
    {
      frames := frames + 1;
    }

    /** The effect of a move by (dx, dy): onto an enterable cell the player
        moves there, rides there become visited (with one notification per
        newly visited ride), items there are collected for 10 points each and
        the frame is redrawn; otherwise nothing changes and nothing is shown. */
    twostate predicate Moved(dx: int, dy: int, alerts: seq<string>)
      reads this
    {
      var target := Cell(old(player.pos.x) + dx, old(player.pos.y) + dy);
      if CanEnter(target) then
        && player.pos == target
        && player.score == old(player.score) + ItemReward * FreshCount(old(items), target)
        && items == CollectAt(old(items), target)
        && rides == VisitAt(old(rides), target)
        && alerts == Alerts(old(rides), target)
        && frames == old(frames) + 1
      else
        && player == old(player) && items == old(items) && rides == old(rides)
        && alerts == [] && frames == old(frames)
    }

    /** The effect of placing `rideType` at `c`: on an occupied cell nothing
        changes; otherwise a ride of a recognised kind is appended, unvisited,
        and the frame is redrawn (also for an unrecognised kind). */
    twostate predicate Placed(rideType: string, c: Cell)
      reads this
    {
      if RideAt(old(rides), c) then
        rides == old(rides) && frames == old(frames)
      else
        && frames == old(frames) + 1
        && match ParseKind(rideType)
           case None => rides == old(rides)
           case Some(k) => rides == old(rides) + [Ride(c, k, false)]
    }

    /** Visits the rides and collects the items at the player's cell, in list
        order, returning the notifications raised. */
    method CheckInteractions() returns (alerts: seq<string>)
      requires Valid()
      modifies this`player, this`items, this`rides
      ensures Valid()
      ensures rides == VisitAt(old(rides), player.pos)
      ensures alerts == Alerts(old(rides), player.pos)
      ensures items == CollectAt(old(items), player.pos)
      ensures player == old(player).(score := old(player.score) + ItemReward * FreshCount(old(items), player.pos))
    {
      CollectAtCount(items, player.pos);
      alerts := VisitRides(player.pos);
      CollectItems(player.pos);
    }

    /** The scan over the rides: each ride at `here` not yet visited raises
        its notification and becomes visited. */
    method VisitRides(here: Cell) returns (alerts: seq<string>)
      modifies this`rides
      ensures rides == VisitAt(old(rides), here)
      ensures alerts == Alerts(old(rides), here)
    {
      ghost var rides0 := rides;
      alerts := [];
      var i := 0;
      while i < |rides|
        invariant 0 <= i <= |rides0| == |rides|
        invariant rides == VisitAt(rides0[..i], here) + rides0[i..]
        invariant alerts == Alerts(rides0[..i], here)
      {
        VisitStep(rides0, here, i);
        assert rides[i] == rides0[i];
        if here == rides[i].pos && !rides[i].visited {
          alerts := alerts + [ReachedMessage(rides[i].kind)];
          rides := rides[i := rides[i].(visited := true)];
        }
        i := i + 1;
      }
      assert rides0[..i] == rides0;
    }

    /** The scan over the items: each item at `here` not yet collected becomes
        collected and adds the reward to the score. */
    method CollectItems(here: Cell)
      modifies this`items, this`player
      ensures items == CollectAt(old(items), here)
      ensures player == old(player).(score := old(player.score) + ItemReward * FreshCount(old(items), here))
    {
      ghost var items0 := items;
      var j := 0;
      while j < |items|
        invariant 0 <= j <= |items0| == |items|
        invariant items == CollectAt(items0[..j], here) + items0[j..]
        invariant player == old(player).(score := old(player.score) + ItemReward * FreshCount(items0[..j], here))
      {
        CollectStep(items0, here, j);
        assert items[j] == items0[j];
        if here == items[j].pos && !items[j].collected {
          items := items[j := items[j].(collected := true)];
          player := player.(score := player.score + ItemReward);
        }
        j := j + 1;
      }
      assert items0[..j] == items0;
    }

    /** `movePlayer`: one step by (dx, dy), rejected without effect when it
        would leave the grid or enter an obstacle. */
    method MovePlayer(dx: int, dy: int) returns (alerts: seq<string>)
      requires Valid()
      modifies this`player, this`items, this`rides, this`frames
      ensures Valid()
      ensures Moved(dx, dy, alerts)
      ensures ItemsAdvance(old(items), items) && RidesAdvance(old(rides), rides)
      ensures old(player.score) <= player.score
      ensures |alerts| <= 1
    {
      var target := Cell(player.pos.x + dx, player.pos.y + dy);
      if InBounds(target, width, height) && !ObstacleAt(obstacles, target) {
        CollectAtCount(items, target);
        AlertsAtMostOne(rides, target);
        player := player.(pos := target);
        alerts := CheckInteractions();
        Draw();
        assert CanEnter(target) && player.pos == target;
      } else {
        assert !CanEnter(target);
        alerts := [];
      }
    }

    /** The arrow-key handler: each arrow key is one move, any other key is
        ignored. */
    method KeyDown(key: string) returns (alerts: seq<string>)
      requires Valid()
      modifies this`player, this`items, this`rides, this`frames
      ensures Valid()
      ensures KeyStep(key).Some? ==> Moved(KeyStep(key).value.0, KeyStep(key).value.1, alerts)
      ensures KeyStep(key).None? ==>
        player == old(player) && items == old(items) && rides == old(rides) &&
        frames == old(frames) && alerts == []
    {
      match KeyStep(key)
      case Some(step) =>
        alerts := MovePlayer(step.0, step.1);
      case None =>
        alerts := [];
    }

    /** `addRide`: arms a ride kind for the next click; nothing else changes. */
    method AddRide(rideType: string)
      requires Valid()
      modifies this`selectedRide
      ensures Valid()
      ensures selectedRide == Some(rideType)
    {
      selectedRide := Some(rideType);
    }

    /** `addRideAtPosition`: places a ride of kind `rideType` at (x, y) unless
        a ride already stands there. */
    method AddRideAtPosition(rideType: string, x: int, y: int)
      requires Valid()
      modifies this`rides, this`frames
      ensures Valid()
      ensures Placed(rideType, Cell(x, y))
      ensures RidesAdvance(old(rides), rides)
    {
      var c := Cell(x, y);
      if !RideAt(rides, c) {
        match ParseKind(rideType) {
          case Some(k) =>
            PlaceKeepsDistinct(rides, Ride(c, k, false));
            rides := rides + [Ride(c, k, false)];
          case None =>
        }
        Draw();
      }
    }

    /** The click handler: with a ride kind armed, places it at the clicked
        cell and disarms the selection, whether or not the placement was
        accepted; otherwise does nothing. */
    method Click(px: int, py: int)
      requires Valid()
      modifies this`rides, this`frames, this`selectedRide
      ensures Valid()
      ensures old(Armed()) ==> selectedRide == None && Placed(old(selectedRide).value, CellAt(px, py))
      ensures !old(Armed()) ==>
        rides == old(rides) && frames == old(frames) && selectedRide == old(selectedRide)
      ensures RidesAdvance(old(rides), rides)
    {
      if Armed() {
        var c := CellAt(px, py);
        AddRideAtPosition(selectedRide.value, c.x, c.y);
        selectedRide := None;
      }
    }
  }
}
