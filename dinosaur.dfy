/** The endless runner: a dinosaur runs right at a speed that grows with
    the distance covered, jumps and ducks, falls under gravity, and dies on
    touching one of the obstacles that appear ahead of it at random. */
module Dinosaur {
  import opened Helpers
  import opened Collections
  import opened Keys

  datatype Obstacle = Obstacle(x: real, y: real, width: real, height: real)

  datatype State = State(
    time: int,
    alive: bool,
    x: real,
    y: real,
    dx: real,
    dy: real,
    dxPerX: real,
    minDx: real,
    maxDx: real,
    width: real,
    height: real,
    maxJumpHeight: real,
    obstacles: seq<Obstacle>,
    minDistanceBetweenObstacles: real,
    obstacleSpawnProbability: real,
    newObstacleTypeDistance: real,
    gameWidth: real,
    gameHeight: real,
    keys: set<string>)

  const GameWidth: real := 50.0
  const GameHeight: real := 20.0
  const MinDx: real := 0.4

  /** `DEFAULT_STATE`: standing at the origin at minimum speed, no obstacles. */
  const DefaultState := State(
    time := 0, alive := true, x := 0.0, y := 0.0, dx := MinDx, dy := 0.0,
    dxPerX := 0.0005, minDx := MinDx, maxDx := 2.0, width := 2.0, height := 4.0, maxJumpHeight := 10.0,
    obstacles := [], minDistanceBetweenObstacles := GameWidth * 0.4, obstacleSpawnProbability := 0.08,
    newObstacleTypeDistance := 300.0, gameWidth := GameWidth, gameHeight := GameHeight, keys := {})

  /** `jump`: with the space bar or the up arrow held, while below the jump
      ceiling and not falling, the dinosaur takes off. */
  function Jump(s: State): (r: State)
    ensures (" " in s.keys || "ArrowUp" in s.keys) && s.y < s.maxJumpHeight && s.dy >= 0.0 ==> r == s.(dy := 1.0)
    ensures !((" " in s.keys || "ArrowUp" in s.keys) && s.y < s.maxJumpHeight && s.dy >= 0.0) ==> r == s
  {
    if (" " in s.keys || "ArrowUp" in s.keys) && s.y < s.maxJumpHeight && s.dy >= 0.0 then s.(dy := 1.0) else s
  }

  /** `duck`: the down arrow halves the dinosaur's height, releasing it
      restores the full height. */
  function Duck(s: State): (r: State)
    ensures r == s.(height := r.height)
    ensures "ArrowDown" in s.keys <==> r.height == 2.0
    ensures "ArrowDown" !in s.keys <==> r.height == 4.0
  {
    if "ArrowDown" in s.keys then s.(height := 2.0) else s.(height := 4.0)
  }

  /** `gravity`: on the ground the vertical speed is zero, in the air it
      drops by 0.15 per pass. */
  function Gravity(s: State): (r: State)
    ensures r == s.(dy := r.dy)
    ensures s.y == 0.0 ==> r.dy == 0.0
    ensures s.y != 0.0 ==> r.dy == s.dy - 0.15 && r.dy < s.dy
  {
    if s.y == 0.0 then s.(dy := 0.0) else s.(dy := s.dy - 0.15)
  }

  /** The speed `accelerate` sets at distance `x`. */
  function SpeedAt(s: State, x: real): real {
    Clamp(0.3 + s.dxPerX * x, s.minDx, s.maxDx)
  }

  /** `accelerate`: the speed grows linearly with the distance run, clamped
      to `[minDx, maxDx]`. */
  function Accelerate(s: State): (r: State)
    ensures r == s.(dx := SpeedAt(s, s.x))
    ensures s.minDx <= s.maxDx ==> s.minDx <= r.dx <= s.maxDx
  {
    s.(dx := SpeedAt(s, s.x))
  }

  /** The speed never decreases as the dinosaur gets further. */
  lemma SpeedMonotone(s: State, x1: real, x2: real)
    requires s.dxPerX >= 0.0 && x1 <= x2 && s.minDx <= s.maxDx
    ensures SpeedAt(s, x1) <= SpeedAt(s, x2)
  {
    MulNonNegative(s.dxPerX, x2 - x1);
    assert s.dxPerX * (x2 - x1) == s.dxPerX * x2 - s.dxPerX * x1;
    ClampMonotone(0.3 + s.dxPerX * x1, 0.3 + s.dxPerX * x2, s.minDx, s.maxDx);
  }

  /** `move`: a live dinosaur advances by its speeds, kept between the
      ground and the top of the game. */
  function Move(s: State): (r: State)
    ensures !s.alive ==> r == s
    ensures s.alive ==> r == s.(x := s.x + s.dx, y := Clamp(s.y + s.dy, 0.0, s.gameHeight))
    ensures s.alive && s.gameHeight >= 0.0 ==> 0.0 <= r.y <= s.gameHeight
  {
    if !s.alive then s
    else s.(x := s.x + s.dx, y := Clamp(s.y + s.dy, 0.0, s.gameHeight))
  }

  /** The obstacle shapes (`y`, `width`, `height`) in the order they
      unlock. */
  const ObstacleKinds: seq<(real, real, real)> :=
    [(0.0, 4.0, 2.0), (0.0, 4.0, 4.0), (0.0, 6.0, 2.0), (8.0, 2.0, 2.0), (0.0, 2.0, 2.0), (2.0, 2.0, 2.0)]

  /** The spacing gate of `spawnObstacle`: the latest obstacle, if any, is
      far enough behind the spawn point at `x + gameWidth`. */
  predicate RoomToSpawn(s: State) {
    s.obstacles == [] || s.obstacles[|s.obstacles| - 1].x + s.minDistanceBetweenObstacles <= s.x + s.gameWidth
  }

  /** The rows of the table that `pickRandom` draws from at distance `x`:
      the first `1 + floor(x / newObstacleTypeDistance)` of them, and at
      most all six. */
  predicate Unlocked(s: State, kind: nat) {
    && kind < |ObstacleKinds|
    && (s.newObstacleTypeDistance > 0.0 ==> kind < 1 + (s.x / s.newObstacleTypeDistance).Floor)
  }

  /** A kind is unlocked once the distance run reaches that many multiples
      of `newObstacleTypeDistance`: kind 0 from the start, kind 1 after one
      multiple, and so on. */
  lemma UnlockedByDistance(s: State, kind: nat)
    requires s.newObstacleTypeDistance > 0.0
    ensures Unlocked(s, kind) <==> kind < |ObstacleKinds| && kind as real <= s.x / s.newObstacleTypeDistance
  {
    var f := s.x / s.newObstacleTypeDistance;
    assert f.Floor as real <= f < f.Floor as real + 1.0;
  }

  /** What the random pick guarantees of `kind` whenever an obstacle is
      spawned: it is one of the unlocked rows. */
  predicate KindAllowed(s: State, draw: real, kind: nat) {
    RoomToSpawn(s) && draw <= s.obstacleSpawnProbability ==> Unlocked(s, kind)
  }

  /** `spawnObstacle`: with room ahead and a random `draw` no greater than
      the spawn probability, append one obstacle of shape `kind` at the
      right edge of the view. */
  function SpawnObstacle(s: State, draw: real, kind: nat): (r: State)
    requires KindAllowed(s, draw, kind)
    ensures !RoomToSpawn(s) || draw > s.obstacleSpawnProbability ==> r == s
    ensures RoomToSpawn(s) && draw <= s.obstacleSpawnProbability ==>
      && r == s.(obstacles := r.obstacles)
      && |r.obstacles| == |s.obstacles| + 1
      && r.obstacles[..|s.obstacles|] == s.obstacles
      && r.obstacles[|s.obstacles|].x == s.x + s.gameWidth
      && r.obstacles[|s.obstacles|] == Obstacle(s.x + s.gameWidth, ObstacleKinds[kind].0, ObstacleKinds[kind].1, ObstacleKinds[kind].2)
  {
    if !RoomToSpawn(s) then s
    else if draw > s.obstacleSpawnProbability then s
    else
      var (y, w, h) := ObstacleKinds[kind];
      s.(obstacles := s.obstacles + [Obstacle(s.x + s.gameWidth, y, w, h)])
  }

  function AheadOf(limit: real): Obstacle -> bool {
    (o: Obstacle) => o.x > limit
  }

  /** `despawnObstacle`: drop the obstacles a full view width behind the
      dinosaur; the rest keep their order. */
  function DespawnObstacle(s: State): (r: State)
    ensures r == s.(obstacles := r.obstacles)
    ensures forall k :: 0 <= k < |r.obstacles| ==> r.obstacles[k].x > s.x - s.gameWidth
  {
    s.(obstacles := Filter(s.obstacles, AheadOf(s.x - s.gameWidth)))
  }

  /** An obstacle survives `despawnObstacle` exactly when it was there and
      is not too far behind. */
  lemma DespawnKeepsExactly(s: State, o: Obstacle)
    ensures o in DespawnObstacle(s).obstacles <==> o in s.obstacles && o.x > s.x - s.gameWidth
  {
    FilterMembership(s.obstacles, AheadOf(s.x - s.gameWidth), o);
  }

  /** The dinosaur's box `[x, x + width] x [y, y + height]` and the
      obstacle's box meet, edges included. */
  predicate Overlaps(s: State, o: Obstacle) {
    && s.x <= o.x + o.width && s.x + s.width >= o.x
    && s.y <= o.y + o.height && s.y + s.height >= o.y
  }

  /** `die`: touching any obstacle ends the run. */
  function Die(s: State): (r: State)
    ensures (exists k :: 0 <= k < |s.obstacles| && Overlaps(s, s.obstacles[k])) ==> r == s.(alive := false)
    ensures (forall k :: 0 <= k < |s.obstacles| ==> !Overlaps(s, s.obstacles[k])) ==> r == s
  {
    if exists k :: 0 <= k < |s.obstacles| && Overlaps(s, s.obstacles[k]) then s.(alive := false) else s
  }

  /** `reset`: after dying, the space bar starts a new run. */
  function Reset(s: State): (r: State)
    ensures !s.alive && " " in s.keys ==> r == DefaultState
    ensures s.alive || " " !in s.keys ==> r == s
  {
    if !s.alive && " " in s.keys then DefaultState else s
  }

  /** `tick`: the clock runs only while the dinosaur is alive. */
  function Tick(s: State): (r: State)
    ensures s.alive ==> r == s.(time := s.time + 1)
    ensures !s.alive ==> r == s
  {
    if !s.alive then s else s.(time := s.time + 1)
  }

  /** `handleInput`: the state takes the set of keys held after the events
      so far, which is every key whose latest event presses it. */
  function HandleInput(s: State, events: seq<KeyEvent>): (r: State)
    ensures r == s.(keys := r.keys)
    ensures forall k :: k in r.keys <==> exists i :: LatestIsDown(events, k, i)
  {
    HeldExactly(events);
    s.(keys := Held(events))
  }

  /** Every obstacle lies at least `gap` ahead of every earlier one. */
  predicate Spaced(obstacles: seq<Obstacle>, gap: real) {
    forall i, j :: 0 <= i < j < |obstacles| ==> obstacles[i].x + gap <= obstacles[j].x
  }

  /** Spawning keeps the obstacles spaced: the new one is placed only where
      the gap to the latest one is large enough. */
  lemma SpawnKeepsSpaced(s: State, draw: real, kind: nat)
    requires KindAllowed(s, draw, kind)
    requires s.minDistanceBetweenObstacles >= 0.0
    requires Spaced(s.obstacles, s.minDistanceBetweenObstacles)
    ensures Spaced(SpawnObstacle(s, draw, kind).obstacles, s.minDistanceBetweenObstacles)
  {
    var r := SpawnObstacle(s, draw, kind);
    if r != s && s.obstacles != [] {
      var n := |s.obstacles|;
      var gap := s.minDistanceBetweenObstacles;
      forall i, j | 0 <= i < j < |r.obstacles|
        ensures r.obstacles[i].x + gap <= r.obstacles[j].x
      {
        if j == n {
          assert r.obstacles[i] == s.obstacles[i];
          if i < n - 1 {
            assert s.obstacles[i].x + gap <= s.obstacles[n - 1].x;
          }
        } else {
          assert r.obstacles[i] == s.obstacles[i] && r.obstacles[j] == s.obstacles[j];
        }
      }
    }
  }

  /** Filtering keeps the obstacles spaced (the gap is non-negative, so the
      positions increase and any survivor is far enough behind the next). */
  lemma {:induction false} FilterKeepsSpaced(obstacles: seq<Obstacle>, keep: Obstacle -> bool, gap: real)
    requires gap >= 0.0 && Spaced(obstacles, gap)
    ensures Spaced(Filter(obstacles, keep), gap)
  {
    if obstacles != [] {
      var n := |obstacles| - 1;
      var init := obstacles[..n];
      assert Spaced(init, gap);
      FilterKeepsSpaced(init, keep, gap);
      var r := Filter(obstacles, keep);
      var f := Filter(init, keep);
      if keep(obstacles[n]) {
        assert r == f + [obstacles[n]];
        forall i, j | 0 <= i < j < |r|
          ensures r[i].x + gap <= r[j].x
        {
          if j == |f| {
            assert r[i] in init;
            var p :| 0 <= p < n && init[p] == r[i];
            assert obstacles[p] == r[i];
          } else {
            assert r[i] == f[i] && r[j] == f[j];
          }
        }
      }
    }
  }

  /** What a pass maintains: the obstacles are spaced, the dinosaur is
      between the ground and the top, and its speed is within bounds. */
  predicate Valid(s: State) {
    && s.minDistanceBetweenObstacles >= 0.0
    && Spaced(s.obstacles, s.minDistanceBetweenObstacles)
    && 0.0 <= s.gameHeight && 0.0 <= s.y <= s.gameHeight
    && s.minDx <= s.dx <= s.maxDx
  }

  lemma DefaultStateValid()
    ensures Valid(DefaultState)
  {
  }

  /** The movement half of a pass keeps the state valid. */
  lemma RunValid(s: State, events: seq<KeyEvent>)
    requires Valid(s)
    ensures Valid(Move(Duck(Jump(Accelerate(Gravity(HandleInput(s, events)))))))
  {
    var a := Accelerate(Gravity(HandleInput(s, events)));
    assert s.minDx <= s.maxDx;
    assert Valid(a);
    var b := Duck(Jump(a));
    assert Valid(b);
  }

  /** The state `spawnObstacle` sees in a pass: input, gravity,
      acceleration, jump, duck, move and die. These keep the state valid. */
  function BeforeSpawn(s: State, events: seq<KeyEvent>): (r: State)
    ensures Valid(s) ==> Valid(r)
  {
    var r := Die(Move(Duck(Jump(Accelerate(Gravity(HandleInput(s, events)))))));
    assert Valid(s) ==> Valid(r) by {
      if Valid(s) {
        RunValid(s, events);
      }
    }
    r
  }

  /** One pass of the game's pipeline, in its declared order. Every pass
      keeps the state valid. */
  function Pass(s: State, events: seq<KeyEvent>, draw: real, kind: nat): (r: State)
    requires KindAllowed(BeforeSpawn(s, events), draw, kind)
    ensures Valid(s) ==> Valid(r)
  {
    var b := BeforeSpawn(s, events);
    var r := Tick(Reset(DespawnObstacle(SpawnObstacle(b, draw, kind))));
    assert Valid(s) ==> Valid(r) by {
      if Valid(s) {
        SpawnKeepsValid(b, draw, kind);
        DespawnKeepsValid(SpawnObstacle(b, draw, kind));
      }
    }
    r
  }

  /** Spawning keeps the state valid. */
  lemma SpawnKeepsValid(s: State, draw: real, kind: nat)
    requires KindAllowed(s, draw, kind)
    requires Valid(s)
    ensures Valid(SpawnObstacle(s, draw, kind))
  {
    SpawnKeepsSpaced(s, draw, kind);
  }

  /** Dropping obstacles behind the dinosaur keeps the state valid. */
  lemma DespawnKeepsValid(s: State)
    requires Valid(s)
    ensures Valid(DespawnObstacle(s))
  {
    FilterKeepsSpaced(s.obstacles, AheadOf(s.x - s.gameWidth), s.minDistanceBetweenObstacles);
  }

  /** The collision examples of the game's tests: an obstacle at x = 3 is
      clear of the 2-wide dinosaur at the origin, one at x = 1 is not. */
  lemma DieExamples()
    ensures Die(DefaultState.(obstacles := [Obstacle(3.0, 0.0, 2.0, 2.0)])).alive
    ensures !Die(DefaultState.(obstacles := [Obstacle(1.0, 0.0, 2.0, 2.0)])).alive
  {
    assert Overlaps(DefaultState, [Obstacle(1.0, 0.0, 2.0, 2.0)][0]);
  }
}
