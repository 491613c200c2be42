/** The snake game: a trail of grid points on a torus, of which the last
    `length` points are the snake; reducers rotate, move, kill, feed and
    respawn food, and a pass runs them in the order the game wires them. */
module Snake {
  import opened Helpers
  import opened Collections

  datatype Direction = Up | Down | Left | Right

  datatype Point = Point(x: int, y: int)

  datatype State = State(
    time: int,
    alive: bool,
    trail: seq<Point>,
    length: int,
    direction: Direction,
    speed: int,
    food: Option<Point>,
    lastFoodTime: int,
    betweenFoodTime: int,
    width: int,
    height: int,
    keys: set<string>)

  const BetweenFoodTime := 5
  const Width := 20
  const Height := 20

  /** `DEFAULT_STATE`: one segment in the middle of a 20x20 board, heading up. */
  const DefaultState := State(
    time := 0,
    alive := true,
    trail := [Point(Width / 2, Height / 2)],
    length := 1,
    direction := Up,
    speed := 1,
    food := None,
    lastFoodTime := 0,
    betweenFoodTime := BetweenFoodTime,
    width := Width,
    height := Height,
    keys := {})

  function Opposite(d: Direction): Direction {
    match d
    case Up => Down
    case Down => Up
    case Left => Right
    case Right => Left
  }

  /** The key that asks for each direction. */
  function ArrowKey(d: Direction): string {
    match d
    case Up => "ArrowUp"
    case Down => "ArrowDown"
    case Left => "ArrowLeft"
    case Right => "ArrowRight"
  }

  predicate OnBoard(p: Point, width: int, height: int) {
    0 <= p.x < width && 0 <= p.y < height
  }

  /** `getSnake`: the tail window of the trail, the last `length` points
      (all of them when the trail is shorter), in trail order. */
  function GetSnake(s: State): (r: seq<Point>)
    ensures |r| == if s.length <= 0 then 0 else if s.length < |s.trail| then s.length else |s.trail|
    ensures r == s.trail[|s.trail| - |r|..]
  {
    // clamp(trail.length - length, 0, Infinity): only the lower bound can bite
    var start := if |s.trail| - s.length < 0 then 0 else |s.trail| - s.length;
    if start > |s.trail| then [] else s.trail[start..]
  }

  /** `intersects`: some point of `ps` equals `p`. */
  function Intersects(ps: seq<Point>, p: Point): (r: bool)
    ensures r <==> p in ps
  {
    if ps == [] then false else ps[0] == p || Intersects(ps[1..], p)
  }

  function SameAs(p: Point): Point -> bool {
    (q: Point) => q == p
  }

  /** How many points of `ps` equal `p`: the length of the `filter`. */
  function Count(ps: seq<Point>, p: Point): (r: nat)
    ensures r <= |ps|
  {
    |Filter(ps, SameAs(p))|
  }

  lemma CountPositive(ps: seq<Point>, p: Point)
    ensures Count(ps, p) > 0 <==> p in ps
  {
    var f := Filter(ps, SameAs(p));
    FilterMembership(ps, SameAs(p), p);
    if |f| > 0 {
      assert f[0] == p;
    }
  }

  /** Counting a trail is counting all but its last point, plus that point. */
  lemma CountLast(ps: seq<Point>, p: Point)
    requires ps != []
    ensures Count(ps, p) == Count(ps[..|ps| - 1], p) + (if ps[|ps| - 1] == p then 1 else 0)
  {
  }

  /** A point is counted more than once exactly when it sits at two indices. */
  lemma {:induction false} CountTwice(ps: seq<Point>, p: Point)
    ensures Count(ps, p) > 1 <==> exists i, j :: 0 <= i < j < |ps| && ps[i] == p && ps[j] == p
  {
    if ps != [] {
      var n := |ps| - 1;
      var t := ps[..n];
      CountTwice(t, p);
      CountPositive(t, p);
      CountLast(ps, p);
      if Count(ps, p) > 1 {
        if ps[n] == p {
          var i :| 0 <= i < |t| && t[i] == p;
          assert ps[i] == p && ps[n] == p;
        } else {
          var i, j :| 0 <= i < j < |t| && t[i] == p && t[j] == p;
          assert ps[i] == p && ps[j] == p;
        }
      }
      if exists i, j :: 0 <= i < j < |ps| && ps[i] == p && ps[j] == p {
        var i, j :| 0 <= i < j < |ps| && ps[i] == p && ps[j] == p;
        if j == n {
          assert t[i] == p;
        } else {
          assert t[i] == p && t[j] == p;
        }
      }
    }
  }

  /** Two indices of `ps` hold the same point. */
  predicate HasRepeat(ps: seq<Point>) {
    exists i, j :: 0 <= i < j < |ps| && ps[i] == ps[j]
  }

  /** The `some` over `rest` of `selfIntersects`, counting in all of `all`. */
  function SomeCountedTwice(all: seq<Point>, rest: seq<Point>): (r: bool)
    ensures r <==> exists k :: 0 <= k < |rest| && Count(all, rest[k]) > 1
  {
    if rest == [] then false
    else
      var tail := SomeCountedTwice(all, rest[1..]);
      assert forall k :: 1 <= k < |rest| ==> rest[k] == rest[1..][k - 1];
      Count(all, rest[0]) > 1 || tail
  }

  /** `selfIntersects`: some point of `ps` occurs at least twice. */
  function SelfIntersects(ps: seq<Point>): (r: bool)
    ensures r <==> HasRepeat(ps)
  {
    CountedTwiceIsRepeat(ps);
    SomeCountedTwice(ps, ps)
  }

  lemma CountedTwiceIsRepeat(ps: seq<Point>)
    ensures SomeCountedTwice(ps, ps) <==> HasRepeat(ps)
  {
    if SomeCountedTwice(ps, ps) {
      var k :| 0 <= k < |ps| && Count(ps, ps[k]) > 1;
      CountTwice(ps, ps[k]);
    }
    if HasRepeat(ps) {
      var i, j :| 0 <= i < j < |ps| && ps[i] == ps[j];
      CountTwice(ps, ps[i]);
    }
  }

  /** The arrow for `d` is held and does not point straight back. */
  predicate Steers(s: State, d: Direction) {
    ArrowKey(d) in s.keys && s.direction != Opposite(d)
  }

  /** `rotate`: turn towards a held arrow, checked in the order up, down,
      left, right, but never straight back. */

  function Rotate(s: State): (r: State)
    ensures r == s.(direction := r.direction)
    ensures r.direction != Opposite(s.direction)
    ensures r.direction != s.direction ==> ArrowKey(r.direction) in s.keys
    ensures "ArrowUp" in s.keys && s.direction != Down ==> r.direction == Up
    ensures (forall d: Direction :: ArrowKey(d) !in s.keys) ==> r == s
    ensures forall d: Direction :: s.keys == {ArrowKey(d)} && d != Opposite(s.direction) ==> r.direction == d
    ensures !Steers(s, Up) && Steers(s, Down) ==> r.direction == Down
    ensures !Steers(s, Up) && !Steers(s, Down) && Steers(s, Left) ==> r.direction == Left
    ensures !Steers(s, Up) && !Steers(s, Down) && !Steers(s, Left) && Steers(s, Right) ==> r.direction == Right
    ensures !Steers(s, Up) && !Steers(s, Down) && !Steers(s, Left) && !Steers(s, Right) ==> r == s
  {
    if "ArrowUp" in s.keys && s.direction != Down then s.(direction := Up)
    else if "ArrowDown" in s.keys && s.direction != Up then s.(direction := Down)
    else if "ArrowLeft" in s.keys && s.direction != Right then s.(direction := Left)
    else if "ArrowRight" in s.keys && s.direction != Left then s.(direction := Right)
    else s
  }

  /** `eat`: a live snake whose body covers the food grows by one, speeds up,
      and the food is consumed at the current time. */
  function Eat(s: State): (r: State)
    ensures !(s.alive && s.food.Some? && s.food.value in GetSnake(s)) ==> r == s
    ensures s.alive && s.food.Some? && s.food.value in GetSnake(s) ==>
      r == s.(length := s.length + 1, speed := s.speed + 1, food := None, lastFoodTime := s.time)
  {
    if !s.alive then s
    else if s.food.None? then s
    else if !Intersects(GetSnake(s), s.food.value) then s
    else s.(length := s.length + 1, food := None, lastFoodTime := s.time, speed := s.speed + 1)
  }

  /** The food timer and the other conditions under which `spawn` places food;
      it fires once `time >= lastFoodTime + betweenFoodTime`, equality included. */
  predicate SpawnDue(s: State) {
    s.alive && s.food.None? && s.lastFoodTime + s.betweenFoodTime <= s.time
  }

  /** What the random retry loop of `spawn` guarantees of the point it
      settles on: when food is due, a board cell that the snake does not cover. */
  predicate PickAllowed(s: State, pick: Point) {
    SpawnDue(s) ==> OnBoard(pick, s.width, s.height) && pick !in GetSnake(s)
  }

  /** `spawn`: place food at `pick`, the point the random retry loop settles
      on. That loop only stops on a board point off the snake, which is what
      the precondition asks of `pick` when the spawn is due. */
  function Spawn(s: State, pick: Point): (r: State)
    requires PickAllowed(s, pick)
    ensures !SpawnDue(s) ==> r == s
    ensures SpawnDue(s) ==> r == s.(food := Some(pick))
    ensures r.food.Some? ==> r.food == s.food || (OnBoard(r.food.value, s.width, s.height) && r.food.value !in GetSnake(s))
  {
    if !s.alive then s
    else if s.food.Some? then s
    else if s.lastFoodTime + s.betweenFoodTime > s.time then s
    else s.(food := Some(pick))
  }

  /** The cell one step from `p` in direction `d`, wrapped onto the board.
      Only the coordinate along `d` moves, and it is wrapped to the
      mathematical remainder (in `[0, width)` or `[0, height)`); the other is
      copied as it is. */
  function Step(p: Point, d: Direction, width: int, height: int): (q: Point)
    requires width > 0 && height > 0
    ensures d == Up ==> q.x == p.x && q.y == (p.y - 1) % height
    ensures d == Down ==> q.x == p.x && q.y == (p.y + 1) % height
    ensures d == Left ==> q.y == p.y && q.x == (p.x - 1) % width
    ensures d == Right ==> q.y == p.y && q.x == (p.x + 1) % width
  {
    match d
    case Up => Point(p.x, Mod(p.y - 1, height))
    case Down => Point(p.x, Mod(p.y + 1, height))
    case Left => Point(Mod(p.x - 1, width), p.y)
    case Right => Point(Mod(p.x + 1, width), p.y)
  }

  /** A step from a board cell stays on the board. */
  lemma StepOnBoard(p: Point, d: Direction, width: int, height: int)
    requires width > 0 && height > 0 && OnBoard(p, width, height)
    ensures OnBoard(Step(p, d, width, height), width, height)
  {
  }

  /** `move`: a live snake appends one new head, the old head stepped once
      in its direction; a dead snake stays where it is. The source reads the
      last trail point, so a live snake needs a non-empty trail. */
  function Move(s: State): (r: State)
    requires s.alive ==> |s.trail| > 0 && s.width > 0 && s.height > 0
    ensures !s.alive ==> r == s
    ensures s.alive ==> r == s.(trail := s.trail + [Step(s.trail[|s.trail| - 1], s.direction, s.width, s.height)])
  {
    if !s.alive then s
    else
      var head := s.trail[|s.trail| - 1];
      s.(trail := s.trail + [Step(head, s.direction, s.width, s.height)])
  }

  /** `die`: a live snake whose body covers one cell twice dies. */
  function Die(s: State): (r: State)
    ensures s.alive && HasRepeat(GetSnake(s)) ==> r == s.(alive := false)
    ensures !(s.alive && HasRepeat(GetSnake(s))) ==> r == s
  {
    if !s.alive then s
    else if !SelfIntersects(GetSnake(s)) then s
    else s.(alive := false)
  }

  /** `reset`: space on a dead snake starts a fresh game. */
  function Reset(s: State): (r: State)
    ensures !s.alive && " " in s.keys ==> r == DefaultState
    ensures !(!s.alive && " " in s.keys) ==> r == s
  {
    if !s.alive && " " in s.keys then DefaultState else s
  }

  /** `tick`: the clock advances only while the snake lives (the delay it
      waits for is not modelled). */
  function Tick(s: State): (r: State)
    ensures r == s.(time := r.time)
    ensures r.time == if s.alive then s.time + 1 else s.time
  {
    if !s.alive then s else s.(time := s.time + 1)
  }

  /** The input step of a pass: the key of the latest key event is the only
      key held, and before any event the snake holds "ArrowUp". */
  function HandleInput(s: State, events: seq<string>): (r: State)
    ensures r == s.(keys := r.keys)
    ensures |r.keys| == 1
    ensures events == [] ==> "ArrowUp" in r.keys
    ensures events != [] ==> events[|events| - 1] in r.keys
  {
    var key := if events == [] then "ArrowUp" else events[|events| - 1];
    s.(keys := {key})
  }

  /** The latest arrow key steers the snake, unless it points straight back. */
  lemma LatestArrowSteers(s: State, events: seq<string>, d: Direction)
    requires events != [] && events[|events| - 1] == ArrowKey(d)
    requires d != Opposite(s.direction)
    ensures Rotate(HandleInput(s, events)).direction == d
  {
    var h := HandleInput(s, events);
    assert h.keys == {ArrowKey(d)};
  }

  /** A state every pass can run on: a non-empty board, a non-empty trail on
      the board and any food on the board. */
  predicate Valid(s: State) {
    && s.width > 0 && s.height > 0
    && |s.trail| > 0
    && (forall i :: 0 <= i < |s.trail| ==> OnBoard(s.trail[i], s.width, s.height))
    && (s.food.Some? ==> OnBoard(s.food.value, s.width, s.height))
  }

  lemma DefaultStateValid()
    ensures Valid(DefaultState)
  {
  }

  /** The state `spawn` sees in a pass, after the earlier reducers; they
      keep a valid state valid. */
  function BeforeSpawn(s: State, events: seq<string>): (r: State)
    requires Valid(s)
    ensures Valid(r)
  {
    EarlyStagesValid(s, events);
    Eat(Die(Move(Rotate(Reset(HandleInput(s, events))))))
  }

  /** Input, reset, rotate, move, die and eat each keep a valid state valid. */
  lemma EarlyStagesValid(s: State, events: seq<string>)
    requires Valid(s)
    ensures Valid(Eat(Die(Move(Rotate(Reset(HandleInput(s, events)))))))
  {
    var h := HandleInput(s, events);
    assert Valid(h);
    var t := Reset(h);
    assert Valid(t);
    var o := Rotate(t);
    assert Valid(o);
    MoveKeepsValid(o);
    var m := Move(o);
    var d := Die(m);
    assert Valid(d);
  }

  /** One pass of the game's pipeline: input, reset, rotate, move, die, eat,
      spawn, tick. `pick` stands for the random food point. Every pass keeps
      the state valid: the snake and the food stay on the board. */
  function Pass(s: State, events: seq<string>, pick: Point): (r: State)
    requires Valid(s)
    requires PickAllowed(BeforeSpawn(s, events), pick)
    ensures Valid(r)
  {
    Tick(Spawn(BeforeSpawn(s, events), pick))
  }

  /** `move` keeps a valid state valid: the new head is a board cell. */
  lemma MoveKeepsValid(s: State)
    requires Valid(s)
    ensures Valid(Move(s))
  {
    if s.alive {
      var head := Step(s.trail[|s.trail| - 1], s.direction, s.width, s.height);
      StepOnBoard(s.trail[|s.trail| - 1], s.direction, s.width, s.height);
      var t := s.trail + [head];
      assert forall i :: 0 <= i < |t| ==> t[i] == head || t[i] == s.trail[i];
    }
  }

  /** A pass never turns the snake straight back. */
  lemma PassNeverReverses(s: State, events: seq<string>, pick: Point)
    requires Valid(s)
    requires PickAllowed(BeforeSpawn(s, events), pick)
    requires s.alive
    ensures Pass(s, events, pick).direction != Opposite(s.direction)
  {
  }

  /** The example of the game's tests: up from the corner of a 10x10 board
      wraps to the bottom row. */
  lemma MoveUpWraps()
    ensures Move(DefaultState.(trail := [Point(0, 0)], width := 10, height := 10)).trail
      == [Point(0, 0), Point(0, 9)]
  {
  }

  /** The self-intersection example of the game's tests. */
  lemma DieOnSelfIntersection()
    ensures !Die(DefaultState.(trail := [Point(0, 0), Point(0, 1), Point(1, 1), Point(0, 1), Point(0, 0)], length := 5)).alive
  {
    var ps := [Point(0, 0), Point(0, 1), Point(1, 1), Point(0, 1), Point(0, 0)];
    assert ps[0] == ps[4];
  }
}
