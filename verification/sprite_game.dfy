/**
  The sprite version of the runner (src/app/DinoGame.tsx).

  The React component keeps its state in hooks and advances it from several
  independent callbacks: the animation-frame loop, a 50 ms obstacle timer, a
  100 ms score timer, a 1000 ms spawn timer, a 120 ms sprite-frame timer and
  the keyboard and restart handlers. Here the whole state is one immutable
  `World`, every callback is one pure function, and `Step` applies whichever
  callback fires. `Math.random()` and `Date.now()` become fields of the spawn
  event. Positions, velocity and speed are exact reals, where the source uses
  IEEE doubles.
 */
module SpriteGame {
  import opened Sequences

  datatype Kind = Cactus | Bird | Snack

  datatype Obstacle = Obstacle(id: int, kind: Kind, left: real)

  /** An axis-aligned box; y grows downwards, as in screen coordinates. */
  datatype Box = Box(x: real, y: real, width: real, height: real)

  datatype World = World(
    y: real,              // 0 is the ground, negative is airborne
    velocity: real,
    isJumping: bool,
    ducking: bool,
    frame: int,           // index of the running/ducking sprite
    gameOver: bool,
    score: int,
    lives: int,
    speed: real,
    obstacles: seq<Obstacle>)

  const Gravity: real := 0.6
  const JumpStrength: real := -100.0
  const GameWidth: real := 800.0
  const GameHeight: real := 200.0
  const CullEdge: real := -50.0
  const DinoLeft: real := 100.0
  const SnackBonus: int := 20
  const BaseSpeed: real := 6.0
  const MaxSpeed: real := 10.0

  /** The state the component mounts with (its `useState` initial values). */
  function Initial(): World {
    World(0.0, 0.0, false, false, 0, false, 0, 1, 1.0, [])
  }

  // ---------------------------------------------------------------------
  // Input handlers
  // ---------------------------------------------------------------------

  /** Space / ArrowUp: start a jump from the ground. */
  function Jump(w: World): (r: World)
    ensures w.isJumping || w.ducking || w.gameOver ==> r == w
    ensures !w.isJumping && !w.ducking && !w.gameOver ==>
      r.isJumping && r.velocity == JumpStrength && r == w.(velocity := r.velocity, isJumping := true)
  {
    if !w.isJumping && !w.ducking && !w.gameOver then
      w.(velocity := JumpStrength, isJumping := true)
    else w
  }

  /** ArrowDown pressed (`down`) or released (`!down`). */
  function Duck(w: World, down: bool): (r: World)
    ensures w.gameOver || w.isJumping ==> r == w
    ensures !w.gameOver && !w.isJumping ==> r.ducking == down && r == w.(ducking := down)
  {
    if !w.gameOver && !w.isJumping then w.(ducking := down) else w
  }

  /** Held keys repeat: a second jump request before landing changes nothing. */
  lemma JumpIgnoresRepeats(w: World)
    ensures Jump(Jump(w)) == Jump(w)
  {
  }

  /** Jumping and ducking exclude each other: neither handler can make both true. */
  lemma JumpAndDuckExclude(w: World, down: bool)
    requires !(w.isJumping && w.ducking)
    ensures !(Jump(w).isJumping && Jump(w).ducking)
    ensures !(Duck(w, down).isJumping && Duck(w, down).ducking)
  {
  }

  /**
    The jump key as the component wires it. The key listeners are
    re-registered only when `isJumping` or `gameOver` changes, so the jump
    handler reads the `ducking` value captured at that moment,
    `capturedDucking`, instead of the current one.
   */
  function JumpAsWritten(w: World, capturedDucking: bool): (r: World)
    ensures w.isJumping || capturedDucking || w.gameOver ==> r == w
    ensures !w.isJumping && !capturedDucking && !w.gameOver ==>
      r.isJumping && r.velocity == JumpStrength && r.ducking == w.ducking
    ensures r == w.(velocity := r.velocity, isJumping := r.isJumping)
    ensures capturedDucking == w.ducking ==> r == Jump(w)
  {
    if !w.isJumping && !capturedDucking && !w.gameOver then
      w.(velocity := JumpStrength, isJumping := true)
    else w
  }

  /**
    ArrowDown, then Space, in a fresh game. The listeners were last
    registered at mount, when `ducking` was false, so the jump goes ahead
    and the dino jumps while ducking. Releasing ArrowDown in the air is then
    ignored, and birds cannot damage the airborne, ducking dino. Reading the
    current `ducking` refuses the jump.
   */
  lemma StaleDuckJumpsWhileDucking()
    ensures var ducked := Duck(Initial(), true);
      var jumped := JumpAsWritten(ducked, Initial().ducking);
      && ducked.ducking && Jump(ducked) == ducked
      && jumped.isJumping && jumped.ducking
      && Duck(jumped, false).ducking
      && !Damages(jumped.ducking, Bird)
  {
  }

  /** The restart button: every field goes back to the value the game mounts with. */
  function Restart(w: World): (r: World)
    ensures r.score == 0 && r.lives == 1 && r.speed == 1.0 && r.obstacles == []
    ensures r.y == 0.0 && r.velocity == 0.0 && !r.isJumping && !r.ducking
    ensures !r.gameOver && r.frame == 0
  {
    World(0.0, 0.0, false, false, 0, false, 0, 1, 1.0, [])
  }

  lemma RestartIsFreshMount(w: World)
    ensures Restart(w) == Initial()
    ensures WellFormed(Restart(w))
  {
  }

  // ---------------------------------------------------------------------
  // Vertical motion
  // ---------------------------------------------------------------------

  /**
    One frame of gravity. The position is clamped to the ground; velocity
    is reset only when the unclamped position lands exactly on 0, so on
    landing the (positive) velocity is kept.
   */
  function Integrate(w: World): (r: World)
    ensures r.y <= 0.0
    ensures w.y + w.velocity + Gravity > 0.0 ==> r.y == 0.0 && !r.isJumping
    ensures w.y + w.velocity + Gravity <= 0.0 ==>
      r.y == w.y + w.velocity + Gravity && r.isJumping == w.isJumping
    ensures w.y + w.velocity + Gravity == 0.0 ==> r.velocity == 0.0
    ensures w.y + w.velocity + Gravity != 0.0 ==> r.velocity == w.velocity + Gravity
    ensures r == w.(y := r.y, velocity := r.velocity, isJumping := r.isJumping)
  {
    var newVelocity := w.velocity + Gravity;
    var newY := w.y + newVelocity;
    var y := if newY > 0.0 then 0.0 else newY;
    var jumping := if newY > 0.0 then false else w.isJumping;
    w.(y := y, velocity := if newY == 0.0 then 0.0 else newVelocity, isJumping := jumping)
  }

  /**
    Standing on the ground the dino stays there, but because landing does
    not reset velocity, gravity keeps accumulating in it frame after frame.
   */
  lemma GroundedVelocityAccumulates(w: World)
    requires !w.isJumping && w.y == 0.0 && w.velocity >= 0.0
    ensures Integrate(w).y == 0.0 && !Integrate(w).isJumping
    ensures Integrate(w).velocity == w.velocity + Gravity
  {
  }

  // ---------------------------------------------------------------------
  // Obstacles: move, cull, spawn
  // ---------------------------------------------------------------------

  /** Every obstacle moved left by `speed`, nothing else changed. */
  function Shifted(obs: seq<Obstacle>, speed: real): (r: seq<Obstacle>)
    ensures |r| == |obs|
    ensures forall i :: 0 <= i < |obs| ==> r[i] == obs[i].(left := obs[i].left - speed)
  {
    seq(|obs|, i requires 0 <= i < |obs| => obs[i].(left := obs[i].left - speed))
  }

  predicate OnScreen(o: Obstacle) {
    o.left > CullEdge
  }

  /** Move every obstacle left by `speed` and drop those now at or past the cull edge. */
  function MoveAndCull(obs: seq<Obstacle>, speed: real): (r: seq<Obstacle>)
    ensures |r| <= |obs|
    ensures forall o :: o in r ==> o.left > CullEdge
    ensures forall i :: 0 <= i < |obs| ==>
      (obs[i].(left := obs[i].left - speed) in r <==> obs[i].left - speed > CullEdge)
    ensures IsSubsequence(r, Shifted(obs, speed))
    ensures forall p {:trigger multiset(r)[p]} :: multiset(r)[p] == if p.left > CullEdge then multiset(Shifted(obs, speed))[p] else 0
  {
    var moved := Shifted(obs, speed);
    var r := Filter(moved, OnScreen);
    FilterCounts(moved, OnScreen);
    forall o | o in r ensures o.left > CullEdge {
      var j :| 0 <= j < |r| && r[j] == o;
    }
    forall i | 0 <= i < |obs|
      ensures obs[i].(left := obs[i].left - speed) in r <==> obs[i].left - speed > CullEdge
    {
      assert moved[i] == obs[i].(left := obs[i].left - speed);
      if moved[i] in r {
        var j :| 0 <= j < |r| && r[j] == moved[i];
      }
    }
    r
  }

  /** Nothing is added by moving and culling: each survivor is an input obstacle moved by `speed`. */
  lemma SurvivorsCameFromInput(obs: seq<Obstacle>, speed: real, o: Obstacle)
    requires o in MoveAndCull(obs, speed)
    ensures o.(left := o.left + speed) in obs
  {
    var r := MoveAndCull(obs, speed);
    var moved := Shifted(obs, speed);
    SubsequenceMembers(r, moved);
    var j :| 0 <= j < |r| && r[j] == o;
    var i :| 0 <= i < |moved| && moved[i] == o;
    assert o.(left := o.left + speed) == obs[i];
  }

  /** A scenario: an obstacle already past the cull edge is gone after the next move. */
  lemma PastEdgeIsCulled(o: Obstacle, speed: real)
    requires o.left <= CullEdge && speed >= 0.0
    ensures MoveAndCull([o], speed) == []
  {
  }

  /** Which obstacle kind a draw of `Math.random()` produces. */
  function Classify(rand: real): (k: Kind)
    ensures k == Cactus <==> rand < 0.7
    ensures k == Bird <==> 0.7 <= rand < 0.85
    ensures k == Snack <==> 0.85 <= rand
  {
    if rand < 0.7 then Cactus
    else if rand < 0.85 then Bird
    else Snack
  }

  /** The band of [0, 1) that each kind owns, as a lookup table. */
  function Band(k: Kind): (real, real) {
    match k
    case Cactus => (0.0, 0.7)
    case Bird => (0.7, 0.85)
    case Snack => (0.85, 1.0)
  }

  /**
    The three bands split [0, 1) without gap or overlap into shares of
    70%, 15% and 15%, and a draw falls in the band of the kind it spawns.
   */
  lemma ClassifyFollowsBands(rand: real, k: Kind)
    requires 0.0 <= rand < 1.0
    ensures Classify(rand) == k <==> Band(k).0 <= rand < Band(k).1
    ensures Band(Cactus).1 - Band(Cactus).0 == 0.7
    ensures Band(Bird).1 - Band(Bird).0 == 0.15
    ensures Band(Snack).1 - Band(Snack).0 == 0.15
    ensures Band(Cactus).0 == 0.0 && Band(Cactus).1 == Band(Bird).0
    ensures Band(Bird).1 == Band(Snack).0 && Band(Snack).1 == 1.0
  {
  }

  /** The spawn timer: append one obstacle of the drawn kind at the right edge. */
  function Spawn(w: World, rand: real, id: int): (r: World)
    ensures w.gameOver ==> r == w
    ensures !w.gameOver ==>
      && |r.obstacles| == |w.obstacles| + 1
      && r.obstacles[..|w.obstacles|] == w.obstacles
      && r.obstacles[|w.obstacles|] == Obstacle(id, Classify(rand), GameWidth)
      && r == w.(obstacles := r.obstacles)
  {
    if w.gameOver then w
    else w.(obstacles := w.obstacles + [Obstacle(id, Classify(rand), GameWidth)])
  }

  // ---------------------------------------------------------------------
  // Collision geometry
  // ---------------------------------------------------------------------

  /**
    The source carries two hitbox layouts: the one used by the
    animation-frame loop and the tighter one used by the 50 ms obstacle
    timer.
   */
  datatype Layout = FrameLayout | TimerLayout

  /** The dino's hitbox for a vertical offset `y`. */
  function DinoBox(layout: Layout, ducking: bool, y: real): (b: Box)
    ensures b.x == DinoLeft && b.width > 0.0 && b.height > 0.0
    ensures GameHeight - 48.0 + y <= b.y && b.y + b.height <= GameHeight + y
  {
    var top := GameHeight - (if ducking then 40.0 else 48.0) + y;
    match layout
    case FrameLayout =>
      Box(DinoLeft, top, if ducking then 64.0 else 48.0, if ducking then 24.0 else 48.0)
    case TimerLayout =>
      Box(DinoLeft, top, if ducking then 50.0 else 40.0, if ducking then 20.0 else 40.0)
  }

  /** An obstacle's hitbox: birds fly at a fixed height, the rest stand on the ground line. */
  function ObstacleBox(layout: Layout, o: Obstacle): (b: Box)
    ensures b.width > 0.0 && b.height > 0.0
    ensures o.left <= b.x && b.x + b.width <= o.left + 45.0
    ensures o.kind == Bird ==> b.y + b.height <= 140.0
    ensures o.kind != Bird ==> b.y + b.height == GameHeight
  {
    var top := if o.kind == Bird then 100.0 else 160.0;
    match layout
    case FrameLayout => Box(o.left, top, 40.0, 40.0)
    case TimerLayout =>
      Box(o.left + 5.0, top, if o.kind == Bird then 30.0 else 40.0, if o.kind == Bird then 20.0 else 40.0)
  }

  /** Ducking makes the hitbox wider and shorter and lowers its top edge. */
  lemma DuckingWidensAndLowers(layout: Layout, y: real)
    ensures DinoBox(layout, true, y).width > DinoBox(layout, false, y).width
    ensures DinoBox(layout, true, y).height < DinoBox(layout, false, y).height
    ensures DinoBox(layout, true, y).y > DinoBox(layout, false, y).y
  {
  }

  function Larger(a: real, b: real): real {
    if a < b then b else a
  }

  function Smaller(a: real, b: real): real {
    if a < b then a else b
  }

  /**
    Strict overlap on both axes. For boxes of positive size this is the
    intersection of the two boxes having positive width and height; in
    general it needs the widths and the heights to add up to something
    positive.
   */
  function IsColliding(a: Box, b: Box): (r: bool)
    ensures a.width > 0.0 && a.height > 0.0 && b.width > 0.0 && b.height > 0.0 ==>
      (r <==> (Larger(a.x, b.x) < Smaller(a.x + a.width, b.x + b.width)
               && Larger(a.y, b.y) < Smaller(a.y + a.height, b.y + b.height)))
    ensures r ==> a.width + b.width > 0.0 && a.height + b.height > 0.0
  {
    && a.x < b.x + b.width
    && a.x + a.width > b.x
    && a.y < b.y + b.height
    && a.y + a.height > b.y
  }

  lemma CollidingIsSymmetric(a: Box, b: Box)
    ensures IsColliding(a, b) <==> IsColliding(b, a)
  {
  }

  /**
    Boxes that only share an edge do not collide, and two boxes whose
    widths (or heights) add up to nothing never do.
   */
  lemma TouchingDoesNotCollide(a: Box, b: Box)
    ensures a.x + a.width == b.x || b.x + b.width == a.x ==> !IsColliding(a, b)
    ensures a.y + a.height == b.y || b.y + b.height == a.y ==> !IsColliding(a, b)
    ensures a.width + b.width <= 0.0 || a.height + b.height <= 0.0 ==> !IsColliding(a, b)
  {
  }

  /**
    Why the sizes are summed above: a box of zero size strictly inside
    another still passes the strict test.
   */
  lemma ZeroSizeBoxCanCollide()
    ensures IsColliding(Box(5.0, 5.0, 0.0, 0.0), Box(0.0, 0.0, 10.0, 10.0))
  {
  }

  ghost predicate Inside(px: real, py: real, b: Box) {
    b.x < px < b.x + b.width && b.y < py < b.y + b.height
  }

  /** For boxes of positive size, colliding means sharing an interior point. */
  lemma CollidingMeansSharedPoint(a: Box, b: Box)
    requires a.width > 0.0 && a.height > 0.0 && b.width > 0.0 && b.height > 0.0
    ensures IsColliding(a, b) <==> exists px, py :: Inside(px, py, a) && Inside(px, py, b)
  {
    if IsColliding(a, b) {
      var lo := if a.x < b.x then b.x else a.x;
      var hi := if a.x + a.width < b.x + b.width then a.x + a.width else b.x + b.width;
      var top := if a.y < b.y then b.y else a.y;
      var bottom := if a.y + a.height < b.y + b.height then a.y + a.height else b.y + b.height;
      var px, py := (lo + hi) / 2.0, (top + bottom) / 2.0;
      assert Inside(px, py, a) && Inside(px, py, b);
    }
  }

  /** On the ground, in either layout and whether ducking or not, no bird reaches the dino. */
  lemma BirdsPassOverGroundedDino(layout: Layout, ducking: bool, o: Obstacle)
    requires o.kind == Bird
    ensures !IsColliding(DinoBox(layout, ducking, 0.0), ObstacleBox(layout, o))
  {
  }

  /** The horizontal window in which a ground obstacle hits a standing dino. */
  lemma GroundObstacleWindow(o: Obstacle)
    requires o.kind != Bird
    ensures IsColliding(DinoBox(FrameLayout, false, 0.0), ObstacleBox(FrameLayout, o))
      <==> 60.0 < o.left < 148.0
    ensures IsColliding(DinoBox(TimerLayout, false, 0.0), ObstacleBox(TimerLayout, o))
      <==> 55.0 < o.left < 135.0
  {
  }

  // ---------------------------------------------------------------------
  // Collision effects
  // ---------------------------------------------------------------------

  /** Every obstacle except those carrying `id`, in order. */
  function RemoveId(obs: seq<Obstacle>, id: int): (r: seq<Obstacle>)
    ensures forall o :: o in r ==> o in obs && o.id != id
    ensures forall o :: o in obs && o.id != id ==> o in r
    ensures IsSubsequence(r, obs)
    ensures forall p {:trigger multiset(r)[p]} :: multiset(r)[p] == if p.id != id then multiset(obs)[p] else 0
  {
    var r := Filter(obs, (o: Obstacle) => o.id != id);
    FilterCounts(obs, (o: Obstacle) => o.id != id);
    forall o | o in r ensures o in obs && o.id != id {
      var j :| 0 <= j < |r| && r[j] == o;
    }
    forall o | o in obs && o.id != id ensures o in r {
      var j :| 0 <= j < |obs| && obs[j] == o;
    }
    r
  }

  /** Whether hitting an obstacle of this kind costs a life. */
  predicate Damages(ducking: bool, k: Kind) {
    k != Snack && !(ducking && k == Bird)
  }

  /** The effect of touching one obstacle. */
  function Resolve(w: World, o: Obstacle): (r: World)
    ensures o.kind == Snack ==>
      && r.score == w.score + SnackBonus
      && r.lives == w.lives && r.gameOver == w.gameOver
      && r.obstacles == RemoveId(w.obstacles, o.id)
    ensures o.kind == Bird && w.ducking ==> r == w
    ensures Damages(w.ducking, o.kind) ==>
      && r.lives == w.lives - 1
      && r.gameOver == (w.gameOver || r.lives <= 0)
      && r.score == w.score
      && r.obstacles == RemoveId(w.obstacles, o.id)
    ensures r == w.(score := r.score, lives := r.lives, gameOver := r.gameOver, obstacles := r.obstacles)
  {
    if o.kind == Snack then
      w.(score := w.score + SnackBonus, obstacles := RemoveId(w.obstacles, o.id))
    else if !(w.ducking && o.kind == Bird) then
      var next := w.lives - 1;
      w.(lives := next, gameOver := if next <= 0 then true else w.gameOver,
         obstacles := RemoveId(w.obstacles, o.id))
    else w
  }

  /** A hit is an overlap with the obstacle's hitbox in the given layout. */
  predicate Hit(layout: Layout, dino: Box, o: Obstacle) {
    IsColliding(dino, ObstacleBox(layout, o))
  }

  /** How many of the tested obstacles are snacks the dino touches. */
  function SnackHits(layout: Layout, dino: Box, tested: seq<Obstacle>): nat {
    |Filter(tested, (o: Obstacle) => Hit(layout, dino, o) && o.kind == Snack)|
  }

  /** How many of the tested obstacles the dino touches at the cost of a life. */
  function DamagingHits(layout: Layout, dino: Box, ducking: bool, tested: seq<Obstacle>): nat {
    |Filter(tested, (o: Obstacle) => Hit(layout, dino, o) && Damages(ducking, o.kind))|
  }

  /** Snack hits are counted one obstacle at a time. */
  lemma SnackHitsStep(layout: Layout, dino: Box, tested: seq<Obstacle>)
    requires |tested| > 0
    ensures SnackHits(layout, dino, tested) ==
      (if Hit(layout, dino, tested[0]) && tested[0].kind == Snack then 1 else 0) + SnackHits(layout, dino, tested[1..])
  {
  }

  /** Damaging hits are counted one obstacle at a time. */
  lemma DamagingHitsStep(layout: Layout, dino: Box, ducking: bool, tested: seq<Obstacle>)
    requires |tested| > 0
    ensures DamagingHits(layout, dino, ducking, tested) ==
      (if Hit(layout, dino, tested[0]) && Damages(ducking, tested[0].kind) then 1 else 0)
      + DamagingHits(layout, dino, ducking, tested[1..])
  {
  }

  /**
    Whether a pass over `tested` takes effect on some obstacle carrying
    `id`: every hit except a bird passed while ducking removes its id.
   */
  ghost predicate RemovedBy(layout: Layout, dino: Box, ducking: bool, tested: seq<Obstacle>, id: int) {
    exists o :: o in tested && Hit(layout, dino, o) && !(ducking && o.kind == Bird) && o.id == id
  }

  /**
    `after` holds every copy of each obstacle of `before` whose id no
    effective hit of the pass carries, and no copy of the others.
   */
  ghost predicate KeepsUnhit(layout: Layout, dino: Box, ducking: bool, tested: seq<Obstacle>,
                             before: seq<Obstacle>, after: seq<Obstacle>) {
    forall p :: multiset(after)[p] == if RemovedBy(layout, dino, ducking, tested, p.id) then 0 else multiset(before)[p]
  }

  /** The obstacle bookkeeping of one step of a collision pass. */
  lemma RemovalStep(layout: Layout, dino: Box, tested: seq<Obstacle>, w: World, next: World, r: World)
    requires |tested| > 0
    requires next == if Hit(layout, dino, tested[0]) then Resolve(w, tested[0]) else w
    requires KeepsUnhit(layout, dino, next.ducking, tested[1..], next.obstacles, r.obstacles)
    ensures KeepsUnhit(layout, dino, w.ducking, tested, w.obstacles, r.obstacles)
  {
    var o := tested[0];
    assert tested == [o] + tested[1..];
    assert next.ducking == w.ducking;
    var effective := Hit(layout, dino, o) && !(w.ducking && o.kind == Bird);
    forall p
      ensures multiset(r.obstacles)[p] ==
        if RemovedBy(layout, dino, w.ducking, tested, p.id) then 0 else multiset(w.obstacles)[p]
    {
      if RemovedBy(layout, dino, w.ducking, tested[1..], p.id) {
        var q :| q in tested[1..] && Hit(layout, dino, q) && !(w.ducking && q.kind == Bird) && q.id == p.id;
        assert q in tested;
      }
      if effective && o.id == p.id {
        assert RemovedBy(layout, dino, w.ducking, tested, p.id);
      }
      if RemovedBy(layout, dino, w.ducking, tested, p.id) && !(effective && o.id == p.id) {
        var q :| q in tested && Hit(layout, dino, q) && !(w.ducking && q.kind == Bird) && q.id == p.id;
        assert q != o;
        assert q in tested[1..];
      }
      if effective {
        assert next.obstacles == RemoveId(w.obstacles, o.id);
      } else {
        assert next == w;
      }
    }
  }

  /**
    One collision pass: each obstacle of the snapshot `tested` is checked
    against the dino's box and, on a hit, its effect is applied to `w`
    (whose obstacle list may already have moved on). Exactly the obstacles
    whose id some effective hit carries are removed.
   */
  function CollisionPass(layout: Layout, dino: Box, tested: seq<Obstacle>, w: World): (r: World)
    ensures r.score == w.score + SnackBonus * SnackHits(layout, dino, tested)
    ensures r.lives == w.lives - DamagingHits(layout, dino, w.ducking, tested)
    ensures r.gameOver == (w.gameOver || (DamagingHits(layout, dino, w.ducking, tested) > 0 && r.lives <= 0))
    ensures r == w.(score := r.score, lives := r.lives, gameOver := r.gameOver, obstacles := r.obstacles)
    ensures IsSubsequence(r.obstacles, w.obstacles)
    ensures forall p :: p in r.obstacles ==> p in w.obstacles
    ensures KeepsUnhit(layout, dino, w.ducking, tested, w.obstacles, r.obstacles)
    decreases |tested|
  {
    if |tested| == 0 then
      SubsequenceReflexive(w.obstacles);
      w
    else
      var o := tested[0];
      var next := if Hit(layout, dino, o) then Resolve(w, o) else w;
      var r := CollisionPass(layout, dino, tested[1..], next);
      SubsequenceMembers(r.obstacles, next.obstacles);
      SubsequenceReflexive(w.obstacles);
      SubsequenceTransitive(r.obstacles, next.obstacles, w.obstacles);
      RemovalStep(layout, dino, tested, w, next, r);
      SnackHitsStep(layout, dino, tested);
      DamagingHitsStep(layout, dino, w.ducking, tested);
      r
  }

  /**
    At most one effect per obstacle: once the pass has applied an effect
    for an obstacle, no obstacle with its id is left to be hit again by a
    later pass.
   */
  lemma HitObstaclesAreRemoved(layout: Layout, dino: Box, tested: seq<Obstacle>, w: World, o: Obstacle)
    requires o in tested && Hit(layout, dino, o) && !(w.ducking && o.kind == Bird)
    ensures forall p :: p in CollisionPass(layout, dino, tested, w).obstacles ==> p.id != o.id
  {
    var r := CollisionPass(layout, dino, tested, w);
    assert RemovedBy(layout, dino, w.ducking, tested, o.id);
    forall p | p in r.obstacles ensures p.id != o.id {
      assert multiset(r.obstacles)[p] > 0;
    }
  }

  /** An obstacle whose id no effective hit carries keeps every copy it had. */
  lemma UnhitObstaclesSurvive(layout: Layout, dino: Box, tested: seq<Obstacle>, w: World, p: Obstacle)
    requires forall o :: o in tested && Hit(layout, dino, o) && !(w.ducking && o.kind == Bird) ==> o.id != p.id
    ensures multiset(CollisionPass(layout, dino, tested, w).obstacles)[p] == multiset(w.obstacles)[p]
  {
  }

  // ---------------------------------------------------------------------
  // Score and difficulty
  // ---------------------------------------------------------------------

  /**
    Speed for a score: half a unit more every 100 points from 6, capped at
    10. JavaScript's `Math.floor(score / 100)` agrees with Dafny's `/` on
    integers because the divisor is positive.
   */
  function SpeedFor(score: int): (s: real)
    ensures s <= MaxSpeed
    ensures score >= 0 ==> BaseSpeed <= s
    ensures s == MaxSpeed <==> score >= 800
  {
    var stepped := BaseSpeed + (score / 100) as real * 0.5;
    if stepped < MaxSpeed then stepped else MaxSpeed
  }

  lemma SpeedIsMonotone(a: int, b: int)
    requires a <= b
    ensures SpeedFor(a) <= SpeedFor(b)
  {
    assert a / 100 <= b / 100;
  }

  /** Every 100 points add half a unit of speed until the cap. */
  lemma SpeedStepsEveryHundred(score: int)
    requires score >= 0
    ensures SpeedFor(score + 100) == if SpeedFor(score) + 0.5 < MaxSpeed then SpeedFor(score) + 0.5 else MaxSpeed
  {
    assert (score + 100) / 100 == score / 100 + 1;
  }

  /** The 100 ms score timer, reading the score the tick starts from. */
  function ScoreTick(w: World): (r: World)
    ensures w.gameOver ==> r == w
    ensures !w.gameOver ==> r.score == w.score + 1 && r.speed == SpeedFor(w.score)
    ensures !w.gameOver ==> r == w.(score := r.score, speed := r.speed)
  {
    if w.gameOver then w else w.(score := w.score + 1, speed := SpeedFor(w.score))
  }

  /**
    The score timer as the component wires it: its callback reads the
    `score` captured when the timer was created, and the timer is only
    recreated when `gameOver` changes, so `captured` is the score at the
    start of the session.
   */
  function ScoreTickAsWritten(w: World, captured: int): (r: World)
    ensures w.gameOver ==> r == w
    ensures !w.gameOver ==> r.score == w.score + 1 && r.speed == SpeedFor(captured)
    ensures r == w.(score := r.score, speed := r.speed)
  {
    if w.gameOver then w else w.(score := w.score + 1, speed := SpeedFor(captured))
  }

  /**
    A session starts with score 0, so as written the speed is 6 on every
    tick however high the score climbs; with the score read at tick time
    it reaches the cap of 10 once the score passes 800.
   */
  lemma StaleScoreFreezesSpeed(w: World)
    requires !w.gameOver && w.score >= 800
    ensures ScoreTickAsWritten(w, 0).speed == BaseSpeed
    ensures ScoreTick(w).speed == MaxSpeed
  {
  }

  /** The 120 ms sprite timer cycles through three images. */
  function AdvanceSprite(w: World): (r: World)
    ensures 0 <= r.frame < 3
    ensures 0 <= w.frame < 2 ==> r.frame == w.frame + 1
    ensures w.frame == 2 ==> r.frame == 0
    ensures r == w.(frame := r.frame)
  {
    w.(frame := (w.frame + 1) % 3)
  }

  // ---------------------------------------------------------------------
  // The loops
  // ---------------------------------------------------------------------

  /**
    One animation frame: gravity, move and cull, then a collision pass
    over the obstacles and position as they stood before this frame.
   */
  function AnimationFrame(w: World): (r: World)
    ensures r.y <= 0.0
    ensures forall p :: p in r.obstacles ==> p.left > CullEdge
    ensures r.score >= w.score && r.lives <= w.lives
    ensures var dino := DinoBox(FrameLayout, w.ducking, w.y);
      var survivors := MoveAndCull(w.obstacles, w.speed);
      && r.score == w.score + SnackBonus * SnackHits(FrameLayout, dino, w.obstacles)
      && r.lives == w.lives - DamagingHits(FrameLayout, dino, w.ducking, w.obstacles)
      && r.gameOver == (w.gameOver || (DamagingHits(FrameLayout, dino, w.ducking, w.obstacles) > 0 && r.lives <= 0))
      && IsSubsequence(r.obstacles, survivors)
      && KeepsUnhit(FrameLayout, dino, w.ducking, w.obstacles, survivors, r.obstacles)
      && r == Integrate(w).(score := r.score, lives := r.lives, gameOver := r.gameOver, obstacles := r.obstacles)
  {
    var moved := Integrate(w).(obstacles := MoveAndCull(w.obstacles, w.speed));
    CollisionPass(FrameLayout, DinoBox(FrameLayout, w.ducking, w.y), w.obstacles, moved)
  }

  /** The 50 ms obstacle timer: move and cull, then a collision pass with the tighter layout. */
  function ObstacleTick(w: World): (r: World)
    ensures w.gameOver ==> r == w
    ensures !w.gameOver ==> forall p :: p in r.obstacles ==> p.left > CullEdge
    ensures r.score >= w.score && r.lives <= w.lives
    ensures r.y == w.y && r.velocity == w.velocity && r.isJumping == w.isJumping
    ensures !w.gameOver ==>
      var dino := DinoBox(TimerLayout, w.ducking, w.y);
      var survivors := MoveAndCull(w.obstacles, w.speed);
      && r.score == w.score + SnackBonus * SnackHits(TimerLayout, dino, w.obstacles)
      && r.lives == w.lives - DamagingHits(TimerLayout, dino, w.ducking, w.obstacles)
      && r.gameOver == (DamagingHits(TimerLayout, dino, w.ducking, w.obstacles) > 0 && r.lives <= 0)
      && IsSubsequence(r.obstacles, survivors)
      && KeepsUnhit(TimerLayout, dino, w.ducking, w.obstacles, survivors, r.obstacles)
      && r == w.(score := r.score, lives := r.lives, gameOver := r.gameOver, obstacles := r.obstacles)
  {
    if w.gameOver then w
    else
      var moved := w.(obstacles := MoveAndCull(w.obstacles, w.speed));
      CollisionPass(TimerLayout, DinoBox(TimerLayout, w.ducking, w.y), w.obstacles, moved)
  }

  datatype Event =
    | PressJump
    | SetDuck(down: bool)
    | Frame
    | MoveTimer
    | ScoreTimer
    | SpawnTimer(rand: real, id: int)
    | SpriteTimer
    | PressRestart

  /**
    Whichever callback fires next. The restart button is shown only after
    game over, and nothing but a restart lowers the score or restores a life.
   */
  function Step(w: World, e: Event): (r: World)
    ensures e.PressRestart? ==> r == if w.gameOver then Initial() else w
    ensures !e.PressRestart? ==> r.score >= w.score && r.lives <= w.lives
  {
    match e
    case PressJump => Jump(w)
    case SetDuck(down) => Duck(w, down)
    case Frame => AnimationFrame(w)
    case MoveTimer => ObstacleTick(w)
    case ScoreTimer => ScoreTick(w)
    case SpawnTimer(rand, id) => Spawn(w, rand, id)
    case SpriteTimer => AdvanceSprite(w)
    case PressRestart => if w.gameOver then Restart(w) else w
  }

  // ---------------------------------------------------------------------
  // Invariants over whole sessions
  // ---------------------------------------------------------------------

  /**
    What every reachable state satisfies: the dino is never below ground
    and is on the ground with non-negative velocity whenever it is not
    jumping; it never jumps and ducks at once; lives only run down from one
    and the game is over exactly when they are gone; speed stays within
    [1, 10]; every obstacle lies between the cull edge and the right edge.
   */
  ghost predicate WellFormed(w: World) {
    && w.y <= 0.0
    && (!w.isJumping ==> w.y == 0.0 && w.velocity >= 0.0)
    && !(w.isJumping && w.ducking)
    && 0 <= w.frame < 3
    && w.score >= 0
    && 1.0 <= w.speed <= MaxSpeed
    && w.lives <= 1
    && (w.gameOver <==> w.lives <= 0)
    && forall o :: o in w.obstacles ==> CullEdge < o.left <= GameWidth
  }

  lemma CollisionPassKeepsWellFormed(layout: Layout, dino: Box, tested: seq<Obstacle>, w: World)
    requires WellFormed(w)
    ensures WellFormed(CollisionPass(layout, dino, tested, w))
  {
  }

  lemma MoveAndCullKeepsBounds(obs: seq<Obstacle>, speed: real)
    requires speed >= 0.0
    requires forall o :: o in obs ==> o.left <= GameWidth
    ensures forall o :: o in MoveAndCull(obs, speed) ==> CullEdge < o.left <= GameWidth
  {
    forall o | o in MoveAndCull(obs, speed) ensures CullEdge < o.left <= GameWidth {
      SurvivorsCameFromInput(obs, speed, o);
    }
  }

  lemma StepKeepsWellFormed(w: World, e: Event)
    requires WellFormed(w)
    ensures WellFormed(Step(w, e))
  {
    match e
    case Frame =>
      MoveAndCullKeepsBounds(w.obstacles, w.speed);
      var moved := Integrate(w).(obstacles := MoveAndCull(w.obstacles, w.speed));
      assert WellFormed(moved);
      CollisionPassKeepsWellFormed(FrameLayout, DinoBox(FrameLayout, w.ducking, w.y), w.obstacles, moved);
    case MoveTimer =>
      if !w.gameOver {
        MoveAndCullKeepsBounds(w.obstacles, w.speed);
        var moved := w.(obstacles := MoveAndCull(w.obstacles, w.speed));
        CollisionPassKeepsWellFormed(TimerLayout, DinoBox(TimerLayout, w.ducking, w.y), w.obstacles, moved);
      }
    case _ =>
  }

  /** Score never goes down except on restart. */
  lemma ScoreNeverDecreases(w: World, e: Event)
    requires e != PressRestart
    ensures Step(w, e).score >= w.score
  {
  }

  /** A ducking dino in a reachable state is on the ground. */
  lemma DuckingMeansGrounded(w: World)
    requires WellFormed(w) && w.ducking
    ensures w.y == 0.0
  {
  }

  /** With the single life a session starts with, one damaging hit ends the game. */
  lemma OneHitEndsGame(w: World, o: Obstacle)
    requires w.lives == 1 && !w.gameOver
    requires Damages(w.ducking, o.kind)
    ensures Resolve(w, o).gameOver && Resolve(w, o).lives == 0
  {
  }

  /**
    A fresh game with speed 6 and one cactus right at the dino: the next
    obstacle tick costs the only life, ends the game and removes the cactus.
   */
  lemma CactusScenario()
    ensures var w := ObstacleTick(Initial().(speed := 6.0, obstacles := [Obstacle(1, Cactus, 100.0)]));
      w.lives == 0 && w.gameOver && w.obstacles == [] && w.score == 0
  {
    var w0 := Initial().(speed := 6.0, obstacles := [Obstacle(1, Cactus, 100.0)]);
    assert Hit(TimerLayout, DinoBox(TimerLayout, false, 0.0), Obstacle(1, Cactus, 100.0));
    assert Filter([Obstacle(1, Cactus, 100.0)], (o: Obstacle) =>
      Hit(TimerLayout, DinoBox(TimerLayout, false, 0.0), o) && Damages(false, o.kind)) == [Obstacle(1, Cactus, 100.0)];
  }
}
