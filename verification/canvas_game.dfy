/**
  The canvas version of the runner (src/components/Game.tsx).

  All of its state lives in refs and is plain integers: a dino that jumps
  with a force that drops by one each frame and snaps back to the ground
  line at y = 150, obstacles that move left, are culled off the left edge
  and are respawned at x = 400 once the last one has passed x = 200, and a
  frame counter that doubles as the score. Any overlap ends the game.
 */
module CanvasGame {
  import opened Sequences
  import opened Order

  datatype Rect = Rect(x: int, y: int, width: int, height: int)

  datatype Dino = Dino(x: int, y: int, width: int, height: int, jumping: bool, jumpForce: int)

  datatype Game = Game(
    dino: Dino,
    obstacles: seq<Rect>,
    score: int,         // the frame counter kept in a ref
    shownScore: int,    // the score state the page displays
    speed: int,
    isGameOver: bool)

  const Ground: int := 150
  const ArmForce: int := 15
  const SpawnX: int := 400
  const SpawnGap: int := 200
  const BaseSpeed: int := 5

  function InitialDino(): Dino {
    Dino(50, Ground, 50, 50, false, 0)
  }

  function NewObstacle(): Rect {
    Rect(SpawnX, Ground, 20, 40)
  }

  function Initial(): Game {
    Game(InitialDino(), [], 0, 0, BaseSpeed, false)
  }

  // ---------------------------------------------------------------------
  // The dino
  // ---------------------------------------------------------------------

  /** The Space key: arm a jump unless one is already under way. */
  function PressSpace(d: Dino): (r: Dino)
    ensures !d.jumping ==> r.jumping && r.jumpForce == ArmForce && r == d.(jumping := true, jumpForce := ArmForce)
    ensures d.jumping ==> r == d
  {
    if !d.jumping then d.(jumping := true, jumpForce := ArmForce) else d
  }

  /** One frame of the jump: rise by the force, weaken it, snap to the ground on the way down. */
  function Fall(d: Dino): Dino
  {
    if d.jumping then
      var y := d.y - d.jumpForce;
      var force := d.jumpForce - 1;
      if y >= Ground then d.(y := Ground, jumping := false, jumpForce := 0)
      else d.(y := y, jumpForce := force)
    else d
  }

  /** A jumping frame never leaves the dino below the ground line; a standing one changes nothing. */
  lemma FallSnapsToGround(d: Dino)
    ensures d.jumping ==> Fall(d).y <= Ground
    ensures d.jumping && Fall(d).y == Ground ==> !Fall(d).jumping && Fall(d).jumpForce == 0
    ensures !d.jumping ==> Fall(d) == d
  {
  }

  /** `n` frames of `Fall`. */
  function FallN(d: Dino, n: nat): Dino {
    if n == 0 then d else Fall(FallN(d, n - 1))
  }

  /** A jump armed on the ground. */
  function Armed(): Dino {
    PressSpace(InitialDino())
  }

  /** How far above the ground line a grounded jump has carried the dino after k frames. */
  function Rise(k: nat): int {
    if k == 0 then 0 else Rise(k - 1) + (ArmForce + 1 - k)
  }

  /** The rise follows the parabola k * (31 - k) / 2. */
  lemma {:induction false} RiseClosedForm(k: nat)
    ensures 2 * Rise(k) == k * (31 - k)
  {
    if k > 0 {
      RiseClosedForm(k - 1);
      assert (k - 1) * (31 - (k - 1)) == (k - 1) * (32 - k);
    }
  }

  /** During the first 30 frames the rise is positive and peaks at 120, reached at frames 15 and 16. */
  lemma RiseBounds(k: nat)
    requires k <= 30
    ensures 0 <= Rise(k) <= 120
    ensures 0 < k ==> 0 < Rise(k)
    ensures Rise(k) == 120 <==> k == 15 || k == 16
  {
    RiseClosedForm(k);
    assert k * (31 - k) == 240 - (k - 15) * (k - 16);
    if k <= 15 {
      assert (15 - k) * (16 - k) >= 0;
      if k < 15 { assert (15 - k) * (16 - k) > 0; }
    } else {
      assert (k - 15) * (k - 16) >= 0;
      if k > 16 { assert (k - 15) * (k - 16) > 0; }
    }
    if 0 < k {
      assert k * (31 - k) >= 31 - k;
    }
  }

  /**
    The arc of a jump armed on the ground: after k <= 30 frames the dino is
    still in the air, `Rise(k)` above the ground line, with force 15 - k.
   */
  lemma {:induction false} JumpArc(k: nat)
    requires k <= 30
    ensures FallN(Armed(), k) == InitialDino().(y := Ground - Rise(k), jumping := true, jumpForce := ArmForce - k)
  {
    if k > 0 {
      JumpArc(k - 1);
      RiseBounds(k);
    }
  }

  /** Throughout the jump the dino stays between y = 30 (the apex, frames 15 and 16) and the ground line. */
  lemma JumpHeightBounds(k: nat)
    requires k <= 30
    ensures 30 <= FallN(Armed(), k).y <= Ground
    ensures FallN(Armed(), k).y == 30 <==> k == 15 || k == 16
  {
    JumpArc(k);
    RiseBounds(k);
  }

  /** A jump armed on the ground lands on exactly the 31st frame, back in the starting state. */
  lemma JumpLandsAfter31Frames()
    ensures forall k :: 0 <= k <= 30 ==> FallN(Armed(), k).jumping
    ensures FallN(Armed(), 31) == InitialDino()
  {
    forall k | 0 <= k <= 30 ensures FallN(Armed(), k).jumping {
      JumpArc(k);
    }
    JumpArc(30);
    assert Rise(30) == 15 by {
      RiseClosedForm(30);
    }
  }

  // ---------------------------------------------------------------------
  // Obstacles
  // ---------------------------------------------------------------------

  function Moved(obs: seq<Rect>, speed: int): (r: seq<Rect>)
    ensures |r| == |obs|
    ensures forall i :: 0 <= i < |obs| ==> r[i] == obs[i].(x := obs[i].x - speed)
  {
    seq(|obs|, i requires 0 <= i < |obs| => obs[i].(x := obs[i].x - speed))
  }

  predicate Visible(o: Rect) {
    o.x + o.width > 0
  }

  /** Move every obstacle left by `speed`, then drop those whose right edge is at or past x = 0. */
  function MoveAndCull(obs: seq<Rect>, speed: int): (r: seq<Rect>)
    ensures |r| <= |obs|
    ensures forall j :: 0 <= j < |r| ==> r[j].x + r[j].width > 0
    ensures forall i :: 0 <= i < |obs| ==>
      (obs[i].(x := obs[i].x - speed) in r <==> obs[i].x - speed + obs[i].width > 0)
    ensures IsSubsequence(r, Moved(obs, speed))
    ensures forall p {:trigger multiset(r)[p]} :: multiset(r)[p] == if p.x + p.width > 0 then multiset(Moved(obs, speed))[p] else 0
  {
    var moved := Moved(obs, speed);
    var r := Filter(moved, Visible);
    FilterCounts(moved, Visible);
    forall i | 0 <= i < |obs|
      ensures obs[i].(x := obs[i].x - speed) in r <==> obs[i].x - speed + obs[i].width > 0
    {
      assert moved[i] == obs[i].(x := obs[i].x - speed);
      if moved[i] in r {
        var j :| 0 <= j < |r| && r[j] == moved[i];
      }
    }
    r
  }

  /** Nothing is added by moving and culling: each survivor is an input obstacle moved by `speed`. */
  lemma SurvivorsCameFromInput(obs: seq<Rect>, speed: int, o: Rect)
    requires o in MoveAndCull(obs, speed)
    ensures o.(x := o.x + speed) in obs
  {
    var r := MoveAndCull(obs, speed);
    var moved := Moved(obs, speed);
    SubsequenceMembers(r, moved);
    var j :| 0 <= j < |r| && r[j] == o;
    var i :| 0 <= i < |moved| && moved[i] == o;
    assert o.(x := o.x + speed) == obs[i];
  }

  /** Append a fresh obstacle when the field is empty or the last one has passed x = 200. */
  function Spawn(obs: seq<Rect>): (r: seq<Rect>)
    ensures |obs| == 0 || obs[|obs| - 1].x < SpawnGap ==> r == obs + [NewObstacle()]
    ensures |obs| > 0 && obs[|obs| - 1].x >= SpawnGap ==> r == obs
    ensures |r| > 0 && r[|r| - 1].x >= SpawnGap
  {
    if |obs| == 0 || obs[|obs| - 1].x < SpawnGap then obs + [NewObstacle()] else obs
  }

  // ---------------------------------------------------------------------
  // Collisions and the frame
  // ---------------------------------------------------------------------

  /**
    Strict axis-aligned overlap between the dino and an obstacle. For
    positive sizes this is their intersection having positive width and
    height.
   */
  function Hits(d: Dino, o: Rect): (r: bool)
    ensures d.width > 0 && d.height > 0 && o.width > 0 && o.height > 0 ==>
      (r <==> (Max(d.x, o.x) < Min(d.x + d.width, o.x + o.width)
               && Max(d.y, o.y) < Min(d.y + d.height, o.y + o.height)))
    ensures r ==> d.width + o.width > 0 && d.height + o.height > 0
  {
    && d.x < o.x + o.width
    && d.x + d.width > o.x
    && d.y < o.y + o.height
    && d.y + d.height > o.y
  }

  /** A dino on the ground line is hit by a spawned obstacle exactly when it is within 30 < x < 100. */
  lemma GroundedHitWindow(o: Rect)
    requires o == NewObstacle().(x := o.x)
    ensures Hits(InitialDino(), o) <==> 30 < o.x < 100
  {
  }

  /** A dino whose feet are at or above the obstacles' top edge clears every spawned obstacle. */
  lemma HighEnoughClears(d: Dino, o: Rect)
    requires d.height == 50 && d.y <= 100
    requires o == NewObstacle().(x := o.x)
    ensures !Hits(d, o)
  {
  }

  /**
    The stages of a frame before the collision check: jump physics, move
    and cull, spawn. The refs are updated in place, so these stay applied
    even when the frame then ends the game.
   */
  function Advance(g: Game): (r: Game)
    ensures r == g.(dino := Fall(g.dino), obstacles := r.obstacles)
    ensures r.obstacles == Spawn(MoveAndCull(g.obstacles, g.speed))
    ensures |r.obstacles| > 0 && r.obstacles[|r.obstacles| - 1].x >= SpawnGap
    ensures forall j :: 0 <= j < |r.obstacles| ==> r.obstacles[j].x + r.obstacles[j].width > 0
  {
    var culled := MoveAndCull(g.obstacles, g.speed);
    var spawned := Spawn(culled);
    forall j | 0 <= j < |spawned| ensures spawned[j].x + spawned[j].width > 0 {
      if j < |culled| {
        assert spawned[j] == culled[j];
      }
    }
    g.(dino := Fall(g.dino), obstacles := spawned)
  }

  /**
    One animation frame while the game runs: the advance stages, then
    either game over on any hit (leaving the score alone) or one more
    point, with the displayed score refreshed on multiples of 5 and the
    speed recomputed from the new score.
   */
  function Tick(g: Game): (r: Game)
    ensures g.isGameOver ==> r == g
    ensures !g.isGameOver ==> r.dino == Advance(g).dino && r.obstacles == Advance(g).obstacles
    ensures !g.isGameOver && r.isGameOver ==>
      && (exists o :: o in r.obstacles && Hits(r.dino, o))
      && r.score == g.score && r.shownScore == g.shownScore && r.speed == g.speed
    ensures !r.isGameOver ==>
      && (forall o :: o in r.obstacles ==> !Hits(r.dino, o))
      && r.score == g.score + 1
      && r.speed == BaseSpeed + r.score / 100
      && (r.score % 5 == 0 ==> r.shownScore == r.score)
      && (r.score % 5 != 0 ==> r.shownScore == g.shownScore)
  {
    if g.isGameOver then g
    else
      var a := Advance(g);
      if exists o :: o in a.obstacles && Hits(a.dino, o) then
        a.(isGameOver := true)
      else
        var s := g.score + 1;
        a.(score := s, shownScore := if s % 5 == 0 then s else g.shownScore, speed := BaseSpeed + s / 100)
  }

  /** The Play Again button: a new run with the dino left where it was. */
  function PlayAgain(g: Game): (r: Game)
    ensures r.score == 0 && r.shownScore == 0 && r.obstacles == [] && r.speed == BaseSpeed
    ensures !r.isGameOver && r.dino == g.dino
  {
    g.(score := 0, shownScore := 0, isGameOver := false, obstacles := [], speed := BaseSpeed)
  }

  lemma PlayAgainRestartsRun(g: Game)
    ensures PlayAgain(g) == Initial().(dino := g.dino)
  {
  }

  datatype Event = Space | AnimationFrame | PlayAgainClick

  /**
    Whichever input arrives next. Space touches only the dino, the Play
    Again button exists only on the game-over screen, and nothing else
    lowers the score.
   */
  function Step(g: Game, e: Event): (r: Game)
    ensures e.Space? ==> r == g.(dino := r.dino) && (g.dino.jumping ==> r == g)
    ensures e.PlayAgainClick? ==> r == if g.isGameOver then Initial().(dino := g.dino) else g
    ensures !e.PlayAgainClick? ==> r.score >= g.score
  {
    match e
    case Space => g.(dino := PressSpace(g.dino))
    case AnimationFrame => Tick(g)
    case PlayAgainClick => if g.isGameOver then PlayAgain(g) else g
  }

  // ---------------------------------------------------------------------
  // Invariants over whole sessions
  // ---------------------------------------------------------------------

  /** The dino is either standing on the ground or somewhere on the arc of a grounded jump. */
  ghost predicate OnArc(d: Dino) {
    || d == InitialDino()
    || exists k :: 0 <= k <= 30 && d == FallN(Armed(), k)
  }

  /**
    What every reachable state satisfies: the dino is on a jump arc, the
    score is a non-negative frame count, speed is 5 plus one per hundred
    points, the displayed score is the score rounded down to a multiple of
    5, and every obstacle is a spawned one somewhere at or left of x = 400.
   */
  ghost predicate WellFormed(g: Game) {
    && OnArc(g.dino)
    && g.score >= 0
    && g.speed == BaseSpeed + g.score / 100
    && g.shownScore == g.score - g.score % 5
    && forall o :: o in g.obstacles ==> o == NewObstacle().(x := o.x) && o.x <= SpawnX
  }

  lemma OnArcBounds(d: Dino)
    requires OnArc(d)
    ensures 30 <= d.y <= Ground
    ensures !d.jumping ==> d == InitialDino()
  {
    if d != InitialDino() {
      var k :| 0 <= k <= 30 && d == FallN(Armed(), k);
      JumpHeightBounds(k);
      JumpArc(k);
    }
  }

  lemma FallKeepsOnArc(d: Dino)
    requires OnArc(d)
    ensures OnArc(Fall(d))
  {
    if d != InitialDino() {
      var k :| 0 <= k <= 30 && d == FallN(Armed(), k);
      assert Fall(d) == FallN(Armed(), k + 1);
      if k == 30 {
        JumpLandsAfter31Frames();
        assert Fall(d) == InitialDino();
      } else {
        assert 0 <= k + 1 <= 30;
      }
    }
  }

  lemma PressSpaceKeepsOnArc(d: Dino)
    requires OnArc(d)
    ensures OnArc(PressSpace(d))
  {
    OnArcBounds(d);
    if !d.jumping {
      assert PressSpace(d) == FallN(Armed(), 0);
    }
  }

  /** Obstacles are spawned with one shape at x = 400 and only ever move left. */
  lemma AdvanceKeepsObstacleShape(obs: seq<Rect>, speed: int)
    requires speed >= 0
    requires forall o :: o in obs ==> o == NewObstacle().(x := o.x) && o.x <= SpawnX
    ensures forall o :: o in Spawn(MoveAndCull(obs, speed)) ==> o == NewObstacle().(x := o.x) && o.x <= SpawnX
  {
    var culled := MoveAndCull(obs, speed);
    forall o | o in culled ensures o == NewObstacle().(x := o.x) && o.x <= SpawnX {
      SurvivorsCameFromInput(obs, speed, o);
    }
  }

  /** Refreshing the display on multiples of 5 keeps it equal to the score rounded down to one. */
  lemma ShownScoreRoundsDown(score: int, shown: int)
    requires score >= 0 && shown == score - score % 5
    ensures (if (score + 1) % 5 == 0 then score + 1 else shown) == (score + 1) - (score + 1) % 5
  {
    if (score + 1) % 5 != 0 {
      assert (score + 1) % 5 == score % 5 + 1;
    }
  }

  /** The displayed score and the speed keep tracking the score across a frame. */
  lemma TickKeepsScoreBookkeeping(g: Game)
    requires g.score >= 0 && g.speed == BaseSpeed + g.score / 100
    requires g.shownScore == g.score - g.score % 5
    ensures var r := Tick(g);
      r.score >= 0 && r.speed == BaseSpeed + r.score / 100 && r.shownScore == r.score - r.score % 5
  {
    ShownScoreRoundsDown(g.score, g.shownScore);
  }

  lemma StepKeepsWellFormed(g: Game, e: Event)
    requires WellFormed(g)
    ensures WellFormed(Step(g, e))
  {
    match e
    case Space => PressSpaceKeepsOnArc(g.dino);
    case AnimationFrame =>
      if !g.isGameOver {
        FallKeepsOnArc(g.dino);
        AdvanceKeepsObstacleShape(g.obstacles, g.speed);
        TickKeepsScoreBookkeeping(g);
      }
    case PlayAgainClick =>
  }

  /** Once a frame has run, the speed never drops below 5 and only grows while the game runs. */
  lemma SpeedNeverDecreases(g: Game)
    requires WellFormed(g)
    ensures Tick(g).speed >= g.speed >= BaseSpeed
  {
    var r := Tick(g);
    if !r.isGameOver {
      assert r.score / 100 >= g.score / 100;
    }
  }
}
