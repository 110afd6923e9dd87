/**
 The per-sprite kinematics of `Ferris::update` as pure functions on values:
 one update of a sprite, what it asks of its element, n updates in a row, and
 the properties of those.
 */
module Kinematics {
  import opened Int32
  import opened Canvas

  // in pixels per frame and pixels per frame squared
  const InitialVelX: i32 := 10
  const InitialVelY: i32 := 15
  const AccelY: i32 := -1

  /** The physics fields of a sprite: position in logical coordinates and
      velocity. */
  datatype Body = Body(posX: i32, posY: i32, velX: i32, velY: i32)

  /** A sprite: its physics and whether it still owns its element (the
      source's `html` is `Some`). */
  datatype Sprite = Sprite(body: Body, alive: bool)

  /** What an update asks of the sprite's element: set its `top` and `left`
      style offsets, or remove it from the page. */
  datatype Effect = Place(top: i32, left: i32) | Remove

  /** The sprite a successful spawn at (px, py) builds, before its first
      update. */
  function Spawned(px: i32, py: i32): Sprite {
    Sprite(Body(px, py, InitialVelX, InitialVelY), true)
  }

  /** Gravity first, then the position moves by the new velocity. */
  function Move(b: Body): Body {
    var vy := Add(b.velY, AccelY);
    Body(Add(b.posX, b.velX), Add(b.posY, vy), b.velX, vy)
  }

  /** The bounds test at a body's position. */
  predicate Shown(b: Body) {
    InCanvas(b.posX, b.posY)
  }

  /** The state after one `update`. A removed sprite stays as it is; a live
      one moves and stays live only while the moved position is in canvas. */
  function Next(s: Sprite): Sprite {
    if !s.alive then s
    else
      var b := Move(s.body);
      Sprite(b, Shown(b))
  }

  /** The element operations of one `update`. */
  function Emitted(s: Sprite): seq<Effect> {
    if !s.alive then []
    else
      var b := Move(s.body);
      if Shown(b) then [Place(Top(b.posY), Left(b.posX))] else [Remove]
  }

  // ----- the update loop, for any step that keeps the lifecycle -----

  /** n steps in a row. */
  function Iterate(step: Sprite -> Sprite, s: Sprite, n: nat): Sprite {
    if n == 0 then s else step(Iterate(step, s, n - 1))
  }

  /** What n steps in a row ask of the element, in order, `emit` giving what
      one step asks of it. */
  function Trace(step: Sprite -> Sprite, emit: Sprite -> seq<Effect>, s: Sprite, n: nat): seq<Effect> {
    if n == 0 then [] else Trace(step, emit, s, n - 1) + emit(Iterate(step, s, n - 1))
  }

  /** The lifecycle `update` keeps whatever its physics: a removed sprite is
      left alone and nothing is asked of its element; a live one asks for
      exactly one operation, the removal exactly when the step kills it. */
  ghost predicate Lifecycle(step: Sprite -> Sprite, emit: Sprite -> seq<Effect>) {
    forall x: Sprite ::
      (!x.alive ==> step(x) == x && emit(x) == [])
      && (x.alive ==> |emit(x)| == 1 && (emit(x)[0] == Remove <==> !step(x).alive))
  }

  /** k steps and then m more are k + m steps, and so are their traces. */
  lemma {:induction false} IterateSplit(step: Sprite -> Sprite, emit: Sprite -> seq<Effect>, s: Sprite, k: nat, m: nat)
    ensures Iterate(step, Iterate(step, s, k), m) == Iterate(step, s, k + m)
    ensures Trace(step, emit, s, k) + Trace(step, emit, Iterate(step, s, k), m) == Trace(step, emit, s, k + m)
  {
    if m > 0 {
      IterateSplit(step, emit, s, k, m - 1);
      assert Trace(step, emit, Iterate(step, s, k), m)
        == Trace(step, emit, Iterate(step, s, k), m - 1) + emit(Iterate(step, s, k + m - 1));
    }
  }

  /** n moves in a row, with no test in between. */
  function FlightOf(move: Body -> Body, b: Body, n: nat): Body {
    if n == 0 then b else move(FlightOf(move, b, n - 1))
  }

  /** `step` moves a live sprite's body by `move` and keeps the sprite live
      exactly while `shown` holds of the moved body; a removed sprite it
      leaves alone. */
  ghost predicate Physics(step: Sprite -> Sprite, move: Body -> Body, shown: Body -> bool) {
    forall x: Sprite :: step(x) == if x.alive then Sprite(move(x.body), shown(move(x.body))) else x
  }

  lemma {:induction false} IterateBody(step: Sprite -> Sprite, move: Body -> Body, shown: Body -> bool, s: Sprite, n: nat)
    requires Physics(step, move, shown) && Iterate(step, s, n).alive
    ensures Iterate(step, s, n).body == FlightOf(move, s.body, n)
  {
    if n > 0 && Iterate(step, s, n - 1).alive {
      IterateBody(step, move, shown, s, n - 1);
    }
  }

  lemma {:induction false} IterateFollowsFlight(step: Sprite -> Sprite, move: Body -> Body, shown: Body -> bool, s: Sprite, n: nat)
    requires Physics(step, move, shown)
    ensures Iterate(step, s, n).alive <==> s.alive && forall k | 1 <= k <= n :: shown(FlightOf(move, s.body, k))
  {
    if n > 0 {
      IterateFollowsFlight(step, move, shown, s, n - 1);
      var p := Iterate(step, s, n - 1);
      if p.alive {
        IterateBody(step, move, shown, s, n - 1);
        var f := FlightOf(move, s.body, n);
        assert Iterate(step, s, n) == Sprite(f, shown(f));
        if shown(f) {
          forall k | 1 <= k <= n
            ensures shown(FlightOf(move, s.body, k))
          {
            if k == n {
              assert FlightOf(move, s.body, k) == f;
            }
          }
        } else {
          assert !shown(FlightOf(move, s.body, n));
          assert !Iterate(step, s, n).alive;
          assert !(forall k | 1 <= k <= n :: shown(FlightOf(move, s.body, k)));
        }
      } else {
        assert Iterate(step, s, n) == step(p) == p;
        if s.alive {
          var k :| 1 <= k <= n - 1 && !shown(FlightOf(move, s.body, k));
        }
      }
    }
  }

  lemma {:induction false} IterateDead(step: Sprite -> Sprite, emit: Sprite -> seq<Effect>, s: Sprite, n: nat)
    requires Lifecycle(step, emit) && !s.alive
    ensures Iterate(step, s, n) == s && Trace(step, emit, s, n) == []
  {
    if n > 0 {
      IterateDead(step, emit, s, n - 1);
    }
  }

  lemma {:induction false} IterateAfterDeath(step: Sprite -> Sprite, emit: Sprite -> seq<Effect>, s: Sprite, n: nat, m: nat)
    requires Lifecycle(step, emit) && !Iterate(step, s, n).alive
    ensures Iterate(step, s, n + m) == Iterate(step, s, n)
    ensures Trace(step, emit, s, n + m) == Trace(step, emit, s, n)
  {
    if m > 0 {
      IterateAfterDeath(step, emit, s, n, m - 1);
      assert Iterate(step, s, n + m) == step(Iterate(step, s, n + m - 1));
      assert Trace(step, emit, s, n + m) == Trace(step, emit, s, n + m - 1) + emit(Iterate(step, s, n + m - 1));
    }
  }

  lemma {:induction false} TraceShapeOf(step: Sprite -> Sprite, emit: Sprite -> seq<Effect>, s: Sprite, n: nat)
    requires Lifecycle(step, emit) && s.alive
    ensures |Trace(step, emit, s, n)| <= n
    ensures Iterate(step, s, n).alive ==> |Trace(step, emit, s, n)| == n
    ensures !Iterate(step, s, n).alive ==> |Trace(step, emit, s, n)| >= 1
    ensures forall i | 0 <= i < |Trace(step, emit, s, n)| ::
      Trace(step, emit, s, n)[i].Remove? <==> i == |Trace(step, emit, s, n)| - 1 && !Iterate(step, s, n).alive
  {
    if n > 0 {
      TraceShapeOf(step, emit, s, n - 1);
    }
  }

  lemma {:induction false} TraceAtOf(step: Sprite -> Sprite, emit: Sprite -> seq<Effect>, s: Sprite, n: nat, i: nat)
    requires Lifecycle(step, emit) && i < |Trace(step, emit, s, n)|
    ensures |emit(Iterate(step, s, i))| == 1
    ensures Trace(step, emit, s, n)[i] == emit(Iterate(step, s, i))[0]
  {
    if !s.alive {
      IterateDead(step, emit, s, n);
    } else if i < |Trace(step, emit, s, n - 1)| {
      TraceAtOf(step, emit, s, n - 1, i);
    } else {
      TraceShapeOf(step, emit, s, n - 1);
    }
  }

  // ----- the update loop of a sprite -----

  /** The state after n updates. */
  function Run(s: Sprite, n: nat): Sprite {
    Iterate(Next, s, n)
  }

  /** The element operations of n updates, in order. */
  function RunEffects(s: Sprite, n: nat): seq<Effect> {
    Trace(Next, Emitted, s, n)
  }

  /** n moves with no bounds test in between. */
  function Flight(b: Body, n: nat): Body {
    FlightOf(Move, b, n)
  }

  /** v + v + ... + v, n times. */
  function Times(n: nat, v: int): int {
    if n == 0 then 0 else Times(n - 1, v) + v
  }

  /** 1 + 2 + ... + n. */
  function Tri(n: nat): nat {
    if n == 0 then 0 else Tri(n - 1) + n
  }

  lemma {:induction false} TimesFormula(n: nat, v: int)
    ensures Times(n, v) == n * v
  {
    if n > 0 {
      TimesFormula(n - 1, v);
    }
  }

  lemma {:induction false} TimesBound(n: nat, v: int)
    requires -1024 <= v <= 1024
    ensures -1024 * n <= Times(n, v) <= 1024 * n
  {
    if n > 0 {
      TimesBound(n - 1, v);
    }
  }

  lemma {:induction false} TriFormula(n: nat)
    ensures Tri(n) == n * (n + 1) / 2
  {
    if n > 0 {
      TriFormula(n - 1);
      assert n * (n + 1) == (n - 1) * n + 2 * n;
    }
  }

  lemma {:induction false} TriBound(n: nat)
    requires n <= 1024
    ensures Tri(n) <= 1024 * n
  {
    if n > 0 {
      TriBound(n - 1);
    }
  }

  // ----- one update -----

  /** On a removed sprite `update` changes nothing and touches no element. */
  lemma DeadUpdateIsNoOp(s: Sprite)
    requires !s.alive
    ensures Next(s) == s && Emitted(s) == []
  {
  }

  /** One live update: vel_x is kept, vel_y drops by one, and the position
      moves by the velocity as it is AFTER that drop; away from the i32
      limits the arithmetic is the plain one. */
  lemma LiveUpdate(s: Sprite)
    requires s.alive
    ensures Next(s).body.velX == s.body.velX
    ensures Next(s).body.velY == Add(s.body.velY, -1)
    ensures Next(s).body.posX == Add(s.body.posX, s.body.velX)
    ensures Next(s).body.posY == Add(s.body.posY, Next(s).body.velY)
    ensures Ordinary(s.body.posX) && Ordinary(s.body.posY) && Ordinary(s.body.velX) && Ordinary(s.body.velY) ==>
      Next(s).body.velY == s.body.velY - 1
      && Next(s).body.posX == s.body.posX + s.body.velX
      && Next(s).body.posY == s.body.posY + s.body.velY - 1
  {
  }

  /** A live update ends in exactly one element operation: if the moved
      position fails the bounds test the sprite is removed and nothing is
      placed, otherwise it stays live and its element is placed at the screen
      offsets of the moved position. */
  lemma LiveUpdateEffects(s: Sprite)
    requires s.alive
    ensures |Emitted(s)| == 1
    ensures Next(s).alive <==> InCanvas(Next(s).body.posX, Next(s).body.posY)
    ensures Emitted(s)[0] == Remove <==> !Next(s).alive
    ensures Next(s).alive ==> Emitted(s)[0] == Place(Top(Next(s).body.posY), Left(Next(s).body.posX))
  {
  }

  /** A live update moves the body, whatever the bounds test says. */
  lemma LiveBody(s: Sprite)
    requires s.alive
    ensures Next(s).body == Move(s.body)
  {
  }

  // ----- many updates -----

  /** `update` keeps the lifecycle. */
  lemma UpdateKeepsLifecycle()
    ensures Lifecycle(Next, Emitted)
  {
    forall x: Sprite
      ensures (!x.alive ==> Next(x) == x && Emitted(x) == [])
        && (x.alive ==> |Emitted(x)| == 1 && (Emitted(x)[0] == Remove <==> !Next(x).alive))
    {
      if x.alive {
        LiveUpdateEffects(x);
      } else {
        DeadUpdateIsNoOp(x);
      }
    }
  }

  /** One more update is one more step of the loop, and adds what it asks
      for to the trace. */
  lemma RunStep(s: Sprite, n: nat)
    requires n > 0
    ensures Run(s, n) == Next(Run(s, n - 1))
    ensures RunEffects(s, n) == RunEffects(s, n - 1) + Emitted(Run(s, n - 1))
  {
  }

  /** Updating k times and then m times more is updating k + m times, and
      the traces follow on. */
  lemma RunSplit(s: Sprite, k: nat, m: nat)
    ensures Run(Run(s, k), m) == Run(s, k + m)
    ensures RunEffects(s, k) + RunEffects(Run(s, k), m) == RunEffects(s, k + m)
  {
    IterateSplit(Next, Emitted, s, k, m);
  }

  /** Removal is absorbing: any number of updates of a removed sprite change
      nothing and touch no element. */
  lemma DeadIsAbsorbing(s: Sprite, n: nat)
    requires !s.alive
    ensures Run(s, n) == s && RunEffects(s, n) == []
  {
    UpdateKeepsLifecycle();
    IterateDead(Next, Emitted, s, n);
  }

  /** Once removed, later updates neither change the sprite nor add any
      element operation to the trace: nothing is shown after death. */
  lemma NothingAfterDeath(s: Sprite, n: nat, m: nat)
    requires !Run(s, n).alive
    ensures Run(s, n + m) == Run(s, n)
    ensures RunEffects(s, n + m) == RunEffects(s, n)
  {
    UpdateKeepsLifecycle();
    IterateAfterDeath(Next, Emitted, s, n, m);
  }

  /** A sprite live after n updates was live after every earlier one. */
  lemma AliveBefore(s: Sprite, n: nat, k: nat)
    requires k <= n && Run(s, n).alive
    ensures Run(s, k).alive
  {
    if !Run(s, k).alive {
      NothingAfterDeath(s, k, n - k);
    }
  }

  /** The trace of a live sprite: one operation per update while it lives,
      all of them placements, except a single removal at the very end when
      it has died. */
  lemma TraceShape(s: Sprite, n: nat)
    requires s.alive
    ensures |RunEffects(s, n)| <= n
    ensures Run(s, n).alive ==> |RunEffects(s, n)| == n
    ensures !Run(s, n).alive ==> |RunEffects(s, n)| >= 1
    ensures forall i | 0 <= i < |RunEffects(s, n)| ::
      RunEffects(s, n)[i].Remove? <==> i == |RunEffects(s, n)| - 1 && !Run(s, n).alive
  {
    UpdateKeepsLifecycle();
    TraceShapeOf(Next, Emitted, s, n);
  }

  /** The i-th operation of the trace is the one the (i+1)-th update asked
      for: while the sprite lives each update adds exactly one. */
  lemma TraceAt(s: Sprite, n: nat, i: nat)
    requires i < |RunEffects(s, n)|
    ensures |Emitted(Run(s, i))| == 1 && RunEffects(s, n)[i] == Emitted(Run(s, i))[0]
  {
    UpdateKeepsLifecycle();
    TraceAtOf(Next, Emitted, s, n, i);
  }

  /** `update` is a move followed by the bounds test. */
  lemma UpdateIsPhysics()
    ensures Physics(Next, Move, Shown)
  {
  }

  /** A live sprite is exactly where its flight puts it. */
  lemma RunBody(s: Sprite, n: nat)
    requires Run(s, n).alive
    ensures Run(s, n).body == Flight(s.body, n)
  {
    UpdateIsPhysics();
    IterateBody(Next, Move, Shown, s, n);
  }

  /** A sprite is live after n updates exactly when it was live to begin
      with and each of the first n positions of its flight passed the bounds
      test. */
  lemma RunFollowsFlight(s: Sprite, n: nat)
    ensures Run(s, n).alive <==> s.alive && forall k | 1 <= k <= n :: Shown(Flight(s.body, k))
  {
    UpdateIsPhysics();
    IterateFollowsFlight(Next, Move, Shown, s, n);
    var shown: Body -> bool := Shown;
    if Run(s, n).alive {
      forall k | 1 <= k <= n
        ensures Shown(Flight(s.body, k))
      {
        assert shown(FlightOf(Move, s.body, k));
      }
    } else if s.alive {
      var k :| 1 <= k <= n && !shown(FlightOf(Move, s.body, k));
      assert !Shown(Flight(s.body, k));
    }
  }

  /** A body whose numbers are small enough that a thousand moves cannot
      wrap any of them. */
  predicate Modest(b: Body) {
    Ordinary(b.posX) && Ordinary(b.posY) && -1024 <= b.velX <= 1024 && -1024 <= b.velY <= 1024
  }

  /** Where n moves take a modest body, in plain integers: the sums of the
      velocities, the vertical one dropping by one before each move. */
  function Integrated(b: Body, n: nat): Body
    requires Modest(b) && n <= 1024
  {
    TimesBound(n, b.velX);
    TimesBound(n, b.velY);
    TriBound(n);
    Body(b.posX + Times(n, b.velX), b.posY + Times(n, b.velY) - Tri(n), b.velX, b.velY - n)
  }

  /** A move that wraps nothing is plain integer arithmetic. */
  lemma PlainMove(b: Body)
    requires -0x3fff_ffff <= b.posX <= 0x3fff_ffff && -0x3fff_ffff <= b.posY <= 0x3fff_ffff
    requires -0x3fff_ffff <= b.velX <= 0x3fff_ffff && -0x3fff_ffff <= b.velY <= 0x3fff_ffff
    ensures Move(b) == Body(b.posX + b.velX, b.posY + b.velY - 1, b.velX, b.velY - 1)
  {
  }

  lemma IntegratedStep(b: Body, n: nat)
    requires Modest(b) && 1 <= n <= 1024
    ensures Move(Integrated(b, n - 1)) == Integrated(b, n)
  {
    TimesBound(n - 1, b.velX);
    TimesBound(n - 1, b.velY);
    TriBound(n - 1);
    PlainMove(Integrated(b, n - 1));
  }

  lemma {:induction false} FlightIntegrated(b: Body, n: nat)
    requires Modest(b) && n <= 1024
    ensures Flight(b, n) == Integrated(b, n)
  {
    if n > 0 {
      FlightIntegrated(b, n - 1);
      IntegratedStep(b, n);
    }
  }

  /** Closed form of n moves: x_n = x + n vx, y_n = y + n vy - n(n+1)/2 and
      vy_n = vy - n, the discrete integration with gravity applied before each
      move, for as long as no i32 wraps. */
  lemma FlightClosedForm(b: Body, n: nat)
    requires Modest(b) && n <= 1024
    ensures Flight(b, n).velX == b.velX
    ensures Flight(b, n).velY == b.velY - n
    ensures Flight(b, n).posX == b.posX + n * b.velX
    ensures Flight(b, n).posY == b.posY + n * b.velY - n * (n + 1) / 2
  {
    FlightIntegrated(b, n);
    TimesFormula(n, b.velX);
    TimesFormula(n, b.velY);
    TriFormula(n);
  }
}
