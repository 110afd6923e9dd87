/**
 What happens to a sprite from its spawn until its removal: where it is after
 n updates, where its element is drawn, and how many updates it lives.
 */
module Lifetime {
  import opened Int32
  import opened Canvas
  import opened Kinematics

  // ----- every spawn dies -----

  /** How far a sprite moving right by 10 per update can still go before the
      horizontal test fails; a point that passes has room to spare, and each
      update uses up 10 of it, across the wrap from Max to Min included. */
  function Room(x: i32): int {
    if x > Max - 40 then Max + 40 - x
    else if x < Min + 40 then Min + 39 - x
    else 759 - x
  }

  lemma RoomNonNegative(x: i32)
    requires XInside(x)
    ensures 0 <= Room(x) <= 718
  {
  }

  /** One step right by 10 that stays horizontally inside uses up exactly 10
      of the room. */
  lemma RoomDrops(x: i32)
    requires XInside(x) && XInside(Add(x, InitialVelX))
    ensures Room(Add(x, InitialVelX)) == Room(x) - 10
  {
  }

  /** A live sprite moving right by 10 per update keeps that velocity and
      has used up 10 room per update. */
  lemma {:induction false} RoomInvariant(s: Sprite, n: nat)
    requires s.body.velX == InitialVelX && XInside(s.body.posX)
    ensures Run(s, n).alive ==>
      Run(s, n).body.velX == InitialVelX
      && XInside(Run(s, n).body.posX)
      && Room(Run(s, n).body.posX) == Room(s.body.posX) - 10 * n
  {
    if n > 0 {
      RoomInvariant(s, n - 1);
      var p := Run(s, n - 1);
      if !p.alive {
        DeadUpdateIsNoOp(p);
      } else if Run(s, n).alive {
        LiveBody(p);
        var b := Move(p.body);
        assert Run(s, n) == Sprite(b, Shown(b));
        InCanvasExact(b.posX, b.posY);
        RoomDrops(p.body.posX);
      }
    }
  }

  /** Every sprite that passes the spawn gate is removed by its 72nd update,
      wherever in the i32 plane it was spawned. */
  lemma RemovedBy72(px: i32, py: i32)
    requires InCanvas(px, py)
    ensures !Run(Spawned(px, py), 72).alive
  {
    InCanvasExact(px, py);
    RoomInvariant(Spawned(px, py), 72);
    if Run(Spawned(px, py), 72).alive {
      RoomNonNegative(Run(Spawned(px, py), 72).body.posX);
    }
  }

  /** So a sprite is live only during its first 71 updates. */
  lemma LiveSpan(px: i32, py: i32, n: nat)
    requires InCanvas(px, py)
    ensures Run(Spawned(px, py), n).alive ==> n <= 71
  {
    RemovedBy72(px, py);
    if n >= 72 && Run(Spawned(px, py), n).alive {
      AliveBefore(Spawned(px, py), n, 72);
    }
  }

  /** From the 72nd update on, neither the sprite nor its trace changes. */
  lemma FrozenAfter(px: i32, py: i32, n: nat)
    requires InCanvas(px, py) && n >= 72
    ensures Run(Spawned(px, py), n) == Run(Spawned(px, py), 72)
    ensures RunEffects(Spawned(px, py), n) == RunEffects(Spawned(px, py), 72)
  {
    RemovedBy72(px, py);
    NothingAfterDeath(Spawned(px, py), 72, n - 72);
  }

  // ----- spawns away from the i32 limits -----

  /** A live sprite of an ordinary spawn stays strictly inside the band the
      bounds test accepts, moving right by exactly 10 per update and losing 1
      of vertical velocity per update. */
  lemma {:induction false} SpawnTrack(px: i32, py: i32, n: nat)
    requires Ordinary(px) && Ordinary(py) && InCanvas(px, py)
    ensures Run(Spawned(px, py), n).alive ==>
      var b := Run(Spawned(px, py), n).body;
      b.velX == InitialVelX && b.velY == InitialVelY - n && b.posX == px + 10 * n
      && 40 < b.posX < 760 && 25 < b.posY < 775
  {
    InCanvasOrdinary(px, py);
    if n > 0 {
      SpawnTrack(px, py, n - 1);
      var p := Run(Spawned(px, py), n - 1);
      if !p.alive {
        DeadUpdateIsNoOp(p);
      } else if Run(Spawned(px, py), n).alive {
        LiveBody(p);
        PlainMove(p.body);
        var b := Move(p.body);
        assert Run(Spawned(px, py), n) == Sprite(b, Shown(b));
        InCanvasOrdinary(b.posX, b.posY);
      }
    }
  }

  /** The closed form from the spawn: after n updates a live sprite is at
      (px + 10n, py + 15n - n(n+1)/2) with velocity (10, 15 - n). */
  lemma SpawnClosedForm(px: i32, py: i32, n: nat)
    requires Ordinary(px) && Ordinary(py) && InCanvas(px, py)
    requires Run(Spawned(px, py), n).alive
    ensures Run(Spawned(px, py), n).body.posX == px + 10 * n
    ensures Run(Spawned(px, py), n).body.posY == py + 15 * n - n * (n + 1) / 2
    ensures Run(Spawned(px, py), n).body.velX == 10
    ensures Run(Spawned(px, py), n).body.velY == 15 - n
  {
    SpawnTrack(px, py, n);
    RunBody(Spawned(px, py), n);
    FlightClosedForm(Spawned(px, py).body, n);
  }

  /** Where the closed form puts an ordinary spawn after k moves passes
      the bounds test. */
  predicate ShownAt(px: int, py: int, k: nat) {
    40 < px + 10 * k < 760 && 25 < py + 15 * k - k * (k + 1) / 2 < 775
  }

  /** An ordinary spawn is live after n updates exactly when each of the
      first n positions of the closed form passes the bounds test. */
  lemma SpawnAliveIff(px: i32, py: i32, n: nat)
    requires Ordinary(px) && Ordinary(py) && InCanvas(px, py) && n <= 72
    ensures Run(Spawned(px, py), n).alive <==> forall k | 1 <= k <= n :: ShownAt(px, py, k)
  {
    var b := Spawned(px, py).body;
    RunFollowsFlight(Spawned(px, py), n);
    forall k | 1 <= k <= n
      ensures Shown(Flight(b, k)) <==> ShownAt(px, py, k)
    {
      FlightIntegrated(b, k);
      TimesBound(k, b.velX);
      TimesBound(k, b.velY);
      TriBound(k);
      FlightClosedForm(b, k);
      InCanvasOrdinary(Flight(b, k).posX, Flight(b, k).posY);
    }
    assert Spawned(px, py).alive && Spawned(px, py).body == b;
    assert Run(Spawned(px, py), n).alive <==> forall k | 1 <= k <= n :: Shown(Flight(b, k));
  }

  /** An element placement whose left edge lies in 1..719 and whose top edge
      lies in -199..549; a removal is always well placed. */
  predicate WellPlaced(e: Effect) {
    e.Place? ==> 1 <= e.left <= 719 && -199 <= e.top <= 549
  }

  /** What the update after the nth of an ordinary spawn asks of its element
      is well placed. */
  lemma StepPlacement(px: i32, py: i32, n: nat)
    requires Ordinary(px) && Ordinary(py) && InCanvas(px, py)
    ensures forall e | e in Emitted(Run(Spawned(px, py), n)) :: WellPlaced(e)
  {
    var p := Run(Spawned(px, py), n);
    if !p.alive {
      DeadUpdateIsNoOp(p);
    } else {
      LiveUpdateEffects(p);
      assert Run(Spawned(px, py), n + 1) == Next(p);
      if Next(p).alive {
        SpawnTrack(px, py, n + 1);
        PlacementRange(Next(p).body.posX, Next(p).body.posY);
      }
    }
  }

  /** Every element placement of an ordinary spawn's trace has its left edge
      in 1..719 and its top edge in -199..549, so partly above the canvas
      when the width-for-height test lets the sprite rise past 575. */
  lemma SpawnPlacements(px: i32, py: i32, n: nat)
    requires Ordinary(px) && Ordinary(py) && InCanvas(px, py)
    ensures forall i | 0 <= i < |RunEffects(Spawned(px, py), n)| :: WellPlaced(RunEffects(Spawned(px, py), n)[i])
  {
    forall i | 0 <= i < |RunEffects(Spawned(px, py), n)|
      ensures WellPlaced(RunEffects(Spawned(px, py), n)[i])
    {
      TraceAt(Spawned(px, py), n, i);
      StepPlacement(px, py, i);
    }
  }

  // ----- particular spawns -----

  /** A spawn at (400, 760) rises to height 774 on its first update, which
      the test against the canvas width accepts, and its element is drawn
      with its top edge 199 pixels above the canvas. */
  lemma RisesAboveCanvas()
    ensures InCanvas(400, 760)
    ensures Next(Spawned(400, 760)).alive
    ensures Emitted(Spawned(400, 760)) == [Place(-199, 370)]
  {
  }

  /** The first 35 positions of the centre spawn pass the bounds test. */
  lemma CentreShown(n: nat)
    requires n <= 35
    ensures forall k | 1 <= k <= n :: ShownAt(400, 300, k)
  {
    forall k | 1 <= k <= n
      ensures ShownAt(400, 300, k)
    {
      assert k * (k + 1) <= 35 * (k + 1) <= 35 * 36;
    }
  }

  /** A spawn at the centre of the canvas rises and falls for 35 updates
      and is removed by the 36th: the closed form puts it at x = 760 then,
      so it is the horizontal half of the test that fails, while its height
      is still inside. */
  lemma CentreSpawn(n: nat)
    ensures Run(Spawned(400, 300), n).alive <==> n <= 35
  {
    LiveSpan(400, 300, n);
    if n <= 35 {
      SpawnAliveIff(400, 300, n);
      CentreShown(n);
    } else if n <= 72 {
      SpawnAliveIff(400, 300, n);
      assert !ShownAt(400, 300, 36);
    }
  }

  /** A click at (5, 300) is rejected by the spawn gate: the sprite's left
      edge would be left of the canvas. */
  lemma LeftEdgeRejected()
    ensures !InCanvas(5, 300)
  {
  }
}
