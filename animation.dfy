/**
 The sprite as the program holds it: a `Ferris` object whose `update` changes
 its fields in place, the spawn that builds one, the repeating timer that
 keeps updating it, and the click handler that spawns one.
 */
module Animation {
  import opened Int32
  import opened Canvas
  import opened Kinematics
  import opened Lifetime

  class Ferris {
    var posX: i32
    var posY: i32
    var velX: i32
    var velY: i32
    /** Whether the sprite still owns its element (`html` is `Some`). */
    var alive: bool
    /** Every operation the sprite has asked of its element so far. */
    ghost var effects: seq<Effect>

    /** The fields as a value. */
    function State(): Sprite
      reads this
    {
      Sprite(Body(posX, posY, velX, velY), alive)
    }

    /** The struct literal of `Ferris::new`: the spawn point, the initial
        velocity and a fresh element. */
    constructor (px: i32, py: i32)
      ensures State() == Spawned(px, py) && effects == []
    {
      posX := px;
      posY := py;
      velX := InitialVelX;
      velY := InitialVelY;
      alive := true;
      effects := [];
    }

    /** `Ferris::update`: nothing once removed; otherwise gravity, then the
        move, then either removal or new style offsets. */
    method Update()
      modifies this
      ensures State() == Next(old(State()))
      ensures effects == old(effects) + Emitted(old(State()))
    {
      if !alive {
        return;
      }
      velY := Add(velY, AccelY);
      posX := Add(posX, velX);
      posY := Add(posY, velY);
      if !InCanvas(posX, posY) {
        effects := effects + [Remove];
        alive := false;
        return;
      }
      effects := effects + [Place(Top(posY), Left(posX))];
    }

    /** The repeating timer: `ticks` calls of `update` in a row. */
    method Animate(ticks: nat)
      modifies this
      ensures State() == Run(old(State()), ticks)
      ensures effects == old(effects) + RunEffects(old(State()), ticks)
    {
      var i := 0;
      while i < ticks
        invariant i <= ticks
        invariant State() == Run(old(State()), i)
        invariant effects == old(effects) + RunEffects(old(State()), i)
      {
        Update();
        RunStep(old(State()), i + 1);
        i := i + 1;
      }
    }
  }

  /** `Ferris::new`: no sprite at all for a point the bounds test rejects;
      otherwise a sprite at the point with the initial velocity, already
      updated once. The sprite is returned rather than moved into the timer
      callback. */
  method New(px: i32, py: i32) returns (f: Ferris?)
    ensures f == null <==> !InCanvas(px, py)
    ensures f != null ==>
      fresh(f) && f.State() == Next(Spawned(px, py)) && f.effects == Emitted(Spawned(px, py))
  {
    if !InCanvas(px, py) {
      return null;
    }
    f := new Ferris(px, py);
    f.Update();
  }

  /** A spawn followed by `ticks` firings of its timer: the sprite has then
      had `ticks + 1` updates, and after 71 firings it has been removed. */
  method SpawnAndAnimate(px: i32, py: i32, ticks: nat) returns (f: Ferris?)
    ensures f == null <==> !InCanvas(px, py)
    ensures f != null ==>
      fresh(f)
      && f.State() == Run(Spawned(px, py), ticks + 1)
      && f.effects == RunEffects(Spawned(px, py), ticks + 1)
    ensures f != null && ticks >= 71 ==> !f.alive
  {
    f := New(px, py);
    if f != null {
      ghost var s := Spawned(px, py);
      RunStep(s, 1);
      assert f.State() == Run(s, 1) && f.effects == RunEffects(s, 1);
      f.Animate(ticks);
      RunSplit(s, 1, ticks);
      if ticks >= 71 {
        LiveSpan(px, py, ticks + 1);
      }
    }
  }

  /** The mousedown handler: spawn at the click, its height flipped to count
      up from the canvas bottom. */
  method MouseDown(offsetX: i32, offsetY: i32) returns (f: Ferris?)
    ensures f == null <==> !InCanvas(offsetX, FlipY(offsetY))
    ensures f != null ==>
      fresh(f)
      && f.State() == Next(Spawned(offsetX, FlipY(offsetY)))
      && f.effects == Emitted(Spawned(offsetX, FlipY(offsetY)))
  {
    f := New(offsetX, FlipY(offsetY));
  }
}
