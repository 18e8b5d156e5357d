/**
 The per-tick rules of the game, identical in src/main.cpp and
 Source/main.cpp: bounding boxes from shape centers (`update_positions`), ball
 reflection and local paddle clamping (`update_velocities`), motion
 (`update_shapes`) and key handling (`process_input`).  Coordinates are
 mathematical reals; y grows downwards, as on screen.
 */
module Physics {
  import opened Optional

  const WinWidth: real := 512.0
  const WinHeight: real := 256.0
  const BallRadius: real := 10.5
  const BallSpeed: real := 2.5
  const PaddleWidth: real := 15.0
  const PaddleHeight: real := 60.0
  const PaddleSpeed: real := 8.8

  datatype Vec = Vec(x: real, y: real)

  /** An axis-aligned bounding box. */
  datatype Box = Box(top: real, bottom: real, left: real, right: real)

  /** The centers of the three shapes. */
  datatype Shapes = Shapes(ball: Vec, local: Vec, remote: Vec)

  /** Ball velocity and the vertical velocities of the two paddles. */
  datatype Velocities = Velocities(ball: Vec, local: real, remote: real)

  /** The bounding boxes of the three shapes. */
  datatype Positions = Positions(ball: Box, local: Box, remote: Box)

  datatype Key = W | S | OtherKey

  /** The window events the game loop reacts to. */
  datatype Event = KeyPressed(key: Key) | KeyReleased(key: Key) | Closed | OtherEvent

  function Abs(x: real): (r: real)
  {
    if x < 0.0 then -x else x
  }

  /** Box `b` reaches half the given width and half the given height from `c` on either side. */
  predicate Frames(b: Box, c: Vec, width: real, height: real)
  {
    && b.left == c.x - width / 2.0 && b.right == c.x + width / 2.0
    && b.top == c.y - height / 2.0 && b.bottom == c.y + height / 2.0
  }

  /** The box of a shape: as wide and as high as the shape, with the shape's center as its midpoint. */
  function BoxAround(c: Vec, width: real, height: real): (b: Box)
    ensures b.right - b.left == width && b.bottom - b.top == height
    ensures (b.left + b.right) / 2.0 == c.x && (b.top + b.bottom) / 2.0 == c.y
    ensures Frames(b, c, width, height)
  {
    var halfWidth := width / 2.0;
    var halfHeight := height / 2.0;
    Box(c.y - halfHeight, c.y + halfHeight, c.x - halfWidth, c.x + halfWidth)
  }

  /** Such a box is exactly as wide and as high as asked, and `c` is its midpoint. */
  lemma FramesSize(b: Box, c: Vec, width: real, height: real)
    requires Frames(b, c, width, height)
    ensures b.right - b.left == width && b.bottom - b.top == height
    ensures (b.left + b.right) / 2.0 == c.x && (b.top + b.bottom) / 2.0 == c.y
  {
  }

  /** The boxes of this tick; the ball is given its radius as its full width and height. */
  function UpdatePositions(s: Shapes): (p: Positions)
    ensures Frames(p.ball, s.ball, BallRadius, BallRadius)
    ensures Frames(p.local, s.local, PaddleWidth, PaddleHeight)
    ensures Frames(p.remote, s.remote, PaddleWidth, PaddleHeight)
  {
    Positions(BoxAround(s.ball, BallRadius, BallRadius),
              BoxAround(s.local, PaddleWidth, PaddleHeight),
              BoxAround(s.remote, PaddleWidth, PaddleHeight))
  }

  /** The ball's box touches the paddle's box: both ranges overlap, edges included. */
  predicate Collided(ball: Box, paddle: Box)
  {
    && ball.right >= paddle.left && ball.left <= paddle.right
    && ball.bottom >= paddle.top && ball.top <= paddle.bottom
  }

  predicate WellFormed(b: Box)
  {
    b.left <= b.right && b.top <= b.bottom
  }

  predicate Inside(b: Box, x: real, y: real)
  {
    b.left <= x <= b.right && b.top <= y <= b.bottom
  }

  function Max(a: real, b: real): (r: real)
  {
    if a < b then b else a
  }

  /** For proper boxes the overlap test says exactly that the boxes share a point. */
  lemma CollidedIffSharedPoint(ball: Box, paddle: Box)
    requires WellFormed(ball) && WellFormed(paddle)
    ensures Collided(ball, paddle) <==> exists x, y :: Inside(ball, x, y) && Inside(paddle, x, y)
  {
    if Collided(ball, paddle) {
      var x, y := Max(ball.left, paddle.left), Max(ball.top, paddle.top);
      assert Inside(ball, x, y) && Inside(paddle, x, y);
    }
  }

  /**
   What the wall rules promise: speed on each axis is kept, and the sign is
   set to move away from a wall the ball has crossed (the left wall before
   the right one, the top before the bottom); with no wall crossed the
   component is left alone.
   */
  predicate Reflects(ball: Box, v: Vec, r: Vec)
  {
    && Abs(r.x) == Abs(v.x) && Abs(r.y) == Abs(v.y)
    && (ball.left < 0.0 ==> r.x >= 0.0)
    && (0.0 <= ball.left && WinWidth < ball.right ==> r.x <= 0.0)
    && (0.0 <= ball.left && ball.right <= WinWidth ==> r.x == v.x)
    && (ball.top < 0.0 ==> r.y >= 0.0)
    && (0.0 <= ball.top && WinHeight < ball.bottom ==> r.y <= 0.0)
    && (0.0 <= ball.top && ball.bottom <= WinHeight ==> r.y == v.y)
  }

  /** The wall rules of `update_velocities`. */
  function WallBounce(ball: Box, v: Vec): (r: Vec)
    ensures Reflects(ball, v, r)
  {
    var x := if ball.left < 0.0 then Abs(v.x)
             else if ball.right > WinWidth then -Abs(v.x)
             else v.x;
    var y := if ball.top < 0.0 then Abs(v.y)
             else if ball.bottom > WinHeight then -Abs(v.y)
             else v.y;
    Vec(x, y)
  }

  /** The wall rules do nothing more than `Reflects` asks: it admits no other velocity. */
  lemma ReflectsIff(ball: Box, v: Vec, r: Vec)
    ensures Reflects(ball, v, r) <==> r == WallBounce(ball, v)
  {
  }

  /** The ball's new velocity: a paddle hit reverses it horizontally; otherwise the wall rules apply. */
  function BallVelocity(ball: Box, local: Box, remote: Box, v: Vec): (r: Vec)
    ensures Collided(ball, local) || Collided(ball, remote) ==> r == Vec(-v.x, v.y)
    ensures !(Collided(ball, local) || Collided(ball, remote)) ==> Reflects(ball, v, r)
  {
    if Collided(ball, local) || Collided(ball, remote) then Vec(-v.x, v.y) else WallBounce(ball, v)
  }

  /** The local paddle's velocity after the boundary check of `update_velocities`. */
  function ClampLocal(paddle: Box, vel: real): (r: real)
    ensures r == 0.0 || r == vel
    ensures r == 0.0 <==> vel == 0.0 || (vel < 0.0 && paddle.top <= 0.0) || (vel > 0.0 && paddle.bottom >= WinHeight)
    ensures paddle.top <= 0.0 ==> r >= 0.0
    ensures paddle.bottom >= WinHeight ==> r <= 0.0
  {
    if vel != 0.0 then
      if vel < 0.0 && paddle.top <= 0.0 then 0.0
      else if vel > 0.0 && paddle.bottom >= WinHeight then 0.0
      else vel
    else vel
  }

  /**
   `update_velocities`: paddle collision takes priority and flips the ball's
   horizontal velocity exactly once, with no wall rule that tick; otherwise
   the wall rules apply.  The local paddle is stopped when it points out of a
   boundary it has reached, and the remote velocity is not touched.
   */
  function UpdateVelocities(p: Positions, v: Velocities): (r: Velocities)
    ensures r.remote == v.remote
    ensures Collided(p.ball, p.local) || Collided(p.ball, p.remote) ==> r.ball == Vec(-v.ball.x, v.ball.y)
    ensures !(Collided(p.ball, p.local) || Collided(p.ball, p.remote)) ==> Reflects(p.ball, v.ball, r.ball)
    ensures r.local == 0.0 || r.local == v.local
    ensures r.local == 0.0 <==> v.local == 0.0 || (v.local < 0.0 && p.local.top <= 0.0)
                                 || (v.local > 0.0 && p.local.bottom >= WinHeight)
  {
    Velocities(BallVelocity(p.ball, p.local, p.remote, v.ball), ClampLocal(p.local, v.local), v.remote)
  }

  /**
   With the ball clear of both paddles and of the top and bottom walls and
   moving right, it is turned back exactly when its center passes
   `WinWidth - BallRadius / 2` (506.75), because its box is `BallRadius` wide.
   */
  lemma RightBounceThreshold(s: Shapes, v: Vec)
    requires var p := UpdatePositions(s); !Collided(p.ball, p.local) && !Collided(p.ball, p.remote)
    requires BallRadius / 2.0 <= s.ball.x && BallRadius / 2.0 <= s.ball.y <= WinHeight - BallRadius / 2.0
    requires v.x > 0.0
    ensures var p := UpdatePositions(s);
      UpdateVelocities(p, Velocities(v, 0.0, 0.0)).ball.x < 0.0 <==> s.ball.x > WinWidth - BallRadius / 2.0
  {
  }

  /** `update_shapes`: every shape moves by its velocity (the zero checks change nothing); paddles keep their x. */
  function UpdateShapes(v: Velocities, s: Shapes): (r: Shapes)
    ensures r.ball == Vec(s.ball.x + v.ball.x, s.ball.y + v.ball.y)
    ensures r.local == Vec(s.local.x, s.local.y + v.local)
    ensures r.remote == Vec(s.remote.x, s.remote.y + v.remote)
  {
    var ball := if v.ball != Vec(0.0, 0.0) then Vec(s.ball.x + v.ball.x, s.ball.y + v.ball.y) else s.ball;
    var local := if v.local != 0.0 then Vec(s.local.x, s.local.y + v.local) else s.local;
    var remote := if v.remote != 0.0 then Vec(s.remote.x, s.remote.y + v.remote) else s.remote;
    Shapes(ball, local, remote)
  }

  /**
   `process_input`: pressing W moves the local paddle up at full speed,
   pressing S moves it down, and any other key press or any release stops
   it.  Nothing but the local velocity is written.
   */
  function ProcessInput(key: Key, pressed: bool, v: Velocities): (r: Velocities)
    ensures r.ball == v.ball && r.remote == v.remote
    ensures r.local == -PaddleSpeed <==> pressed && key == W
    ensures r.local == PaddleSpeed <==> pressed && key == S
    ensures r.local == 0.0 <==> !pressed || key == OtherKey
  {
    var vel := if pressed then
                 match key
                 case W => -PaddleSpeed
                 case S => PaddleSpeed
                 case OtherKey => 0.0
               else 0.0;
    v.(local := vel)
  }

  predicate IsKeyEvent(e: Event)
  {
    e.KeyPressed? || e.KeyReleased?
  }

  /** One event of the polling loop; window closing does not touch the velocities. */
  function ProcessEvent(e: Event, v: Velocities): (r: Velocities)
  {
    match e
    case KeyPressed(k) => ProcessInput(k, true, v)
    case KeyReleased(k) => ProcessInput(k, false, v)
    case _ => v
  }

  /** The index of the last key event among `es`, if there is one. */
  function LastKey(es: seq<Event>): (r: Option<nat>)
    ensures r.Some? ==> r.value < |es| && IsKeyEvent(es[r.value])
    decreases |es|
  {
    if es == [] then None
    else if IsKeyEvent(es[|es| - 1]) then Some(|es| - 1)
    else LastKey(es[..|es| - 1])
  }

  /** `LastKey` finds exactly the key event after which no other key event follows. */
  lemma {:induction false} LastKeyIff(es: seq<Event>, i: nat)
    ensures LastKey(es) == Some(i)
        <==> i < |es| && IsKeyEvent(es[i]) && forall j :: i < j < |es| ==> !IsKeyEvent(es[j])
    decreases |es|
  {
    if es != [] && !IsKeyEvent(es[|es| - 1]) {
      var front := es[..|es| - 1];
      LastKeyIff(front, i);
      assert forall j :: 0 <= j < |front| ==> front[j] == es[j];
    }
  }

  /** With no key event at all there is no last one. */
  lemma {:induction false} LastKeyNone(es: seq<Event>)
    ensures LastKey(es).None? <==> forall i :: 0 <= i < |es| ==> !IsKeyEvent(es[i])
    decreases |es|
  {
    if es != [] && !IsKeyEvent(es[|es| - 1]) {
      var front := es[..|es| - 1];
      LastKeyNone(front);
      assert forall j :: 0 <= j < |front| ==> front[j] == es[j];
    }
  }

  /**
   The event loop of one frame: only the last key event of the frame decides
   the local velocity, and with no key event it stays what it was.
   */
  function ProcessEvents(es: seq<Event>, v: Velocities): (r: Velocities)
    ensures r.ball == v.ball && r.remote == v.remote
    ensures r.local == match LastKey(es)
                       case None => v.local
                       case Some(i) => ProcessInput(es[i].key, es[i].KeyPressed?, v).local
    decreases |es|
  {
    if es == [] then v
    else
      ProcessEvent(es[|es| - 1], ProcessEvents(es[..|es| - 1], v))
  }
}
