/** Constants and primitive types shared by every part of the match engine
    (Darkforest/server.js lines 23-34). Coordinates are exact reals: origin top-left,
    x to the right, y downwards, in arena pixels. */
module Arena {

  /** A socket.io connection id. */
  type SocketId = string

  /** A room key, built by RoomName from the two paired socket ids. */
  type RoomId = string

  datatype Option<T> = None | Some(value: T)

  const Width: real := 1280.0
  const Height: real := 720.0
  const BulletSize: real := 2.0
  const BulletSpeed: real := 100.0

  function Max(a: real, b: real): (m: real)
    ensures m >= a && m >= b && (m == a || m == b)
  {
    if a >= b then a else b
  }

  function Min(a: real, b: real): (m: real)
    ensures m <= a && m <= b && (m == a || m == b)
  {
    if a <= b then a else b
  }

  /** Math.max(lo, Math.min(hi, v)): the clamping of server.js lines 116-117. */
  function Clamp(v: real, lo: real, hi: real): (r: real)
    ensures lo <= r
    ensures lo <= hi ==> r <= hi
    ensures lo <= v <= hi ==> r == v
    ensures v < lo ==> r == lo
    ensures lo <= hi && hi < v ==> r == hi
  {
    Max(lo, Min(hi, v))
  }

  /** d is what Math.hypot(dx, dy) returns, in exact arithmetic. */
  predicate IsHypot(d: real, dx: real, dy: real)
  {
    d >= 0.0 && d * d == dx * dx + dy * dy
  }
}
