/** The entity kinds and the value view of one entity's state. The engine keeps
    entities as objects (Engine.Entity); this module is the view of one such
    object at one moment, which the specifications of the engine work on. */
module States {
  import opened Geometry

  /** The three kinds of entity (EntityType in the engine). */
  datatype EntityType = WallType | CharacterType | BulletType

  /** EntityType.String: the tag a snapshot carries for each kind. The engine's
      fallback tag "unknown" is never produced, because there is no other kind. */
  function TypeName(t: EntityType): (s: string)
    ensures s != "unknown"
  {
    match t
    case WallType => "wall"
    case CharacterType => "character"
    case BulletType => "bullet"
  }

  /** Reading a snapshot tag back: the partner of TypeName on the client side. */
  function KindOfTag(s: string): (r: Option<EntityType>)
    ensures r.Some? ==> TypeName(r.value) == s
  {
    if s == "wall" then Some(WallType)
    else if s == "character" then Some(CharacterType)
    else if s == "bullet" then Some(BulletType)
    else None
  }

  datatype Option<T> = None | Some(value: T)

  /** Every kind is recovered from its tag, so distinct kinds have distinct tags. */
  lemma TypeNameRoundTrip(t: EntityType)
    ensures KindOfTag(TypeName(t)) == Some(t)
  {
  }

  /** Everything an entity reports through its getters. Score and lastHit are
      meaningful for characters only. */
  datatype EntityState = EntityState(
    kind: EntityType, id: string, name: string,
    width: int, height: int, speed: real, friction: real,
    active: bool, score: int, lastHit: real,
    x: real, y: real, vx: real, vy: real)

  /** What every wall reports: walls are always active, never move and carry the
      fixed id and name "wall". */
  predicate WallInert(e: EntityState)
  {
    e.kind == WallType ==>
      e.active && e.vx == 0.0 && e.vy == 0.0 && e.speed == 0.0 && e.friction == 0.0
      && e.id == "wall" && e.name == "wall"
  }

  predicate AllWallsInert(ws: seq<EntityState>)
  {
    forall k :: 0 <= k < |ws| ==> WallInert(ws[k])
  }

  /** The box an entity occupies at its current position. */
  function BoundingBox(e: EntityState): Box
  {
    BoxAt(e.x, e.y, e.width, e.height)
  }

  /** The entity lies inside the level rectangle. */
  predicate InBounds(e: EntityState, width: int, height: int)
  {
    InRange(e.x, e.width, width) && InRange(e.y, e.height, height)
  }

  // The setters, as they act on the view. Those of a wall are no-ops.

  function WithActive(e: EntityState, b: bool): (r: EntityState)
    ensures r == e.(active := r.active)
    ensures e.kind == WallType ==> r == e
    ensures e.kind != WallType ==> r.active == b
    ensures WallInert(e) ==> WallInert(r)
  {
    if e.kind == WallType then e else e.(active := b)
  }

  function WithPosition(e: EntityState, x: real, y: real): (r: EntityState)
    ensures r == e.(x := r.x, y := r.y)
    ensures e.kind == WallType ==> r == e
    ensures e.kind != WallType ==> r.x == x && r.y == y
    ensures WallInert(e) ==> WallInert(r)
  {
    if e.kind == WallType then e else e.(x := x, y := y)
  }

  function WithVelocity(e: EntityState, vx: real, vy: real): (r: EntityState)
    ensures r == e.(vx := r.vx, vy := r.vy)
    ensures e.kind == WallType ==> r == e
    ensures e.kind != WallType ==> r.vx == vx && r.vy == vy
    ensures WallInert(e) ==> WallInert(r)
  {
    if e.kind == WallType then e else e.(vx := vx, vy := vy)
  }

  /** A character struck by a bullet: AdjScore(-1) and AdjLastHit(now). */
  function Struck(e: EntityState, now: real): (r: EntityState)
    ensures r == e.(score := r.score, lastHit := r.lastHit)
    ensures r.score < e.score && r.score + 1 == e.score && r.lastHit == now
  {
    e.(score := e.score - 1, lastHit := now)
  }
}
