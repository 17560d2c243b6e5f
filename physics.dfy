/** Level.tick as a function on the entities of a level: each entity in list
    order proposes a move, is checked against the level boundary and against
    every entity of another id, commits the move unless blocked, and slows down
    by its friction; then RemoveInactive runs once. */
module Physics {
  import opened Geometry
  import opened States
  import opened Rules
  import opened Removal

  /** The clamped proposed position of an entity and whether a clamp occurred
      (the tick's hitWall). */
  function Proposal(e: EntityState, width: int, height: int): (p: (real, real, bool))
    ensures !p.2 ==> p.0 == e.x + e.vx && p.1 == e.y + e.vy
    ensures !p.2 <==> InRange(e.x + e.vx, e.width, width) && InRange(e.y + e.vy, e.height, height)
  {
    var (nx, hitX) := ClampAxis(e.x + e.vx, e.width, width);
    var (ny, hitY) := ClampAxis(e.y + e.vy, e.height, height);
    (nx, ny, hitX || hitY)
  }

  /** Entity j is tested by mover i at the proposed position (nx, ny): it has
      another id and the boxes overlap. */
  predicate Overlapping(ws: World, i: nat, nx: real, ny: real, j: nat)
    requires i < |ws| && j < |ws|
    // the mover never tests itself, nor an entity sharing its id (its shooter or its bullets)
    ensures Overlapping(ws, i, nx, ny, j) ==> j != i
    ensures ws[j].id == ws[i].id ==> !Overlapping(ws, i, nx, ny, j)
  {
    ws[i].id != ws[j].id && Intersects(BoxAt(nx, ny, ws[i].width, ws[i].height), BoundingBox(ws[j]))
  }

  /** The collision scan of mover i from index j on, with the blocked flag so far.
      As in the engine, `blocked || HandleCollision(...)` does not call
      HandleCollision once the mover is blocked. */
  function Scan(ws: World, i: nat, nx: real, ny: real, j: nat, blocked: bool, now: real): (res: (World, bool))
    requires i < |ws| && j <= |ws|
    ensures |res.0| == |ws|
    decreases |ws| - j
  {
    if j == |ws| then (ws, blocked)
    else if Overlapping(ws, i, nx, ny, j) && !blocked then
      var (ws', b) := ReactTo(ws, i, j, now);
      Scan(ws', i, nx, ny, j + 1, b, now)
    else Scan(ws, i, nx, ny, j + 1, blocked, now)
  }

  /** The boundary part of a turn: a move that leaves the level is resolved
      against the boundary sentinel. */
  function AtBoundary(ws: World, i: nat, hitWall: bool, now: real): (res: (World, bool))
    requires i < |ws|
    ensures |res.0| == |ws|
  {
    if hitWall then ReactToBoundary(ws, i, now) else (ws, false)
  }

  /** An entity slowed by its friction: both velocity components are
      multiplied by it (a wall is not changed). */
  function Slowed(e: EntityState): (r: EntityState)
    ensures r == e.(vx := r.vx, vy := r.vy)
    ensures e.kind == WallType ==> r == e
  {
    WithVelocity(e, e.vx * e.friction, e.vy * e.friction)
  }

  /** The end of a turn: the proposed position is committed unless blocked, and
      the velocity is multiplied by the friction in every case. */
  function Settle(ws: World, i: nat, blocked: bool, nx: real, ny: real): (r: World)
    requires i < |ws|
    ensures |r| == |ws|
  {
    var ws' := if blocked then ws else ws[i := WithPosition(ws[i], nx, ny)];
    ws'[i := Slowed(ws'[i])]
  }

  /** The turn of entity i in one tick. */
  function Step(ws: World, i: nat, width: int, height: int, now: real): (r: World)
    requires i < |ws|
    ensures |r| == |ws|
  {
    var p := Proposal(ws[i], width, height);
    var b := AtBoundary(ws, i, p.2, now);
    var s := Scan(b.0, i, p.0, p.1, 0, b.1, now);
    Settle(s.0, i, s.1, p.0, p.1)
  }

  /** The turns of entities i, i+1, ... in list order. */
  function MoveFrom(ws: World, i: nat, width: int, height: int, now: real): (r: World)
    requires i <= |ws|
    ensures |r| == |ws|
    decreases |ws| - i
  {
    if i == |ws| then ws else MoveFrom(Step(ws, i, width, height, now), i + 1, width, height, now)
  }

  /** Every entity's turn of one tick, before the removal. */
  function MoveAll(ws: World, width: int, height: int, now: real): (r: World)
    ensures |r| == |ws|
  {
    MoveFrom(ws, 0, width, height, now)
  }

  /** The entities after one whole tick. */
  function TickResult(ws: World, width: int, height: int, now: real): (r: World)
    ensures |ws| - 1 <= |r| <= |ws|
  {
    WithoutFirstInactive(MoveAll(ws, width, height, now))
  }

  // ---------------------------------------------------------------------------
  // What a collision may change about an entity that is not moving

  /** The fields a collision may change: a bullet may become inactive (never
      active again), a character's score and lastHit may change; position,
      velocity, size and identity stay. A wall does not change at all. */
  predicate SameMotion(a: EntityState, b: EntityState)
  {
    b == a.(active := b.active, score := b.score, lastHit := b.lastHit)
    && (b.active ==> a.active)
    && (a.kind != BulletType ==> b.active == a.active)
    && (a.kind != CharacterType ==> b.score == a.score && b.lastHit == a.lastHit)
  }

  predicate AllSameMotion(ws: World, ws': World)
  {
    |ws'| == |ws| && forall k :: 0 <= k < |ws| ==> SameMotion(ws[k], ws'[k])
  }

  /** What one turn may do to the entity whose turn it is: besides what a
      collision may change, its velocity is multiplied by its friction, and it
      either stays where it was or moves by exactly its velocity to a position
      inside the level. A wall does not change at all. */
  predicate MovedOnce(a: EntityState, b: EntityState, width: int, height: int)
  {
    (a.kind == WallType ==> b == a) &&
    (a.kind != WallType ==>
      b == a.(active := b.active, score := b.score, lastHit := b.lastHit,
              x := b.x, y := b.y, vx := a.vx * a.friction, vy := a.vy * a.friction)
      && (b.active ==> a.active)
      && (a.kind != BulletType ==> b.active == a.active)
      && (a.kind != CharacterType ==> b.score == a.score && b.lastHit == a.lastHit)
      && ((b.x == a.x && b.y == a.y) ||
          (InRange(a.x + a.vx, a.width, width) && InRange(a.y + a.vy, a.height, height)
           && b.x == a.x + a.vx && b.y == a.y + a.vy)))
  }

  lemma ReactKeepsMotion(ws: World, i: nat, otherKind: EntityType, otherId: string, j: nat, now: real)
    requires i < |ws| && j < |ws|
    requires otherKind == WallType || otherKind == ws[j].kind
    ensures AllSameMotion(ws, React(ws, i, otherKind, otherId, j, now).0)
  {
    var r := Resolve(ws[i].kind, ws[i].id, otherKind, otherId);
    var ws1 := if r.deactivate then ws[i := WithActive(ws[i], false)] else ws;
    assert AllSameMotion(ws, ws1);
    if r.hit {
      var ws2 := ws1[j := Struck(ws1[j], now)];
      assert AllSameMotion(ws, ws2);
    }
  }

  /** The scan moves nothing, and once the mover is blocked it stays blocked. */
  lemma {:induction false} ScanKeepsMotion(ws: World, i: nat, nx: real, ny: real, j: nat, blocked: bool, now: real)
    requires i < |ws| && j <= |ws|
    ensures AllSameMotion(ws, Scan(ws, i, nx, ny, j, blocked, now).0)
    ensures blocked ==> Scan(ws, i, nx, ny, j, blocked, now).1
    decreases |ws| - j
  {
    if j == |ws| {
    } else if Overlapping(ws, i, nx, ny, j) && !blocked {
      var (ws', b) := ReactTo(ws, i, j, now);
      ReactKeepsMotion(ws, i, ws[j].kind, ws[j].id, j, now);
      ScanKeepsMotion(ws', i, nx, ny, j + 1, b, now);
    } else {
      ScanKeepsMotion(ws, i, nx, ny, j + 1, blocked, now);
    }
  }

  /** One turn: every other entity keeps its motion, the mover moves once. */
  lemma StepEffect(ws: World, i: nat, width: int, height: int, now: real)
    requires i < |ws|
    ensures var r := Step(ws, i, width, height, now);
      MovedOnce(ws[i], r[i], width, height) &&
      forall k :: 0 <= k < |ws| && k != i ==> SameMotion(ws[k], r[k])
  {
    var (nx, ny, hitWall) := Proposal(ws[i], width, height);
    var (ws1, b1) := if hitWall then ReactToBoundary(ws, i, now) else (ws, false);
    if hitWall {
      ReactKeepsMotion(ws, i, WallType, "wall", i, now);
    }
    assert AllSameMotion(ws, ws1);
    assert hitWall && ws[i].kind != WallType ==> b1;
    var (ws2, blocked) := Scan(ws1, i, nx, ny, 0, b1, now);
    ScanKeepsMotion(ws1, i, nx, ny, 0, b1, now);
    assert AllSameMotion(ws, ws2);
    assert !blocked && ws[i].kind != WallType ==> !hitWall;
  }

  lemma {:induction false} MoveFromEffect(ws: World, i: nat, width: int, height: int, now: real, k: nat)
    requires i <= |ws| && k < |ws|
    ensures k < i ==> SameMotion(ws[k], MoveFrom(ws, i, width, height, now)[k])
    ensures k >= i ==> MovedOnce(ws[k], MoveFrom(ws, i, width, height, now)[k], width, height)
    decreases |ws| - i
  {
    if i < |ws| {
      var ws' := Step(ws, i, width, height, now);
      var r := MoveFrom(ws', i + 1, width, height, now);
      assert MoveFrom(ws, i, width, height, now) == r;
      StepEffect(ws, i, width, height, now);
      MoveFromEffect(ws', i + 1, width, height, now, k);
      if k < i {
        SameMotionTransitive(ws[k], ws'[k], r[k]);
      } else if k == i {
        MovedThenSame(ws[k], ws'[k], r[k], width, height);
      } else {
        SameThenMoved(ws[k], ws'[k], r[k], width, height);
      }
    }
  }

  lemma SameMotionTransitive(a: EntityState, b: EntityState, c: EntityState)
    requires SameMotion(a, b) && SameMotion(b, c)
    ensures SameMotion(a, c)
  {
  }

  lemma MovedThenSame(a: EntityState, b: EntityState, c: EntityState, width: int, height: int)
    requires MovedOnce(a, b, width, height) && SameMotion(b, c)
    ensures MovedOnce(a, c, width, height)
  {
  }

  lemma SameThenMoved(a: EntityState, b: EntityState, c: EntityState, width: int, height: int)
    requires SameMotion(a, b) && MovedOnce(b, c, width, height)
    ensures MovedOnce(a, c, width, height)
  {
  }

  // ---------------------------------------------------------------------------
  // Properties of a whole tick

  /** In one tick every entity moves once: walls do not change at all; any other
      entity keeps its identity and size, has its velocity multiplied by its
      friction, and either stays where it was or moves by exactly its velocity
      to a position inside the level. Only bullets are ever deactivated and
      nothing is reactivated; only characters' scores and lastHit change. */
  lemma TickMovesEachOnce(ws: World, width: int, height: int, now: real)
    ensures var r := MoveAll(ws, width, height, now);
      forall k :: 0 <= k < |ws| ==> MovedOnce(ws[k], r[k], width, height)
  {
    forall k | 0 <= k < |ws|
      ensures MovedOnce(ws[k], MoveAll(ws, width, height, now)[k], width, height)
    {
      MoveFromEffect(ws, 0, width, height, now, k);
    }
  }

  /** An entity inside the level is still inside after the tick. */
  lemma TickKeepsInBounds(ws: World, width: int, height: int, now: real)
    requires forall k :: 0 <= k < |ws| ==> InBounds(ws[k], width, height)
    ensures var r := TickResult(ws, width, height, now);
      forall k :: 0 <= k < |r| ==> InBounds(r[k], width, height)
  {
    var m := MoveAll(ws, width, height, now);
    TickMovesEachOnce(ws, width, height, now);
    assert forall k :: 0 <= k < |m| ==> InBounds(m[k], width, height);
    var r := TickResult(ws, width, height, now);
    forall k | 0 <= k < |r|
      ensures InBounds(r[k], width, height)
    {
      var f := FirstInactive(m);
      if f < |m| && k >= f {
        assert r[k] == m[k + 1];
      } else {
        assert r[k] == m[k];
      }
    }
  }

  /** The tick keeps walls as they are, and keeps every wall in the list, in order. */
  lemma TickKeepsWalls(ws: World, width: int, height: int, now: real)
    requires AllWallsInert(ws)
    ensures var m := MoveAll(ws, width, height, now);
      AllWallsInert(m) && forall k :: 0 <= k < |ws| && ws[k].kind == WallType ==> m[k] == ws[k]
    ensures Walls(TickResult(ws, width, height, now)) == Walls(ws)
  {
    var m := MoveAll(ws, width, height, now);
    TickMovesEachOnce(ws, width, height, now);
    assert AllWallsInert(m);
    WallsSurviveRemoval(m);
    WallsUnchanged(ws, m);
  }

  lemma {:induction false} WallsUnchanged(ws: World, m: World)
    requires |m| == |ws|
    requires forall k :: 0 <= k < |ws| ==> (ws[k].kind == WallType <==> m[k].kind == WallType)
    requires forall k :: 0 <= k < |ws| && ws[k].kind == WallType ==> m[k] == ws[k]
    ensures Walls(m) == Walls(ws)
  {
    if |ws| > 0 {
      WallsUnchanged(ws[1..], m[1..]);
    }
  }

  /** The friction of one tick: every entity other than a wall ends the tick
      with its velocity multiplied by its friction, whether it moved or not. */
  lemma TickAppliesFriction(ws: World, width: int, height: int, now: real, k: nat)
    requires k < |ws| && ws[k].kind != WallType
    ensures var r := MoveAll(ws, width, height, now);
      r[k].vx == ws[k].vx * ws[k].friction && r[k].vy == ws[k].vy * ws[k].friction
  {
    MoveFromEffect(ws, 0, width, height, now, k);
  }

  // ---------------------------------------------------------------------------
  // The scan in detail

  lemma OverlappingKept(ws: World, ws': World, i: nat, nx: real, ny: real, m: nat)
    requires AllSameMotion(ws, ws') && i < |ws| && m < |ws|
    ensures Overlapping(ws, i, nx, ny, m) <==> Overlapping(ws', i, nx, ny, m)
    ensures ws'[i].kind == ws[i].kind && ws'[i].id == ws[i].id
    ensures ws'[m].kind == ws[m].kind && ws'[m].id == ws[m].id
  {
    assert SameMotion(ws[i], ws'[i]) && SameMotion(ws[m], ws'[m]);
  }

  /** An overlapping entity at index m, against which the mover's reaction blocks,
      blocks the mover: the scan reaches it (or was blocked before). */
  lemma {:induction false} ScanBlockedBy(ws: World, i: nat, nx: real, ny: real, j: nat, blocked: bool, now: real, m: nat)
    requires i < |ws| && j <= m < |ws|
    requires Overlapping(ws, i, nx, ny, m)
    requires Resolve(ws[i].kind, ws[i].id, ws[m].kind, ws[m].id).blocked
    ensures Scan(ws, i, nx, ny, j, blocked, now).1
    decreases m - j
  {
    if Overlapping(ws, i, nx, ny, j) && !blocked {
      var (ws', b) := ReactTo(ws, i, j, now);
      ReactKeepsMotion(ws, i, ws[j].kind, ws[j].id, j, now);
      if j == m {
        ScanKeepsMotion(ws', i, nx, ny, j + 1, b, now);
      } else {
        OverlappingKept(ws, ws', i, nx, ny, m);
        ScanBlockedBy(ws', i, nx, ny, j + 1, b, now, m);
      }
    } else if j == m {
      ScanKeepsMotion(ws, i, nx, ny, j + 1, blocked, now);
    } else {
      ScanBlockedBy(ws, i, nx, ny, j + 1, blocked, now, m);
    }
  }

  /** A bullet is blocked only by a wall, which has deactivated it. */
  lemma {:induction false} ScanBlockedBulletInactive(ws: World, i: nat, nx: real, ny: real, j: nat, blocked: bool, now: real)
    requires i < |ws| && j <= |ws| && ws[i].kind == BulletType
    requires blocked ==> !ws[i].active
    ensures var (r, b) := Scan(ws, i, nx, ny, j, blocked, now);
      b ==> !r[i].active
    decreases |ws| - j
  {
    if j == |ws| {
    } else if Overlapping(ws, i, nx, ny, j) && !blocked {
      var (ws', b) := ReactTo(ws, i, j, now);
      ReactKeepsMotion(ws, i, ws[j].kind, ws[j].id, j, now);
      assert ws'[i].kind == BulletType;
      ScanBlockedBulletInactive(ws', i, nx, ny, j + 1, b, now);
    } else {
      ScanBlockedBulletInactive(ws, i, nx, ny, j + 1, blocked, now);
    }
  }

  /** With nothing of another id overlapping from index j on, the scan changes
      nothing; in particular entities sharing the mover's id are never tested. */
  lemma {:induction false} ScanQuiet(ws: World, i: nat, nx: real, ny: real, j: nat, blocked: bool, now: real)
    requires i < |ws| && j <= |ws|
    requires forall m :: j <= m < |ws| ==> !Overlapping(ws, i, nx, ny, m)
    ensures Scan(ws, i, nx, ny, j, blocked, now) == (ws, blocked)
    decreases |ws| - j
  {
    if j < |ws| {
      ScanQuiet(ws, i, nx, ny, j + 1, blocked, now);
    }
  }

  /** Entities before the first overlapping one are passed over. */
  lemma {:induction false} ScanSkips(ws: World, i: nat, nx: real, ny: real, j: nat, t: nat, blocked: bool, now: real)
    requires i < |ws| && j <= t <= |ws|
    requires forall m :: j <= m < t ==> !Overlapping(ws, i, nx, ny, m)
    ensures Scan(ws, i, nx, ny, j, blocked, now) == Scan(ws, i, nx, ny, t, blocked, now)
    decreases t - j
  {
    if j < t {
      ScanSkips(ws, i, nx, ny, j + 1, t, blocked, now);
    }
  }

  /** When every overlapping entity from index j on reacts with no effect and
      no block, the scan changes nothing. */
  lemma {:induction false} ScanIgnored(ws: World, i: nat, nx: real, ny: real, j: nat, blocked: bool, now: real)
    requires i < |ws| && j <= |ws|
    requires forall m :: j <= m < |ws| && Overlapping(ws, i, nx, ny, m) ==> ReactTo(ws, i, m, now) == (ws, false)
    ensures Scan(ws, i, nx, ny, j, blocked, now) == (ws, blocked)
    decreases |ws| - j
  {
    if j < |ws| {
      ScanIgnored(ws, i, nx, ny, j + 1, blocked, now);
    }
  }

  /** Once the mover is blocked the scan handles nothing more: Go's `||` does
      not call HandleCollision, so no other entity is struck or credited. */
  lemma {:induction false} ScanBlockedStops(ws: World, i: nat, nx: real, ny: real, j: nat, now: real)
    requires i < |ws| && j <= |ws|
    ensures Scan(ws, i, nx, ny, j, true, now) == (ws, true)
    decreases |ws| - j
  {
    if j < |ws| {
      ScanBlockedStops(ws, i, nx, ny, j + 1, now);
    }
  }

  /** Some entity of another id from index j on overlaps the mover at (nx, ny)
      and its reaction blocks the mover. */
  predicate BlockerFrom(ws: World, i: nat, nx: real, ny: real, j: nat)
    requires i < |ws|
  {
    exists m :: j <= m < |ws| && Overlapping(ws, i, nx, ny, m)
                && Resolve(ws[i].kind, ws[i].id, ws[m].kind, ws[m].id).blocked
  }

  /** The blocked flag is the OR of the flag so far and the reactions of all
      overlapping entities of another id: the scan ends blocked exactly when
      the mover was blocked already or some such entity blocks it. */
  lemma {:induction false} ScanBlockedOnlyBy(ws: World, i: nat, nx: real, ny: real, j: nat, blocked: bool, now: real)
    requires i < |ws| && j <= |ws|
    ensures Scan(ws, i, nx, ny, j, blocked, now).1 <==> blocked || BlockerFrom(ws, i, nx, ny, j)
    decreases |ws| - j
  {
    if j == |ws| {
    } else if Overlapping(ws, i, nx, ny, j) && !blocked {
      var (ws', b) := ReactTo(ws, i, j, now);
      assert b == Resolve(ws[i].kind, ws[i].id, ws[j].kind, ws[j].id).blocked;
      ReactKeepsMotion(ws, i, ws[j].kind, ws[j].id, j, now);
      ScanBlockedOnlyBy(ws', i, nx, ny, j + 1, b, now);
      if b {
        assert BlockerFrom(ws, i, nx, ny, j);
      } else {
        if BlockerFrom(ws', i, nx, ny, j + 1) {
          var m :| j + 1 <= m < |ws'| && Overlapping(ws', i, nx, ny, m)
                   && Resolve(ws'[i].kind, ws'[i].id, ws'[m].kind, ws'[m].id).blocked;
          OverlappingKept(ws, ws', i, nx, ny, m);
          assert BlockerFrom(ws, i, nx, ny, j);
        }
        if BlockerFrom(ws, i, nx, ny, j) {
          var m :| j <= m < |ws| && Overlapping(ws, i, nx, ny, m)
                   && Resolve(ws[i].kind, ws[i].id, ws[m].kind, ws[m].id).blocked;
          assert m != j;
          OverlappingKept(ws, ws', i, nx, ny, m);
          assert BlockerFrom(ws', i, nx, ny, j + 1);
        }
      }
    } else {
      ScanBlockedOnlyBy(ws, i, nx, ny, j + 1, blocked, now);
      if !blocked && BlockerFrom(ws, i, nx, ny, j) {
        var m :| j <= m < |ws| && Overlapping(ws, i, nx, ny, m)
                 && Resolve(ws[i].kind, ws[i].id, ws[m].kind, ws[m].id).blocked;
        assert m != j;
        assert BlockerFrom(ws, i, nx, ny, j + 1);
      }
    }
  }

  /** A turn in which the move stays inside the level and the scan, ending in
      ws2, does not block: the mover is committed at exactly its position plus
      its velocity and slowed by its friction; the rest is what the scan left. */
  lemma UnblockedStep(ws: World, i: nat, width: int, height: int, now: real, ws2: World)
    requires i < |ws| && ws[i].kind != WallType
    requires var p := Proposal(ws[i], width, height);
      !p.2 && Scan(ws, i, p.0, p.1, 0, false, now) == (ws2, false)
    requires SameMotion(ws[i], ws2[i])
    ensures var e := ws[i];
      Step(ws, i, width, height, now)
      == ws2[i := ws2[i].(x := e.x + e.vx, y := e.y + e.vy, vx := e.vx * e.friction, vy := e.vy * e.friction)]
  {
    var e := ws[i];
    var (nx, ny, hitWall) := Proposal(e, width, height);
    assert nx == e.x + e.vx && ny == e.y + e.vy;
    assert AtBoundary(ws, i, hitWall, now) == (ws, false);
    var c := ws2[i];
    var moved := WithPosition(c, nx, ny);
    assert moved.vx == e.vx && moved.vy == e.vy && moved.friction == e.friction;
    assert Slowed(moved) == c.(x := nx, y := ny, vx := e.vx * e.friction, vy := e.vy * e.friction);
    assert Step(ws, i, width, height, now) == Settle(ws2, i, false, nx, ny);
    assert Settle(ws2, i, false, nx, ny) == ws2[i := Slowed(moved)];
    assert c.(x := nx, y := ny, vx := e.vx * e.friction, vy := e.vy * e.friction)
           == ws2[i].(x := ws[i].x + ws[i].vx, y := ws[i].y + ws[i].vy,
                      vx := ws[i].vx * ws[i].friction, vy := ws[i].vy * ws[i].friction);
  }

  /** A turn in which the move stays inside the level and every overlapping
      entity reacts with no effect and no block: the mover, and only it, moves by
      exactly its velocity and is slowed by its friction. */
  lemma FreeMove(ws: World, i: nat, width: int, height: int, now: real)
    requires i < |ws| && ws[i].kind != WallType
    requires var p := Proposal(ws[i], width, height);
      !p.2 && forall m :: 0 <= m < |ws| && Overlapping(ws, i, p.0, p.1, m) ==> ReactTo(ws, i, m, now) == (ws, false)
    ensures var e := ws[i];
      Step(ws, i, width, height, now)
      == ws[i := e.(x := e.x + e.vx, y := e.y + e.vy, vx := e.vx * e.friction, vy := e.vy * e.friction)]
  {
    var (nx, ny, hitWall) := Proposal(ws[i], width, height);
    ScanIgnored(ws, i, nx, ny, 0, false, now);
    UnblockedStep(ws, i, width, height, now, ws);
  }

  // ---------------------------------------------------------------------------
  // One turn in the cases the engine is built for

  /** A character whose move stays inside the level and overlaps, among the
      entities of other ids, only bullets passes through them: it moves by
      exactly its velocity, is slowed by its friction, and nothing else changes. */
  lemma CharacterMoves(ws: World, i: nat, width: int, height: int, now: real)
    requires i < |ws| && ws[i].kind == CharacterType
    requires var p := Proposal(ws[i], width, height);
      !p.2 && forall m :: 0 <= m < |ws| && Overlapping(ws, i, p.0, p.1, m) ==> ws[m].kind == BulletType
    ensures var e := ws[i];
      Step(ws, i, width, height, now)
      == ws[i := e.(x := e.x + e.vx, y := e.y + e.vy, vx := e.vx * e.friction, vy := e.vy * e.friction)]
  {
    var (nx, ny, hitWall) := Proposal(ws[i], width, height);
    forall m | 0 <= m < |ws| && Overlapping(ws, i, nx, ny, m)
      ensures ReactTo(ws, i, m, now) == (ws, false)
    {
      CharacterAndWallReactions(ws, i, m, now);
    }
    FreeMove(ws, i, width, height, now);
  }

  /** A bullet in free flight, whose move stays inside the level and overlaps
      no character or wall of another id, moves by exactly its velocity, is
      slowed by its friction and stays active; nothing else changes. */
  lemma BulletFlies(ws: World, i: nat, width: int, height: int, now: real)
    requires i < |ws| && ws[i].kind == BulletType
    requires var p := Proposal(ws[i], width, height);
      !p.2 && forall m :: 0 <= m < |ws| && Overlapping(ws, i, p.0, p.1, m) ==> ws[m].kind == BulletType
    ensures var e := ws[i];
      Step(ws, i, width, height, now)
      == ws[i := e.(x := e.x + e.vx, y := e.y + e.vy, vx := e.vx * e.friction, vy := e.vy * e.friction)]
  {
    var (nx, ny, hitWall) := Proposal(ws[i], width, height);
    forall m | 0 <= m < |ws| && Overlapping(ws, i, nx, ny, m)
      ensures ReactTo(ws, i, m, now) == (ws, false)
    {
      BulletIgnores(ws, i, m, now);
    }
    FreeMove(ws, i, width, height, now);
  }

  /** A bullet whose move stays inside the level and overlaps no wall of
      another id is never blocked: whatever characters and bullets it meets, it
      ends its turn at exactly its position plus its velocity, slowed by its
      friction. */
  lemma BulletMoves(ws: World, i: nat, width: int, height: int, now: real)
    requires i < |ws| && ws[i].kind == BulletType
    requires var p := Proposal(ws[i], width, height);
      !p.2 && forall m :: 0 <= m < |ws| && Overlapping(ws, i, p.0, p.1, m) ==> ws[m].kind != WallType
    ensures var r := Step(ws, i, width, height, now);
      var e := ws[i];
      r[i].x == e.x + e.vx && r[i].y == e.y + e.vy
      && r[i].vx == e.vx * e.friction && r[i].vy == e.vy * e.friction
  {
    var (nx, ny, hitWall) := Proposal(ws[i], width, height);
    var (ws2, b) := Scan(ws, i, nx, ny, 0, false, now);
    ScanBlockedOnlyBy(ws, i, nx, ny, 0, false, now);
    assert !BlockerFrom(ws, i, nx, ny, 0);
    ScanKeepsMotion(ws, i, nx, ny, 0, false, now);
    UnblockedStep(ws, i, width, height, now, ws2);
  }

  /** A move that leaves the level is resolved against the boundary, which
      blocks every entity that moves; the scan then handles no one, so no other
      entity of the list changes in that turn. */
  lemma ClampedTurnAlone(ws: World, i: nat, width: int, height: int, now: real)
    requires i < |ws| && ws[i].kind != WallType && Proposal(ws[i], width, height).2
    ensures var r := Step(ws, i, width, height, now);
      forall k :: 0 <= k < |ws| && k != i ==> r[k] == ws[k]
  {
    var (nx, ny, hitWall) := Proposal(ws[i], width, height);
    var (ws1, b1) := ReactToBoundary(ws, i, now);
    assert b1;
    assert forall k :: 0 <= k < |ws| && k != i ==> ws1[k] == ws[k];
    ScanBlockedStops(ws1, i, nx, ny, 0, now);
  }

  /** The scan of a character or a wall changes no entity of the list, blocked
      or not: Character.HandleCollision and Wall.HandleCollision mutate nothing. */
  lemma {:induction false} NonBulletScanQuiet(ws: World, i: nat, nx: real, ny: real, j: nat, blocked: bool, now: real)
    requires i < |ws| && j <= |ws| && ws[i].kind != BulletType
    ensures Scan(ws, i, nx, ny, j, blocked, now).0 == ws
    decreases |ws| - j
  {
    if j < |ws| {
      if Overlapping(ws, i, nx, ny, j) && !blocked {
        CharacterAndWallReactions(ws, i, j, now);
        var (ws', b) := ReactTo(ws, i, j, now);
        NonBulletScanQuiet(ws', i, nx, ny, j + 1, b, now);
      } else {
        NonBulletScanQuiet(ws, i, nx, ny, j + 1, blocked, now);
      }
    }
  }

  /** A character whose move would leave the level, or overlap a character or a
      wall of another id, stays where it is and its velocity decays by its
      friction; no other entity of the list changes. */
  lemma CharacterBlocked(ws: World, i: nat, width: int, height: int, now: real)
    requires i < |ws| && ws[i].kind == CharacterType
    requires var p := Proposal(ws[i], width, height);
      p.2 || exists m :: 0 <= m < |ws| && Overlapping(ws, i, p.0, p.1, m)
                         && (ws[m].kind == CharacterType || ws[m].kind == WallType)
    ensures var e := ws[i];
      Step(ws, i, width, height, now) == ws[i := e.(vx := e.vx * e.friction, vy := e.vy * e.friction)]
  {
    var (nx, ny, hitWall) := Proposal(ws[i], width, height);
    CharacterAndWallReactions(ws, i, i, now);
    var (ws1, b1) := AtBoundary(ws, i, hitWall, now);
    assert ws1 == ws && b1 == hitWall;
    if !hitWall {
      var m :| 0 <= m < |ws| && Overlapping(ws, i, nx, ny, m)
               && (ws[m].kind == CharacterType || ws[m].kind == WallType);
      ScanBlockedBy(ws, i, nx, ny, 0, false, now, m);
    }
    ScanKeepsMotion(ws, i, nx, ny, 0, b1, now);
    NonBulletScanQuiet(ws, i, nx, ny, 0, b1, now);
    assert Scan(ws, i, nx, ny, 0, b1, now) == (ws, true);
  }

  /** A wall's turn changes nothing: it proposes no move that sticks, blocks on
      nothing, reacts to nothing and ignores friction. */
  lemma WallTurnChangesNothing(ws: World, i: nat, width: int, height: int, now: real)
    requires i < |ws| && ws[i].kind == WallType
    ensures Step(ws, i, width, height, now) == ws
  {
    var (nx, ny, hitWall) := Proposal(ws[i], width, height);
    CharacterAndWallReactions(ws, i, i, now);
    var (ws1, b1) := AtBoundary(ws, i, hitWall, now);
    assert ws1 == ws && !b1;
    NonBulletScanQuiet(ws, i, nx, ny, 0, false, now);
    var (ws2, b2) := Scan(ws, i, nx, ny, 0, false, now);
    assert Settle(ws, i, b2, nx, ny) == ws;
  }

  /** A bullet whose move would leave the level, or overlap a wall, is
      deactivated and stays where it is. */
  lemma BulletStoppedByWall(ws: World, i: nat, width: int, height: int, now: real)
    requires i < |ws| && ws[i].kind == BulletType
    requires var p := Proposal(ws[i], width, height);
      p.2 || exists m :: 0 <= m < |ws| && Overlapping(ws, i, p.0, p.1, m) && ws[m].kind == WallType
    ensures var r := Step(ws, i, width, height, now);
      !r[i].active && r[i].x == ws[i].x && r[i].y == ws[i].y
  {
    var (nx, ny, hitWall) := Proposal(ws[i], width, height);
    var (ws1, b1) := if hitWall then ReactToBoundary(ws, i, now) else (ws, false);
    if hitWall {
      ReactKeepsMotion(ws, i, WallType, "wall", i, now);
    } else {
      var m :| 0 <= m < |ws| && Overlapping(ws, i, nx, ny, m) && ws[m].kind == WallType;
      ScanBlockedBy(ws, i, nx, ny, 0, false, now, m);
    }
    ScanKeepsMotion(ws1, i, nx, ny, 0, b1, now);
    ScanBlockedBulletInactive(ws1, i, nx, ny, 0, b1, now);
  }

  /** A bullet that stays inside the level and overlaps exactly one entity of
      another id, a character: the bullet moves by its velocity and becomes
      inactive, the character loses one point and records `now`, every character
      carrying the bullet's id gains one point, and nothing else changes. */
  lemma BulletHitsOne(ws: World, i: nat, j: nat, width: int, height: int, now: real)
    requires i < |ws| && j < |ws|
    requires ws[i].kind == BulletType && ws[j].kind == CharacterType
    requires var p := Proposal(ws[i], width, height);
      !p.2 && Overlapping(ws, i, p.0, p.1, j)
      && forall m :: 0 <= m < |ws| && m != j ==> !Overlapping(ws, i, p.0, p.1, m)
    ensures var r := Step(ws, i, width, height, now);
      var e := ws[i];
      r[i] == e.(active := false, x := e.x + e.vx, y := e.y + e.vy,
                 vx := e.vx * e.friction, vy := e.vy * e.friction) &&
      r[j] == Struck(ws[j], now) &&
      forall k :: 0 <= k < |ws| && k != i && k != j ==>
        r[k] == if ws[k].kind == CharacterType && ws[k].id == e.id
                then ws[k].(score := ws[k].score + 1) else ws[k]
  {
    var (nx, ny, hitWall) := Proposal(ws[i], width, height);
    ScanSkips(ws, i, nx, ny, 0, j, false, now);
    var (ws', b) := ReactTo(ws, i, j, now);
    BulletHitsCharacter(ws, i, j, now);
    ReactKeepsMotion(ws, i, ws[j].kind, ws[j].id, j, now);
    forall m | j + 1 <= m < |ws|
      ensures !Overlapping(ws', i, nx, ny, m)
    {
      OverlappingKept(ws, ws', i, nx, ny, m);
    }
    ScanQuiet(ws', i, nx, ny, j + 1, b, now);
    assert Scan(ws, i, nx, ny, 0, false, now) == (ws', false);
    UnblockedStep(ws, i, width, height, now, ws');
  }

  /** A bullet that stays inside the level and overlaps exactly two characters
      of other ids scores against both in the same turn: a hit does not block the
      bullet and its deactivation does not stop the scan, so each target loses a
      point and every character carrying the bullet's id gains two. */
  lemma BulletHitsTwo(ws: World, i: nat, j1: nat, j2: nat, width: int, height: int, now: real)
    requires i < |ws| && j1 < j2 < |ws|
    requires ws[i].kind == BulletType && ws[j1].kind == CharacterType && ws[j2].kind == CharacterType
    requires var p := Proposal(ws[i], width, height);
      !p.2 && Overlapping(ws, i, p.0, p.1, j1) && Overlapping(ws, i, p.0, p.1, j2)
      && forall m :: 0 <= m < |ws| && m != j1 && m != j2 ==> !Overlapping(ws, i, p.0, p.1, m)
    ensures var r := Step(ws, i, width, height, now);
      var e := ws[i];
      r[i] == e.(active := false, x := e.x + e.vx, y := e.y + e.vy,
                 vx := e.vx * e.friction, vy := e.vy * e.friction) &&
      r[j1] == Struck(ws[j1], now) && r[j2] == Struck(ws[j2], now) &&
      forall k :: 0 <= k < |ws| && k != i && k != j1 && k != j2 ==>
        r[k] == if ws[k].kind == CharacterType && ws[k].id == e.id
                then ws[k].(score := ws[k].score + 2) else ws[k]
  {
    var (nx, ny, hitWall) := Proposal(ws[i], width, height);
    // up to the first target nothing overlaps
    ScanSkips(ws, i, nx, ny, 0, j1, false, now);
    var (ws1, b1) := ReactTo(ws, i, j1, now);
    BulletHitsCharacter(ws, i, j1, now);
    ReactKeepsMotion(ws, i, ws[j1].kind, ws[j1].id, j1, now);
    // between the targets nothing overlaps, and the second one still does
    forall m | j1 + 1 <= m < |ws|
      ensures Overlapping(ws1, i, nx, ny, m) <==> Overlapping(ws, i, nx, ny, m)
    {
      OverlappingKept(ws, ws1, i, nx, ny, m);
    }
    ScanSkips(ws1, i, nx, ny, j1 + 1, j2, b1, now);
    var (ws2, b2) := ReactTo(ws1, i, j2, now);
    BulletHitsCharacter(ws1, i, j2, now);
    ReactKeepsMotion(ws1, i, ws1[j2].kind, ws1[j2].id, j2, now);
    // after the second target nothing overlaps
    forall m | j2 + 1 <= m < |ws|
      ensures !Overlapping(ws2, i, nx, ny, m)
    {
      OverlappingKept(ws1, ws2, i, nx, ny, m);
    }
    ScanQuiet(ws2, i, nx, ny, j2 + 1, b2, now);
    assert Scan(ws, i, nx, ny, 0, false, now) == (ws2, false);
    UnblockedStep(ws, i, width, height, now, ws2);
  }
}
