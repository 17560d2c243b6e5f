/** The collision-resolution table (the HandleCollision methods of Wall,
    Character and Bullet) and its effect on the entities of a level, plus the
    bullet that characterShoot builds. */
module Rules {
  import opened Geometry
  import opened States

  /** The entities of a level in list order. */
  type World = seq<EntityState>

  /** What one HandleCollision call decides: whether the mover is blocked,
      whether it deactivates itself, and whether it scores a hit on the other. */
  datatype Reaction = Reaction(blocked: bool, deactivate: bool, hit: bool)

  /** The double dispatch of HandleCollision, keyed by the kind and id of the
      entity that moves and of the entity it runs into. */
  function Resolve(mover: EntityType, moverId: string, other: EntityType, otherId: string): (r: Reaction)
    // walls block everything that moves, and characters also block characters
    ensures r.blocked <==>
      mover != WallType && (other == WallType || (mover == CharacterType && other == CharacterType))
    // only a bullet is ever deactivated: by a wall, or by a character it hits
    ensures r.deactivate <==>
      mover == BulletType && (other == WallType || (other == CharacterType && otherId != moverId))
    // a hit is a bullet meeting a character whose id is not the bullet's own
    ensures r.hit <==> mover == BulletType && other == CharacterType && otherId != moverId
    ensures r.hit ==> !r.blocked
  {
    match mover
    case WallType => Reaction(false, false, false)
    case CharacterType => Reaction(other == CharacterType || other == WallType, false, false)
    case BulletType =>
      if other == CharacterType && otherId != moverId then Reaction(false, true, true)
      else if other == WallType then Reaction(true, true, false)
      else Reaction(false, false, false)
  }

  /** The scorer update of a hit: every character whose id is the shooter's gains one. */
  function Award(ws: World, shooter: string): (r: World)
    ensures |r| == |ws|
  {
    seq(|ws|, k requires 0 <= k < |ws| =>
      if ws[k].kind == CharacterType && ws[k].id == shooter then ws[k].(score := ws[k].score + 1) else ws[k])
  }

  /** Carry out a reaction of mover i against the entity at index j. */
  function Apply(ws: World, i: nat, j: nat, r: Reaction, now: real): (res: World)
    requires i < |ws| && j < |ws|
    ensures |res| == |ws|
  {
    var ws1 := if r.deactivate then ws[i := WithActive(ws[i], false)] else ws;
    if r.hit then Award(ws1[j := Struck(ws1[j], now)], ws[i].id) else ws1
  }

  /** HandleCollision of entity i against an entity of the given kind and id,
      which, when it is hit, is the entity at index j. Gives the new entities and
      the blocked flag. */
  function React(ws: World, i: nat, otherKind: EntityType, otherId: string, j: nat, now: real): (res: (World, bool))
    requires i < |ws| && j < |ws|
    ensures |res.0| == |ws|
  {
    var r := Resolve(ws[i].kind, ws[i].id, otherKind, otherId);
    (Apply(ws, i, j, r, now), r.blocked)
  }

  /** HandleCollision against the boundary sentinel, a wall. */
  function ReactToBoundary(ws: World, i: nat, now: real): (res: (World, bool))
    requires i < |ws|
  {
    React(ws, i, WallType, "wall", i, now)
  }

  /** HandleCollision against the entity at index j of the list. */
  function ReactTo(ws: World, i: nat, j: nat, now: real): (res: (World, bool))
    requires i < |ws| && j < |ws|
  {
    React(ws, i, ws[j].kind, ws[j].id, j, now)
  }

  /** Character.HandleCollision mutates nothing, and blocks exactly against
      characters and walls; Wall.HandleCollision does nothing and never blocks. */
  lemma CharacterAndWallReactions(ws: World, i: nat, j: nat, now: real)
    requires i < |ws| && j < |ws|
    requires ws[i].kind != BulletType
    ensures ReactTo(ws, i, j, now).0 == ws
    ensures ReactTo(ws, i, j, now).1 <==>
      ws[i].kind == CharacterType && (ws[j].kind == CharacterType || ws[j].kind == WallType)
    ensures ReactToBoundary(ws, i, now) == (ws, ws[i].kind == CharacterType)
  {
  }

  /** Bullet.HandleCollision against a character of another id: the bullet is
      deactivated, the target loses one point and records the time, every
      character carrying the bullet's id gains one point, nothing else changes and
      the bullet is not blocked. */
  lemma BulletHitsCharacter(ws: World, i: nat, j: nat, now: real)
    requires i < |ws| && j < |ws|
    requires ws[i].kind == BulletType && ws[j].kind == CharacterType && ws[j].id != ws[i].id
    ensures !ReactTo(ws, i, j, now).1
    ensures var r := ReactTo(ws, i, j, now).0;
      |r| == |ws| &&
      r[i] == ws[i].(active := false) &&
      r[j] == Struck(ws[j], now) &&
      forall k :: 0 <= k < |ws| && k != i && k != j ==>
        r[k] == if ws[k].kind == CharacterType && ws[k].id == ws[i].id
                then ws[k].(score := ws[k].score + 1) else ws[k]
  {
    var r := ReactTo(ws, i, j, now).0;
    var ws1 := ws[i := WithActive(ws[i], false)];
    var ws2 := ws1[j := Struck(ws1[j], now)];
    assert i != j;
    assert r == Award(ws2, ws[i].id);
    forall k | 0 <= k < |ws| && k != i && k != j
      ensures r[k] == if ws[k].kind == CharacterType && ws[k].id == ws[i].id
                      then ws[k].(score := ws[k].score + 1) else ws[k]
    {
      assert ws2[k] == ws[k];
    }
  }

  /** Bullet.HandleCollision against a wall of the list: the bullet is
      deactivated and blocked, nothing else changes. */
  lemma BulletHitsWall(ws: World, i: nat, j: nat, now: real)
    requires i < |ws| && j < |ws|
    requires ws[i].kind == BulletType && ws[j].kind == WallType
    ensures ReactTo(ws, i, j, now) == (ws[i := ws[i].(active := false)], true)
  {
  }

  /** Bullet.HandleCollision against the boundary sentinel, whether or not the
      list holds any wall: the bullet is deactivated and blocked, nothing else
      changes. */
  lemma BulletHitsBoundary(ws: World, i: nat, now: real)
    requires i < |ws| && ws[i].kind == BulletType
    ensures ReactToBoundary(ws, i, now) == (ws[i := ws[i].(active := false)], true)
  {
  }

  /** Bullet.HandleCollision against another bullet, or against a character of
      its own id (its shooter): nothing changes and it is not blocked. */
  lemma BulletIgnores(ws: World, i: nat, j: nat, now: real)
    requires i < |ws| && j < |ws|
    requires ws[i].kind == BulletType
    requires ws[j].kind == BulletType || (ws[j].kind == CharacterType && ws[j].id == ws[i].id)
    ensures ReactTo(ws, i, j, now) == (ws, false)
  {
  }

  /** The bullet characterShoot builds for a shooter: it carries the shooter's id,
      sits a quarter of the shooter's size in from its corner, is 8 by 8, has
      speed 4 and friction 0.999, and moves along (dx, dy) scaled by its speed. */
  function ShotFrom(c: EntityState, dx: real, dy: real): (b: EntityState)
    ensures b.kind == BulletType && b.id == c.id && b.active
  {
    EntityState(BulletType, c.id, "bullet", 8, 8, 4.0, 0.999, true, 0, 0.0,
                c.x + c.width as real / 4.0, c.y + c.height as real / 4.0,
                dx * 4.0, dy * 4.0)
  }

  /** A bullet starts inside the level when its shooter is inside and at least
      11 by 11 (the avatars are 16 by 16): it sits a quarter of the shooter's
      size in, and 8 + size / 4 <= size needs size >= 32 / 3. */
  lemma ShotInBounds(c: EntityState, dx: real, dy: real, width: int, height: int)
    requires c.kind == CharacterType && InBounds(c, width, height)
    requires c.width >= 11 && c.height >= 11
    ensures InBounds(ShotFrom(c, dx, dy), width, height)
  {
  }

  /** A smaller shooter can fire a bullet that starts partly outside the level:
      an 8 by 8 character at the right edge of a 100-wide level. */
  lemma ShotOfSmallShooterOutside()
    ensures var c := EntityState(CharacterType, "p", "p", 8, 8, 2.0, 0.9, true, 0, 0.0, 92.0, 0.0, 0.0, 0.0);
      InBounds(c, 100, 100) && !InBounds(ShotFrom(c, 1.0, 0.0), 100, 100)
  {
  }

  /** A bullet never interacts with the character that fired it: its reaction to
      its shooter, and its shooter's to it, change nothing and block nothing. */
  lemma ShotSparesShooter(c: EntityState, dx: real, dy: real)
    requires c.kind == CharacterType
    ensures var b := ShotFrom(c, dx, dy);
      Resolve(b.kind, b.id, c.kind, c.id) == Reaction(false, false, false) &&
      Resolve(c.kind, c.id, b.kind, b.id) == Reaction(false, false, false)
  {
  }
}
