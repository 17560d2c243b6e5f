/** The simulation engine as it runs: entities as objects whose fields change in
    place, the ordered entity list, and the level with its tick. Every method is
    proved against the functions of Rules, Physics, Removal, Placement and
    Snapshots, applied to the views of the objects it changes. */
module Engine {
  import opened Geometry
  import opened States
  import opened Rules
  import opened Removal
  import opened Physics
  import opened Placement
  import opened Snapshots

  datatype CollisionResult = CollisionResult(blocked: bool)

  /** One entity: a Wall, a Character or a Bullet, told apart by `kind`. A wall
      answers its getters with constants and ignores its setters. */
  class Entity {
    const kind: EntityType
    const id: string
    const name: string
    const width: int
    const height: int
    const speed: real
    const friction: real
    var active: bool
    var score: int
    var lastHit: real
    var x: real
    var y: real
    var velocityX: real
    var velocityY: real

    constructor Wall(x: real, y: real, width: int, height: int)
      ensures View() == EntityState(WallType, "wall", "wall", width, height, 0.0, 0.0,
                                    true, 0, 0.0, x, y, 0.0, 0.0)
    {
      kind, id, name := WallType, "wall", "wall";
      this.width, this.height, speed, friction := width, height, 0.0, 0.0;
      active, score, lastHit := true, 0, 0.0;
      this.x, this.y, velocityX, velocityY := x, y, 0.0, 0.0;
    }

    constructor Character(id: string, name: string, x: real, y: real, width: int, height: int,
                          speed: real, friction: real)
      ensures View() == EntityState(CharacterType, id, name, width, height, speed, friction,
                                    true, 0, 0.0, x, y, 0.0, 0.0)
    {
      kind, this.id, this.name := CharacterType, id, name;
      this.width, this.height, this.speed, this.friction := width, height, speed, friction;
      active, score, lastHit := true, 0, 0.0;
      this.x, this.y, velocityX, velocityY := x, y, 0.0, 0.0;
    }

    constructor Bullet(id: string, name: string, x: real, y: real, width: int, height: int,
                       speed: real, friction: real)
      ensures View() == EntityState(BulletType, id, name, width, height, speed, friction,
                                    true, 0, 0.0, x, y, 0.0, 0.0)
    {
      kind, this.id, this.name := BulletType, id, name;
      this.width, this.height, this.speed, this.friction := width, height, speed, friction;
      active, score, lastHit := true, 0, 0.0;
      this.x, this.y, velocityX, velocityY := x, y, 0.0, 0.0;
    }

    function Id(): string
    {
      if kind == WallType then "wall" else id
    }

    function Active(): bool
      reads this
    {
      kind == WallType || active
    }

    function Name(): string
    {
      if kind == WallType then "wall" else name
    }

    function VelocityX(): real
      reads this
    {
      if kind == WallType then 0.0 else velocityX
    }

    function VelocityY(): real
      reads this
    {
      if kind == WallType then 0.0 else velocityY
    }

    function Speed(): real
    {
      if kind == WallType then 0.0 else speed
    }

    function Friction(): real
    {
      if kind == WallType then 0.0 else friction
    }

    /** Everything the getters report. */
    function View(): (s: EntityState)
      reads this
      ensures WallInert(s)
      ensures s.kind == kind && s.id == Id() && s.width == width && s.height == height
      ensures s.active == Active() && s.x == x && s.y == y
    {
      EntityState(kind, Id(), Name(), width, height, Speed(), Friction(),
                  Active(), score, lastHit, x, y, VelocityX(), VelocityY())
    }

    function BoundingBox(): (b: Box)
      reads this
      ensures b == States.BoundingBox(View())
    {
      BoxAt(x, y, width, height)
    }

    method SetActive(b: bool)
      modifies this
      ensures View() == WithActive(old(View()), b)
    {
      if kind != WallType {
        active := b;
      }
    }

    method SetPosition(x: real, y: real)
      modifies this
      ensures View() == WithPosition(old(View()), x, y)
    {
      if kind != WallType {
        this.x, this.y := x, y;
      }
    }

    method SetVelocity(velocityX: real, velocityY: real)
      modifies this
      ensures View() == WithVelocity(old(View()), velocityX, velocityY)
    {
      if kind != WallType {
        this.velocityX, this.velocityY := velocityX, velocityY;
      }
    }

    /** Character.AdjScore. */
    method AdjScore(delta: int)
      requires kind == CharacterType
      modifies this
      ensures View() == old(View()).(score := old(View()).score + delta)
    {
      score := score + delta;
    }

    /** Character.AdjLastHit. */
    method AdjLastHit(time: real)
      requires kind == CharacterType
      modifies this
      ensures View() == old(View()).(lastHit := time)
    {
      lastHit := time;
    }

    /** HandleCollision of this entity, the entity at index i of the level's
        list, against `other`: the boundary sentinel or another wall, or the
        entity at index j of the list. The decision is the table Resolve; a
        bullet that hits a character deactivates itself, takes a point from the
        character, stamps it with `now` and gives a point to every character
        carrying the bullet's id. */
    method HandleCollision(level: Level, other: Entity, now: real, ghost i: nat, ghost j: nat)
      returns (result: CollisionResult)
      requires level.Valid()
      requires i < |level.entities.entities| && level.entities.entities[i] == this
      requires j < |level.entities.entities|
      requires other.kind == WallType || level.entities.entities[j] == other
      modifies level.entities.entities
      ensures (level.entities.Views(), result.blocked)
              == React(old(level.entities.Views()), i, other.kind, other.Id(), j, now)
    {
      var list := level.entities;
      ghost var ws := list.Views();
      var reaction := Resolve(kind, Id(), other.kind, other.Id());
      if reaction.deactivate {
        SetActive(false);
        assert list.Views() == ws[i := WithActive(ws[i], false)];
      }
      ghost var ws1 := list.Views();
      assert ws1 == if reaction.deactivate then ws[i := WithActive(ws[i], false)] else ws;
      if reaction.hit {
        other.AdjScore(-1);
        other.AdjLastHit(now);
        assert list.Views() == ws1[j := Struck(ws1[j], now)];
        list.CreditShooter(id);
      }
      result := CollisionResult(reaction.blocked);
    }
  }

  /** The ordered list of a level's entities. No entity object occurs twice. */
  class EntityList {
    var entities: seq<Entity>

    constructor ()
      ensures Valid() && entities == []
    {
      entities := [];
    }

    ghost predicate Valid()
      reads this
    {
      forall a, b :: 0 <= a < b < |entities| ==> entities[a] != entities[b]
    }

    /** The entities as they report themselves, in list order. */
    ghost function Views(): (ws: World)
      reads this, entities
      ensures |ws| == |entities|
      ensures forall k :: 0 <= k < |entities| ==> ws[k] == entities[k].View()
    {
      seq(|entities|, k requires 0 <= k < |entities| reads this, entities => entities[k].View())
    }

    /** The scorer loop of a hit: every character carrying the shooter's id
        gains one point; nothing else changes. */
    method CreditShooter(shooter: string)
      requires Valid()
      modifies entities
      ensures Views() == Award(old(Views()), shooter)
    {
      ghost var ws := Views();
      var k := 0;
      while k < |entities|
        invariant 0 <= k <= |entities|
        invariant forall m :: 0 <= m < k ==> entities[m].View() == Award(ws, shooter)[m]
        invariant forall m :: k <= m < |entities| ==> entities[m].View() == ws[m]
      {
        var e := entities[k];
        if e.kind == CharacterType && e.Id() == shooter {
          e.AdjScore(1);
        }
        k := k + 1;
      }
    }

    /** Append puts the entity last and keeps everything before it. */
    method Append(entity: Entity)
      requires Valid() && entity !in entities
      modifies this
      ensures Valid() && entities == old(entities) + [entity]
      ensures Views() == old(Views()) + [entity.View()]
    {
      entities := entities + [entity];
    }

    /** RemoveInactive drops the first inactive entity, if any, and only it. */
    method RemoveInactive()
      requires Valid()
      modifies this
      ensures Valid()
      ensures entities == RemoveAt(old(entities), FirstInactive(old(Views())))
      ensures Views() == WithoutFirstInactive(old(Views()))
    {
      ghost var ws := Views();
      var i := 0;
      while i < |entities|
        invariant 0 <= i <= |entities| && entities == old(entities)
        invariant forall k :: 0 <= k < i ==> entities[k].Active()
      {
        if !entities[i].Active() {
          FirstInactiveIs(ws, i);
          Delete(i);
          return;
        }
        i := i + 1;
      }
      FirstInactiveIs(ws, |ws|);
    }

    /** The slice deletion of RemoveInactive: the entity at index i leaves the
        list, the others keep their order. */
    method Delete(i: nat)
      requires Valid() && i < |entities|
      modifies this
      ensures Valid()
      ensures entities == RemoveAt(old(entities), i)
      ensures Views() == RemoveAt(old(Views()), i)
    {
      entities := entities[..i] + entities[i + 1..];
      assert forall k :: 0 <= k < |entities| ==> entities[k] == old(entities)[if k < i then k else k + 1];
    }

    /** SpawnEntity, with the random draws given: the entity is moved to the
        position each draw selects until it overlaps no entity of another id,
        and is then appended. When no draw is free it is not appended (the
        engine would keep drawing). */
    method SpawnEntity(level: Level, entity: Entity, draws: seq<(real, real)>) returns (placed: bool)
      requires Valid() && entity !in entities
      requires forall d :: d in draws ==> ValidDraw(d)
      modifies this, entity
      ensures Valid()
      ensures placed <==> FirstFreeDraw(old(Views()), old(entity.View()), draws, level.width, level.height) < |draws|
      ensures placed ==>
        entities == old(entities) + [entity] &&
        entity.View() == Placed(old(entity.View()),
                                draws[FirstFreeDraw(old(Views()), old(entity.View()), draws, level.width, level.height)],
                                level.width, level.height)
      ensures placed ==> Views() == old(Views()) + [entity.View()] && Free(old(Views()), entity.View())
      ensures !placed ==> entities == old(entities) && Views() == old(Views())
    {
      ghost var ws := Views();
      ghost var e0 := entity.View();
      var t := 0;
      while t < |draws|
        invariant 0 <= t <= |draws|
        invariant entities == old(entities) && Views() == ws
        invariant entity.View() == WithPosition(e0, entity.x, entity.y)
        invariant forall m :: 0 <= m < t ==> !Free(ws, Placed(e0, draws[m], level.width, level.height))
      {
        var intersects := TryDraw(level, entity, draws[t], e0);
        if !intersects {
          FirstFreeDrawIs(ws, e0, draws, level.width, level.height, t);
          Append(entity);
          return true;
        }
        t := t + 1;
      }
      FirstFreeDrawIs(ws, e0, draws, level.width, level.height, |draws|);
      return false;
    }

    /** One draw of SpawnEntity: the entity is moved to the position the draw
        selects and tested against the list. */
    method TryDraw(level: Level, entity: Entity, d: (real, real), ghost e0: EntityState) returns (intersects: bool)
      requires Valid() && entity !in entities
      requires entity.View() == WithPosition(e0, entity.x, entity.y)
      modifies entity
      ensures entity.View() == Placed(e0, d, level.width, level.height)
      ensures entity.View() == WithPosition(e0, entity.x, entity.y)
      ensures intersects <==> !Free(Views(), entity.View())
    {
      var x := d.0 * (level.width - entity.width) as real;
      var y := d.1 * (level.height - entity.height) as real;
      assert Placed(e0, d, level.width, level.height) == WithPosition(e0, x, y);
      entity.SetPosition(x, y);
      assert entity.View() == WithPosition(e0, x, y);
      intersects := Overlaps(entity);
    }

    /** The overlap scan of SpawnEntity: whether some entity of the list with
        another id overlaps the given one. It stops at the first overlap. */
    method Overlaps(entity: Entity) returns (intersects: bool)
      ensures intersects <==> !Free(Views(), entity.View())
    {
      intersects := false;
      var m := 0;
      while m < |entities|
        invariant 0 <= m <= |entities|
        invariant forall q :: 0 <= q < m && entities[q].Id() != entity.Id() ==>
          !Intersects(entity.BoundingBox(), entities[q].BoundingBox())
      {
        var other := entities[m];
        if entity.Id() != other.Id() && Intersects(entity.BoundingBox(), other.BoundingBox()) {
          intersects := true;
          return;
        }
        m := m + 1;
      }
    }
  }

  /** A level: its size, its entity list, the boundary sentinel against which
      moves that leave the level are resolved, and the duration of the last tick. */
  class Level {
    const width: int
    const height: int
    const entities: EntityList
    const boundary: Entity
    var tickTime: real

    ghost predicate Valid()
      reads this, entities
    {
      entities.Valid() && boundary.kind == WallType
    }

    constructor (width: int, height: int)
      ensures Valid() && fresh(entities) && entities.entities == []
      ensures this.width == width && this.height == height && tickTime == 0.0
    {
      this.width, this.height := width, height;
      entities := new EntityList();
      boundary := new Entity.Wall(0.0, 0.0, 0, 0);
      tickTime := 0.0;
    }

    /** One tick: every entity takes its turn in list order, then the first
        inactive entity is removed; `elapsed` is the measured duration. */
    method Tick(now: real, elapsed: real)
      requires Valid()
      modifies this, entities, entities.entities
      ensures Valid()
      ensures entities.entities
              == RemoveAt(old(entities.entities), FirstInactive(MoveAll(old(entities.Views()), width, height, now)))
      ensures entities.Views() == TickResult(old(entities.Views()), width, height, now)
      ensures tickTime == elapsed
    {
      ghost var start := entities.Views();
      var i := 0;
      while i < |entities.entities|
        invariant Valid() && entities.entities == old(entities.entities)
        invariant 0 <= i <= |entities.entities|
        invariant MoveFrom(entities.Views(), i, width, height, now) == MoveAll(start, width, height, now)
      {
        ghost var before := entities.Views();
        Turn(i, now);
        assert MoveFrom(before, i, width, height, now)
               == MoveFrom(Step(before, i, width, height, now), i + 1, width, height, now);
        i := i + 1;
      }
      assert entities.Views() == MoveAll(start, width, height, now);
      entities.RemoveInactive();
      tickTime := elapsed;
    }

    /** The turn of entity i within a tick: propose, clamp, resolve against the
        boundary and against the others, commit unless blocked, apply friction. */
    method Turn(i: nat, now: real)
      requires Valid() && i < |entities.entities|
      modifies entities.entities
      ensures entities.Views() == Step(old(entities.Views()), i, width, height, now)
    {
      var entity := entities.entities[i];
      ghost var ws := entities.Views();
      var (newX, hitX) := ClampAxis(entity.x + entity.VelocityX(), entity.width, width);
      var (newY, hitY) := ClampAxis(entity.y + entity.VelocityY(), entity.height, height);
      assert Proposal(ws[i], width, height) == (newX, newY, hitX || hitY);
      var blocked := false;
      if hitX || hitY {
        var result := entity.HandleCollision(this, boundary, now, i, i);
        blocked := result.blocked;
      }
      ghost var ws1 := entities.Views();
      ghost var b1 := blocked;
      assert (ws1, b1) == AtBoundary(ws, i, hitX || hitY, now);
      blocked := CollideWithOthers(entity, i, newX, newY, blocked, now);
      ghost var ws2 := entities.Views();
      assert (ws2, blocked) == Scan(ws1, i, newX, newY, 0, b1, now);
      Settle(entity, i, blocked, newX, newY);
    }

    /** The end of a turn: the proposed position is committed unless the mover
        was blocked, and its velocity is multiplied by its friction. */
    method Settle(entity: Entity, i: nat, blocked: bool, newX: real, newY: real)
      requires Valid() && i < |entities.entities| && entities.entities[i] == entity
      modifies entity
      ensures entities.Views() == Physics.Settle(old(entities.Views()), i, blocked, newX, newY)
    {
      ghost var ws := entities.Views();
      if !blocked {
        entity.SetPosition(newX, newY);
      }
      ghost var ws1 := entities.Views();
      ghost var committed := if blocked then ws else ws[i := WithPosition(ws[i], newX, newY)];
      assert ws1 == committed;
      var vx, vy, f := entity.VelocityX(), entity.VelocityY(), entity.Friction();
      assert vx == ws1[i].vx && vy == ws1[i].vy && f == ws1[i].friction;
      assert Slowed(ws1[i]) == WithVelocity(ws1[i], vx * f, vy * f);
      entity.SetVelocity(vx * f, vy * f);
    }

    /** The collision scan of a turn: every entity of another id whose box
        overlaps the mover's proposed box is handled, in list order, until the
        mover is blocked. */
    method CollideWithOthers(entity: Entity, i: nat, newX: real, newY: real, blocked0: bool, now: real)
      returns (blocked: bool)
      requires Valid() && i < |entities.entities| && entities.entities[i] == entity
      modifies entities.entities
      ensures (entities.Views(), blocked) == Scan(old(entities.Views()), i, newX, newY, 0, blocked0, now)
    {
      blocked := blocked0;
      var j := 0;
      while j < |entities.entities|
        invariant Valid() && entities.entities == old(entities.entities)
        invariant 0 <= j <= |entities.entities|
        invariant Scan(entities.Views(), i, newX, newY, j, blocked, now)
                  == Scan(old(entities.Views()), i, newX, newY, 0, blocked0, now)
      {
        blocked := CollideWith(entity, i, j, newX, newY, blocked, now);
        j := j + 1;
      }
    }

    /** One step of the collision scan: the entity at index j is handled when
        it has another id, its box overlaps the mover's proposed box and the
        mover is not blocked yet. What is left of the scan is unchanged. */
    method CollideWith(entity: Entity, i: nat, j: nat, newX: real, newY: real, blocked: bool, now: real)
      returns (blockedAfter: bool)
      requires Valid() && i < |entities.entities| && entities.entities[i] == entity
      requires j < |entities.entities|
      modifies entities.entities
      ensures Scan(entities.Views(), i, newX, newY, j + 1, blockedAfter, now)
              == Scan(old(entities.Views()), i, newX, newY, j, blocked, now)
    {
      ghost var ws := entities.Views();
      var other := entities.entities[j];
      var overlapping := entity.Id() != other.Id()
                         && Intersects(BoxAt(newX, newY, entity.width, entity.height), other.BoundingBox());
      assert overlapping == Overlapping(ws, i, newX, newY, j);
      blockedAfter := blocked;
      if overlapping && !blocked {
        var result := entity.HandleCollision(this, other, now, i, j);
        blockedAfter := result.blocked;
        assert (entities.Views(), blockedAfter) == ReactTo(ws, i, j, now);
      }
    }

    /** characterShoot: a bullet carrying the shooter's id is appended. */
    method CharacterShoot(character: Entity, dx: real, dy: real)
      requires Valid()
      modifies entities
      ensures Valid()
      ensures |entities.entities| == |old(entities.entities)| + 1
      ensures entities.entities[..|old(entities.entities)|] == old(entities.entities)
      ensures fresh(entities.entities[|old(entities.entities)|])
      ensures entities.Views() == old(entities.Views()) + [ShotFrom(character.View(), dx, dy)]
    {
      var bullet := new Entity.Bullet(character.Id(), "bullet",
                                      character.x + character.width as real / 4.0,
                                      character.y + character.height as real / 4.0,
                                      8, 8, 4.0, 0.999);
      bullet.SetVelocity(dx * bullet.Speed(), dy * bullet.Speed());
      entities.Append(bullet);
    }

    /** The entity part of toJSON for the viewer `user`, at time `timeMs`. */
    method ToJSON(user: Entity, timeMs: int) returns (snapshot: Snapshot)
      ensures snapshot == SnapshotOf(entities.Views(), user.Id(), timeMs, tickTime, width, height)
    {
      var slims: seq<EntitySlim> := [];
      var k := 0;
      while k < |entities.entities|
        invariant 0 <= k <= |entities.entities|
        invariant |slims| == k
        invariant forall m :: 0 <= m < k ==> slims[m] == Slim(entities.entities[m].View(), user.Id())
      {
        var entity := entities.entities[k];
        var slim := EntitySlim(TypeName(entity.kind), entity.Id() == user.Id(), entity.Id(), 0, 0.0,
                               entity.Name(), entity.x, entity.y, entity.width, entity.height);
        if entity.kind == CharacterType {
          slim := slim.(score := entity.score, lastHit := entity.lastHit);
        }
        slims := slims + [slim];
        k := k + 1;
      }
      snapshot := Snapshot(timeMs, tickTime, width, height, slims);
    }
  }
}
