# Arena engine model

A Dafny model of the simulation core of a small multiplayer arena game server,
written in Go (`main.go`). A level holds an ordered list of entities: walls,
characters (player avatars) and bullets. On every tick each entity, in list
order, takes one turn:

1. It proposes a move by its velocity.
2. The move is clamped to the level rectangle. A clamp is resolved against a
   boundary wall.
3. The move is checked against every entity of another id whose box the
   proposed box overlaps.
4. The move is committed unless the entity was blocked.
5. The velocity is multiplied by the friction.

After all turns, the first inactive entity is removed.

Collisions follow a double-dispatch table:
- Walls never react.
- Characters are blocked by characters and walls.
- Bullets are stopped and deactivated by walls.
- A bullet that hits a character of another id:
  - deactivates itself;
  - takes a point from the character and stamps it with the time;
  - gives a point to every character that carries the bullet's id, which is
    its shooter's.

The model is in two layers:

- **Values.** Modules `Geometry`, `States`, `Rules`, `Removal`, `Physics`,
  `Placement` and `Snapshots` define the behaviour as functions on the value
  view of the entity list (`seq<EntityState>`). The properties of the engine
  are proved about these functions as lemmas.
- **Objects.** Module `Engine` is the engine as it runs:
  - `Entity` objects whose fields change in place;
  - an `EntityList` holding a sequence of them;
  - a `Level` with its boundary sentinel.

  Each of its methods is proved against the value layer. Its `ensures` clause
  ties the new `Views()` of the list to the corresponding function of the old
  views. `Level.Tick`, for example, ends in exactly `TickResult` of the
  entities it started from.

The Go interface `Entity` and its three implementations become one class,
`Engine.Entity`, with a constant `kind`. For a wall, its getters return what
`Wall`'s getters return (id and name `"wall"`, always active, no velocity,
speed or friction), and its setters do nothing. Floating-point numbers are
modelled as `real`.

Where the engine's design notes and the code disagree, the model follows the
code:

- In the collision scan the code writes
  `blocked = blocked || entity.HandleCollision(level, other).Blocked`.
  Go's `||` short-circuits, so once the mover is blocked, later overlapping
  entities are not handled at all. The design notes say every call fires.
  `Physics.Scan` stops calling once blocked.
- The scan tests every entity of another id, active or not. The design notes
  say only active ones are tested. Entities deactivated earlier in the tick
  are still tested, and so are inactive entities waiting for removal (only
  one is removed per tick).
- A hit does not block a bullet, and its deactivation does not end the scan.
  A bullet that overlaps two characters therefore scores two hits in one turn.
  The design notes leave this as an open question;
  `Physics.BulletHitsTwo` states what the code does.

## Model

| member | source | states |
|---|---|---|
| Geometry.BoxAt | main.go:264-270 | a bounding box starts at the entity's position, and its right/bottom edges lie exactly width/height beyond the left/top ones (the same for characters at main.go:358-364 and bullets at main.go:454-460) |
| Geometry.Intersects | main.go:74-75 | the strict AABB overlap test (the same test at main.go:147): boxes that only touch along an edge do not overlap |
| Geometry.IntersectsSymmetric | main.go:74-75 | the strict overlap test gives the same answer whichever box is the mover's |
| Geometry.IntersectsIffSharedPoint | main.go:74-75 | for boxes of positive size, the test holds exactly when some point lies strictly inside both boxes |
| Geometry.ClampAxis | main.go:47-62 | the hitWall flag is set exactly when the coordinate leaves [0, limit - size]; unclamped coordinates are kept; when the entity fits, the result is inside the level and the flag is set exactly when the coordinate changed |
| States.TypeName | main.go:186-197 | EntityType.String never yields the "unknown" tag for any kind |
| States.KindOfTag | main.go:186-197 | reading a tag back gives a kind whose tag it is |
| States.TypeNameRoundTrip | main.go:186-197 | every kind is recovered from its tag, so the three tags are distinct |
| States.WithActive | main.go:330-332 | SetActive on the view: a character or bullet takes the given flag and nothing else changes; a wall (main.go:238) is unchanged |
| States.WithPosition | main.go:374-377 | SetPosition on the view: a character or bullet takes the given position and nothing else changes; a wall (main.go:280) is unchanged |
| States.WithVelocity | main.go:379-382 | SetVelocity on the view: a character or bullet takes the given velocity and nothing else changes; a wall (main.go:282) is unchanged |
| States.Struck | main.go:322-328 | AdjScore(-1) then AdjLastHit(now) on the view (called at main.go:492-493): the score drops by one, lastHit becomes the time of the hit, nothing else changes |
| Rules.Resolve | main.go:488-512 | HandleCollision table: blocked exactly when a moving non-wall meets a wall or a character meets a character; only bullets deactivate (against walls and characters of another id); a hit is a bullet meeting a character of another id, and a hit never blocks |
| Rules.Award | main.go:494-498 | the scorer update: every character whose id is the bullet's gains one point and every other entry is kept (stated by BulletHitsCharacter); the list keeps its length |
| Rules.Apply | main.go:488-512 | a reaction carried out on the list: the mover deactivated if the table says so; on a hit, the target struck and the shooters credited (stated by BulletHitsCharacter, BulletHitsWall and ReactKeepsMotion); the list keeps its length |
| Rules.React | main.go:488-512 | HandleCollision on the list: the list after the reaction has the same length, paired with the blocked flag of the table |
| Rules.ReactToBoundary | main.go:66-68 | HandleCollision against the boundary sentinel, which is a wall |
| Rules.ReactTo | main.go:76 | HandleCollision against the entity at index j of the list |
| Rules.CharacterAndWallReactions | main.go:392-402 | Character.HandleCollision changes nothing and blocks exactly against characters and walls; Wall.HandleCollision (main.go:292-296) changes nothing and never blocks |
| Rules.BulletHitsCharacter | main.go:488-501 | a bullet hitting a character of another id is deactivated and not blocked; the target gets score - 1 and lastHit = now; every character with the bullet's id gets score + 1; nothing else changes |
| Rules.BulletHitsWall | main.go:502-507 | a bullet against a wall of the list is deactivated and blocked and nothing else changes |
| Rules.BulletHitsBoundary | main.go:67 | a bullet against the boundary sentinel (main.go:502-507) is deactivated and blocked and nothing else changes, whether or not the list holds a wall |
| Rules.BulletIgnores | main.go:509-511 | a bullet against a bullet, or against a character of its own id, changes nothing and is not blocked |
| Rules.ShotFrom | main.go:24-35 | the bullet fired by a character is an active bullet carrying the shooter's id |
| Rules.ShotInBounds | main.go:28-31 | the bullet of a shooter inside the level, at least 11 by 11, starts inside the level (avatars are 16 by 16, main.go:615-616) |
| Rules.ShotOfSmallShooterOutside | main.go:28-31 | an 8 by 8 shooter at the right edge of a 100-wide level fires a bullet that starts partly outside, so the size bound is needed |
| Rules.ShotSparesShooter | main.go:489 | a bullet and the character that fired it never react to each other in either direction |
| Removal.RemoveAt | main.go:122 | deleting index k keeps the prefix before k and the suffix after k; an index past the end changes nothing |
| Removal.FirstInactive | main.go:120-121 | the index found is that of an inactive entity, and every entity before it is active (or every entity is active) |
| Removal.FirstInactiveIs | main.go:120-124 | the index found by the removal scan is the only index with those two properties |
| Removal.WithoutFirstInactive | main.go:116-126 | RemoveInactive removes at most one entity; it removes none exactly when all are active; otherwise it removes the lowest-index inactive one and keeps the order of the rest |
| Removal.WallsSurviveRemoval | main.go:234-236 | since a wall is always active, the removed entity is never a wall and the walls of the list survive removal, in order |
| Physics.Proposal | main.go:43-62 | when no clamp happens the proposed position is position + velocity; a clamp happens exactly when that sum leaves the level on some axis |
| Physics.Overlapping | main.go:72-75 | the entities the scan tests: another id and an overlapping box; the mover never tests itself, nor its shooter or its own bullets |
| Physics.AtBoundary | main.go:64-68 | the boundary part of a turn: the sentinel is consulted only when a clamp happened (stated by StepEffect, BulletStoppedByWall and ClampedTurnAlone); the list keeps its length |
| Physics.Scan | main.go:71-79 | the collision scan from index j on, with Go's short-circuiting `blocked ||`; the list keeps its length (its behaviour is stated by the Scan lemmas below) |
| Physics.Slowed | main.go:86 | friction changes only the velocity, and never a wall |
| Physics.Settle | main.go:81-86 | the position is committed unless blocked, then friction applies (stated by UnblockedStep, CharacterBlocked, BulletStoppedByWall and TickAppliesFriction); the list keeps its length |
| Physics.Step | main.go:41-87 | the turn of entity i: propose, boundary, scan and settle; the list keeps its length |
| Physics.MoveFrom | main.go:41-87 | the turns of entities i, i+1, ... in list order; the list keeps its length |
| Physics.MoveAll | main.go:41-87 | the turns of every entity in list order; the list keeps its length |
| Physics.TickResult | main.go:39-90 | the turns, then RemoveInactive; at most one entity is lost |
| Physics.ReactKeepsMotion | main.go:488-512 | a collision changes no position, velocity, size, id or kind; it may only deactivate a bullet and change a character's score and lastHit |
| Physics.ScanKeepsMotion | main.go:71-79 | the collision scan moves nothing, and a mover that is blocked stays blocked |
| Physics.StepEffect | main.go:41-87 | in one turn the mover moves once (it stays put or moves by exactly its velocity to a position in the level, and its velocity is scaled by its friction); every other entity keeps its motion |
| Physics.MoveFromEffect | main.go:41-87 | across the turns from index i on, entities before i keep their motion and entities from i on move exactly once |
| Physics.TickMovesEachOnce | main.go:39-87 | in a tick every entity moves once: walls do not change; others stay or move by exactly their velocity into the level; only bullets deactivate; nothing reactivates |
| Physics.TickKeepsInBounds | main.go:39-90 | if every entity starts the tick inside the level, every entity left after the tick is inside the level |
| Physics.TickKeepsWalls | main.go:39-90 | a tick leaves every wall unchanged and in the list, in order |
| Physics.TickAppliesFriction | main.go:85-86 | every non-wall ends the tick with its velocity multiplied by its friction, blocked or not |
| Physics.ScanBlockedBy | main.go:71-79 | an overlapping entity of another id that blocks the mover makes the scan end blocked |
| Physics.ScanBlockedBulletInactive | main.go:502-506 | a bullet that ends the scan blocked has been deactivated |
| Physics.ScanQuiet | main.go:71-79 | with no overlapping entity of another id the scan changes nothing; same-id entities (a shooter and its bullets) are never tested |
| Physics.ScanSkips | main.go:71-79 | entities that do not overlap are passed over without effect |
| Physics.ScanBlockedStops | main.go:76 | once the mover is blocked the scan handles nothing more (Go's short-circuiting `||`): the list is unchanged and the mover stays blocked |
| Physics.ScanBlockedOnlyBy | main.go:71-79 | the scan ends blocked exactly when the mover was blocked already or some overlapping entity of another id blocks it: blocked is the OR of the reactions |
| Physics.ScanIgnored | main.go:71-79 | when every overlapping entity reacts with no effect and no block, the scan changes nothing |
| Physics.UnblockedStep | main.go:81-86 | a mover that is not clamped and not blocked is committed at exactly its position plus its velocity, and slowed by its friction |
| Physics.FreeMove | main.go:41-87 | a mover that is not clamped, and all of whose overlaps are without effect, is the only entity to change: it moves by its velocity and is slowed |
| Physics.NonBulletScanQuiet | main.go:71-79 | the scan of a character or a wall changes no entity of the list, blocked or not (Character and Wall HandleCollision at main.go:392-402 and main.go:292-296 mutate nothing) |
| Physics.CharacterBlocked | main.go:64-86 | a character whose move leaves the level, or overlaps a character or a wall of another id, keeps its position and has its velocity scaled by its friction; the new list is exactly that, so no other entity changes |
| Physics.WallTurnChangesNothing | main.go:41-86 | a wall's turn leaves the whole list unchanged: its setters are no-ops and its HandleCollision does nothing |
| Physics.CharacterMoves | main.go:81-86 | a character that stays inside the level and overlaps only bullets passes through them: it moves by exactly its velocity and is slowed, and nothing else changes (main.go:398-401) |
| Physics.BulletFlies | main.go:81-86 | a bullet in free flight that stays inside the level and overlaps only bullets moves by exactly its velocity, stays active and is slowed; nothing else changes |
| Physics.BulletMoves | main.go:81-86 | a bullet that stays inside the level and overlaps no wall is never blocked: whatever it hits, it ends at exactly its position plus its velocity, slowed by its friction |
| Physics.ClampedTurnAlone | main.go:64-79 | a non-wall whose move leaves the level is blocked by the boundary, so the scan handles no one and no other entity changes in that turn |
| Physics.BulletStoppedByWall | main.go:502-506 | a bullet whose move leaves the level or overlaps a wall ends its turn inactive, where it was |
| Physics.BulletHitsOne | main.go:488-501 | a bullet in the level overlapping one character: it moves by its velocity and goes inactive; the target is struck; shooters gain a point; nothing else changes |
| Physics.BulletHitsTwo | main.go:76 | a bullet in the level overlapping two characters strikes both in one turn, and its shooters gain two points |
| Placement.FirstFreeDraw | main.go:134-158 | the draw SpawnEntity settles on is free of overlap, and every earlier draw was not |
| Placement.FirstFreeDrawIs | main.go:134-158 | that draw is the only one with those two properties |
| Placement.Placed | main.go:136-139 | a draw changes only the entity's position, and never a wall's |
| Placement.Free | main.go:141-152 | the entity overlaps no entity of the list that has another id |
| Placement.PlacedInBounds | main.go:136-139 | a position drawn from fractions in [0, 1) puts a non-wall that fits inside the level |
| Placement.SpawnKeepsSeparated | main.go:141-157 | appending an entity where it overlaps no entity of another id keeps a separated list separated |
| Snapshots.SnapshotOf | main.go:555-585 | the snapshot lists one entry per entity, the k-th being the projection of the k-th entity, with the given time, tick time and level size |
| Snapshots.Slim | main.go:557-570 | the projection of one entity for a viewer (stated by SlimFaithful) |
| Snapshots.SlimFaithful | main.go:557-570 | an entry carries the entity's kind tag, id, name and geometry; you = id equals the viewer's; score and lastHit for characters, zero otherwise |
| Snapshots.OwnBulletsMarked | main.go:559 | a viewer's own bullets are marked as theirs too, since they carry the viewer's id |
| Engine.Entity.Wall | main.go:223-228 | a new wall reports id and name "wall", is active and does not move |
| Engine.Entity.Character | main.go:298-312 | a new character reports the given fields, active, with zero score and velocity |
| Engine.Entity.Bullet | main.go:404-416 | a new bullet reports the given fields, active, with zero velocity |
| Engine.Entity.View | main.go:230-290 | what an entity reports is consistent with its fields; a wall reports the constant getters of Wall |
| Engine.Entity.BoundingBox | main.go:358-364 | the object's bounding box is the box of its view |
| Engine.Entity.SetActive | main.go:330-332 | SetActive sets the flag of a character or bullet and is a no-op on a wall (main.go:238) |
| Engine.Entity.SetPosition | main.go:374-377 | SetPosition moves a character or bullet and is a no-op on a wall (main.go:280) |
| Engine.Entity.SetVelocity | main.go:379-382 | SetVelocity sets the velocity of a character or bullet and is a no-op on a wall (main.go:282) |
| Engine.Entity.AdjScore | main.go:322-324 | the character's score changes by the delta and nothing else changes |
| Engine.Entity.AdjLastHit | main.go:326-328 | the character's lastHit becomes the given time and nothing else changes |
| Engine.Entity.HandleCollision | main.go:488-512 | the entity list after the call, and the blocked flag, are exactly those of the collision table applied to the list before it |
| Engine.EntityList.constructor | main.go:97-100 | a new list is empty |
| Engine.EntityList.CreditShooter | main.go:494-498 | every character carrying the shooter's id gains one point; nothing else changes |
| Engine.EntityList.Append | main.go:102-106 | the entity goes last; everything before it is kept |
| Engine.EntityList.Delete | main.go:122 | the entity at the index leaves the list; the others keep their order |
| Engine.EntityList.RemoveInactive | main.go:116-126 | the list loses exactly the entity WithoutFirstInactive removes |
| Engine.EntityList.SpawnEntity | main.go:128-169 | the entity is placed at the first free draw and appended, overlapping nothing of another id; with no free draw the list is unchanged |
| Engine.EntityList.Overlaps | main.go:142-152 | the overlap scan answers true exactly when the entity overlaps some entity of another id |
| Engine.EntityList.TryDraw | main.go:136-152 | one draw: the entity is moved to the position Placed gives for the draw, and the answer is true exactly when it then overlaps some entity of another id |
| Engine.Level.constructor | main.go:171-176 | a new level has the given size, an empty list and no tick time |
| Engine.Level.Tick | main.go:39-90 | the list after the tick is TickResult of the list before; the object sequence loses exactly the first inactive entity; tickTime is the measured duration |
| Engine.Level.Turn | main.go:41-87 | one turn changes the list exactly as Physics.Step |
| Engine.Level.Settle | main.go:81-86 | commit-unless-blocked then friction, exactly as Physics.Settle |
| Engine.Level.CollideWithOthers | main.go:71-79 | the in-place scan changes the list and sets blocked exactly as Physics.Scan |
| Engine.Level.CollideWith | main.go:72-78 | one step of the scan: the entity at index j is handled exactly when it has another id, overlaps, and the mover is not yet blocked; the rest of the scan is unchanged |
| Engine.Level.CharacterShoot | main.go:23-37 | exactly one fresh entity, the bullet of ShotFrom, is appended after the unchanged list |
| Engine.Level.ToJSON | main.go:541-586 | the snapshot built is SnapshotOf the entities for the viewer's id, with the level's size and last tick time |

## Left out

- Networking is not modelled. This covers the websocket connection handler, the HTTP server, the game registry and control messages (main.go:514-540 and from main.go:588 on).
- The JSON encoding of snapshots is not modelled. `ToJSON` builds the record `json.Marshal` would encode.
- Locks (`sync.RWMutex`) and goroutines are not modelled. Every operation is atomic here.
- SpawnEntity's unlock-sleep-relock back-off (main.go:160-167) is left out as a consequence.
- `EntityList.Iterate` takes a callback. It is modelled by the loops of its callers (`Tick`, `CollideWithOthers`, `CreditShooter`, `ToJSON`), each over the list in order. `Overlaps` models the direct loop over the entities in SpawnEntity (main.go:143).
- Clock reads are parameters. `time.Now().UnixMilli()` in a hit becomes `now`, one value for the whole tick (the engine reads the clock at each hit). The measured tick duration becomes `elapsed`. The snapshot time becomes `timeMs`.
- Engine.EntityList.SpawnEntity: `rand.Float64` becomes a finite sequence of draws. The engine draws forever until a free position turns up; the model reports `false` and appends nothing when every given draw is taken.
- Floating point is modelled as exact `real` arithmetic. Rounding and NaN are not captured.
- Engine.EntityList.Append and Engine.EntityList.SpawnEntity require that the entity is not already in the list. Every caller appends a newly built entity. Aliasing one object twice in the list is therefore not modelled.
- The global `BoundaryWall` is modelled as each level's own `boundary` wall. A wall has no state that a collision can change, so sharing it is not observable.
- The `"unknown"` tag of `EntityType.String` is unreachable: the model has exactly three kinds.
- Character movement input, including normalising a direction by its length, belongs to the connection handler and is not modelled. `CharacterShoot` takes the direction as given.
