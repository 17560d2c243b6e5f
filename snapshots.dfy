/** The snapshot Level.toJSON builds for one viewer: the fields it picks from
    every entity, before the JSON encoding. */
module Snapshots {
  import opened States

  /** One entity of a snapshot (EntitySlim). */
  datatype EntitySlim = EntitySlim(
    typeName: string, you: bool, id: string, score: int, lastHit: real,
    name: string, x: real, y: real, width: int, height: int)

  /** The whole snapshot: time of the snapshot, duration of the last tick, level
      size and the entities in list order. */
  datatype Snapshot = Snapshot(
    timeMs: int, tickTimeMs: real, width: int, height: int, entities: seq<EntitySlim>)

  /** The projection of one entity for the viewer whose id is `viewer`. */
  function Slim(e: EntityState, viewer: string): (s: EntitySlim)
  {
    EntitySlim(TypeName(e.kind), e.id == viewer, e.id,
               if e.kind == CharacterType then e.score else 0,
               if e.kind == CharacterType then e.lastHit else 0.0,
               e.name, e.x, e.y, e.width, e.height)
  }

  /** The snapshot of a list of entities. */
  function SnapshotOf(ws: seq<EntityState>, viewer: string, timeMs: int, tickTime: real, width: int, height: int): (s: Snapshot)
    ensures |s.entities| == |ws|
    ensures forall k :: 0 <= k < |ws| ==> s.entities[k] == Slim(ws[k], viewer)
    ensures s.width == width && s.height == height && s.timeMs == timeMs && s.tickTimeMs == tickTime
  {
    Snapshot(timeMs, tickTime, width, height, seq(|ws|, k requires 0 <= k < |ws| => Slim(ws[k], viewer)))
  }

  /** What a snapshot entry tells the viewer: the kind (read back from its tag),
      the identity, name and geometry of the entity; `you` exactly for entities
      carrying the viewer's id; score and lastHit only for characters. */
  lemma SlimFaithful(e: EntityState, viewer: string)
    ensures var s := Slim(e, viewer);
      KindOfTag(s.typeName) == Some(e.kind)
      && s.id == e.id && s.name == e.name
      && s.x == e.x && s.y == e.y && s.width == e.width && s.height == e.height
      && (s.you <==> e.id == viewer)
      && (e.kind == CharacterType ==> s.score == e.score && s.lastHit == e.lastHit)
      && (e.kind != CharacterType ==> s.score == 0 && s.lastHit == 0.0)
  {
    TypeNameRoundTrip(e.kind);
  }

  /** The viewer's own bullets are marked `you` too, since a bullet carries the
      id of the character that fired it. */
  lemma OwnBulletsMarked(c: EntityState, b: EntityState)
    requires c.kind == CharacterType && b.kind == BulletType && b.id == c.id
    ensures Slim(b, c.id).you && Slim(c, c.id).you
  {
  }
}
