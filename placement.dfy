/** EntityList.SpawnEntity as a function: the random positions it draws are
    given as a sequence of draws, each a pair of fractions in [0, 1) scaled to
    the free room of the level on each axis. */
module Placement {
  import opened Geometry
  import opened States

  /** A draw of the random source: two fractions in [0, 1). */
  predicate ValidDraw(d: (real, real))
  {
    0.0 <= d.0 < 1.0 && 0.0 <= d.1 < 1.0
  }

  /** A fraction u of the room a: where one coordinate of a draw lands. */
  function Scale(u: real, a: real): real
  {
    u * a
  }

  /** The entity moved to the position a draw selects. */
  function Placed(e: EntityState, d: (real, real), width: int, height: int): (r: EntityState)
    ensures r == e.(x := r.x, y := r.y)
    ensures e.kind == WallType ==> r == e
  {
    WithPosition(e, Scale(d.0, (width - e.width) as real), Scale(d.1, (height - e.height) as real))
  }

  /** The entity overlaps no entity of the list that has another id. */
  predicate Free(ws: seq<EntityState>, e: EntityState)
  {
    forall m :: 0 <= m < |ws| && ws[m].id != e.id ==> !Intersects(BoundingBox(e), BoundingBox(ws[m]))
  }

  /** The index of the first draw at which the entity is free, or the number of
      draws when none is. */
  function FirstFreeDraw(ws: seq<EntityState>, e: EntityState, draws: seq<(real, real)>, width: int, height: int): (k: nat)
    ensures k <= |draws|
    ensures forall m :: 0 <= m < k ==> !Free(ws, Placed(e, draws[m], width, height))
    ensures k < |draws| ==> Free(ws, Placed(e, draws[k], width, height))
  {
    if |draws| == 0 then 0
    else if Free(ws, Placed(e, draws[0], width, height)) then 0
    else 1 + FirstFreeDraw(ws, e, draws[1..], width, height)
  }

  /** The first free draw is determined by its two defining properties. */
  lemma {:induction false} FirstFreeDrawIs(ws: seq<EntityState>, e: EntityState, draws: seq<(real, real)>,
                                           width: int, height: int, k: nat)
    requires k <= |draws|
    requires forall m :: 0 <= m < k ==> !Free(ws, Placed(e, draws[m], width, height))
    requires k < |draws| ==> Free(ws, Placed(e, draws[k], width, height))
    ensures FirstFreeDraw(ws, e, draws, width, height) == k
  {
    if k > 0 {
      assert !Free(ws, Placed(e, draws[0], width, height));
      FirstFreeDrawIs(ws, e, draws[1..], width, height, k - 1);
    }
  }

  /** A placed entity other than a wall lies inside the level when it fits. */
  lemma PlacedInBounds(e: EntityState, d: (real, real), width: int, height: int)
    requires ValidDraw(d) && e.kind != WallType
    requires 0 <= e.width <= width && 0 <= e.height <= height
    ensures InBounds(Placed(e, d, width, height), width, height)
  {
    AxisFits(d.0, (width - e.width) as real, e.width, width);
    AxisFits(d.1, (height - e.height) as real, e.height, height);
  }

  /** A fraction of the free room of an axis leaves the extent inside it. */
  lemma AxisFits(u: real, room: real, size: int, limit: int)
    requires 0.0 <= u < 1.0 && 0 <= size && room + size as real == limit as real && 0.0 <= room
    ensures InRange(Scale(u, room), size, limit)
  {
    ScaleWithin(u, room);
  }

  lemma ScaleWithin(u: real, a: real)
    requires 0.0 <= u < 1.0 && 0.0 <= a
    ensures 0.0 <= Scale(u, a) <= a
  {
    var w := 1.0 - u;
    assert 0.0 < w;
    assert 0.0 <= u * a;
    assert 0.0 <= w * a;
    assert u * a + w * a == (u + w) * a;
    assert (u + w) * a == a;
  }

  /** No two entities of different ids overlap. */
  predicate Separated(ws: seq<EntityState>)
  {
    forall a, b :: 0 <= a < |ws| && 0 <= b < |ws| && ws[a].id != ws[b].id ==>
      !Intersects(BoundingBox(ws[a]), BoundingBox(ws[b]))
  }

  /** Spawning keeps the list separated: an entity appended where it is free
      overlaps nothing of another id, from either side. */
  lemma SpawnKeepsSeparated(ws: seq<EntityState>, e: EntityState)
    requires Separated(ws) && Free(ws, e)
    ensures Separated(ws + [e])
  {
    var ws' := ws + [e];
    forall a, b | 0 <= a < |ws'| && 0 <= b < |ws'| && ws'[a].id != ws'[b].id
      ensures !Intersects(BoundingBox(ws'[a]), BoundingBox(ws'[b]))
    {
      if a == |ws| && b < |ws| {
        assert !Intersects(BoundingBox(e), BoundingBox(ws[b]));
      } else if b == |ws| && a < |ws| {
        assert !Intersects(BoundingBox(e), BoundingBox(ws[a]));
        IntersectsSymmetric(BoundingBox(e), BoundingBox(ws[a]));
      } else if a < |ws| && b < |ws| {
        assert ws'[a] == ws[a] && ws'[b] == ws[b];
      }
    }
  }
}
