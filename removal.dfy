/** EntityList.RemoveInactive as a function on the list: the lowest-index
    inactive entity is dropped, and only that one. */
module Removal {
  import opened States

  /** The sequence without its element at index k; unchanged when k is past the end. */
  function RemoveAt<T>(s: seq<T>, k: nat): (r: seq<T>)
    ensures k < |s| ==> |r| == |s| - 1 && r[..k] == s[..k] && r[k..] == s[k + 1..]
    ensures k >= |s| ==> r == s
  {
    if k < |s| then s[..k] + s[k + 1..] else s
  }

  /** The index of the first inactive entity, or the length when all are active. */
  function FirstInactive(ws: seq<EntityState>): (k: nat)
    ensures k <= |ws|
    ensures forall m :: 0 <= m < k ==> ws[m].active
    ensures k < |ws| ==> !ws[k].active
  {
    if |ws| == 0 then 0
    else if !ws[0].active then 0
    else 1 + FirstInactive(ws[1..])
  }

  /** The first inactive index is determined by its two defining properties. */
  lemma {:induction false} FirstInactiveIs(ws: seq<EntityState>, i: nat)
    requires i <= |ws|
    requires forall m :: 0 <= m < i ==> ws[m].active
    requires i < |ws| ==> !ws[i].active
    ensures FirstInactive(ws) == i
  {
    if i > 0 {
      FirstInactiveIs(ws[1..], i - 1);
    }
  }

  /** The list after RemoveInactive. */
  function WithoutFirstInactive(ws: seq<EntityState>): (r: seq<EntityState>)
    // at most one entity goes
    ensures |ws| - 1 <= |r| <= |ws|
    // nothing goes exactly when everything is active
    ensures |r| == |ws| <==> forall m :: 0 <= m < |ws| ==> ws[m].active
    ensures |r| == |ws| ==> r == ws
    // what goes is the lowest-index inactive entity, and the others keep their order
    ensures |r| < |ws| ==>
      var k := FirstInactive(ws);
      !ws[k].active && (forall m :: 0 <= m < k ==> ws[m].active) &&
      r == ws[..k] + ws[k + 1..]
  {
    RemoveAt(ws, FirstInactive(ws))
  }

  /** A wall is never removed: every wall of the list is still there, in order. */
  lemma {:induction false} WallsSurviveRemoval(ws: seq<EntityState>)
    requires AllWallsInert(ws)
    ensures var k := FirstInactive(ws);
      k < |ws| ==> ws[k].kind != WallType
    ensures Walls(WithoutFirstInactive(ws)) == Walls(ws)
  {
    var k := FirstInactive(ws);
    if k < |ws| {
      assert !ws[k].active;
      assert WallInert(ws[k]);
      assert ws == ws[..k] + [ws[k]] + ws[k + 1..];
      WallsConcat(ws[..k] + [ws[k]], ws[k + 1..]);
      WallsConcat(ws[..k], [ws[k]]);
      WallsConcat(ws[..k], ws[k + 1..]);
      assert Walls([ws[k]]) == [];
    }
  }

  /** The walls of a list, in order. */
  function Walls(ws: seq<EntityState>): seq<EntityState>
  {
    if |ws| == 0 then []
    else (if ws[0].kind == WallType then [ws[0]] else []) + Walls(ws[1..])
  }

  lemma {:induction false} WallsConcat(a: seq<EntityState>, b: seq<EntityState>)
    ensures Walls(a + b) == Walls(a) + Walls(b)
  {
    if |a| == 0 {
      assert a + b == b;
    } else {
      var head := if a[0].kind == WallType then [a[0]] else [];
      assert (a + b)[0] == a[0];
      assert (a + b)[1..] == a[1..] + b;
      assert Walls(a + b) == head + Walls(a[1..] + b);
      WallsConcat(a[1..], b);
      assert Walls(a) == head + Walls(a[1..]);
      assert head + (Walls(a[1..]) + Walls(b)) == (head + Walls(a[1..])) + Walls(b);
    }
  }
}
