/**
 * The pure part of level assembly: filtering positions against an exclusion list, and choosing
 * the player and door tiles by `find`, falling back to a `reduce` that keeps the nearest position
 * in Manhattan distance.
 */
module Placement {
  import opened Levels
  import opened MazeGrid

  /** Manhattan distance `|p.x - t.x| + |p.y - t.y|`. */
  function Dist(p: Pos, t: Pos): (r: nat)
    ensures r == 0 <==> p == t
    ensures r >= Abs(p.x - t.x) && r >= Abs(p.y - t.y)
  {
    Abs(p.x - t.x) + Abs(p.y - t.y)
  }

  /**
   * The exclusion filter of the selection: keeps, in order, the available positions whose
   * coordinates match no excluded position.
   */
  function Filter(available: seq<Pos>, exclude: seq<Pos>): (r: seq<Pos>)
    ensures forall p :: p in r <==> p in available && p !in exclude
    ensures multiset(r) <= multiset(available)
    ensures Distinct(available) ==> Distinct(r)
  {
    if available == [] then []
    else
      var rest := Filter(available[1..], exclude);
      assert available == [available[0]] + available[1..];
      if available[0] in exclude then rest else [available[0]] + rest
  }

  /**
   * `s[k]` is the first position of `s` at the least distance from `t`: nothing in `s` is nearer,
   * and everything listed before it is strictly farther.
   */
  predicate IsFirstNearest(s: seq<Pos>, t: Pos, k: int) {
    && 0 <= k < |s|
    && (forall j :: 0 <= j < |s| ==> Dist(s[k], t) <= Dist(s[j], t))
    && (forall j :: 0 <= j < k ==> Dist(s[j], t) > Dist(s[k], t))
  }

  lemma FirstNearestUnique(s: seq<Pos>, t: Pos, k1: int, k2: int)
    requires IsFirstNearest(s, t, k1) && IsFirstNearest(s, t, k2)
    ensures k1 == k2
  {
    var d1, d2 := Dist(s[k1], t), Dist(s[k2], t);
    assert d1 <= d2 && d2 <= d1;
  }

  /** One step of the reduction: the new position replaces the closest so far only when strictly nearer. */
  function Closer(closest: Pos, pos: Pos, t: Pos): (r: Pos)
    ensures r == closest || r == pos
    ensures Dist(r, t) <= Dist(closest, t) && Dist(r, t) <= Dist(pos, t)
  {
    if Dist(pos, t) < Dist(closest, t) then pos else closest
  }

  /** The nearest-position reduction over the suffix `s[i..]`, left to right, starting from `closest`. */
  function ReduceClosest(s: seq<Pos>, i: nat, closest: Pos, t: Pos): (r: Pos)
    requires i <= |s|
    ensures r == closest || r in s[i..]
    ensures Dist(r, t) <= Dist(closest, t)
    decreases |s| - i
  {
    if i == |s| then closest else ReduceClosest(s, i + 1, Closer(closest, s[i], t), t)
  }

  lemma {:induction false} ReduceFindsFirstNearest(s: seq<Pos>, i: nat, k: nat, t: Pos)
    requires i <= |s| && k < |s| && k <= i
    requires forall j :: 0 <= j < i ==> Dist(s[k], t) <= Dist(s[j], t)
    requires forall j :: 0 <= j < k ==> Dist(s[j], t) > Dist(s[k], t)
    ensures exists k' :: IsFirstNearest(s, t, k') && ReduceClosest(s, i, s[k], t) == s[k']
    decreases |s| - i
  {
    if i == |s| {
      assert IsFirstNearest(s, t, k);
    } else {
      var k' := if Dist(s[i], t) < Dist(s[k], t) then i else k;
      assert Closer(s[k], s[i], t) == s[k'];
      ReduceFindsFirstNearest(s, i + 1, k', t);
    }
  }

  /**
   * The player and door choice: the target itself when it is listed, and otherwise the nearest
   * listed position, found by a reduction seeded with the first one. An empty list yields nothing.
   */
  function PlaceNear(positions: seq<Pos>, t: Pos): (r: Option<Pos>)
    ensures r.Some? <==> |positions| > 0
  {
    if t in positions then Some(t)
    else if |positions| == 0 then None
    else Some(ReduceClosest(positions, 0, positions[0], t))
  }

  /**
   * Both branches of the choice return the first listed position nearest the target (when the
   * target itself is listed it is the only position at distance 0).
   */
  lemma PlaceNearIsFirstNearest(positions: seq<Pos>, t: Pos)
    requires |positions| > 0
    ensures exists k :: IsFirstNearest(positions, t, k) && PlaceNear(positions, t) == Some(positions[k])
  {
    ReduceFindsFirstNearest(positions, 0, 0, t);
    var k :| IsFirstNearest(positions, t, k) &&
             ReduceClosest(positions, 0, positions[0], t) == positions[k];
    if t in positions {
      var j :| 0 <= j < |positions| && positions[j] == t;
      assert Dist(positions[k], t) <= Dist(positions[j], t) == 0;
      assert positions[k] == t;
    }
  }

  lemma PlaceNearListed(positions: seq<Pos>, t: Pos)
    ensures PlaceNear(positions, t).Some? ==> PlaceNear(positions, t).value in positions
  {
    if |positions| > 0 {
      PlaceNearIsFirstNearest(positions, t);
    }
  }

  /**
   * In a list in scan order that lacks the target but holds the tile just left of it, the choice
   * is that left neighbour: everything listed before it is at distance 2 or more.
   */
  lemma PlaceNearTakesLeftNeighbour(positions: seq<Pos>, t: Pos)
    requires ScanOrdered(positions)
    requires t !in positions && Pos(t.x - 1, t.y) in positions
    ensures PlaceNear(positions, t) == Some(Pos(t.x - 1, t.y))
  {
    var left := Pos(t.x - 1, t.y);
    var k0 :| 0 <= k0 < |positions| && positions[k0] == left;
    forall j | 0 <= j < |positions|
      ensures Dist(positions[k0], t) <= Dist(positions[j], t)
    {
      assert positions[j] != t;
    }
    forall j | 0 <= j < k0
      ensures Dist(positions[j], t) > Dist(positions[k0], t)
    {
      assert Before(positions[j], positions[k0]);
    }
    assert IsFirstNearest(positions, t, k0);
    PlaceNearIsFirstNearest(positions, t);
    var k :| IsFirstNearest(positions, t, k) && PlaceNear(positions, t) == Some(positions[k]);
    FirstNearestUnique(positions, t, k, k0);
  }

  /**
   * `p` is listed, nothing listed is nearer `t`, and every position listed before it in scan order
   * is strictly farther.
   */
  predicate NearestListed(p: Pos, t: Pos, listed: seq<Pos>) {
    && p in listed
    && (forall q :: q in listed ==> Dist(p, t) <= Dist(q, t))
    && (forall q :: q in listed && Before(q, p) ==> Dist(p, t) < Dist(q, t))
  }

  /** On a scan-ordered list the choice is the first listed position nearest the target. */
  lemma PlaceNearIsNearestListed(positions: seq<Pos>, t: Pos)
    requires ScanOrdered(positions) && |positions| > 0
    ensures NearestListed(PlaceNear(positions, t).value, t, positions)
  {
    PlaceNearIsFirstNearest(positions, t);
    var k :| IsFirstNearest(positions, t, k) && PlaceNear(positions, t) == Some(positions[k]);
    var p := positions[k];
    assert p in positions;
    forall q | q in positions
      ensures Dist(p, t) <= Dist(q, t)
    {
      var j :| 0 <= j < |positions| && positions[j] == q;
    }
    forall q | q in positions && Before(q, p)
      ensures Dist(p, t) < Dist(q, t)
    {
      var j :| 0 <= j < |positions| && positions[j] == q;
      if j >= k {
        assert false;
      }
    }
  }

  /** Removing one element in place: the list without its element at `i`. */
  function Splice(s: seq<Pos>, i: nat): (r: seq<Pos>)
    requires i < |s|
    ensures |r| == |s| - 1
    ensures multiset(s) == multiset(r) + multiset([s[i]])
    ensures forall p :: p in r ==> p in s
    ensures Distinct(s) ==> Distinct(r) && s[i] !in r
  {
    var r := s[..i] + s[i + 1..];
    assert s == s[..i] + [s[i]] + s[i + 1..];
    assert forall k :: 0 <= k < |r| ==> r[k] == s[if k < i then k else k + 1];
    r
  }

  /** How many positions the selection loop takes from `n` candidates when asked for `count`. */
  function SelectionSize(count: int, n: nat): (r: nat)
    ensures count <= 0 ==> r == 0
    ensures count > 0 ==> r <= count && 2 * r <= n + 1 && (r == count || 2 * r >= n)
  {
    if count <= 0 then 0
    else if count < (n + 1) / 2 then count
    else (n + 1) / 2
  }

  /**
   * The state of the selection loop: the positions drawn so far and the candidates left together
   * make up the filtered list, and on a list without repeats nothing is drawn twice.
   */
  predicate Drawn(selected: seq<Pos>, left: seq<Pos>, all: seq<Pos>) {
    && multiset(selected) + multiset(left) == multiset(all)
    && (Distinct(all) ==> Distinct(selected) && Distinct(left) && forall p :: p in selected ==> p !in left)
  }

  /** One round of the loop: moving `left[index]` from the candidates to the drawn positions. */
  lemma DrawStep(selected: seq<Pos>, left: seq<Pos>, all: seq<Pos>, index: nat)
    requires Drawn(selected, left, all) && index < |left|
    ensures Drawn(selected + [left[index]], Splice(left, index), all)
  {
    var chosen, rest := left[index], Splice(left, index);
    assert multiset(selected + [chosen]) == multiset(selected) + multiset([chosen]);
    if Distinct(all) {
      assert chosen in left;
      DistinctAppend(selected, chosen);
    }
  }

  /** What the drawn positions inherit from the list they were drawn from. */
  lemma DrawnWithin(selected: seq<Pos>, left: seq<Pos>, all: seq<Pos>)
    requires Drawn(selected, left, all)
    ensures multiset(selected) <= multiset(all)
    ensures forall p :: p in selected ==> p in all
    ensures Distinct(all) ==> Distinct(selected)
  {
    forall p | p in selected
      ensures p in all
    {
      assert p in multiset(selected);
    }
  }

  /** Asked for one position, the loop takes one exactly when there is a candidate. */
  lemma SelectionOfOne(n: nat)
    ensures SelectionSize(1, n) == if n == 0 then 0 else 1
  {
  }

  /**
   * A one-position selection that avoids `a` and `b`: it takes exactly one position when some
   * listed position is neither, and none otherwise.
   */
  lemma OneSelected(positions: seq<Pos>, a: Pos, b: Pos, chosen: seq<Pos>)
    requires |chosen| == SelectionSize(1, |Filter(positions, [a, b])|)
    requires forall p :: p in chosen ==> p in positions && p !in [a, b]
    ensures |chosen| <= 1
    ensures |chosen| == 1 <==> exists q :: q in positions && q != a && q != b
  {
    var others := Filter(positions, [a, b]);
    SelectionOfOne(|others|);
    if q :| q in positions && q != a && q != b {
      assert q !in [a, b];
      assert q in others;
    }
    if |others| > 0 {
      var q := others[0];
      assert q in others;
      assert q in positions && q !in [a, b];
    }
  }

  /** The selection loop, stopped after `i` rounds with the invariant it keeps, has taken `SelectionSize`. */
  lemma SelectionSizeReached(count: int, n: nat, i: nat)
    requires i <= n
    requires i > 0 ==> i <= count && 2 * i <= n + 1
    requires !(i < count && i < n - i)
    ensures i == SelectionSize(count, n)
  {
  }
}
