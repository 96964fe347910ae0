/** One call of `update` on one player's bullet list.

    The source advances every bullet inside `forEach` and removes an
    off-screen bullet with `splice(index, 1)` from the very array being
    iterated. JavaScript's `forEach` fixes the number of visits when it
    starts and visits index k only while k is still inside the array, so:
    after a removal at k the next bullet slides into slot k and is never
    visited in that pass (it is neither moved nor checked), and the pass
    ends once the shrunken array runs out. `SweepFrom` walks the ORIGINAL
    list with a "skip the next one" flag, which is exactly that behaviour;
    `SpliceForEach` replays the index-and-splice loop literally and is
    proved to agree with it. */
module Update {
  import opened Entities

  /** How far a bullet moves in one update. */
  function Velocity(b: Bullet): int {
    b.speed * b.direction
  }

  /** `bullet.x += bullet.speed * bullet.direction`. */
  function Advance(b: Bullet): (r: Bullet)
    ensures r.x - b.x == Velocity(r)
    ensures r.(x := b.x) == b
  {
    b.(x := b.x + Velocity(b))
  }

  /** A bullet is kept when its centre lies in [0, width]; both edges count
      as on screen. */
  predicate OnScreen(b: Bullet, width: int) {
    0 <= b.x <= width
  }

  predicate AllOnScreen(bs: seq<Bullet>, width: int) {
    forall i :: 0 <= i < |bs| ==> OnScreen(bs[i], width)
  }

  /** The remainder of a `forEach` pass starting at bs[0]; `skipNext` says
      that the bullet in front of bs[0] was just spliced out, so bs[0] has
      slid into an index that has already been visited. */
  function SweepFrom(bs: seq<Bullet>, width: int, skipNext: bool): (r: seq<Bullet>)
    ensures |r| <= |bs|
    ensures AllOnScreen(bs, width) ==> AllOnScreen(r, width)
    ensures forall b | b in r :: exists a | a in bs :: b == a || b == Advance(a)
    decreases |bs|
  {
    if |bs| == 0 then []
    else
      assert bs[0] in bs && forall a | a in bs[1..] :: a in bs;
      if skipNext then [bs[0]] + SweepFrom(bs[1..], width, false)
      else
        var moved := Advance(bs[0]);
        if OnScreen(moved, width) then [moved] + SweepFrom(bs[1..], width, false)
        else SweepFrom(bs[1..], width, true)
  }

  /** One visit of the pass to the bullet at original index j. */
  lemma VisitMoves(bs: seq<Bullet>, width: int, j: nat)
    requires j < |bs| && OnScreen(Advance(bs[j]), width)
    ensures SweepFrom(bs[j..], width, false) == [Advance(bs[j])] + SweepFrom(bs[j + 1..], width, false)
  {
    assert bs[j..][1..] == bs[j + 1..];
  }

  /** A removal at original index j: the next bullet is passed over. */
  lemma VisitRemoves(bs: seq<Bullet>, width: int, j: nat)
    requires j < |bs| && !OnScreen(Advance(bs[j]), width)
    ensures j + 1 < |bs| ==> SweepFrom(bs[j..], width, false) == [bs[j + 1]] + SweepFrom(bs[j + 2..], width, false)
    ensures j + 1 == |bs| ==> SweepFrom(bs[j..], width, false) == []
  {
    assert bs[j..][1..] == bs[j + 1..];
    if j + 1 < |bs| {
      assert bs[j + 1..][1..] == bs[j + 2..];
    }
  }

  /** The effect of `update` on one player's bullets. */
  function Sweep(bs: seq<Bullet>, width: int): (r: seq<Bullet>)
    ensures |r| <= |bs|
    ensures AllOnScreen(bs, width) ==> AllOnScreen(r, width)
    ensures forall b | b in r :: exists a | a in bs :: b == a || b == Advance(a)
  {
    SweepFrom(bs, width, false)
  }

  /** How replacing or splicing out the slot right after `done` reshapes
      `done + bs[j..]`. */
  lemma SliceShapes(done: seq<Bullet>, bs: seq<Bullet>, j: nat)
    requires j < |bs|
    ensures (done + bs[j..])[|done|] == bs[j]
    ensures forall c :: (done + bs[j..])[|done| := c] == (done + [c]) + bs[j + 1..]
    ensures (done + bs[j..])[..|done|] + (done + bs[j..])[|done| + 1..] == done + bs[j + 1..]
    ensures j + 1 < |bs| ==> done + bs[j + 1..] == (done + [bs[j + 1]]) + bs[j + 2..]
  {
    assert bs[j..] == [bs[j]] + bs[j + 1..];
    if j + 1 < |bs| {
      assert bs[j + 1..] == [bs[j + 1]] + bs[j + 2..];
    }
  }

  /** The loop's bookkeeping: the array is the finished slots `done`
      followed by the original bullets from j on, and the whole pass is
      `done` followed by the pass over those. */
  ghost predicate Visited(bs: seq<Bullet>, width: int, arr: seq<Bullet>, done: seq<Bullet>, j: nat) {
    && |done| <= j <= |bs|
    && arr == done + bs[j..]
    && SweepFrom(bs, width, false) == done + SweepFrom(bs[j..], width, false)
  }

  /** Visiting a bullet that stays on screen: it is moved in place. */
  lemma MoveStep(bs: seq<Bullet>, width: int, arr: seq<Bullet>, done: seq<Bullet>, j: nat)
    requires Visited(bs, width, arr, done, j)
    requires j < |bs| && OnScreen(Advance(bs[j]), width)
    ensures |done| < |arr| && arr[|done|] == bs[j]
    ensures Visited(bs, width, arr[|done| := Advance(bs[j])], done + [Advance(bs[j])], j + 1)
  {
    SliceShapes(done, bs, j);
    VisitMoves(bs, width, j);
  }

  /** Visiting a bullet that leaves the screen: it is spliced out, and the
      bullet behind it takes its slot unvisited. */
  lemma RemoveStep(bs: seq<Bullet>, width: int, arr: seq<Bullet>, done: seq<Bullet>, j: nat)
    requires Visited(bs, width, arr, done, j)
    requires j < |bs| && !OnScreen(Advance(bs[j]), width)
    ensures |done| < |arr| && arr[|done|] == bs[j]
    ensures j + 1 < |bs| ==> Visited(bs, width, arr[..|done|] + arr[|done| + 1..], done + [bs[j + 1]], j + 2)
    ensures j + 1 == |bs| ==> Visited(bs, width, arr[..|done|] + arr[|done| + 1..], done, |bs|)
  {
    SliceShapes(done, bs, j);
    VisitRemoves(bs, width, j);
  }

  /** The loop of the source, index by index: the visit count is fixed at
      the start, index k is visited only while it is inside the array, the
      bullet there is advanced and spliced out when it has left the screen. */
  method SpliceForEach(bs: seq<Bullet>, width: int) returns (arr: seq<Bullet>)
    ensures arr == SweepFrom(bs, width, false)
  {
    arr := bs;
    var len := |arr|;
    var k := 0;
    // done: the array slots before k; j: the first original bullet not yet
    // accounted for.
    ghost var done: seq<Bullet> := [];
    ghost var j: nat := 0;
    assert bs[0..] == bs;
    while k < len
      invariant len == |bs|
      invariant 0 <= k <= len
      invariant Visited(bs, width, arr, done, j)
      invariant |done| <= k
      invariant |done| < k ==> j == |bs|
    {
      if k < |arr| {
        assert |done| == k && j < |bs|;
        var moved := Advance(arr[k]);
        if OnScreen(moved, width) {
          MoveStep(bs, width, arr, done, j);
          arr := arr[k := moved];
          done := done + [moved];
          j := j + 1;
        } else {
          RemoveStep(bs, width, arr, done, j);
          arr := arr[..k] + arr[k + 1..];
          if j + 1 < |bs| {
            done := done + [bs[j + 1]];
            j := j + 2;
          } else {
            j := |bs|;
          }
        }
      }
      k := k + 1;
    }
    assert bs[j..] == [];
  }

  /** What happens to one bullet in a pass. */
  datatype Fate = Moved | Skipped | Removed

  /** The fate of bs[i], read forwards: a bullet right behind a removed one
      is skipped; any other bullet is moved, and removed when that takes it
      off screen. */
  ghost function FateAt(bs: seq<Bullet>, width: int, i: nat): Fate
    requires i < |bs|
    decreases i
  {
    if i > 0 && FateAt(bs, width, i - 1) == Removed then Skipped
    else if OnScreen(Advance(bs[i]), width) then Moved
    else Removed
  }

  /** What a bullet contributes to the list after the pass. */
  function Outcome(b: Bullet, f: Fate): seq<Bullet> {
    match f
    case Moved => [Advance(b)]
    case Skipped => [b]
    case Removed => []
  }

  /** The contributions of bs[0], ..., bs[n-1], in their original order. */
  ghost function Replay(bs: seq<Bullet>, width: int, n: nat): seq<Bullet>
    requires n <= |bs|
  {
    if n == 0 then [] else Replay(bs, width, n - 1) + Outcome(bs[n - 1], FateAt(bs, width, n - 1))
  }

  lemma {:induction false} SweepSplitsAt(bs: seq<Bullet>, width: int, j: nat)
    requires j <= |bs|
    ensures Sweep(bs, width)
         == Replay(bs, width, j) + SweepFrom(bs[j..], width, j > 0 && FateAt(bs, width, j - 1) == Removed)
  {
    if j == 0 {
      assert bs[0..] == bs;
    } else {
      SweepSplitsAt(bs, width, j - 1);
      assert bs[j - 1..][1..] == bs[j..];
    }
  }

  /** The pass keeps the survivors in their original order, each one either
      moved once or, right behind a removed bullet, left exactly as it was. */
  lemma SweepFollowsFates(bs: seq<Bullet>, width: int)
    ensures Sweep(bs, width) == Replay(bs, width, |bs|)
  {
    SweepSplitsAt(bs, width, |bs|);
  }

  /** Every bullet moved once. */
  function AdvanceAll(bs: seq<Bullet>): (r: seq<Bullet>)
    ensures |r| == |bs|
    ensures forall i :: 0 <= i < |bs| ==> r[i] == Advance(bs[i])
  {
    seq(|bs|, i requires 0 <= i < |bs| => Advance(bs[i]))
  }

  lemma {:induction false} RemovalShortens(bs: seq<Bullet>, width: int, i: nat)
    requires i < |bs| && !OnScreen(Advance(bs[i]), width)
    ensures |SweepFrom(bs, width, false)| < |bs|
    decreases i
  {
    if OnScreen(Advance(bs[0]), width) {
      assert bs[1..][i - 1] == bs[i];
      RemovalShortens(bs[1..], width, i - 1);
    }
  }

  lemma {:induction false} NoRemovalMovesAll(bs: seq<Bullet>, width: int)
    requires forall i :: 0 <= i < |bs| ==> OnScreen(Advance(bs[i]), width)
    ensures SweepFrom(bs, width, false) == AdvanceAll(bs)
    decreases |bs|
  {
    if |bs| > 0 {
      assert forall i :: 0 <= i < |bs| - 1 ==> bs[1..][i] == bs[i + 1];
      NoRemovalMovesAll(bs[1..], width);
    }
  }

  /** A pass moves every bullet and drops none exactly when every moved
      bullet is still on screen. */
  lemma SweepKeepsAllIff(bs: seq<Bullet>, width: int)
    ensures Sweep(bs, width) == AdvanceAll(bs)
        <==> forall i :: 0 <= i < |bs| ==> OnScreen(Advance(bs[i]), width)
  {
    if forall i :: 0 <= i < |bs| ==> OnScreen(Advance(bs[i]), width) {
      NoRemovalMovesAll(bs, width);
    } else {
      var i :| 0 <= i < |bs| && !OnScreen(Advance(bs[i]), width);
      RemovalShortens(bs, width, i);
    }
  }

  /** Move every bullet, then keep exactly those on screen: a removal that
      never skips a neighbour. */
  function StableFilter(bs: seq<Bullet>, width: int): (r: seq<Bullet>)
    ensures |r| <= |bs|
    ensures forall b | b in r :: OnScreen(b, width)
    ensures forall a | a in bs && OnScreen(Advance(a), width) :: Advance(a) in r
    decreases |bs|
  {
    if |bs| == 0 then []
    else
      var moved := Advance(bs[0]);
      (if OnScreen(moved, width) then [moved] else []) + StableFilter(bs[1..], width)
  }

  /** The in-place removal agrees with the stable filter as long as no
      removal happens before the last bullet. */
  lemma {:induction false} SweepMatchesFilterWithoutInnerRemoval(bs: seq<Bullet>, width: int)
    requires forall i :: 0 <= i < |bs| - 1 ==> OnScreen(Advance(bs[i]), width)
    ensures Sweep(bs, width) == StableFilter(bs, width)
    decreases |bs|
  {
    if |bs| > 1 {
      assert forall i :: 0 <= i < |bs[1..]| - 1 ==> bs[1..][i] == bs[i + 1];
      SweepMatchesFilterWithoutInnerRemoval(bs[1..], width);
    } else if |bs| == 1 {
      assert bs[1..] == [];
    }
  }

  /** A pass never keeps fewer bullets than the stable filter does. */
  lemma {:induction false} SweepKeepsAtLeastFilter(bs: seq<Bullet>, width: int, skipNext: bool)
    ensures |SweepFrom(bs, width, skipNext)| >= |StableFilter(bs, width)|
    decreases |bs|
  {
    if |bs| > 0 {
      SweepKeepsAtLeastFilter(bs[1..], width, false);
      SweepKeepsAtLeastFilter(bs[1..], width, true);
    }
  }

  /** When every bullet moves, a removal before the last bullet makes the
      in-place splice differ from the stable filter. */
  lemma {:induction false} InnerRemovalDiffersFromFilter(bs: seq<Bullet>, width: int, i: nat)
    requires forall k :: 0 <= k < |bs| ==> Velocity(bs[k]) != 0
    requires i < |bs| - 1 && !OnScreen(Advance(bs[i]), width)
    ensures Sweep(bs, width) != StableFilter(bs, width)
    decreases i
  {
    var rest := bs[1..];
    assert forall k :: 0 <= k < |rest| ==> rest[k] == bs[k + 1];
    if OnScreen(Advance(bs[0]), width) {
      InnerRemovalDiffersFromFilter(rest, width, i - 1);
      assert Sweep(bs, width) == [Advance(bs[0])] + Sweep(rest, width);
      assert StableFilter(bs, width) == [Advance(bs[0])] + StableFilter(rest, width);
      assert Sweep(bs, width)[1..] == Sweep(rest, width);
      assert StableFilter(bs, width)[1..] == StableFilter(rest, width);
    } else {
      var tail := bs[2..];
      assert rest[1..] == tail;
      assert Sweep(bs, width) == SweepFrom(rest, width, true);
      assert SweepFrom(rest, width, true) == [rest[0]] + SweepFrom(tail, width, false);
      if OnScreen(Advance(bs[1]), width) {
        assert StableFilter(bs, width) == [Advance(bs[1])] + StableFilter(tail, width);
        assert Advance(bs[1]) != bs[1];
        assert Sweep(bs, width)[0] != StableFilter(bs, width)[0];
      } else {
        assert StableFilter(bs, width) == StableFilter(tail, width);
        SweepKeepsAtLeastFilter(tail, width, false);
        assert |Sweep(bs, width)| > |StableFilter(bs, width)|;
      }
    }
  }

  /** When every bullet moves, the in-place splice and the stable filter
      agree exactly when no bullet before the last one leaves the screen. */
  lemma SweepMatchesFilterIff(bs: seq<Bullet>, width: int)
    requires forall k :: 0 <= k < |bs| ==> Velocity(bs[k]) != 0
    ensures Sweep(bs, width) == StableFilter(bs, width)
        <==> forall i :: 0 <= i < |bs| - 1 ==> OnScreen(Advance(bs[i]), width)
  {
    if forall i :: 0 <= i < |bs| - 1 ==> OnScreen(Advance(bs[i]), width) {
      SweepMatchesFilterWithoutInnerRemoval(bs, width);
    } else {
      var i :| 0 <= i < |bs| - 1 && !OnScreen(Advance(bs[i]), width);
      InnerRemovalDiffersFromFilter(bs, width, i);
    }
  }

  /** The bullet right behind a removed one survives the pass unmoved. */
  lemma SpliceSkipsNeighbour(bs: seq<Bullet>, width: int)
    requires |bs| >= 2 && !OnScreen(Advance(bs[0]), width)
    ensures |Sweep(bs, width)| >= 1 && Sweep(bs, width)[0] == bs[1]
  {
    VisitRemoves(bs, width, 0);
    assert bs[0..] == bs;
  }

  /** Two bullets fired in the same frame reach the right edge together:
      the stable filter drops both, the source keeps the second one, unmoved,
      for one more pass. */
  lemma SpliceSkipExample()
    ensures var b := Bullet(800, 550, 5, 5, 1);
            Sweep([b, b], 800) == [b] && StableFilter([b, b], 800) == []
  {
    var b := Bullet(800, 550, 5, 5, 1);
    assert [b, b][1..] == [b];
    assert [b][1..] == [];
  }

  /** `n` consecutive passes. */
  function Sweeps(bs: seq<Bullet>, width: int, n: nat): (r: seq<Bullet>)
    ensures |r| <= |bs|
    ensures AllOnScreen(bs, width) ==> AllOnScreen(r, width)
    decreases n
  {
    if n == 0 then bs else Sweeps(Sweep(bs, width), width, n - 1)
  }

  /** A lone bullet sits at x0 + n * speed * direction after n passes for as
      long as it stays on screen, and is gone in the pass that takes it off. */
  lemma {:induction false} LoneBulletFlight(b: Bullet, width: int, n: nat)
    requires forall k :: 1 <= k <= n ==> 0 <= b.x + k * Velocity(b) <= width
    ensures Sweeps([b], width, n) == [b.(x := b.x + n * Velocity(b))]
    ensures !(0 <= b.x + (n + 1) * Velocity(b) <= width) ==> Sweeps([b], width, n + 1) == []
    decreases n
  {
    if n > 0 {
      var c := Advance(b);
      assert [b][1..] == [];
      assert Sweep([b], width) == [c] by {
        assert 0 <= b.x + 1 * Velocity(b) <= width;
      }
      forall k | 1 <= k <= n - 1
        ensures 0 <= c.x + k * Velocity(c) <= width
      {
        assert c.x + k * Velocity(c) == b.x + (k + 1) * Velocity(b);
      }
      LoneBulletFlight(c, width, n - 1);
      assert c.x + (n - 1) * Velocity(c) == b.x + n * Velocity(b);
      assert c.x + n * Velocity(c) == b.x + (n + 1) * Velocity(b);
    } else {
      assert [b][1..] == [];
    }
  }
}
