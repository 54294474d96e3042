/** The loops of insert_element, delete_element and search_element (skiplist.h), written
    over the arena as values: the descent that records update[], the raising of the list
    level, the splice of a new node and the unlinking of a deleted one. The SkipList class
    runs them on its fields. */
module LinkSurgery {
  import opened Wrappers
  import opened Entries
  import opened SkipLinks

  /** The descent from _skip_list_level down to 0 (skiplist.h:182-189, 234-243, 266-273):
      on each level walk right while the next key is below the search key, then record the
      node reached in update[i]. update[] starts all nullptr, as after memset. The ghost cuts
      say where the walk stopped on each level; succ is current->forward[0] afterwards. */
  method Descend(keys: seq<int32>, fwd: seq<seq<Link>>, ghost levels: seq<seq<nat>>, top: nat, maxLevel: nat, key: int32)
    returns (update: seq<Link>, succ: Link)
    requires Core(keys, fwd, levels, maxLevel) && TopOk(levels, top, maxLevel)
    ensures |update| == maxLevel + 1
    ensures forall i :: 0 <= i <= top ==> update[i] == To(Pred(levels[i], Cut(keys, levels[i], key)))
    ensures forall i :: top < i <= maxLevel ==> update[i] == Null
    ensures succ == Succ(levels[0], Cut(keys, levels[0], key))
  {
    update := seq(maxLevel + 1, _ => Null);
    var cur: nat := 0;
    ghost var c: nat := 0;
    var i: int := top;
    while i >= 0
      invariant Recorded(keys, levels, key, update, top, maxLevel, i)
      invariant 0 <= i ==> Below(keys, levels[i], key, c) && cur == Pred(levels[i], c)
      invariant i < 0 ==> c == Cut(keys, levels[0], key) && cur == Pred(levels[0], c)
      decreases i + 1
    {
      ghost var l := levels[i];
      assert Chain(fwd, i, l) && Increasing(keys, l);
      cur, c := WalkLevel(keys, fwd, l, i, cur, c, key);
      CutUnique(keys, l, key, c);
      update := update[i := To(cur)];
      if i > 0 {
        assert Increasing(keys, levels[i - 1]);
        if c > 0 { TowerDown(keys, fwd, levels, maxLevel, i, c); }
        c := DescendStep(keys, l, levels[i - 1], c, key);
      }
      i := i - 1;
    }
    assert Chain(fwd, 0, levels[0]);
    ChainNext(fwd, 0, levels[0], c);
    succ := fwd[cur][0];
  }

  /** The descent's record after finishing the levels above i: each holds the node in front
      of the level's cut; the levels above the list level hold nullptr. */
  ghost predicate Recorded(keys: seq<int32>, levels: seq<seq<nat>>, key: int32, update: seq<Link>, top: nat, maxLevel: nat, i: int) {
    -1 <= i <= top <= maxLevel && |update| == maxLevel + 1 && |levels| == maxLevel + 1 &&
    (forall j :: i < j <= top ==> update[j] == To(Pred(levels[j], Cut(keys, levels[j], key)))) &&
    (forall j :: top < j <= maxLevel ==> update[j] == Null)
  }

  /** One level of the descent (skiplist.h:184-187): walk right while the next node's key
      is below the search key. It stops at the cut of the level. */
  method WalkLevel(keys: seq<int32>, fwd: seq<seq<Link>>, ghost l: seq<nat>, i: nat, cur: nat, ghost c: nat, key: int32)
    returns (cur': nat, ghost c': nat)
    requires |keys| == |fwd| && Chain(fwd, i, l) && Increasing(keys, l)
    requires Below(keys, l, key, c) && cur == Pred(l, c)
    ensures IsCut(keys, l, key, c') && cur' == Pred(l, c')
  {
    cur', c' := cur, c;
    ChainNext(fwd, i, l, c');
    while fwd[cur'][i] != Null && keys[fwd[cur'][i].node] < key
      invariant Below(keys, l, key, c') && cur' == Pred(l, c')
      invariant cur' < |fwd| && i < |fwd[cur']| && fwd[cur'][i] == Succ(l, c')
      decreases |l| - c'
    {
      cur' := fwd[cur'][i].node;
      c' := c' + 1;
      ChainNext(fwd, i, l, c');
    }
    CutAtExit(keys, l, key, c');
  }

  /** insert_element's raise of the list level (skiplist.h:200-205): every level above the
      old one up to the new node's level starts its walk at the header. */
  method RaiseLevels(update: seq<Link>, top: nat, rl: nat) returns (u: seq<Link>)
    requires top < rl < |update|
    ensures |u| == |update|
    ensures forall i :: 0 <= i < |u| ==> u[i] == if top < i <= rl then To(0) else update[i]
  {
    u := update;
    for i := top + 1 to rl + 1
      invariant |u| == |update|
      invariant forall j :: 0 <= j < |u| ==> u[j] == if top < j < i then To(0) else update[j]
    {
      u := u[i := To(0)];
    }
  }

  /** insert_element's splice on levels 0..rl (skiplist.h:209-214): the new node n takes
      over update[i]'s pointer and update[i] points at n. */
  method Splice(fwd: seq<seq<Link>>, update: seq<Link>, n: nat, rl: nat, ghost levels: seq<seq<nat>>, ghost cuts: seq<nat>)
    returns (f: seq<seq<Link>>, ghost ls: seq<seq<nat>>)
    requires |levels| == |cuts| == |update| && rl < |levels|
    requires 0 < n < |fwd| && |fwd[n]| == rl + 1
    requires forall i :: 0 <= i < |levels| ==> Chain(fwd, i, levels[i]) && NodesDistinct(levels[i]) && n !in levels[i]
    requires forall i :: 0 <= i <= rl ==> cuts[i] <= |levels[i]| && update[i] == To(Pred(levels[i], cuts[i]))
    ensures |f| == |fwd| && forall m :: 0 <= m < |fwd| ==> |f[m]| == |fwd[m]|
    ensures |ls| == |levels|
    ensures forall i :: 0 <= i <= rl ==> ls[i] == Ins(levels[i], cuts[i], n)
    ensures forall i :: rl < i < |levels| ==> ls[i] == levels[i]
    ensures forall i :: 0 <= i < |levels| ==> Chain(f, i, ls[i])
  {
    f, ls := fwd, levels;
    for i := 0 to rl + 1
      invariant |f| == |fwd| && forall m :: 0 <= m < |fwd| ==> |f[m]| == |fwd[m]|
      invariant |ls| == |levels|
      invariant forall j :: 0 <= j < i ==> ls[j] == Ins(levels[j], cuts[j], n)
      invariant forall j :: i <= j < |levels| ==> ls[j] == levels[j]
      invariant forall j :: 0 <= j < |levels| ==> Chain(f, j, ls[j])
    {
      var u := update[i].node;
      SpliceChain(f, i, levels[i], cuts[i], n);
      ghost var f0 := f;
      f := f[n := f[n][i := f[u][i]]];
      ghost var f1 := f;
      f := f[u := f[u][i := To(n)]];
      forall j | 0 <= j < |levels| && j != i ensures Chain(f, j, ls[j]) {
        ChainFrame(f0, j, ls[j], n, i, f0[u][i]);
        ChainFrame(f1, j, ls[j], u, i, To(n));
      }
      ls := ls[i := Ins(levels[i], cuts[i], n)];
    }
  }

  /** delete_element's unlink (skiplist.h:278-283): from level 0 up, while update[i] still
      points at the node x, let update[i] take over x's pointer; stop at the first level
      where it does not. That is exactly the levels below x's slot count. */
  method Unlink(fwd: seq<seq<Link>>, update: seq<Link>, x: nat, top: nat, ghost levels: seq<seq<nat>>, ghost cuts: seq<nat>)
    returns (f: seq<seq<Link>>, ghost ls: seq<seq<nat>>)
    requires |levels| == |cuts| == |update| && top < |levels|
    requires 0 < x < |fwd| && |fwd[x]| <= top + 1
    requires forall i :: 0 <= i < |levels| ==> Chain(fwd, i, levels[i]) && NodesDistinct(levels[i])
    requires forall i :: 0 <= i <= top ==> cuts[i] <= |levels[i]| && update[i] == To(Pred(levels[i], cuts[i]))
    requires forall i :: 0 <= i < |levels| ==> (x in levels[i] <==> i < |fwd[x]|)
    requires forall i :: 0 <= i < |levels| && x in levels[i] ==> cuts[i] < |levels[i]| && levels[i][cuts[i]] == x
    ensures |f| == |fwd| && forall m :: 0 <= m < |fwd| ==> |f[m]| == |fwd[m]|
    ensures |ls| == |levels|
    ensures forall i :: 0 <= i < |fwd[x]| ==> ls[i] == Del(levels[i], cuts[i])
    ensures forall i :: |fwd[x]| <= i < |levels| ==> ls[i] == levels[i]
    ensures forall i :: 0 <= i < |levels| ==> Chain(f, i, ls[i])
  {
    f, ls := fwd, levels;
    var i := 0;
    while i <= top
      invariant 0 <= i <= |fwd[x]|
      invariant |f| == |fwd| && forall m :: 0 <= m < |fwd| ==> |f[m]| == |fwd[m]|
      invariant f[x] == fwd[x]
      invariant |ls| == |levels|
      invariant forall j :: 0 <= j < i ==> ls[j] == Del(levels[j], cuts[j])
      invariant forall j :: i <= j < |levels| ==> ls[j] == levels[j]
      invariant forall j :: 0 <= j < |levels| ==> Chain(f, j, ls[j])
    {
      var u := update[i].node;
      ChainNext(f, i, levels[i], cuts[i]);
      if f[u][i] != To(x) {
        assert x !in levels[i];
        break;
      }
      assert x in levels[i] by {
        assert cuts[i] < |levels[i]| && levels[i][cuts[i]] == x;
      }
      UnlinkChain(f, i, levels[i], cuts[i]);
      assert u != x by {
        if cuts[i] > 0 { assert levels[i][cuts[i] - 1] != levels[i][cuts[i]]; }
      }
      ghost var f0 := f;
      f := f[u := f[u][i := f[x][i]]];
      forall j | 0 <= j < |levels| && j != i ensures Chain(f, j, ls[j]) {
        ChainFrame(f0, j, ls[j], u, i, f0[x][i]);
      }
      ls := ls[i := Del(levels[i], cuts[i])];
      i := i + 1;
    }
    assert i == |fwd[x]|;
  }

  /** delete_element's shrink of the list level (skiplist.h:285-288): while the level is
      above 0 and the header's pointer on it is nullptr, go one level down. The loop stops
      at the highest non-empty level, or 0. */
  method ShrinkLevel(fwd: seq<seq<Link>>, top: nat, ghost levels: seq<seq<nat>>, maxLevel: nat) returns (t: nat)
    requires |levels| == maxLevel + 1 && top <= maxLevel
    requires forall i :: 0 <= i <= maxLevel ==> Chain(fwd, i, levels[i])
    requires forall i :: top < i <= maxLevel ==> levels[i] == []
    ensures t <= top && TopOk(levels, t, maxLevel)
  {
    t := top;
    assert Chain(fwd, t, levels[t]);
    while t > 0 && fwd[0][t] == Null
      invariant t <= top && Chain(fwd, t, levels[t])
      invariant forall i :: t < i <= maxLevel ==> levels[i] == []
    {
      t := t - 1;
      assert Chain(fwd, t, levels[t]);
    }
  }
}
