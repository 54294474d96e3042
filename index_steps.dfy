/** What insert_element and delete_element do to the whole index: the structural invariant
    survives the splice or the unlink, the list level stays exact, and the view of level 0
    changes as the reference InsertEntry and RemoveEntry say. */
module IndexSteps {
  import opened Wrappers
  import opened Entries
  import opened SkipLinks
  import opened LinkSurgery

  /** The cut of the key on every level. */
  ghost function Cuts(keys: seq<int32>, levels: seq<seq<nat>>, key: int32): (cs: seq<nat>)
    ensures |cs| == |levels|
    ensures forall i :: 0 <= i < |levels| ==> cs[i] == Cut(keys, levels[i], key)
  {
    seq(|levels|, i requires 0 <= i < |levels| => Cut(keys, levels[i], key))
  }

  /** On every level the cut separates the smaller keys from the rest. */
  lemma CutsSeparate(keys: seq<int32>, fwd: seq<seq<Link>>, levels: seq<seq<nat>>, maxLevel: nat, key: int32)
    requires Core(keys, fwd, levels, maxLevel)
    ensures forall i :: 0 <= i <= maxLevel ==> IsCut(keys, levels[i], key, Cuts(keys, levels, key)[i])
  {
    forall i | 0 <= i <= maxLevel ensures IsCut(keys, levels[i], key, Cuts(keys, levels, key)[i]) {
      CutSeparates(keys, levels[i], key);
    }
  }

  /** A key that the view does not hold is on no node of level 0. */
  lemma AbsentKey(keys: seq<int32>, values: seq<string>, l: seq<nat>, key: int32)
    requires InBounds(keys, l) && |values| == |keys| && !HasKey(View(keys, values, l), key)
    ensures forall j :: 0 <= j < |l| ==> keys[l[j]] != key
  {
    forall j | 0 <= j < |l| ensures keys[l[j]] != key {
      assert View(keys, values, l)[j].key == keys[l[j]];
    }
  }

  /** The node in the arena that is on level 0 is on every level it has a slot for, and its
      slot count is at least 1 and at most one more than the list level. */
  lemma NodeHeight(keys: seq<int32>, fwd: seq<seq<Link>>, levels: seq<seq<nat>>, maxLevel: nat, top: nat, x: nat)
    requires Core(keys, fwd, levels, maxLevel) && TopOk(levels, top, maxLevel)
    requires 0 < x < |fwd| && x in levels[0]
    ensures 0 < |fwd[x]| <= top + 1
    ensures forall i :: 0 <= i <= maxLevel ==> (x in levels[i] <==> i < |fwd[x]|)
  {
    var j :| 0 <= j < |levels[0]| && levels[0][j] == x;
    assert |fwd[x]| <= maxLevel + 1;
    assert x in levels[0] <==> x in levels[0] && 0 < |fwd[x]|;
    var h := |fwd[x]| - 1;
    assert x in levels[h];
  }

  /** insert_element on a new key, after the new node n = |keys| with rl + 1 slots has been
      appended and spliced in at the key's cut on levels 0..rl: the structural invariant
      holds for the grown arena. */
  lemma InsertKeepsCore(keys: seq<int32>, fwd: seq<seq<Link>>, levels: seq<seq<nat>>, maxLevel: nat,
                        key: int32, rl: nat, cuts: seq<nat>, f: seq<seq<Link>>, ls: seq<seq<nat>>)
    requires Core(keys, fwd, levels, maxLevel) && rl <= maxLevel && |cuts| == maxLevel + 1
    requires forall j :: 0 <= j < |levels[0]| ==> keys[levels[0][j]] != key
    requires forall i :: 0 <= i <= rl ==> cuts[i] <= |levels[i]| && IsCut(keys, levels[i], key, cuts[i])
    requires |f| == |fwd| + 1 && |f[|fwd|]| == rl + 1
    requires forall m :: 0 <= m < |fwd| ==> |f[m]| == |fwd[m]|
    requires |ls| == maxLevel + 1
    requires forall i :: 0 <= i <= rl ==> ls[i] == Ins(levels[i], cuts[i], |fwd|)
    requires forall i :: rl < i <= maxLevel ==> ls[i] == levels[i]
    requires forall i :: 0 <= i <= maxLevel ==> Chain(f, i, ls[i])
    ensures Core(keys + [key], f, ls, maxLevel)
  {
    var n := |fwd|;
    forall i | 0 <= i <= maxLevel
      ensures Increasing(keys + [key], ls[i])
      ensures forall m :: m in ls[i] <==> m in levels[i] || (m == n && i <= rl)
    {
      InsertLevel(keys, fwd, levels, maxLevel, key, rl, cuts, ls, i);
    }
    InsertHeights(keys, fwd, levels, maxLevel, rl, f, ls);
  }

  /** Every node on a level is on level 0. */
  lemma LevelWithinBase(keys: seq<int32>, fwd: seq<seq<Link>>, levels: seq<seq<nat>>, maxLevel: nat, i: nat)
    requires Core(keys, fwd, levels, maxLevel) && i <= maxLevel
    ensures forall j :: 0 <= j < |levels[i]| ==> levels[i][j] in levels[0]
  {
    var l := levels[i];
    assert forall j :: 0 <= j < |l| ==> 0 < l[j] < |fwd|;
    assert forall n :: 0 < n < |fwd| ==> (n in l <==> n in levels[0] && i < |fwd[n]|);
    forall j | 0 <= j < |l| ensures l[j] in levels[0] {
      assert l[j] in l;
    }
  }

  /** One level after the splice: still increasing with the new key, and holding the old
      nodes plus the new one when the level is at most the new node's. */
  lemma InsertLevel(keys: seq<int32>, fwd: seq<seq<Link>>, levels: seq<seq<nat>>, maxLevel: nat,
                    key: int32, rl: nat, cuts: seq<nat>, ls: seq<seq<nat>>, i: nat)
    requires Core(keys, fwd, levels, maxLevel) && i <= maxLevel && |cuts| == maxLevel + 1 && |ls| == maxLevel + 1
    requires forall j :: 0 <= j < |levels[0]| ==> keys[levels[0][j]] != key
    requires i <= rl ==> cuts[i] <= |levels[i]| && IsCut(keys, levels[i], key, cuts[i])
    requires ls[i] == if i <= rl then Ins(levels[i], cuts[i], |fwd|) else levels[i]
    ensures Increasing(keys + [key], ls[i])
    ensures forall m :: m in ls[i] <==> m in levels[i] || (m == |fwd| && i <= rl)
  {
    LevelKeysDiffer(keys, fwd, levels, maxLevel, key, i);
    if i <= rl {
      SpliceLevel(keys, levels[i], key, true, cuts[i], ls[i]);
    } else {
      SpliceLevel(keys, levels[i], key, false, 0, ls[i]);
    }
  }

  /** What the structure says about one level: increasing, without the next node, and
      without the new key when level 0 is. */
  lemma LevelKeysDiffer(keys: seq<int32>, fwd: seq<seq<Link>>, levels: seq<seq<nat>>, maxLevel: nat,
                        key: int32, i: nat)
    requires Core(keys, fwd, levels, maxLevel) && i <= maxLevel
    requires forall j :: 0 <= j < |levels[0]| ==> keys[levels[0][j]] != key
    ensures |keys| == |fwd| && Increasing(keys, levels[i]) && |keys| !in levels[i]
    ensures forall j :: 0 <= j < |levels[i]| ==> keys[levels[i][j]] != key
  {
    var l := levels[i];
    assert Chain(fwd, i, l) && Increasing(keys, l);
    assert |fwd| !in l;
    LevelWithinBase(keys, fwd, levels, maxLevel, i);
    forall j | 0 <= j < |l| ensures keys[l[j]] != key {
      var q :| 0 <= q < |levels[0]| && levels[0][q] == l[j];
    }
  }

  /** One level, spliced at c when it is at most the new node's level and left alone
      otherwise. */
  lemma SpliceLevel(keys: seq<int32>, l: seq<nat>, key: int32, below: bool, c: nat, l': seq<nat>)
    requires Increasing(keys, l) && |keys| !in l
    requires forall j :: 0 <= j < |l| ==> keys[l[j]] != key
    requires below ==> c <= |l| && IsCut(keys, l, key, c)
    requires l' == if below then Ins(l, c, |keys|) else l
    ensures Increasing(keys + [key], l')
    ensures forall m :: m in l' <==> m in l || (m == |keys| && below)
  {
    if below {
      IncreasingIns(keys, l, key, c);
      InsMembers(l, c, |keys|);
    } else {
      IncreasingAppend(keys, l, key);
    }
  }

  /** After the splice every node on level 0 has a row of at most maxLevel + 1 slots, and a
      node is on level i exactly when it is on level 0 and has a slot for level i. */
  lemma InsertHeights(keys: seq<int32>, fwd: seq<seq<Link>>, levels: seq<seq<nat>>, maxLevel: nat,
                      rl: nat, f: seq<seq<Link>>, ls: seq<seq<nat>>)
    requires Core(keys, fwd, levels, maxLevel) && rl <= maxLevel
    requires |f| == |fwd| + 1 && |f[|fwd|]| == rl + 1
    requires forall m :: 0 <= m < |fwd| ==> |f[m]| == |fwd[m]|
    requires |ls| == maxLevel + 1
    requires forall i :: 0 <= i <= maxLevel ==>
      forall m :: m in ls[i] <==> m in levels[i] || (m == |fwd| && i <= rl)
    ensures forall j :: 0 <= j < |ls[0]| ==> ls[0][j] < |f| && |f[ls[0][j]]| <= maxLevel + 1
    ensures forall i, m :: 0 <= i <= maxLevel && 0 < m < |f| ==> (m in ls[i] <==> m in ls[0] && i < |f[m]|)
  {
    var n := |fwd|;
    forall j | 0 <= j < |ls[0]| ensures ls[0][j] < |f| && |f[ls[0][j]]| <= maxLevel + 1 {
      var m := ls[0][j];
      assert m in ls[0];
      if m != n {
        var q :| 0 <= q < |levels[0]| && levels[0][q] == m;
      }
    }
    forall i, m | 0 <= i <= maxLevel && 0 < m < |f| ensures m in ls[i] <==> m in ls[0] && i < |f[m]| {
      if m != n {
        assert m in levels[i] <==> m in levels[0] && i < |fwd[m]|;
      }
    }
  }

  /** The list level after insert_element: the larger of the old level and the new node's. */
  lemma InsertKeepsTop(levels: seq<seq<nat>>, top: nat, maxLevel: nat, rl: nat, cuts: seq<nat>, n: nat, ls: seq<seq<nat>>)
    requires TopOk(levels, top, maxLevel) && rl <= maxLevel && |cuts| == maxLevel + 1
    requires forall i :: 0 <= i <= rl ==> cuts[i] <= |levels[i]|
    requires |ls| == maxLevel + 1
    requires forall i :: 0 <= i <= rl ==> ls[i] == Ins(levels[i], cuts[i], n)
    requires forall i :: rl < i <= maxLevel ==> ls[i] == levels[i]
    ensures TopOk(ls, if rl > top then rl else top, maxLevel)
  {
    assert |Ins(levels[rl], cuts[rl], n)| == |levels[rl]| + 1;
  }

  /** The view after insert_element on a new key is the reference insertion. */
  lemma InsertView(keys: seq<int32>, values: seq<string>, l: seq<nat>, key: int32, value: string, c: nat)
    requires Increasing(keys, l) && |values| == |keys| && IsCut(keys, l, key, c)
    requires forall j :: 0 <= j < |l| ==> keys[l[j]] != key
    ensures View(keys + [key], values + [value], Ins(l, c, |keys|)) ==
            InsertEntry(View(keys, values, l), key, value)
  {
    var e := View(keys, values, l);
    ViewSorted(keys, values, l);
    ViewIns(keys, values, l, c, key, value);
    assert forall j :: c <= j < |e| ==> key < e[j].key by {
      forall j | c <= j < |e| ensures key < e[j].key {
        assert e[j].key == keys[l[j]];
      }
    }
    InsertAt(e, key, value, c);
  }

  /** delete_element on the key of node x, after x has been unlinked from the levels below
      its slot count: the structural invariant holds and x is on no level. */
  lemma DeleteKeepsCore(keys: seq<int32>, fwd: seq<seq<Link>>, levels: seq<seq<nat>>, maxLevel: nat,
                        x: nat, cuts: seq<nat>, f: seq<seq<Link>>, ls: seq<seq<nat>>)
    requires Core(keys, fwd, levels, maxLevel) && 0 < x < |fwd| && x in levels[0]
    requires |cuts| == maxLevel + 1 && |fwd[x]| <= maxLevel + 1
    requires forall i :: 0 <= i < |fwd[x]| ==> cuts[i] < |levels[i]| && levels[i][cuts[i]] == x
    requires |f| == |fwd| && forall m :: 0 <= m < |fwd| ==> |f[m]| == |fwd[m]|
    requires |ls| == maxLevel + 1
    requires forall i :: 0 <= i < |fwd[x]| ==> ls[i] == Del(levels[i], cuts[i])
    requires forall i :: |fwd[x]| <= i <= maxLevel ==> ls[i] == levels[i]
    requires forall i :: 0 <= i <= maxLevel ==> Chain(f, i, ls[i])
    ensures Core(keys, f, ls, maxLevel)
    ensures forall i :: 0 <= i <= maxLevel ==> x !in ls[i]
  {
    forall i | 0 <= i <= maxLevel
      ensures Increasing(keys, ls[i]) && Loses(ls[i], levels[i], x)
    {
      DeleteLevel(keys, fwd, levels, maxLevel, x, i, cuts, ls);
    }
    DeleteTowers(fwd, levels, maxLevel, x, f, ls);
  }

  /** The level-0 heights and the tower condition of Core after a node left every level. */
  lemma DeleteTowers(fwd: seq<seq<Link>>, levels: seq<seq<nat>>, maxLevel: nat, x: nat, f: seq<seq<Link>>, ls: seq<seq<nat>>)
    requires |levels| == maxLevel + 1 && |ls| == maxLevel + 1
    requires |f| == |fwd| && forall m :: 0 <= m < |fwd| ==> |f[m]| == |fwd[m]|
    requires forall j :: 0 <= j < |levels[0]| ==> levels[0][j] < |fwd| && |fwd[levels[0][j]]| <= maxLevel + 1
    requires forall i, n :: 0 <= i <= maxLevel && 0 < n < |fwd| ==> (n in levels[i] <==> n in levels[0] && i < |fwd[n]|)
    requires forall i :: 0 <= i <= maxLevel ==> Loses(ls[i], levels[i], x)
    ensures forall j :: 0 <= j < |ls[0]| ==> ls[0][j] < |f| && |f[ls[0][j]]| <= maxLevel + 1
    ensures forall i, n :: 0 <= i <= maxLevel && 0 < n < |f| ==> (n in ls[i] <==> n in ls[0] && i < |f[n]|)
  {
    assert Loses(ls[0], levels[0], x);
    forall j | 0 <= j < |ls[0]| ensures ls[0][j] < |f| && |f[ls[0][j]]| <= maxLevel + 1 {
      var m := ls[0][j];
      assert m in ls[0];
      var q :| 0 <= q < |levels[0]| && levels[0][q] == m;
    }
    forall i, m | 0 <= i <= maxLevel && 0 < m < |f| ensures m in ls[i] <==> m in ls[0] && i < |f[m]| {
      assert Loses(ls[i], levels[i], x);
      if m != x {
        assert m in levels[i] <==> m in levels[0] && i < |fwd[m]|;
      }
    }
  }

  /** Chain a is chain b without node x. */
  ghost predicate Loses(a: seq<nat>, b: seq<nat>, x: nat) {
    forall m :: m in a <==> m in b && m != x
  }

  /** One level of DeleteKeepsCore: the level keeps increasing keys and loses exactly x. */
  lemma DeleteLevel(keys: seq<int32>, fwd: seq<seq<Link>>, levels: seq<seq<nat>>, maxLevel: nat,
                    x: nat, i: nat, cuts: seq<nat>, ls: seq<seq<nat>>)
    requires Core(keys, fwd, levels, maxLevel) && 0 < x < |fwd| && x in levels[0] && i <= maxLevel
    requires |cuts| == maxLevel + 1 && |fwd[x]| <= maxLevel + 1
    requires forall i :: 0 <= i < |fwd[x]| ==> cuts[i] < |levels[i]| && levels[i][cuts[i]] == x
    requires |ls| == maxLevel + 1
    requires forall i :: 0 <= i < |fwd[x]| ==> ls[i] == Del(levels[i], cuts[i])
    requires forall i :: |fwd[x]| <= i <= maxLevel ==> ls[i] == levels[i]
    ensures Increasing(keys, ls[i]) && Loses(ls[i], levels[i], x)
  {
    var l := levels[i];
    assert Increasing(keys, l);
    if i < |fwd[x]| {
      IncreasingDel(keys, l, cuts[i]);
      IncreasingDistinct(keys, l);
      DelMembers(l, cuts[i]);
    } else {
      assert x !in l by {
        assert x in levels[i] <==> x in levels[0] && i < |fwd[x]|;
      }
    }
  }

  /** The view after delete_element of a present key is the reference removal. */
  lemma DeleteView(keys: seq<int32>, values: seq<string>, l: seq<nat>, c: nat)
    requires Increasing(keys, l) && |values| == |keys| && c < |l|
    ensures View(keys, values, Del(l, c)) == RemoveEntry(View(keys, values, l), keys[l[c]])
  {
    var e := View(keys, values, l);
    ViewSorted(keys, values, l);
    ViewDel(keys, values, l, c);
    assert e[c].key == keys[l[c]];
    RemoveAt(e, c);
  }

  // ---------------------------------------------------------------------------
  // The two surgeries with the facts above attached.

  /** The end of the descent: whether the node after the last update entry on level 0
      holds the key is whether the view holds it, and that node's value is the value the
      view holds for the key. */
  lemma Located(keys: seq<int32>, values: seq<string>, fwd: seq<seq<Link>>, levels: seq<seq<nat>>, maxLevel: nat,
                key: int32, succ: Link)
    requires Core(keys, fwd, levels, maxLevel) && |values| == |keys|
    requires succ == Succ(levels[0], Cut(keys, levels[0], key))
    ensures succ.To? ==> succ.node < |keys|
    ensures (succ.To? && keys[succ.node] == key) <==> HasKey(View(keys, values, levels[0]), key)
    ensures succ.To? && keys[succ.node] == key ==>
              succ.node in levels[0] && Lookup(View(keys, values, levels[0]), key) == Some(values[succ.node])
  {
    var l := levels[0];
    var c := Cut(keys, l, key);
    assert Increasing(keys, l);
    CutSeparates(keys, l, key);
    CutFound(keys, values, l, key, c);
    if succ.To? && keys[succ.node] == key {
      ViewSorted(keys, values, l);
      assert View(keys, values, l)[c] == Pair(key, values[succ.node]);
      LookupAt(View(keys, values, l), c);
    }
  }

  /** Appending a node row to the arena keeps every level's chain, and the new node is on
      no level yet. */
  lemma RowAppended(keys: seq<int32>, fwd: seq<seq<Link>>, levels: seq<seq<nat>>, maxLevel: nat, row: seq<Link>)
    requires Core(keys, fwd, levels, maxLevel)
    ensures 0 < |keys| < |fwd + [row]| && (fwd + [row])[|keys|] == row
    ensures forall i :: 0 <= i < |levels| ==>
      Chain(fwd + [row], i, levels[i]) && NodesDistinct(levels[i]) && |keys| !in levels[i]
  {
    forall i | 0 <= i < |levels|
      ensures Chain(fwd + [row], i, levels[i]) && NodesDistinct(levels[i]) && |keys| !in levels[i]
    {
      ChainAppend(fwd, i, levels[i], row);
      IncreasingDistinct(keys, levels[i]);
    }
  }

  /** After the descent and the raise, update[i] is the predecessor at the cut on every level
      up to the new node's level. */
  lemma UpdateAtCuts(keys: seq<int32>, fwd: seq<seq<Link>>, levels: seq<seq<nat>>, top: nat, maxLevel: nat,
                     key: int32, rl: nat, update: seq<Link>)
    requires Core(keys, fwd, levels, maxLevel) && TopOk(levels, top, maxLevel)
    requires rl <= maxLevel && |update| == maxLevel + 1
    requires forall i :: 0 <= i <= top ==> update[i] == To(Pred(levels[i], Cut(keys, levels[i], key)))
    requires forall i :: top < i <= rl ==> update[i] == To(0)
    ensures forall i :: 0 <= i <= rl ==>
      Cuts(keys, levels, key)[i] <= |levels[i]| && update[i] == To(Pred(levels[i], Cuts(keys, levels, key)[i]))
  {
    var cuts := Cuts(keys, levels, key);
    forall i | 0 <= i <= rl ensures cuts[i] <= |levels[i]| && update[i] == To(Pred(levels[i], cuts[i])) {
      if i > top { assert levels[i] == []; }
    }
  }

  /** insert_element's node creation and splice (skiplist.h:209-214) for a key the index
      does not hold: node |keys| with rl + 1 null pointers is appended to the arena and
      linked in after update[i] on every level i <= rl. update[] is as the descent and the
      raise leave it. */
  method AddNode(keys: seq<int32>, values: seq<string>, fwd: seq<seq<Link>>, ghost levels: seq<seq<nat>>,
                 top: nat, maxLevel: nat, key: int32, value: string, rl: nat, update: seq<Link>)
    returns (keys': seq<int32>, values': seq<string>, fwd': seq<seq<Link>>, ghost levels': seq<seq<nat>>)
    requires Core(keys, fwd, levels, maxLevel) && TopOk(levels, top, maxLevel) && |values| == |keys|
    requires !HasKey(View(keys, values, levels[0]), key)
    requires rl <= maxLevel && |update| == maxLevel + 1
    requires forall i :: 0 <= i <= top ==> update[i] == To(Pred(levels[i], Cut(keys, levels[i], key)))
    requires forall i :: top < i <= rl ==> update[i] == To(0)
    ensures Core(keys', fwd', levels', maxLevel) && TopOk(levels', if rl > top then rl else top, maxLevel)
    ensures |values'| == |keys'| && |levels'[0]| == |levels[0]| + 1
    ensures View(keys', values', levels'[0]) == InsertEntry(View(keys, values, levels[0]), key, value)
    ensures keys' == keys + [key] && values' == values + [value]
    ensures |fwd'| == |fwd| + 1 && |fwd'[|fwd|]| == rl + 1
    ensures forall i :: 0 <= i <= maxLevel ==>
      levels'[i] == if i <= rl then Ins(levels[i], Cut(keys, levels[i], key), |fwd|) else levels[i]
    ensures forall i :: 0 <= i <= maxLevel ==> (|fwd| in levels'[i] <==> i <= rl)
  {
    var n := |keys|;
    ghost var cuts := Cuts(keys, levels, key);
    var row := seq(rl + 1, _ => Null);
    RowAppended(keys, fwd, levels, maxLevel, row);
    UpdateAtCuts(keys, fwd, levels, top, maxLevel, key, rl, update);
    keys' := keys + [key];
    values' := values + [value];
    fwd', levels' := Splice(fwd + [row], update, n, rl, levels, cuts);
    SplicedNode(keys, values, fwd, levels, top, maxLevel, key, value, rl, row, fwd', levels');
    NewNodeLevels(levels, levels', rl, cuts, n);
  }

  /** The new node n is on exactly the levels 0..rl after the splice. */
  lemma NewNodeLevels(levels: seq<seq<nat>>, ls: seq<seq<nat>>, rl: nat, cuts: seq<nat>, n: nat)
    requires |ls| == |levels| == |cuts| && rl < |levels|
    requires forall i :: 0 <= i <= rl ==> cuts[i] <= |levels[i]| && ls[i] == Ins(levels[i], cuts[i], n)
    requires forall i :: rl < i < |levels| ==> ls[i] == levels[i]
    requires forall i :: 0 <= i < |levels| ==> n !in levels[i]
    ensures forall i :: 0 <= i < |levels| ==> (n in ls[i] <==> i <= rl)
  {
    forall i | 0 <= i <= rl ensures n in ls[i] {
      InsMembers(levels[i], cuts[i], n);
    }
  }

  /** What the splice of a new node leaves: the structure holds with the new key, the list
      level is the larger of the two, and the view is the reference insertion. */
  lemma SplicedNode(keys: seq<int32>, values: seq<string>, fwd: seq<seq<Link>>, levels: seq<seq<nat>>,
                    top: nat, maxLevel: nat, key: int32, value: string, rl: nat, row: seq<Link>,
                    f: seq<seq<Link>>, ls: seq<seq<nat>>)
    requires Core(keys, fwd, levels, maxLevel) && TopOk(levels, top, maxLevel) && |values| == |keys|
    requires !HasKey(View(keys, values, levels[0]), key)
    requires rl <= maxLevel && |row| == rl + 1
    requires |f| == |fwd + [row]| && forall m :: 0 <= m < |fwd + [row]| ==> |f[m]| == |(fwd + [row])[m]|
    requires |ls| == |levels|
    requires forall i :: 0 <= i <= rl ==> ls[i] == Ins(levels[i], Cuts(keys, levels, key)[i], |keys|)
    requires forall i :: rl < i < |levels| ==> ls[i] == levels[i]
    requires forall i :: 0 <= i < |levels| ==> Chain(f, i, ls[i])
    ensures Core(keys + [key], f, ls, maxLevel) && TopOk(ls, if rl > top then rl else top, maxLevel)
    ensures |ls[0]| == |levels[0]| + 1
    ensures View(keys + [key], values + [value], ls[0]) == InsertEntry(View(keys, values, levels[0]), key, value)
    ensures |f| == |fwd| + 1 && |f[|fwd|]| == rl + 1
  {
    var cuts := Cuts(keys, levels, key);
    CutsSeparate(keys, fwd, levels, maxLevel, key);
    AbsentKey(keys, values, levels[0], key);
    assert forall m :: 0 <= m < |fwd| ==> |f[m]| == |fwd[m]| by {
      forall m | 0 <= m < |fwd| ensures |f[m]| == |fwd[m]| {
        assert (fwd + [row])[m] == fwd[m];
      }
    }
    assert |f[|fwd|]| == rl + 1 by {
      assert (fwd + [row])[|fwd|] == row;
    }
    forall i | 0 <= i <= rl ensures cuts[i] <= |levels[i]| && IsCut(keys, levels[i], key, cuts[i]) {
      CutSeparates(keys, levels[i], key);
    }
    InsertKeepsCore(keys, fwd, levels, maxLevel, key, rl, cuts, f, ls);
    InsertKeepsTop(levels, top, maxLevel, rl, cuts, |keys|, ls);
    InsertView(keys, values, levels[0], key, value, cuts[0]);
  }

  /** delete_element's unlink (skiplist.h:278-283) of the node x that holds the key: the
      node leaves every level it is on; levels above the list level stay empty. */
  method DetachNode(keys: seq<int32>, values: seq<string>, fwd: seq<seq<Link>>, ghost levels: seq<seq<nat>>,
                    top: nat, maxLevel: nat, key: int32, update: seq<Link>, x: nat)
    returns (fwd': seq<seq<Link>>, ghost levels': seq<seq<nat>>)
    requires Core(keys, fwd, levels, maxLevel) && TopOk(levels, top, maxLevel) && |values| == |keys|
    requires |update| == maxLevel + 1
    requires forall i :: 0 <= i <= top ==> update[i] == To(Pred(levels[i], Cut(keys, levels[i], key)))
    requires Succ(levels[0], Cut(keys, levels[0], key)) == To(x) && x < |keys| && keys[x] == key
    ensures Core(keys, fwd', levels', maxLevel)
    ensures forall i :: top < i <= maxLevel ==> levels'[i] == []
    ensures |levels'[0]| == |levels[0]| - 1
    ensures View(keys, values, levels'[0]) == RemoveEntry(View(keys, values, levels[0]), key)
  {
    ghost var cuts := Cuts(keys, levels, key);
    DetachReady(keys, fwd, levels, top, maxLevel, key, update, x);
    fwd', levels' := Unlink(fwd, update, x, top, levels, cuts);
    DetachedNode(keys, values, fwd, levels, top, maxLevel, key, x, fwd', levels');
  }

  /** Before the unlink: node x holds the key, is on exactly the levels it has slots for, and
      sits at the key's cut on each of them. */
  lemma DetachReady(keys: seq<int32>, fwd: seq<seq<Link>>, levels: seq<seq<nat>>, top: nat, maxLevel: nat,
                    key: int32, update: seq<Link>, x: nat)
    requires Core(keys, fwd, levels, maxLevel) && TopOk(levels, top, maxLevel)
    requires |update| == maxLevel + 1
    requires forall i :: 0 <= i <= top ==> update[i] == To(Pred(levels[i], Cut(keys, levels[i], key)))
    requires Succ(levels[0], Cut(keys, levels[0], key)) == To(x) && x < |keys| && keys[x] == key
    ensures |levels| == |Cuts(keys, levels, key)| == |update| && top < |levels|
    ensures 0 < x < |fwd| && |fwd[x]| <= top + 1 && x in levels[0]
    ensures forall i :: 0 <= i < |levels| ==> Chain(fwd, i, levels[i]) && NodesDistinct(levels[i])
    ensures forall i :: 0 <= i <= top ==>
      Cuts(keys, levels, key)[i] <= |levels[i]| && update[i] == To(Pred(levels[i], Cuts(keys, levels, key)[i]))
    ensures forall i :: 0 <= i < |levels| ==> (x in levels[i] <==> i < |fwd[x]|)
    ensures forall i :: 0 <= i < |levels| && x in levels[i] ==>
      Cuts(keys, levels, key)[i] < |levels[i]| && levels[i][Cuts(keys, levels, key)[i]] == x
  {
    var cuts := Cuts(keys, levels, key);
    CutsSeparate(keys, fwd, levels, maxLevel, key);
    assert x in levels[0] && 0 < x;
    NodeHeight(keys, fwd, levels, maxLevel, top, x);
    forall i | 0 <= i < |levels|
      ensures NodesDistinct(levels[i])
      ensures x in levels[i] ==> cuts[i] < |levels[i]| && levels[i][cuts[i]] == x
    {
      IncreasingDistinct(keys, levels[i]);
      if x in levels[i] { CutLandsOn(keys, levels[i], key, cuts[i], x); }
    }
  }

  /** After the unlink: the structure holds without node x, the levels above the list level
      stay empty, and the view is the reference removal. */
  lemma DetachedNode(keys: seq<int32>, values: seq<string>, fwd: seq<seq<Link>>, levels: seq<seq<nat>>,
                     top: nat, maxLevel: nat, key: int32, x: nat, f: seq<seq<Link>>, ls: seq<seq<nat>>)
    requires Core(keys, fwd, levels, maxLevel) && TopOk(levels, top, maxLevel) && |values| == |keys|
    requires 0 < x < |fwd| && |fwd[x]| <= top + 1 && x in levels[0] && keys[x] == key
    requires forall i :: 0 <= i < |levels| ==> (x in levels[i] <==> i < |fwd[x]|)
    requires forall i :: 0 <= i < |levels| && x in levels[i] ==>
      Cuts(keys, levels, key)[i] < |levels[i]| && levels[i][Cuts(keys, levels, key)[i]] == x
    requires |f| == |fwd| && forall m :: 0 <= m < |fwd| ==> |f[m]| == |fwd[m]|
    requires |ls| == |levels|
    requires forall i :: 0 <= i < |fwd[x]| ==> ls[i] == Del(levels[i], Cuts(keys, levels, key)[i])
    requires forall i :: |fwd[x]| <= i < |levels| ==> ls[i] == levels[i]
    requires forall i :: 0 <= i < |levels| ==> Chain(f, i, ls[i])
    ensures Core(keys, f, ls, maxLevel)
    ensures forall i :: top < i <= maxLevel ==> ls[i] == []
    ensures |ls[0]| == |levels[0]| - 1
    ensures View(keys, values, ls[0]) == RemoveEntry(View(keys, values, levels[0]), key)
  {
    var cuts := Cuts(keys, levels, key);
    assert forall i :: 0 <= i < |fwd[x]| ==> cuts[i] < |levels[i]| && levels[i][cuts[i]] == x;
    DeleteKeepsCore(keys, fwd, levels, maxLevel, x, cuts, f, ls);
    DeleteView(keys, values, levels[0], cuts[0]);
  }

  // ---------------------------------------------------------------------------
  // The state of the index as one value, and the two operations that update it.

  /** The run-time state of the index: the node arena (key, value and forward pointers of
      node n at index n, node 0 being the header), the list level and the element count. */
  datatype IndexState = IndexState(keys: seq<int32>, values: seq<string>, forward: seq<seq<Link>>,
                                   level: nat, count: nat)

  /** The invariant of the index: the links, the list level, one value per key, and the
      element count equal to the length of level 0. */
  ghost predicate Shape(st: IndexState, levels: seq<seq<nat>>, maxLevel: nat) {
    Core(st.keys, st.forward, levels, maxLevel) && TopOk(levels, st.level, maxLevel) &&
    |st.values| == |st.keys| && st.count == |levels[0]|
  }

  /** The pairs of the index in level-0 order. */
  ghost function Pairs(st: IndexState, levels: seq<seq<nat>>): seq<Pair> {
    if levels == [] then [] else View(st.keys, st.values, levels[0])
  }

  /** The pairs are in ascending key order and the count is their number. */
  lemma PairsSorted(st: IndexState, levels: seq<seq<nat>>, maxLevel: nat)
    requires Shape(st, levels, maxLevel)
    ensures Sorted(Pairs(st, levels)) && st.count == |Pairs(st, levels)|
  {
    ViewSorted(st.keys, st.values, levels[0]);
  }

  /** insert_element (skiplist.h:174-219) with rl the level get_random_level drew: a present
      key changes nothing; a new key gets a node of rl + 1 slots, the list level rises to rl
      if it was lower, and the count goes up. */
  method InsertStep(st: IndexState, ghost levels: seq<seq<nat>>, maxLevel: nat, key: int32, value: string, rl: nat)
    returns (present: bool, st': IndexState, ghost levels': seq<seq<nat>>)
    requires Shape(st, levels, maxLevel) && rl <= maxLevel
    ensures Shape(st', levels', maxLevel)
    ensures present <==> HasKey(Pairs(st, levels), key)
    ensures Pairs(st', levels') == InsertEntry(Pairs(st, levels), key, value)
    ensures present ==> st' == st && levels' == levels
    ensures !present ==> st'.keys == st.keys + [key] && st'.values == st.values + [value] &&
                         st'.count == st.count + 1 && |st'.forward| == |st.forward| + 1 &&
                         |st'.forward[|st.forward|]| == rl + 1 && st'.level == (if rl > st.level then rl else st.level)
    ensures !present ==> forall i :: 0 <= i <= maxLevel ==>
      levels'[i] == if i <= rl then Ins(levels[i], Cut(st.keys, levels[i], key), |st.forward|) else levels[i]
    ensures !present ==> forall i :: 0 <= i <= maxLevel ==> (|st.forward| in levels'[i] <==> i <= rl)
  {
    ghost var e := Pairs(st, levels);
    ViewSorted(st.keys, st.values, levels[0]);
    var update, succ := Descend(st.keys, st.forward, levels, st.level, maxLevel, key);
    Located(st.keys, st.values, st.forward, levels, maxLevel, key, succ);
    if succ.To? && st.keys[succ.node] == key {
      InsertPresent(e, key, value);
      return true, st, levels;
    }
    if rl > st.level {
      update := RaiseLevels(update, st.level, rl);
    }
    var keys', values', fwd';
    keys', values', fwd', levels' := AddNode(st.keys, st.values, st.forward, levels, st.level, maxLevel, key, value, rl, update);
    present := false;
    st' := IndexState(keys', values', fwd', if rl > st.level then rl else st.level, st.count + 1);
  }

  /** search_element's walk through the index (skiplist.h:233-255): descend from the list
      level to level 0 and look at the next node; the answer is the value the pairs hold
      for the key, or none when they do not hold it. */
  method SearchStep(st: IndexState, ghost levels: seq<seq<nat>>, maxLevel: nat, key: int32) returns (v: Option<string>)
    requires Shape(st, levels, maxLevel)
    ensures v == Lookup(Pairs(st, levels), key)
  {
    var update, succ := Descend(st.keys, st.forward, levels, st.level, maxLevel, key);
    Located(st.keys, st.values, st.forward, levels, maxLevel, key, succ);
    LookupHasKey(Pairs(st, levels), key);
    if succ.To? && st.keys[succ.node] == key {
      v := Some(st.values[succ.node]);
    } else {
      v := None;
    }
  }

  /** delete_element (skiplist.h:258-298): a present key leaves every level, the list level
      drops past the levels that became empty and the count goes down; an absent key
      changes nothing. The arena keeps the unlinked node. */
  method DeleteStep(st: IndexState, ghost levels: seq<seq<nat>>, maxLevel: nat, key: int32)
    returns (present: bool, st': IndexState, ghost levels': seq<seq<nat>>)
    requires Shape(st, levels, maxLevel)
    ensures Shape(st', levels', maxLevel)
    ensures present <==> HasKey(Pairs(st, levels), key)
    ensures Pairs(st', levels') == RemoveEntry(Pairs(st, levels), key)
    ensures st'.keys == st.keys && st'.values == st.values
    ensures present ==> st'.count == st.count - 1 && st'.level <= st.level
    ensures !present ==> st' == st && levels' == levels
  {
    ghost var e := Pairs(st, levels);
    ViewSorted(st.keys, st.values, levels[0]);
    var update, succ := Descend(st.keys, st.forward, levels, st.level, maxLevel, key);
    Located(st.keys, st.values, st.forward, levels, maxLevel, key, succ);
    if succ.To? && st.keys[succ.node] == key {
      var fwd';
      fwd', levels' := DetachNode(st.keys, st.values, st.forward, levels, st.level, maxLevel, key, update, succ.node);
      var top := ShrinkLevel(fwd', st.level, levels', maxLevel);
      present, st' := true, IndexState(st.keys, st.values, fwd', top, st.count - 1);
    } else {
      RemoveAbsent(e, key);
      present, st', levels' := false, st, levels;
    }
  }
}
