/** The skip list's link structure (skiplist.h), as an arena of nodes addressed by
    index. Node 0 is the header; node n's forward pointers are the row fwd[n], one slot per
    level it occupies (node_level + 1 slots). A ghost list of node indices per level names
    the chain that the links at that level spell out from the header. */
module SkipLinks {
  import opened Wrappers
  import opened Entries

  /** A forward pointer: nullptr, or the arena index of a node. */
  datatype Link = Null | To(node: nat)

  function First(l: seq<nat>): Link {
    if l == [] then Null else To(l[0])
  }

  /** The link that follows position j of chain l. */
  function After(l: seq<nat>, j: nat): Link
    requires j < |l|
  {
    if j + 1 < |l| then To(l[j + 1]) else Null
  }

  /** The node in front of position c of chain l: the header for c = 0. */
  function Pred(l: seq<nat>, c: nat): nat
    requires c <= |l|
  {
    if c == 0 then 0 else l[c - 1]
  }

  /** The node at position c of chain l, or nullptr past its end. */
  function Succ(l: seq<nat>, c: nat): Link {
    if c < |l| then To(l[c]) else Null
  }

  /** Chain l with node n put in at position c. */
  function Ins(l: seq<nat>, c: nat, n: nat): seq<nat>
    requires c <= |l|
  {
    l[..c] + [n] + l[c..]
  }

  /** Chain l with position c taken out. */
  function Del(l: seq<nat>, c: nat): seq<nat>
    requires c < |l|
  {
    l[..c] + l[c + 1..]
  }

  /** Slot i of the rows spells out chain l: the header points at its first node, each node
      at the next one, the last at nullptr. */
  ghost predicate Chain(fwd: seq<seq<Link>>, i: nat, l: seq<nat>) {
    0 < |fwd| && i < |fwd[0]| && fwd[0][i] == First(l) &&
    (forall j :: 0 <= j < |l| ==> 0 < l[j] < |fwd|) &&
    forall j {:trigger fwd[l[j]]} :: 0 <= j < |l| ==> i < |fwd[l[j]]| && fwd[l[j]][i] == After(l, j)
  }

  predicate NodesDistinct(l: seq<nat>) {
    forall j, j' :: 0 <= j < j' < |l| ==> l[j] != l[j']
  }

  predicate InBounds(keys: seq<int32>, l: seq<nat>) {
    forall j :: 0 <= j < |l| ==> l[j] < |keys|
  }

  /** The keys along chain l strictly increase. */
  predicate Increasing(keys: seq<int32>, l: seq<nat>) {
    InBounds(keys, l) && forall j, j' :: 0 <= j < j' < |l| ==> keys[l[j]] < keys[l[j']]
  }

  /** The first c keys along chain l are below key. */
  predicate Below(keys: seq<int32>, l: seq<nat>, key: int32, c: nat) {
    InBounds(keys, l) && c <= |l| && forall j :: 0 <= j < c ==> keys[l[j]] < key
  }

  /** Position c of chain l separates the keys below key from the rest. */
  predicate IsCut(keys: seq<int32>, l: seq<nat>, key: int32, c: nat) {
    Below(keys, l, key, c) && forall j :: c <= j < |l| ==> key <= keys[l[j]]
  }

  /** How many keys at the front of chain l are below key: where a search for key stops. */
  function Cut(keys: seq<int32>, l: seq<nat>, key: int32): (c: nat)
    ensures c <= |l|
  {
    if l != [] && l[0] < |keys| && keys[l[0]] < key then 1 + Cut(keys, l[1..], key) else 0
  }

  /** The structural invariant of the index: every level is a chain with increasing keys;
      a node that is on level 0 has between 1 and maxLevel + 1 slots and is on exactly the
      levels below its slot count. */
  ghost predicate Core(keys: seq<int32>, fwd: seq<seq<Link>>, levels: seq<seq<nat>>, maxLevel: nat) {
    |keys| == |fwd| && 0 < |fwd| && |fwd[0]| == maxLevel + 1 && |levels| == maxLevel + 1 &&
    (forall i :: 0 <= i <= maxLevel ==> Chain(fwd, i, levels[i]) && Increasing(keys, levels[i])) &&
    (forall j :: 0 <= j < |levels[0]| ==> levels[0][j] < |fwd| && |fwd[levels[0][j]]| <= maxLevel + 1) &&
    (forall i, n :: 0 <= i <= maxLevel && 0 < n < |fwd| ==> (n in levels[i] <==> n in levels[0] && i < |fwd[n]|))
  }

  /** _skip_list_level: every level above it is empty and it is 0 or a non-empty level. */
  ghost predicate TopOk(levels: seq<seq<nat>>, top: nat, maxLevel: nat) {
    |levels| == maxLevel + 1 && top <= maxLevel &&
    (forall i :: top < i <= maxLevel ==> levels[i] == []) &&
    (top == 0 || levels[top] != [])
  }

  function PairAt(keys: seq<int32>, values: seq<string>, n: nat): Pair {
    if n < |keys| && n < |values| then Pair(keys[n], values[n]) else Pair(0, "")
  }

  /** The (key, value) pairs along chain l. */
  function View(keys: seq<int32>, values: seq<string>, l: seq<nat>): seq<Pair> {
    seq(|l|, j requires 0 <= j < |l| => PairAt(keys, values, l[j]))
  }

  // ---------------------------------------------------------------------------
  // Chains.

  /** The facts a chain states about its node at position j. */
  lemma ChainAt(fwd: seq<seq<Link>>, i: nat, l: seq<nat>, j: nat)
    requires Chain(fwd, i, l) && j < |l|
    ensures 0 < l[j] < |fwd| && i < |fwd[l[j]]| && fwd[l[j]][i] == After(l, j)
  {
    assert 0 < l[j] < |fwd|;
  }

  /** Following the pointer in front of position c of a chain reaches position c. */
  lemma ChainNext(fwd: seq<seq<Link>>, i: nat, l: seq<nat>, c: nat)
    requires Chain(fwd, i, l) && c <= |l|
    ensures Pred(l, c) < |fwd| && i < |fwd[Pred(l, c)]|
    ensures fwd[Pred(l, c)][i] == Succ(l, c)
  {
  }

  lemma IncreasingDistinct(keys: seq<int32>, l: seq<nat>)
    requires Increasing(keys, l)
    ensures NodesDistinct(l)
  {
  }

  /** Rewriting slot i of one row leaves the chain at any other level intact. */
  lemma ChainFrame(fwd: seq<seq<Link>>, j: nat, l: seq<nat>, r: nat, i: nat, x: Link)
    requires Chain(fwd, j, l) && i != j && r < |fwd| && i < |fwd[r]|
    ensures Chain(fwd[r := fwd[r][i := x]], j, l)
  {
    var f := fwd[r := fwd[r][i := x]];
    forall k | 0 <= k < |l| ensures 0 < l[k] < |f| && j < |f[l[k]]| && f[l[k]][j] == After(l, k) {
      assert fwd[l[k]][j] == After(l, k);
    }
  }

  /** A new row at the end of the arena leaves every chain intact. */
  lemma ChainAppend(fwd: seq<seq<Link>>, j: nat, l: seq<nat>, row: seq<Link>)
    requires Chain(fwd, j, l)
    ensures Chain(fwd + [row], j, l)
  {
    var f := fwd + [row];
    forall k | 0 <= k < |l| ensures 0 < l[k] < |f| && j < |f[l[k]]| && f[l[k]][j] == After(l, k) {
      assert f[l[k]] == fwd[l[k]];
    }
  }

  /** insert_element's two assignments at level i put node n into the chain at position c:
      n takes over the predecessor's pointer and the predecessor points at n. */
  lemma SpliceChain(fwd: seq<seq<Link>>, i: nat, l: seq<nat>, c: nat, n: nat)
    requires Chain(fwd, i, l) && NodesDistinct(l) && c <= |l|
    requires 0 < n < |fwd| && i < |fwd[n]| && n !in l
    ensures Pred(l, c) < |fwd| && i < |fwd[Pred(l, c)]|
    ensures var u := Pred(l, c);
      var f1 := fwd[n := fwd[n][i := fwd[u][i]]];
      var f2 := f1[u := f1[u][i := To(n)]];
      Chain(f2, i, Ins(l, c, n))
  {
    ChainNext(fwd, i, l, c);
    var u := Pred(l, c);
    var f1 := fwd[n := fwd[n][i := fwd[u][i]]];
    var f2 := f1[u := f1[u][i := To(n)]];
    var m := Ins(l, c, n);
    assert u != n;
    assert f2[n] == fwd[n][i := fwd[u][i]];
    assert f2[u] == fwd[u][i := To(n)];
    assert forall r :: 0 <= r < |fwd| && r != u && r != n ==> f2[r] == fwd[r];
    assert f2[0][i] == First(m) by {
      if c > 0 { assert l[0] != 0 && m[0] == l[0]; }
    }
    forall j | 0 <= j < |m| ensures 0 < m[j] < |f2| && i < |f2[m[j]]| && f2[m[j]][i] == After(m, j) {
      if j < c - 1 {
        assert m[j] == l[j] && m[j + 1] == l[j + 1];
        assert l[j] != u && l[j] != n;
        assert fwd[l[j]][i] == After(l, j);
      } else if j == c - 1 {
        assert m[j] == u && m[j + 1] == n;
      } else if j == c {
        assert m[j] == n;
        if c < |l| { assert m[j + 1] == l[c]; }
      } else {
        assert m[j] == l[j - 1];
        if j < |l| { assert m[j + 1] == l[j]; }
        assert l[j - 1] != n;
        assert l[j - 1] != u by { if c > 0 { assert l[c - 1] != l[j - 1]; } }
        assert fwd[l[j - 1]][i] == After(l, j - 1);
      }
    }
  }

  /** delete_element's assignment at level i takes the node at position c out of the
      chain: its predecessor takes over its pointer. */
  lemma UnlinkChain(fwd: seq<seq<Link>>, i: nat, l: seq<nat>, c: nat)
    requires Chain(fwd, i, l) && NodesDistinct(l) && c < |l|
    ensures Pred(l, c) < |fwd| && i < |fwd[Pred(l, c)]| && i < |fwd[l[c]]|
    ensures var u := Pred(l, c);
      Chain(fwd[u := fwd[u][i := fwd[l[c]][i]]], i, Del(l, c))
  {
    ChainNext(fwd, i, l, c);
    var u := Pred(l, c);
    var x := l[c];
    var f := fwd[u := fwd[u][i := fwd[x][i]]];
    var m := Del(l, c);
    assert |m| == |l| - 1;
    assert forall j :: 0 <= j < c ==> m[j] == l[j];
    assert forall j :: c <= j < |m| ==> m[j] == l[j + 1];
    assert f[0][i] == First(m) by {
      if c > 0 { assert l[0] != 0; }
    }
    forall j | 0 <= j < |m| ensures 0 < m[j] < |f| && i < |f[m[j]]| && f[m[j]][i] == After(m, j) {
      if j < c - 1 {
        assert l[j] != u;
        assert fwd[l[j]][i] == After(l, j);
      } else if j == c - 1 {
        assert m[j] == u;
      } else {
        assert l[j + 1] != u by { if c > 0 { assert l[c - 1] != l[j + 1]; } }
        assert fwd[l[j + 1]][i] == After(l, j + 1);
      }
    }
  }

  // ---------------------------------------------------------------------------
  // Cuts: where the search for a key stops on a level.

  /** The descent stops on a level when the next key is not below the search key. */
  lemma CutAtExit(keys: seq<int32>, l: seq<nat>, key: int32, c: nat)
    requires Increasing(keys, l) && Below(keys, l, key, c)
    requires c == |l| || key <= keys[l[c]]
    ensures IsCut(keys, l, key, c)
  {
  }

  /** A separating position is the cut. */
  lemma {:induction false} CutUnique(keys: seq<int32>, l: seq<nat>, key: int32, c: nat)
    requires IsCut(keys, l, key, c)
    ensures Cut(keys, l, key) == c
  {
    if c > 0 {
      assert keys[l[0]] < key;
      var t := l[1..];
      assert IsCut(keys, t, key, c - 1) by {
        forall j | 0 <= j < |t| ensures t[j] == l[j + 1] {}
      }
      CutUnique(keys, t, key, c - 1);
    } else if l != [] {
      assert key <= keys[l[0]];
    }
  }

  /** Moving down a level: a node on level i is on level i - 1 too. */
  lemma TowerDown(keys: seq<int32>, fwd: seq<seq<Link>>, levels: seq<seq<nat>>, maxLevel: nat, i: nat, c: nat)
    requires Core(keys, fwd, levels, maxLevel) && 0 < i <= maxLevel && 0 < c <= |levels[i]|
    ensures levels[i][c - 1] in levels[i - 1]
  {
    var x := levels[i][c - 1];
    assert Chain(fwd, i, levels[i]);
    ChainAt(fwd, i, levels[i], c - 1);
    assert 0 < x < |fwd| && x in levels[i];
  }

  /** The search resumes one level down from the node it reached (or the header): the
      keys in front of that node on the lower level are below the search key as well. */
  lemma DescendStep(keys: seq<int32>, above: seq<nat>, below: seq<nat>, c: nat, key: int32) returns (c': nat)
    requires Below(keys, above, key, c) && Increasing(keys, below)
    requires c > 0 ==> above[c - 1] in below
    ensures Below(keys, below, key, c') && Pred(below, c') == Pred(above, c)
  {
    if c == 0 {
      c' := 0;
    } else {
      var x := above[c - 1];
      var q :| 0 <= q < |below| && below[q] == x;
      c' := q + 1;
      forall j | 0 <= j < c' ensures keys[below[j]] < key {
        assert keys[below[j]] <= keys[x];
      }
    }
  }

  /** A key is in the view exactly when the cut lands on a node with that key. */
  lemma CutFound(keys: seq<int32>, values: seq<string>, l: seq<nat>, key: int32, c: nat)
    requires Increasing(keys, l) && IsCut(keys, l, key, c) && |values| == |keys|
    ensures HasKey(View(keys, values, l), key) <==> c < |l| && keys[l[c]] == key
  {
    var v := View(keys, values, l);
    if HasKey(v, key) {
      var q :| 0 <= q < |v| && v[q].key == key;
      assert keys[l[q]] == key;
      assert q >= c;
    }
    if c < |l| && keys[l[c]] == key {
      assert v[c].key == key;
    }
  }

  /** The node with the search key, if on level i, is the one the cut lands on. */
  lemma CutLandsOn(keys: seq<int32>, l: seq<nat>, key: int32, c: nat, x: nat)
    requires Increasing(keys, l) && IsCut(keys, l, key, c) && x in l && x < |keys| && keys[x] == key
    ensures c < |l| && l[c] == x
  {
    var q :| 0 <= q < |l| && l[q] == x;
    assert q >= c;
  }

  /** The cut of an increasing chain separates it. */
  lemma {:induction false} CutSeparates(keys: seq<int32>, l: seq<nat>, key: int32)
    requires Increasing(keys, l)
    ensures IsCut(keys, l, key, Cut(keys, l, key))
  {
    if l != [] && keys[l[0]] < key {
      var t := l[1..];
      assert Increasing(keys, t) by {
        forall j | 0 <= j < |t| ensures t[j] == l[j + 1] {}
      }
      CutSeparates(keys, t, key);
      var c := Cut(keys, t, key);
      forall j | 0 <= j < c + 1 ensures keys[l[j]] < key {
        if j > 0 { assert l[j] == t[j - 1]; }
      }
      forall j | c + 1 <= j < |l| ensures key <= keys[l[j]] {
        assert l[j] == t[j - 1];
      }
    } else if l != [] {
      forall j | 0 <= j < |l| ensures key <= keys[l[j]] {
        if j > 0 { assert keys[l[0]] < keys[l[j]]; }
      }
    }
  }

  // ---------------------------------------------------------------------------
  // Chains with a node put in or taken out.

  lemma InsMembers(l: seq<nat>, c: nat, n: nat)
    requires c <= |l|
    ensures forall m :: m in Ins(l, c, n) <==> m in l || m == n
  {
    assert l == l[..c] + l[c..];
  }

  lemma DelMembers(l: seq<nat>, c: nat)
    requires NodesDistinct(l) && c < |l|
    ensures forall m :: m in Del(l, c) <==> m in l && m != l[c]
  {
    var d := Del(l, c);
    assert l == l[..c] + [l[c]] + l[c + 1..];
    forall m | m in d ensures m != l[c] {
      var j :| 0 <= j < |d| && d[j] == m;
      if j < c { assert d[j] == l[j]; } else { assert d[j] == l[j + 1]; }
    }
  }

  /** A new node with a key that is not on the chain, put in at the key's cut, keeps the
      keys increasing. */
  lemma IncreasingIns(keys: seq<int32>, l: seq<nat>, key: int32, c: nat)
    requires Increasing(keys, l) && IsCut(keys, l, key, c)
    requires forall j :: 0 <= j < |l| ==> keys[l[j]] != key
    ensures Increasing(keys + [key], Ins(l, c, |keys|))
  {
    var k2 := keys + [key];
    var m := Ins(l, c, |keys|);
    assert forall j :: 0 <= j < c ==> m[j] == l[j];
    assert m[c] == |keys|;
    assert forall j :: c < j < |m| ==> m[j] == l[j - 1];
    assert forall x :: 0 <= x < |keys| ==> k2[x] == keys[x];
    forall j, j' | 0 <= j < j' < |m| ensures k2[m[j]] < k2[m[j']] {
      if j' < c {
      } else if j' == c {
        assert k2[m[j]] == keys[l[j]];
      } else if j == c {
        assert k2[m[j']] == keys[l[j' - 1]];
      } else if j < c {
        assert k2[m[j']] == keys[l[j' - 1]];
      } else {
        assert k2[m[j]] == keys[l[j - 1]] && k2[m[j']] == keys[l[j' - 1]];
      }
    }
  }

  lemma IncreasingDel(keys: seq<int32>, l: seq<nat>, c: nat)
    requires Increasing(keys, l) && c < |l|
    ensures Increasing(keys, Del(l, c))
  {
    var d := Del(l, c);
    assert forall j :: 0 <= j < c ==> d[j] == l[j];
    assert forall j :: c <= j < |d| ==> d[j] == l[j + 1];
    forall j, j' | 0 <= j < j' < |d| ensures keys[d[j]] < keys[d[j']] {
      if j' < c {
      } else if j < c {
        assert d[j'] == l[j' + 1];
      } else {
        assert d[j] == l[j + 1] && d[j'] == l[j' + 1];
      }
    }
  }

  lemma IncreasingAppend(keys: seq<int32>, l: seq<nat>, k: int32)
    requires Increasing(keys, l)
    ensures Increasing(keys + [k], l)
  {
    assert forall x :: 0 <= x < |keys| ==> (keys + [k])[x] == keys[x];
  }

  // ---------------------------------------------------------------------------
  // The view.

  lemma ViewSorted(keys: seq<int32>, values: seq<string>, l: seq<nat>)
    requires Increasing(keys, l) && |values| == |keys|
    ensures Sorted(View(keys, values, l))
  {
  }

  /** A view position c of a cut: keys in front are below key, the rest not. */
  lemma ViewCut(keys: seq<int32>, values: seq<string>, l: seq<nat>, key: int32, c: nat)
    requires IsCut(keys, l, key, c) && |values| == |keys|
    ensures forall j :: 0 <= j < c ==> View(keys, values, l)[j].key < key
    ensures forall j :: c <= j < |l| ==> key <= View(keys, values, l)[j].key
  {
  }

  /** Putting the new last node of the arena into chain l at c puts its pair into the view
      at c. */
  lemma ViewIns(keys: seq<int32>, values: seq<string>, l: seq<nat>, c: nat, k: int32, v: string)
    requires InBounds(keys, l) && |values| == |keys| && c <= |l|
    ensures View(keys + [k], values + [v], Ins(l, c, |keys|)) ==
            View(keys, values, l)[..c] + [Pair(k, v)] + View(keys, values, l)[c..]
  {
    var a := View(keys + [k], values + [v], Ins(l, c, |keys|));
    var b := View(keys, values, l)[..c] + [Pair(k, v)] + View(keys, values, l)[c..];
    assert |a| == |b|;
    forall j | 0 <= j < |a| ensures a[j] == b[j] {
      if j < c {
        assert Ins(l, c, |keys|)[j] == l[j];
      } else if j > c {
        assert Ins(l, c, |keys|)[j] == l[j - 1];
      }
    }
  }

  /** Taking position c out of chain l takes position c out of the view. */
  lemma ViewDel(keys: seq<int32>, values: seq<string>, l: seq<nat>, c: nat)
    requires c < |l|
    ensures View(keys, values, Del(l, c)) == View(keys, values, l)[..c] + View(keys, values, l)[c + 1..]
  {
    var a := View(keys, values, Del(l, c));
    var b := View(keys, values, l)[..c] + View(keys, values, l)[c + 1..];
    assert |a| == |b|;
    forall j | 0 <= j < |a| ensures a[j] == b[j] {
      if j < c {
        assert Del(l, c)[j] == l[j];
      } else {
        assert Del(l, c)[j] == l[j + 1];
      }
    }
  }

  /** The view of a chain reads only the nodes on it. */
  lemma ViewAppend(keys: seq<int32>, values: seq<string>, l: seq<nat>, k: int32, v: string)
    requires InBounds(keys, l) && |values| == |keys|
    ensures View(keys + [k], values + [v], l) == View(keys, values, l)
  {
  }
}
