/** The abstract contents of the skip-list index: its (key, value) pairs in level-0 order,
    which is ascending key order. The reference operations below say what insert, delete
    and lookup mean on that view, independently of links and levels. */
module Entries {
  import opened Wrappers

  datatype Pair = Pair(key: int32, value: string)

  /** Keys strictly ascending (so also pairwise distinct). */
  predicate Sorted(e: seq<Pair>) {
    forall i, j :: 0 <= i < j < |e| ==> e[i].key < e[j].key
  }

  predicate HasKey(e: seq<Pair>, k: int32) {
    exists i :: 0 <= i < |e| && e[i].key == k
  }

  /** The value stored for k, from the first pair that carries k. */
  function Lookup(e: seq<Pair>, k: int32): Option<string> {
    if e == [] then None
    else if e[0].key == k then Some(e[0].value)
    else Lookup(e[1..], k)
  }

  /** Insertion into an ascending list that keeps an existing pair: a key already present
      leaves the list as it is, a new key goes before the first larger key. */
  function InsertEntry(e: seq<Pair>, k: int32, v: string): seq<Pair> {
    if e == [] then [Pair(k, v)]
    else if e[0].key < k then [e[0]] + InsertEntry(e[1..], k, v)
    else if e[0].key == k then e
    else [Pair(k, v)] + e
  }

  /** Removal of the first pair that carries k; the list is unchanged when there is none. */
  function RemoveEntry(e: seq<Pair>, k: int32): seq<Pair> {
    if e == [] then []
    else if e[0].key == k then e[1..]
    else [e[0]] + RemoveEntry(e[1..], k)
  }

  lemma SortedTail(e: seq<Pair>)
    requires Sorted(e) && e != []
    ensures Sorted(e[1..])
  {
    forall i, j | 0 <= i < j < |e[1..]| ensures e[1..][i].key < e[1..][j].key {
      assert e[1..][i] == e[i + 1] && e[1..][j] == e[j + 1];
    }
  }

  /** Lookup finds a key exactly when the list holds it. */
  lemma {:induction false} LookupHasKey(e: seq<Pair>, k: int32)
    ensures Lookup(e, k).Some? <==> HasKey(e, k)
  {
    if e != [] {
      LookupHasKey(e[1..], k);
      if HasKey(e, k) && e[0].key != k {
        var i :| 0 <= i < |e| && e[i].key == k;
        assert e[1..][i - 1].key == k;
      }
      if HasKey(e[1..], k) {
        var i :| 0 <= i < |e[1..]| && e[1..][i].key == k;
        assert e[i + 1].key == k;
      }
    }
  }

  /** In an ascending list, the pair at position c is what Lookup finds for its key. */
  lemma {:induction false} LookupAt(e: seq<Pair>, c: nat)
    requires Sorted(e) && c < |e|
    ensures Lookup(e, e[c].key) == Some(e[c].value)
  {
    if c > 0 {
      assert e[0].key < e[c].key;
      SortedTail(e);
      assert e[1..][c - 1] == e[c];
      LookupAt(e[1..], c - 1);
    }
  }

  /** Insertion adds the new pair and nothing else. */
  lemma {:induction false} InsertMembers(e: seq<Pair>, k: int32, v: string)
    ensures forall x :: x in InsertEntry(e, k, v) ==> x == Pair(k, v) || x in e
  {
    if e != [] && e[0].key < k {
      InsertMembers(e[1..], k, v);
      assert forall x :: x in e[1..] ==> x in e;
    }
  }

  /** Inserting into an ascending list keeps it ascending. */
  lemma {:induction false} InsertSorted(e: seq<Pair>, k: int32, v: string)
    requires Sorted(e)
    ensures Sorted(InsertEntry(e, k, v))
  {
    if e != [] && e[0].key < k {
      SortedTail(e);
      InsertSorted(e[1..], k, v);
      assert forall i :: 0 <= i < |e[1..]| ==> e[0].key < e[1..][i].key;
      InsertAbove(e[1..], k, v, e[0].key);
      SortedCons(e[0], InsertEntry(e[1..], k, v));
    } else if e != [] && e[0].key > k {
      SortedCons(Pair(k, v), e);
    }
  }

  /** A pair whose key is below every key of an ascending list can go in front of it. */
  lemma SortedCons(x: Pair, r: seq<Pair>)
    requires Sorted(r) && forall i :: 0 <= i < |r| ==> x.key < r[i].key
    ensures Sorted([x] + r)
  {
    var o := [x] + r;
    forall i, j | 0 <= i < j < |o| ensures o[i].key < o[j].key {
      assert o[j] == r[j - 1];
      if i > 0 { assert o[i] == r[i - 1]; }
    }
  }

  /** A bound below every key, and below the inserted one, stays below every key. */
  lemma InsertAbove(e: seq<Pair>, k: int32, v: string, b: int32)
    requires b < k && forall i :: 0 <= i < |e| ==> b < e[i].key
    ensures forall i :: 0 <= i < |InsertEntry(e, k, v)| ==> b < InsertEntry(e, k, v)[i].key
  {
    var r := InsertEntry(e, k, v);
    InsertMembers(e, k, v);
    forall i | 0 <= i < |r| ensures b < r[i].key {
      assert r[i] in r;
      if r[i] != Pair(k, v) {
        var j :| 0 <= j < |e| && e[j] == r[i];
      }
    }
  }

  /** Lookup after insertion: the new key is found with the inserted value only when it was
      absent; any key already present keeps its first value; other keys are unaffected. */
  lemma {:induction false} InsertLookup(e: seq<Pair>, k: int32, v: string, q: int32)
    requires Sorted(e)
    ensures Lookup(InsertEntry(e, k, v), q) == if q == k && !HasKey(e, k) then Some(v) else Lookup(e, q)
  {
    LookupHasKey(e, k);
    if e != [] {
      if e[0].key < k {
        SortedTail(e);
        InsertLookup(e[1..], k, v, q);
        LookupHasKey(e[1..], k);
        assert InsertEntry(e, k, v)[1..] == InsertEntry(e[1..], k, v);
      } else if e[0].key > k && q == k {
        assert Lookup(e, k) == None by {
          forall i | 0 <= i < |e| ensures e[i].key != k {
            if i > 0 { assert e[0].key < e[i].key; }
          }
          LookupHasKey(e, k);
        }
        assert ([Pair(k, v)] + e)[0] == Pair(k, v);
      } else if e[0].key > k {
        assert ([Pair(k, v)] + e)[1..] == e;
      }
    }
  }

  /** A key already present: insertion changes nothing. */
  lemma InsertPresent(e: seq<Pair>, k: int32, v: string)
    requires Sorted(e) && HasKey(e, k)
    ensures InsertEntry(e, k, v) == e
  {
    var c :| 0 <= c < |e| && e[c].key == k;
    InsertBeforeFound(e, k, v, c);
  }

  /** Insertion walks past smaller keys and stops at the pair carrying the key. */
  lemma {:induction false} InsertBeforeFound(e: seq<Pair>, k: int32, v: string, c: nat)
    requires c < |e| && e[c].key == k
    requires forall j :: 0 <= j < c ==> e[j].key < k
    ensures InsertEntry(e, k, v) == e
  {
    if c > 0 {
      var t := e[1..];
      assert e[0].key < k;
      forall j | 0 <= j < c - 1 ensures t[j].key < k { assert t[j] == e[j + 1]; }
      InsertBeforeFound(t, k, v, c - 1);
      assert [e[0]] + t == e;
    }
  }

  /** A new key goes in at the position c that splits the smaller keys from the larger. */
  lemma {:induction false} InsertAt(e: seq<Pair>, k: int32, v: string, c: nat)
    requires c <= |e|
    requires forall j :: 0 <= j < c ==> e[j].key < k
    requires forall j :: c <= j < |e| ==> k < e[j].key
    ensures InsertEntry(e, k, v) == e[..c] + [Pair(k, v)] + e[c..]
  {
    if c == 0 {
      if e != [] { assert k < e[0].key; }
      assert e[..0] == [] && e[0..] == e;
    } else {
      assert e[0].key < k;
      forall j | 0 <= j < c - 1 ensures e[1..][j].key < k { assert e[1..][j] == e[j + 1]; }
      forall j | c - 1 <= j < |e[1..]| ensures k < e[1..][j].key { assert e[1..][j] == e[j + 1]; }
      InsertAt(e[1..], k, v, c - 1);
      assert e[..c] == [e[0]] + e[1..][..c - 1];
      assert e[c..] == e[1..][c - 1..];
    }
  }

  /** A new key lengthens the list by one; a present key leaves its length. */
  lemma InsertLength(e: seq<Pair>, k: int32, v: string)
    requires Sorted(e)
    ensures |InsertEntry(e, k, v)| == if HasKey(e, k) then |e| else |e| + 1
  {
    if HasKey(e, k) {
      InsertPresent(e, k, v);
    } else {
      InsertLengthNew(e, k, v);
    }
  }

  lemma {:induction false} InsertLengthNew(e: seq<Pair>, k: int32, v: string)
    requires !HasKey(e, k)
    ensures |InsertEntry(e, k, v)| == |e| + 1
  {
    if e != [] {
      assert e[0].key != k;
      if e[0].key < k {
        InsertLengthNew(e[1..], k, v);
      }
    }
  }

  /** Removing from an ascending list keeps it ascending. */
  lemma {:induction false} RemoveSorted(e: seq<Pair>, k: int32)
    requires Sorted(e)
    ensures Sorted(RemoveEntry(e, k))
    ensures forall i :: 0 <= i < |RemoveEntry(e, k)| ==> RemoveEntry(e, k)[i] in e
  {
    if e != [] {
      SortedTail(e);
      if e[0].key != k {
        RemoveSorted(e[1..], k);
        var r := RemoveEntry(e[1..], k);
        forall i | 0 <= i < |r| ensures e[0].key < r[i].key && r[i] in e {
          var j :| 0 <= j < |e[1..]| && e[1..][j] == r[i];
          assert e[1..][j] == e[j + 1];
        }
        assert RemoveEntry(e, k) == [e[0]] + r;
      } else {
        forall i | 0 <= i < |e[1..]| ensures e[1..][i] in e { assert e[1..][i] == e[i + 1]; }
      }
    }
  }

  /** Lookup after removal: the removed key is gone and every other key is unaffected. */
  lemma {:induction false} RemoveLookup(e: seq<Pair>, k: int32, q: int32)
    requires Sorted(e)
    ensures Lookup(RemoveEntry(e, k), q) == if q == k then None else Lookup(e, q)
  {
    if e != [] {
      SortedTail(e);
      if e[0].key == k {
        if q == k {
          assert !HasKey(e[1..], k) by {
            forall i | 0 <= i < |e[1..]| ensures e[1..][i].key != k {
              assert e[1..][i] == e[i + 1] && e[0].key < e[i + 1].key;
            }
          }
          LookupHasKey(e[1..], k);
        }
      } else {
        RemoveLookup(e[1..], k, q);
        assert RemoveEntry(e, k)[1..] == RemoveEntry(e[1..], k);
      }
    }
  }

  /** Removing the pair at position c of an ascending list drops exactly that position. */
  lemma RemoveAt(e: seq<Pair>, c: nat)
    requires Sorted(e) && c < |e|
    ensures RemoveEntry(e, e[c].key) == e[..c] + e[c + 1..]
  {
    RemoveFirst(e, e[c].key, c);
  }

  /** Removal drops the first pair that carries the key. */
  lemma {:induction false} RemoveFirst(e: seq<Pair>, k: int32, c: nat)
    requires c < |e| && e[c].key == k
    requires forall j :: 0 <= j < c ==> e[j].key != k
    ensures RemoveEntry(e, k) == e[..c] + e[c + 1..]
  {
    if c == 0 {
      assert e[..0] == [];
    } else {
      var t := e[1..];
      assert e[0].key != k;
      forall j | 0 <= j < c - 1 ensures t[j].key != k { assert t[j] == e[j + 1]; }
      RemoveFirst(t, k, c - 1);
      assert e[..c] == [e[0]] + t[..c - 1];
      assert e[c + 1..] == t[c..];
    }
  }

  /** An absent key: removal changes nothing. */
  lemma {:induction false} RemoveAbsent(e: seq<Pair>, k: int32)
    requires !HasKey(e, k)
    ensures RemoveEntry(e, k) == e
  {
    if e != [] {
      assert e[0].key != k;
      RemoveAbsent(e[1..], k);
      assert [e[0]] + e[1..] == e;
    }
  }
}
