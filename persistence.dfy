/** dump_file and load_file (skiplist.h:317-357) on the index's view. dump_file writes one
    "key:value" line per pair in level-0 order; load_file reads the lines back one by one
    and inserts each usable one. The file itself is a sequence of lines here. */
module Persistence {
  import opened Wrappers
  import opened Entries
  import opened Codec

  /** The lines dump_file writes for the pairs e, in order: one line per pair, the line for
      the last pair written last. */
  function DumpLines(e: seq<Pair>): (lines: seq<string>)
    ensures |lines| == |e|
  {
    if e == [] then [] else DumpLines(e[..|e| - 1]) + [FormatLine(e[|e| - 1].key, e[|e| - 1].value)]
  }

  /** Line i of the dump is the line for pair i. */
  lemma {:induction false} DumpLinesAt(e: seq<Pair>, i: nat)
    requires i < |e|
    ensures DumpLines(e)[i] == FormatLine(e[i].key, e[i].value)
  {
    if i < |e| - 1 {
      DumpLinesAt(e[..|e| - 1], i);
    }
  }

  /** The pairs after a load, and the line at which std::stoi threw, if it did. */
  datatype Outcome = Outcome(entries: seq<Pair>, aborted: Option<nat>)

  /** load_file's loop from line i on, as written (skiplist.h:342-353): the key and value
      strings kb and vb live across lines, get_key_value_from_string leaves them as they
      were on an unusable line, an empty key or value skips the line, and otherwise the
      key text goes through std::stoi and the pair is inserted. */
  function LoadFrom(e: seq<Pair>, kb: string, vb: string, lines: seq<string>, i: nat): Outcome
    decreases |lines| - i
  {
    if i >= |lines| then Outcome(e, None)
    else
      var r := GetKeyValueFromString(lines[i], kb, vb);
      if r.0 == [] || r.1 == [] then LoadFrom(e, r.0, r.1, lines, i + 1)
      else match Stoi(r.0)
        case None => Outcome(e, Some(i))
        case Some(k) => LoadFrom(InsertEntry(e, k, r.1), r.0, r.1, lines, i + 1)
  }

  /** One line of load_file's loop: a line that leaves the key or the value empty is passed
      over, a key text std::stoi rejects ends the load, and any other line inserts. */
  lemma LoadFromSkip(e: seq<Pair>, kb: string, vb: string, lines: seq<string>, i: nat, k: string, v: string)
    requires i < |lines| && GetKeyValueFromString(lines[i], kb, vb) == (k, v) && (k == [] || v == [])
    ensures LoadFrom(e, kb, vb, lines, i) == LoadFrom(e, k, v, lines, i + 1)
  {
  }

  lemma LoadFromBad(e: seq<Pair>, kb: string, vb: string, lines: seq<string>, i: nat, k: string, v: string)
    requires i < |lines| && GetKeyValueFromString(lines[i], kb, vb) == (k, v) && k != [] && v != []
    requires Stoi(k).None?
    ensures LoadFrom(e, kb, vb, lines, i) == Outcome(e, Some(i))
  {
  }

  lemma LoadFromItem(e: seq<Pair>, kb: string, vb: string, lines: seq<string>, i: nat, k: string, v: string,
                     key: int32)
    requires i < |lines| && GetKeyValueFromString(lines[i], kb, vb) == (k, v) && k != [] && v != []
    requires Stoi(k) == Some(key)
    ensures LoadFrom(e, kb, vb, lines, i) == LoadFrom(InsertEntry(e, key, v), k, v, lines, i + 1)
  {
  }

  /** load_file into an index whose pairs are e; both strings start out empty. */
  function Load(e: seq<Pair>, lines: seq<string>): Outcome {
    LoadFrom(e, "", "", lines, 0)
  }

  // ---------------------------------------------------------------------------
  // A line-by-line reference: what each line means on its own.

  datatype LineKind = Skip | Bad | Item(key: int32, value: string)

  /** A line without the delimiter, or with an empty key or value, is skipped; a key text
      that std::stoi rejects is bad; anything else is a pair. */
  function Classify(line: string): LineKind {
    if !IsValidString(line) then Skip
    else
      var r := GetKeyValueFromString(line, "", "");
      if r.0 == [] || r.1 == [] then Skip
      else match Stoi(r.0)
        case None => Bad
        case Some(k) => Item(k, r.1)
  }

  function ApplyFrom(e: seq<Pair>, lines: seq<string>, i: nat): Outcome
    decreases |lines| - i
  {
    if i >= |lines| then Outcome(e, None)
    else match Classify(lines[i])
      case Skip => ApplyFrom(e, lines, i + 1)
      case Bad => Outcome(e, Some(i))
      case Item(k, v) => ApplyFrom(InsertEntry(e, k, v), lines, i + 1)
  }

  /** One step of the reference on a line that reads as a pair. */
  lemma ApplyItem(e: seq<Pair>, lines: seq<string>, i: nat, k: int32, v: string)
    requires i < |lines| && Classify(lines[i]) == Item(k, v)
    ensures ApplyFrom(e, lines, i) == ApplyFrom(InsertEntry(e, k, v), lines, i + 1)
  {
  }

  /** What the carried-over strings can hold: one of them empty, or a key that is already in
      the index, so inserting them again changes nothing. */
  predicate Harmless(e: seq<Pair>, kb: string, vb: string) {
    kb == [] || vb == [] || (Stoi(kb).Some? && HasKey(e, Stoi(kb).value))
  }

  /** The strings carried over from an earlier line never change the outcome: load_file
      behaves exactly like the line-by-line reference. */
  lemma LoadIsLineByLine(e: seq<Pair>, lines: seq<string>)
    requires Sorted(e)
    ensures Load(e, lines) == ApplyFrom(e, lines, 0)
  {
    LoadFromAgrees(e, "", "", lines, 0);
  }

  lemma {:induction false} LoadFromAgrees(e: seq<Pair>, kb: string, vb: string, lines: seq<string>, i: nat)
    requires Sorted(e) && Harmless(e, kb, vb)
    ensures LoadFrom(e, kb, vb, lines, i) == ApplyFrom(e, lines, i)
    decreases |lines| - i
  {
    if i < |lines| {
      var line := lines[i];
      var r := GetKeyValueFromString(line, kb, vb);
      if !IsValidString(line) {
        assert r == (kb, vb);
        if kb == [] || vb == [] {
          LoadFromAgrees(e, kb, vb, lines, i + 1);
        } else {
          var k := Stoi(kb).value;
          InsertPresent(e, k, vb);
          LoadFromAgrees(e, kb, vb, lines, i + 1);
        }
      } else {
        assert r == GetKeyValueFromString(line, "", "");
        if r.0 == [] || r.1 == [] {
          LoadFromAgrees(e, r.0, r.1, lines, i + 1);
        } else if Stoi(r.0).Some? {
          var k := Stoi(r.0).value;
          var e' := InsertEntry(e, k, r.1);
          InsertSorted(e, k, r.1);
          InsertLookup(e, k, r.1, k);
          LookupHasKey(e, k);
          LookupHasKey(e', k);
          LoadFromAgrees(e', r.0, r.1, lines, i + 1);
        }
      }
    }
  }

  /** A dumped line with a non-empty value reads back as its pair. */
  lemma ClassifyDumped(key: int32, value: string)
    requires value != []
    ensures Classify(FormatLine(key, value)) == Item(key, value)
  {
    LineRoundTrip(key, value, "", "");
  }

  /** dump_file followed by load_file into an empty index gives back every pair, provided
      no value is empty (load_file skips those) and no value spans lines. */
  lemma DumpThenLoad(e: seq<Pair>)
    requires Sorted(e)
    requires forall i :: 0 <= i < |e| ==> e[i].value != []
    ensures Load([], DumpLines(e)) == Outcome(e, None)
  {
    LoadIsLineByLine([], DumpLines(e));
    assert e[..0] == [];
    ReplayPrefix(e, 0);
  }

  /** Replaying the dump of e from line i onto the pairs before i rebuilds e. */
  lemma {:induction false} ReplayPrefix(e: seq<Pair>, i: nat)
    requires Sorted(e) && i <= |e|
    requires forall j :: 0 <= j < |e| ==> e[j].value != []
    ensures ApplyFrom(e[..i], DumpLines(e), i) == Outcome(e, None)
    decreases |e| - i
  {
    if i == |e| {
      assert e[..i] == e;
    } else {
      ReplayStep(e, i);
      ReplayPrefix(e, i + 1);
    }
  }

  /** Line i of the dump adds pair i to the pairs before it. */
  lemma ReplayStep(e: seq<Pair>, i: nat)
    requires Sorted(e) && i < |e| && e[i].value != []
    ensures ApplyFrom(e[..i], DumpLines(e), i) == ApplyFrom(e[..i + 1], DumpLines(e), i + 1)
  {
    var k, v := e[i].key, e[i].value;
    DumpLinesAt(e, i);
    ClassifyDumped(k, v);
    ApplyItem(e[..i], DumpLines(e), i, k, v);
    AppendLargest(e, i);
  }

  /** Pair i of a sorted list, inserted into the pairs before it, extends them by one. */
  lemma AppendLargest(e: seq<Pair>, i: nat)
    requires Sorted(e) && i < |e|
    ensures InsertEntry(e[..i], e[i].key, e[i].value) == e[..i + 1]
  {
    var p := e[..i];
    var k, v := e[i].key, e[i].value;
    forall j | 0 <= j < i ensures p[j].key < k {
      assert p[j] == e[j];
    }
    InsertAt(p, k, v, i);
    assert p[..i] + [Pair(k, v)] + p[i..] == e[..i + 1] by {
      assert p[..i] == e[..i] && p[i..] == [];
      assert e[..i + 1] == e[..i] + [e[i]];
    }
  }

  /** The pairs of e whose value is not empty, in their order in e. */
  function Kept(e: seq<Pair>): (r: seq<Pair>)
    ensures forall x :: x in r ==> x in e && x.value != []
  {
    if e == [] then []
    else Kept(e[..|e| - 1]) + (if e[|e| - 1].value == [] then [] else [e[|e| - 1]])
  }

  /** A dumped line with an empty value is passed over. */
  lemma ClassifyDumpedEmpty(key: int32)
    ensures Classify(FormatLine(key, "")) == Skip
  {
    LineRoundTrip(key, "", "", "");
  }

  /** dump_file followed by load_file into an empty index gives back exactly the pairs
      whose value is not empty, in order and without abort. */
  lemma DumpThenLoadKept(e: seq<Pair>)
    requires Sorted(e)
    ensures Load([], DumpLines(e)) == Outcome(Kept(e), None)
  {
    LoadIsLineByLine([], DumpLines(e));
    assert e[..0] == [];
    ReplayKept(e, 0);
  }

  /** Replaying the dump of e from line i onto the kept pairs before i gives the kept pairs
      of all of e. */
  lemma {:induction false} ReplayKept(e: seq<Pair>, i: nat)
    requires Sorted(e) && i <= |e|
    ensures ApplyFrom(Kept(e[..i]), DumpLines(e), i) == Outcome(Kept(e), None)
    decreases |e| - i
  {
    if i == |e| {
      assert e[..i] == e;
    } else {
      KeptStep(e, i);
      ReplayKept(e, i + 1);
    }
  }

  /** Line i of the dump adds pair i to the kept pairs before it when its value is not
      empty, and is passed over otherwise. */
  lemma KeptStep(e: seq<Pair>, i: nat)
    requires Sorted(e) && i < |e|
    ensures ApplyFrom(Kept(e[..i]), DumpLines(e), i) == ApplyFrom(Kept(e[..i + 1]), DumpLines(e), i + 1)
  {
    var k, v := e[i].key, e[i].value;
    var p, q, lines := Kept(e[..i]), Kept(e[..i + 1]), DumpLines(e);
    KeptSnoc(e, i);
    DumpLinesAt(e, i);
    if v == [] {
      assert q == p;
      ClassifyDumpedEmpty(k);
      ApplySkip(p, lines, i);
    } else {
      ClassifyDumped(k, v);
      ApplyItem(p, lines, i, k, v);
      KeptBelow(e, i);
      assert q == InsertEntry(p, k, v);
    }
  }

  /** One step of the reference on a line that is passed over. */
  lemma ApplySkip(e: seq<Pair>, lines: seq<string>, i: nat)
    requires i < |lines| && Classify(lines[i]) == Skip
    ensures ApplyFrom(e, lines, i) == ApplyFrom(e, lines, i + 1)
  {
  }

  /** The kept pairs of one more pair. */
  lemma KeptSnoc(e: seq<Pair>, i: nat)
    requires i < |e|
    ensures Kept(e[..i + 1]) == Kept(e[..i]) + (if e[i].value == [] then [] else [e[i]])
  {
    assert e[..i + 1][..i] == e[..i];
  }

  /** Pair i of a sorted list goes at the end of the kept pairs before it. */
  lemma KeptBelow(e: seq<Pair>, i: nat)
    requires Sorted(e) && i < |e|
    ensures InsertEntry(Kept(e[..i]), e[i].key, e[i].value) == Kept(e[..i]) + [e[i]]
  {
    var p := Kept(e[..i]);
    forall j | 0 <= j < |p| ensures p[j].key < e[i].key {
      assert p[j] in e[..i];
    }
    InsertAt(p, e[i].key, e[i].value, |p|);
    assert p[..|p|] == p && p[|p|..] == [];
  }

  /** With no empty value, every pair is kept. */
  lemma {:induction false} KeptAll(e: seq<Pair>)
    requires forall i :: 0 <= i < |e| ==> e[i].value != []
    ensures Kept(e) == e
  {
    if e != [] {
      KeptAll(e[..|e| - 1]);
      assert e[..|e| - 1] + [e[|e| - 1]] == e;
    }
  }

  /** load_file does not overwrite: a key already in the index keeps its value, whatever
      the lines say (insert_element refuses a present key). */
  lemma {:induction false} LoadKeepsPresent(e: seq<Pair>, lines: seq<string>, i: nat, k: int32)
    requires Sorted(e) && HasKey(e, k)
    ensures Lookup(ApplyFrom(e, lines, i).entries, k) == Lookup(e, k)
    decreases |lines| - i
  {
    if i < |lines| {
      match Classify(lines[i])
      case Skip => LoadKeepsPresent(e, lines, i + 1, k);
      case Bad =>
      case Item(k', v) =>
        var e' := InsertEntry(e, k', v);
        InsertSorted(e, k', v);
        InsertLookup(e, k', v, k);
        LookupHasKey(e, k);
        LookupHasKey(e', k);
        LoadKeepsPresent(e', lines, i + 1, k);
    }
  }

  /** load_file skips a pair with an empty value, so dumping and loading loses it. */
  lemma EmptyValueIsDropped(key: int32)
    ensures Load([], DumpLines([Pair(key, "")])) == Outcome([], None)
  {
    DumpThenLoadKept([Pair(key, "")]);
  }
}
