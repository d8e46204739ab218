/** The creator's data: an insertion-ordered map from parent keys to child
    lists (a `LinkedHashMap<Parent, MutableList<Child>>`), and the flat
    layout the host renders from it: each group takes one header row
    followed by one row per child, groups following each other in map order. */
module Groups {
  import opened KotlinLib

  /** One entry of the ordered map: a parent key and its child list. */
  datatype Entry<P, C> = Entry(key: P, children: seq<C>)

  /** The number of rows a group occupies: its header and one per child. */
  function Footprint<P, C>(e: Entry<P, C>): nat {
    1 + |e.children|
  }

  /** Keys are pairwise distinct, as in any map. */
  ghost predicate DistinctKeys<P, C>(gs: seq<Entry<P, C>>) {
    forall i, j :: 0 <= i < j < |gs| ==> gs[i].key != gs[j].key
  }

  /** The rows taken by all groups of `gs`. */
  function Rows<P, C>(gs: seq<Entry<P, C>>): nat
    decreases |gs|
  {
    if gs == [] then 0 else Rows(gs[..|gs| - 1]) + Footprint(gs[|gs| - 1])
  }

  /** The total length of all child lists. */
  function ChildCount<P, C>(gs: seq<Entry<P, C>>): nat
    decreases |gs|
  {
    if gs == [] then 0 else ChildCount(gs[..|gs| - 1]) + |gs[|gs| - 1].children|
  }

  /** The flat row of group `g`'s header: the rows of all groups before it. */
  function HeaderStart<P, C>(gs: seq<Entry<P, C>>, g: nat): nat
    requires g <= |gs|
  {
    Rows(gs[..g])
  }

  /** The total row count is the number of groups plus all their children. */
  lemma {:induction false} RowsIsCount<P, C>(gs: seq<Entry<P, C>>)
    ensures Rows(gs) == |gs| + ChildCount(gs)
    decreases |gs|
  {
    if gs != [] {
      RowsIsCount(gs[..|gs| - 1]);
    }
  }

  lemma HeaderStartStep<P, C>(gs: seq<Entry<P, C>>, g: nat)
    requires g < |gs|
    ensures HeaderStart(gs, g + 1) == HeaderStart(gs, g) + Footprint(gs[g])
  {
    assert gs[..g + 1][..g] == gs[..g];
  }

  lemma HeaderStartAll<P, C>(gs: seq<Entry<P, C>>)
    ensures HeaderStart(gs, |gs|) == Rows(gs)
  {
    assert gs[..|gs|] == gs;
  }

  /** A later group starts after every row of an earlier one. */
  lemma {:induction false} HeaderStartMono<P, C>(gs: seq<Entry<P, C>>, g: nat, h: nat)
    requires g < h <= |gs|
    ensures HeaderStart(gs, g) + Footprint(gs[g]) <= HeaderStart(gs, h)
    decreases h
  {
    if h == g + 1 {
      HeaderStartStep(gs, g);
    } else {
      HeaderStartMono(gs, g, h - 1);
      HeaderStartStep(gs, h - 1);
    }
  }

  /** The position of key `p` in map order, if it is present. */
  function KeyIndex<P(==), C>(gs: seq<Entry<P, C>>, p: P): (r: Option<nat>)
    ensures r.None? <==> forall i :: 0 <= i < |gs| ==> gs[i].key != p
    ensures r.Some? ==> r.value < |gs| && gs[r.value].key == p
    ensures r.Some? ==> forall i :: 0 <= i < r.value ==> gs[i].key != p
  {
    if gs == [] then None
    else if gs[0].key == p then Some(0)
    else match KeyIndex(gs[1..], p)
      case None => None
      case Some(k) => Some(k + 1)
  }

  /** KeyIndex depends on the keys only. */
  lemma KeyIndexSameKeys<P, C>(gs: seq<Entry<P, C>>, hs: seq<Entry<P, C>>, p: P)
    requires |gs| == |hs| && forall i :: 0 <= i < |gs| ==> gs[i].key == hs[i].key
    ensures KeyIndex(gs, p) == KeyIndex(hs, p)
  {
    var a, b := KeyIndex(gs, p), KeyIndex(hs, p);
    if a.Some? {
      assert hs[a.value].key == p;
    }
    if b.Some? {
      assert gs[b.value].key == p;
    }
  }

  /** Appending an entry only makes its own key findable, at the end. */
  lemma {:induction false} KeyIndexAppend<P, C>(gs: seq<Entry<P, C>>, e: Entry<P, C>, p: P)
    ensures KeyIndex(gs + [e], p) ==
      if KeyIndex(gs, p).Some? then KeyIndex(gs, p)
      else if e.key == p then Some(|gs|) else None
  {
    if gs != [] {
      assert (gs + [e])[1..] == gs[1..] + [e];
      KeyIndexAppend(gs[1..], e, p);
    }
  }

  /** With distinct keys, the key stored at `i` is found at `i`. */
  lemma KeyIndexOfKeyAt<P, C>(gs: seq<Entry<P, C>>, i: nat)
    requires DistinctKeys(gs) && i < |gs|
    ensures KeyIndex(gs, gs[i].key) == Some(i)
  {
  }

  /** `dataMap[p]`: the child list stored under `p`, if any. */
  function Lookup<P(==), C>(gs: seq<Entry<P, C>>, p: P): Option<seq<C>> {
    match KeyIndex(gs, p)
    case Some(g) => Some(gs[g].children)
    case None => None
  }

  /** Lookup is a map get: it finds something exactly when some entry holds
      the key, and with distinct keys it is that entry's child list. */
  lemma LookupIsGet<P, C>(gs: seq<Entry<P, C>>, p: P)
    ensures Lookup(gs, p).Some? <==> exists i :: 0 <= i < |gs| && gs[i].key == p
    ensures DistinctKeys(gs) ==>
      forall i :: 0 <= i < |gs| && gs[i].key == p ==> Lookup(gs, p) == Some(gs[i].children)
  {
    if DistinctKeys(gs) {
      forall i | 0 <= i < |gs| && gs[i].key == p
        ensures Lookup(gs, p) == Some(gs[i].children)
      {
        KeyIndexOfKeyAt(gs, i);
      }
    }
  }

  /** `LinkedHashMap.put(k, v)`: an existing key keeps its position and gets
      the new value; a new key is appended. Returns the map and the value
      displaced, if any. */
  function Put<P(==), C>(gs: seq<Entry<P, C>>, k: P, v: seq<C>): (r: (seq<Entry<P, C>>, Option<seq<C>>))
    ensures r.1 == Lookup(gs, k)
    ensures Lookup(r.0, k) == Some(v)
    ensures |r.0| == |gs| + (if KeyIndex(gs, k).None? then 1 else 0)
    ensures forall i :: 0 <= i < |gs| ==> r.0[i].key == gs[i].key
    ensures forall i :: 0 <= i < |gs| && gs[i].key != k ==> r.0[i] == gs[i]
    ensures DistinctKeys(gs) ==> DistinctKeys(r.0)
  {
    match KeyIndex(gs, k)
    case Some(g) =>
      var m := gs[g := Entry(k, v)];
      KeyIndexSameKeys(gs, m, k);
      (m, Some(gs[g].children))
    case None =>
      var m := gs + [Entry(k, v)];
      KeyIndexAppend(gs, Entry(k, v), k);
      (m, None)
  }

  /** Put of an absent key appends it. */
  lemma PutAbsent<P, C>(gs: seq<Entry<P, C>>, k: P, v: seq<C>)
    requires forall i :: 0 <= i < |gs| ==> gs[i].key != k
    ensures Put(gs, k, v) == (gs + [Entry(k, v)], None)
  {
  }

  /** `LinkedHashMap.remove` keeps the other keys distinct. */
  lemma RemoveKeepsDistinct<P, C>(gs: seq<Entry<P, C>>, g: nat)
    requires DistinctKeys(gs) && g < |gs|
    ensures DistinctKeys(gs[..g] + gs[g + 1..])
  {
    var rest := gs[..g] + gs[g + 1..];
    forall i, j | 0 <= i < j < |rest| ensures rest[i].key != rest[j].key {
      var i' := if i < g then i else i + 1;
      var j' := if j < g then j else j + 1;
      assert rest[i] == gs[i'] && rest[j] == gs[j'];
    }
  }

  /** Putting a present key replaces its entry where it stands. */
  lemma PutPresent<P, C>(gs: seq<Entry<P, C>>, k: P, v: seq<C>, g: nat)
    requires KeyIndex(gs, k) == Some(g)
    ensures Put(gs, k, v) == (gs[g := Entry(k, v)], Some(gs[g].children))
  {
  }

  /** The rows of every group whose key is not `p`: what the source's
      `getParentPositionInCreator(p)` adds up. */
  function OthersRows<P(==), C>(gs: seq<Entry<P, C>>, p: P): nat
    decreases |gs|
  {
    if gs == [] then 0
    else
      var last := gs[|gs| - 1];
      OthersRows(gs[..|gs| - 1], p) + (if last.key == p then 0 else Footprint(last))
  }

  /** For an absent key every group is counted. */
  lemma {:induction false} OthersRowsAbsent<P, C>(gs: seq<Entry<P, C>>, p: P)
    requires KeyIndex(gs, p).None?
    ensures OthersRows(gs, p) == Rows(gs)
    decreases |gs|
  {
    if gs != [] {
      OthersRowsAbsent(gs[..|gs| - 1], p);
    }
  }

  lemma {:induction false} OthersRowsPrefix<P, C>(gs: seq<Entry<P, C>>, g: nat, n: nat)
    requires DistinctKeys(gs) && g < |gs| && n <= |gs|
    ensures OthersRows(gs[..n], gs[g].key) + (if g < n then Footprint(gs[g]) else 0) == Rows(gs[..n])
    decreases n
  {
    if n > 0 {
      OthersRowsPrefix(gs, g, n - 1);
      assert gs[..n][..n - 1] == gs[..n - 1];
    }
  }

  /** For a present key, every group except that key's own is counted. */
  lemma OthersRowsPresent<P, C>(gs: seq<Entry<P, C>>, g: nat)
    requires DistinctKeys(gs) && g < |gs|
    ensures OthersRows(gs, gs[g].key) == Rows(gs) - Footprint(gs[g])
  {
    OthersRowsPrefix(gs, g, |gs|);
    assert gs[..|gs|] == gs;
  }

  /** For a present key, the sum of the other groups' rows is the key's
      header row plus the rows of every group after it. */
  lemma OthersRowsSplit<P, C>(gs: seq<Entry<P, C>>, g: nat)
    requires DistinctKeys(gs) && g < |gs|
    ensures HeaderStart(gs, g + 1) <= Rows(gs)
    ensures OthersRows(gs, gs[g].key) == HeaderStart(gs, g) + (Rows(gs) - HeaderStart(gs, g + 1))
  {
    OthersRowsPresent(gs, g);
    HeaderStartStep(gs, g);
    HeaderStartAll(gs);
    if g + 1 < |gs| {
      HeaderStartMono(gs, g + 1, |gs|);
    }
  }

  /** So it is the key's header row exactly when the key's group is the
      last one. */
  lemma OthersRowsIsHeaderIffLast<P, C>(gs: seq<Entry<P, C>>, g: nat)
    requires DistinctKeys(gs) && g < |gs|
    ensures OthersRows(gs, gs[g].key) == HeaderStart(gs, g) <==> g == |gs| - 1
  {
    OthersRowsSplit(gs, g);
    HeaderStartAll(gs);
    if g + 1 < |gs| {
      HeaderStartMono(gs, g + 1, |gs|);
    }
  }

  /** Which group row `i` falls in and its offset from that group's header. */
  function Locate<P, C>(gs: seq<Entry<P, C>>, i: nat): (r: (nat, nat))
    requires i < Rows(gs)
    ensures r.0 < |gs| && r.1 < Footprint(gs[r.0])
    ensures HeaderStart(gs, r.0) + r.1 == i
    decreases |gs|
  {
    var n := |gs| - 1;
    var before := gs[..n];
    if i >= Rows(before) then (n, i - Rows(before))
    else
      var r := Locate(before, i);
      assert before[..r.0] == gs[..r.0];
      r
  }

  /** Every (group, offset) pair inside the layout is found by Locate. */
  lemma LocateUnique<P, C>(gs: seq<Entry<P, C>>, g: nat, off: nat)
    requires g < |gs| && off < Footprint(gs[g])
    ensures HeaderStart(gs, g) + off < Rows(gs)
    ensures Locate(gs, HeaderStart(gs, g) + off) == (g, off)
  {
    HeaderStartMono(gs, g, |gs|);
    HeaderStartAll(gs);
    var (h, o) := Locate(gs, HeaderStart(gs, g) + off);
    if h < g {
      HeaderStartMono(gs, h, g);
    } else if g < h {
      HeaderStartMono(gs, g, h);
    }
  }

  /** A reference to one row: a group's header, or a child of a group. */
  datatype Row = Header(group: nat) | Child(group: nat, offset: nat)

  ghost predicate ValidRow<P, C>(gs: seq<Entry<P, C>>, r: Row) {
    r.group < |gs| && (r.Child? ==> r.offset < |gs[r.group].children|)
  }

  /** The flat index of a row reference. */
  function RowIndex<P, C>(gs: seq<Entry<P, C>>, r: Row): (i: nat)
    requires ValidRow(gs, r)
    ensures i < Rows(gs)
  {
    var off := if r.Header? then 0 else 1 + r.offset;
    LocateUnique(gs, r.group, off);
    HeaderStart(gs, r.group) + off
  }

  /** The row reference of a flat index; None outside [0, Rows(gs)). */
  function RowAt<P, C>(gs: seq<Entry<P, C>>, i: int): (r: Option<Row>)
    ensures r.None? <==> !(0 <= i < Rows(gs))
    ensures r.Some? ==> ValidRow(gs, r.value) && RowIndex(gs, r.value) == i
  {
    if 0 <= i < Rows(gs) then
      var (g, off) := Locate(gs, i);
      Some(if off == 0 then Header(g) else Child(g, off - 1))
    else None
  }

  /** Every row reference resolves back to itself. */
  lemma RowAtIndex<P, C>(gs: seq<Entry<P, C>>, r: Row)
    requires ValidRow(gs, r)
    ensures RowAt(gs, RowIndex(gs, r)) == Some(r)
  {
    LocateUnique(gs, r.group, if r.Header? then 0 else 1 + r.offset);
  }

  /** The row `OthersRows + offset + 1` that the child operations notify is
      the child's own row shifted by the rows of all groups after it. */
  lemma ChildRowShift<P, C>(gs: seq<Entry<P, C>>, g: nat, k: nat)
    requires DistinctKeys(gs) && ValidRow(gs, Child(g, k))
    ensures HeaderStart(gs, g + 1) <= Rows(gs)
    ensures OthersRows(gs, gs[g].key) + k + 1 == RowIndex(gs, Child(g, k)) + (Rows(gs) - HeaderStart(gs, g + 1))
  {
    OthersRowsSplit(gs, g);
  }

  /** So the notified row is the child's own row exactly when its group is
      the last one. */
  lemma ChildRowIffLast<P, C>(gs: seq<Entry<P, C>>, g: nat, k: nat)
    requires DistinctKeys(gs) && ValidRow(gs, Child(g, k))
    ensures OthersRows(gs, gs[g].key) + k + 1 == RowIndex(gs, Child(g, k)) <==> g == |gs| - 1
  {
    OthersRowsIsHeaderIffLast(gs, g);
  }

  predicate IsHeaderRow<P, C>(gs: seq<Entry<P, C>>, i: int) {
    var r := RowAt(gs, i);
    r.Some? && r.value.Header?
  }

  /** A header row is exactly the flat index where a group starts. */
  lemma HeaderRowIff<P, C>(gs: seq<Entry<P, C>>, i: int, g: nat)
    ensures RowAt(gs, i) == Some(Header(g)) <==> g < |gs| && i == HeaderStart(gs, g)
  {
    if g < |gs| && i == HeaderStart(gs, g) {
      RowAtIndex(gs, Header(g));
    }
  }
}

/** The loop of `realSetParentItem`, as a function of the entries walked so
    far. */
module Rebuilding {
  import opened KotlinLib
  import opened Groups

  /** The map `realSetParentItem`'s loop builds by walking `gs` in order:
      every entry is put into a fresh map, except that at index `ord` the
      key `p` is put with an empty list first, and the entry found there is
      put after it only when inserting (`isAdd`). The second component is
      what the put of `p` displaced, if it ran. */
  function Rebuild<P(==), C>(gs: seq<Entry<P, C>>, ord: int, p: P, isAdd: bool): (seq<Entry<P, C>>, Option<seq<C>>)
    decreases |gs|
  {
    if gs == [] then ([], None)
    else
      var j := |gs| - 1;
      var e := gs[j];
      var (acc, displaced) := Rebuild(gs[..j], ord, p, isAdd);
      if j == ord then
        var (withP, previous) := Put(acc, p, []);
        (if isAdd then Put(withP, e.key, e.children).0 else withP, previous)
      else (Put(acc, e.key, e.children).0, displaced)
  }

  /** Re-putting the last entry of a map with distinct keys onto the rest
      gives the map back. */
  lemma PutLastEntry<P, C>(gs: seq<Entry<P, C>>)
    requires DistinctKeys(gs) && gs != []
    ensures Put(gs[..|gs| - 1], gs[|gs| - 1].key, gs[|gs| - 1].children).0 == gs
  {
    var prefix, e := gs[..|gs| - 1], gs[|gs| - 1];
    assert forall i :: 0 <= i < |prefix| ==> prefix[i].key != e.key;
    PutAbsent(prefix, e.key, e.children);
    assert prefix + [Entry(e.key, e.children)] == gs;
  }

  /** When the loop never reaches index `ord`, it copies the map unchanged. */
  lemma {:induction false} RebuildCopies<P, C>(gs: seq<Entry<P, C>>, ord: int, p: P, isAdd: bool)
    requires DistinctKeys(gs) && (ord < 0 || |gs| <= ord)
    ensures Rebuild(gs, ord, p, isAdd) == (gs, None)
    decreases |gs|
  {
    if gs != [] {
      var j := |gs| - 1;
      var prefix, e := gs[..j], gs[j];
      assert DistinctKeys(prefix);
      RebuildCopies(prefix, ord, p, isAdd);
      assert Rebuild(gs, ord, p, isAdd) == (Put(prefix, e.key, e.children).0, None) by {
        RebuildLast(gs, ord, p, isAdd, |gs|);
        assert gs[..|gs|] == gs;
      }
      PutLastEntry(gs);
    }
  }

  /** The map the loop builds from the first `n` entries when `ord` is a
      valid index and `p` is a new key. */
  function Spliced<P, C>(gs: seq<Entry<P, C>>, ord: nat, p: P, isAdd: bool, n: nat): seq<Entry<P, C>>
    requires ord < |gs| && n <= |gs|
  {
    if n <= ord then gs[..n]
    else gs[..ord] + [Entry(p, [])] + (if isAdd then gs[ord..n] else gs[ord + 1..n])
  }

  /** Neither `p` nor any key of a later entry occurs in what the loop has
      built from the first `j` entries. */
  lemma SplicedKeysBefore<P, C>(gs: seq<Entry<P, C>>, ord: nat, p: P, isAdd: bool, j: nat)
    requires DistinctKeys(gs) && KeyIndex(gs, p).None? && ord < |gs| && j < |gs|
    ensures j <= ord ==> forall i :: 0 <= i < |Spliced(gs, ord, p, isAdd, j)| ==> Spliced(gs, ord, p, isAdd, j)[i].key != p
    ensures forall i :: 0 <= i < |Spliced(gs, ord, p, isAdd, j)| ==> Spliced(gs, ord, p, isAdd, j)[i].key != gs[j].key
  {
    var acc := Spliced(gs, ord, p, isAdd, j);
    if j > ord {
      var lo := if isAdd then ord else ord + 1;
      forall i | 0 <= i < |acc| ensures acc[i].key != gs[j].key {
        if i < ord {
          assert acc[i] == gs[i];
        } else if i > ord {
          assert acc[i] == gs[lo + i - ord - 1];
        }
      }
    } else {
      forall i | 0 <= i < |acc| ensures acc[i].key != gs[j].key && acc[i].key != p {
        assert acc[i] == gs[i];
      }
    }
  }

  /** One more entry walked by the loop extends the splice by that entry
      (and by `p` first, at index `ord`). */
  lemma SplicedStep<P, C>(gs: seq<Entry<P, C>>, ord: nat, p: P, isAdd: bool, j: nat)
    requires ord < |gs| && j < |gs|
    ensures j < ord ==> Spliced(gs, ord, p, isAdd, j + 1) == Spliced(gs, ord, p, isAdd, j) + [gs[j]]
    ensures j == ord ==> (Spliced(gs, ord, p, isAdd, j + 1) ==
      Spliced(gs, ord, p, isAdd, j) + [Entry(p, [])] + (if isAdd then [gs[j]] else []))
    ensures j > ord ==> Spliced(gs, ord, p, isAdd, j + 1) == Spliced(gs, ord, p, isAdd, j) + [gs[j]]
  {
    if j < ord {
      assert gs[..j + 1] == gs[..j] + [gs[j]];
    } else if j == ord {
      if isAdd {
        assert gs[ord..j + 1] == [gs[j]];
      } else {
        assert gs[ord + 1..j + 1] == [];
      }
    } else {
      var lo := if isAdd then ord else ord + 1;
      assert gs[lo..j + 1] == gs[lo..j] + [gs[j]];
    }
  }

  lemma PutAbsentAfter<P, C>(acc: seq<Entry<P, C>>, p: P, e: Entry<P, C>)
    requires e.key != p
    requires forall i :: 0 <= i < |acc| ==> acc[i].key != e.key
    ensures Put(acc + [Entry(p, [])], e.key, e.children).0 == acc + [Entry(p, [])] + [e]
  {
    var withP := acc + [Entry(p, [])];
    forall i | 0 <= i < |withP| ensures withP[i].key != e.key {
      if i < |acc| { assert withP[i] == acc[i]; }
    }
    PutAbsent(withP, e.key, e.children);
  }

  /** One unfolding of Rebuild on the last entry walked. */
  lemma RebuildLast<P, C>(gs: seq<Entry<P, C>>, ord: int, p: P, isAdd: bool, n: nat)
    requires 0 < n <= |gs|
    ensures var prev := Rebuild(gs[..n - 1], ord, p, isAdd);
      var e := gs[n - 1];
      Rebuild(gs[..n], ord, p, isAdd) ==
        if n - 1 == ord then
          (if isAdd then Put(Put(prev.0, p, []).0, e.key, e.children).0 else Put(prev.0, p, []).0,
           Put(prev.0, p, []).1)
        else (Put(prev.0, e.key, e.children).0, prev.1)
  {
    assert gs[..n][..n - 1] == gs[..n - 1];
  }

  lemma {:induction false} RebuildSplicesPrefix<P, C>(gs: seq<Entry<P, C>>, ord: nat, p: P, isAdd: bool, n: nat)
    requires DistinctKeys(gs) && KeyIndex(gs, p).None? && ord < |gs| && n <= |gs|
    ensures Rebuild(gs[..n], ord, p, isAdd) == (Spliced(gs, ord, p, isAdd, n), None)
    decreases n
  {
    if n > 0 {
      var j := n - 1;
      var e := gs[j];
      RebuildSplicesPrefix(gs, ord, p, isAdd, j);
      RebuildLast(gs, ord, p, isAdd, n);
      var acc := Spliced(gs, ord, p, isAdd, j);
      SplicedKeysBefore(gs, ord, p, isAdd, j);
      SplicedStep(gs, ord, p, isAdd, j);
      if j == ord {
        PutAbsent(acc, p, []);
        if isAdd {
          assert e.key != p;
          PutAbsentAfter(acc, p, e);
          assert Entry(e.key, e.children) == e;
        } else {
          assert acc + [Entry(p, [])] + [] == acc + [Entry(p, [])];
        }
      } else {
        PutAbsent(acc, e.key, e.children);
      }
    }
  }

  /** With a valid index and a new key, the loop splices `p` in at `ord`:
      before the entry found there when inserting, in its place otherwise. */
  lemma RebuildSplices<P, C>(gs: seq<Entry<P, C>>, ord: nat, p: P, isAdd: bool)
    requires DistinctKeys(gs) && KeyIndex(gs, p).None? && ord < |gs|
    ensures Rebuild(gs, ord, p, isAdd) ==
      (gs[..ord] + [Entry(p, [])] + (if isAdd then gs[ord..] else gs[ord + 1..]), None)
  {
    RebuildSplicesPrefix(gs, ord, p, isAdd, |gs|);
    assert gs[..|gs|] == gs;
  }
}
