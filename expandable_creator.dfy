/** The expandable creator: it owns the ordered parent -> children map,
    translates between flat row positions and (parent, child) references,
    and notifies its host adapter of every change. */
module Creator {
  import opened KotlinLib
  import opened Groups
  import opened Rebuilding
  import opened ViewType

  /** The calls the creator makes on its host adapter. */
  datatype Notification =
    | SetChanged                          // notifyModulesItemSetChange
    | Inserted(position: int)             // notifyModulesItemInserted
    | Changed(position: int)              // notifyModulesItemChanged
    | Removed(position: int)              // notifyModulesItemRemoved
    | RangeRemoved(start: int, end: int)  // notifyModulesItemRangeRemoved

  /** The loop of `realSetParentItem`: fills a fresh map by walking `gs`
      in order, putting `p` with an empty list when it meets index `ord`. */
  method RebuildEntries<P(==), C>(gs: seq<Entry<P, C>>, ord: int, p: P, isAdd: bool)
    returns (rebuilt: seq<Entry<P, C>>, result: Option<seq<C>>)
    ensures (rebuilt, result) == Rebuild(gs, ord, p, isAdd)
  {
    rebuilt, result := [], None;
    var j := 0;
    while j < |gs|
      invariant 0 <= j <= |gs|
      invariant (rebuilt, result) == Rebuild(gs[..j], ord, p, isAdd)
    {
      var e := gs[j];
      assert gs[..j + 1][..j] == gs[..j];
      if j == ord {
        var put := Put(rebuilt, p, []);
        rebuilt, result := put.0, put.1;
        if isAdd {
          rebuilt := Put(rebuilt, e.key, e.children).0;
        }
      } else {
        rebuilt := Put(rebuilt, e.key, e.children).0;
      }
      j := j + 1;
    }
    assert gs[..j] == gs;
  }

  class ExpandableCreator<P(==), C(==)> {
    /** Distinguishes this creator's view types from other creators'. */
    const creatorType: int
    /** `dataMap`, in insertion order. */
    var groups: seq<Entry<P, C>>
    /** The notifications sent to the host adapter, oldest first. */
    var log: seq<Notification>

    ghost predicate Valid()
      reads this
    {
      DistinctKeys(groups) && IsInt(creatorType)
    }

    constructor (creatorType: int)
      requires IsInt(creatorType)
      ensures Valid() && this.creatorType == creatorType
      ensures groups == [] && log == []
    {
      this.creatorType := creatorType;
      groups := [];
      log := [];
    }

    /** `setDataList`: adopts a whole new map and asks for a full refresh. */
    method SetDataList(data: seq<Entry<P, C>>)
      requires Valid() && DistinctKeys(data)
      modifies this
      ensures Valid() && groups == data && log == old(log) + [SetChanged]
    {
      groups := data;
      log := log + [SetChanged];
    }

    /** `getData`: a copy of the map. */
    method GetData() returns (data: seq<Entry<P, C>>)
      requires Valid()
      ensures data == groups && DistinctKeys(data)
    {
      data := groups;
    }

    // ---------------------------------------------------------------- counts

    /** `getParentItemCount`: one header row per group, so never more than
        the row count, and zero exactly when there are no rows. */
    function ParentItemCount(): (n: nat)
      reads this
      ensures n <= Rows(groups)
      ensures n == 0 <==> Rows(groups) == 0
    {
      RowsIsCount(groups);
      |groups|
    }

    /** `getItemCount`: the number of groups plus all their children, which
        is the number of rows of the flat layout. */
    function ItemCount(): (n: nat)
      reads this
      ensures n == Rows(groups)
    {
      RowsIsCount(groups);
      |groups| + ChildCount(groups)
    }

    /** `getChildItemCountByParent`: throws for an unknown parent. */
    method GetChildItemCountByParent(p: P) returns (r: Result<nat>)
      requires Valid()
      ensures r.Ok? <==> exists g :: 0 <= g < |groups| && groups[g].key == p
      ensures r.Ok? ==> r.value == |groups[KeyIndex(groups, p).value].children|
      ensures r.Err? ==> r.error == NullPointer
    {
      match Lookup(groups, p)
      case Some(cs) => r := Ok(|cs|);
      case None => r := Err(NullPointer);
    }

    // ------------------------------------------------------- position queries

    /** `getParentPositionInCreator`: the loop skips (rather than stops at)
        the group of `p`, so it adds up the rows of every other group. That
        is `p`'s header row plus the rows of all groups after `p`, and the
        row count when `p` is absent. */
    method GetParentPositionInCreator(p: P) returns (r: int)
      requires Valid()
      ensures r == OthersRows(groups, p)
      ensures KeyIndex(groups, p).None? ==> r == Rows(groups)
      ensures KeyIndex(groups, p).Some? ==>
        var g := KeyIndex(groups, p).value;
        HeaderStart(groups, g + 1) <= Rows(groups) &&
        r == HeaderStart(groups, g) + (Rows(groups) - HeaderStart(groups, g + 1))
    {
      r := 0;
      var j := 0;
      while j < |groups|
        invariant 0 <= j <= |groups|
        invariant r == OthersRows(groups[..j], p)
      {
        assert groups[..j + 1][..j] == groups[..j];
        if groups[j].key != p {
          r := r + |groups[j].children| + 1;
        }
        j := j + 1;
      }
      assert groups[..j] == groups;
      match KeyIndex(groups, p)
      case None => OthersRowsAbsent(groups, p);
      case Some(g) => OthersRowsSplit(groups, g);
    }

    /** `getParentPosition`: the index of `p` in map order; throws when `p`
        is absent. */
    method GetParentPosition(p: P) returns (r: Result<nat>)
      requires Valid()
      ensures r.Ok? ==> r.value < |groups| && groups[r.value].key == p
      ensures r.Err? <==> forall g :: 0 <= g < |groups| ==> groups[g].key != p
      ensures r.Err? ==> r.error == NullPointer
    {
      var j := 0;
      while j < |groups|
        invariant 0 <= j <= |groups|
        invariant forall h :: 0 <= h < j ==> groups[h].key != p
      {
        if groups[j].key == p {
          return Ok(j);
        }
        j := j + 1;
      }
      r := Err(NullPointer);
    }

    /** `getParent`: the key at index `ord` in map order; throws for an
        index outside [0, |groups|). */
    method GetParent(ord: int) returns (r: Result<P>)
      requires Valid()
      ensures 0 <= ord < |groups| ==> r == Ok(groups[ord].key)
      ensures !(0 <= ord < |groups|) ==> r == Err(IndexOutOfBounds)
    {
      if ord < |groups| {
        var j := 0;
        while j < |groups|
          invariant 0 <= j <= |groups|
          invariant ord < 0 || j <= ord
        {
          if j == ord {
            return Ok(groups[j].key);
          }
          j := j + 1;
        }
      }
      r := Err(IndexOutOfBounds);
    }

    /** `getChild`: the child shown at flat row `i` and its offset in its
        group. A header row yields offset -1 and the list access throws
        IndexOutOfBoundsException; so does a negative row unless the map is
        empty; a row past the end, or any row of an empty map, throws
        NullPointerException. */
    method GetChild(i: int) returns (r: Result<(C, int)>)
      requires Valid()
      ensures match RowAt(groups, i)
        case Some(Child(g, k)) => r == Ok((groups[g].children[k], k))
        case Some(Header(_)) => r == Err(IndexOutOfBounds)
        case None => r == Err(if i < 0 && groups != [] then IndexOutOfBounds else NullPointer)
    {
      var pos := 0;
      var j := 0;
      while j < |groups|
        invariant 0 <= j <= |groups|
        invariant pos == HeaderStart(groups, j)
        invariant j > 0 ==> pos <= i
      {
        var e := groups[j];
        HeaderStartStep(groups, j);
        pos := pos + (|e.children| + 1);
        if pos > i {
          var k := i - (pos - |e.children|);
          if 0 <= i {
            LocateUnique(groups, j, k + 1);
          }
          if k < 0 {
            return Err(IndexOutOfBounds);
          }
          return Ok((e.children[k], k));
        }
        j := j + 1;
      }
      HeaderStartAll(groups);
      r := Err(NullPointer);
    }

    /** `getParentInCreatorPosition`: the key whose header is flat row `i`,
        or null for a child row and for a row outside the layout. */
    method GetParentInCreatorPosition(i: int) returns (r: Option<P>)
      requires Valid()
      ensures r.Some? <==> IsHeaderRow(groups, i)
      ensures r.Some? ==> r.value == groups[RowAt(groups, i).value.group].key
    {
      var pos := 0;
      var j := 0;
      while j < |groups|
        invariant 0 <= j <= |groups|
        invariant pos == HeaderStart(groups, j)
        invariant forall h :: 0 <= h < j ==> HeaderStart(groups, h) != i
      {
        if i != pos {
          HeaderStartStep(groups, j);
          pos := pos + |groups[j].children| + 1;
        } else {
          HeaderRowIff(groups, i, j);
          return Some(groups[j].key);
        }
        j := j + 1;
      }
      match RowAt(groups, i) {
        case Some(Header(g)) => HeaderRowIff(groups, i, g);
        case _ =>
      }
      r := None;
    }

    /** `getChildPositionInCreator(parent, child)`: the row reported for
        child value `c`, from its first occurrence (-1 on a miss) and from
        `GetParentPositionInCreator`; an absent parent counts as offset 0. */
    method GetChildPositionInCreator(p: P, c: C) returns (r: int)
      requires Valid()
      ensures Lookup(groups, p).None? ==> r == Rows(groups) + 1
      ensures Lookup(groups, p).Some? ==>
        r == OthersRows(groups, p) + IndexOf(Lookup(groups, p).value, c) + 1
    {
      var offset := match Lookup(groups, p)
        case Some(cs) => IndexOf(cs, c)
        case None => 0;
      var start := GetParentPositionInCreator(p);
      r := start + offset + 1;
    }

    /** `getChildPositionInCreator(parent, childPosition)`: the parent's
        reported position plus the offset plus one. For a child of a present
        parent, `Groups.ChildRowShift` says which row that is. */
    method GetChildOffsetPositionInCreator(p: P, k: int) returns (r: int)
      requires Valid()
      ensures r == OthersRows(groups, p) + k + 1
    {
      var start := GetParentPositionInCreator(p);
      r := start + k + 1;
    }

    /** `getChildPositionInCreatorAt(parentPosition, child)`. */
    method GetChildPositionInCreatorByOrdinal(ord: int, c: C) returns (r: Result<int>)
      requires Valid()
      ensures !(0 <= ord < |groups|) ==> r == Err(IndexOutOfBounds)
      ensures 0 <= ord < |groups| ==>
        r == Ok(OthersRows(groups, groups[ord].key) + IndexOf(groups[ord].children, c) + 1)
    {
      var parent := GetParent(ord);
      if parent.Err? {
        return Err(parent.error);
      }
      KeyIndexOfKeyAt(groups, ord);
      var pos := GetChildPositionInCreator(parent.value, c);
      r := Ok(pos);
    }

    /** `getChildPositionInCreatorAt(parentPosition, childPosition)`. */
    method GetChildOffsetPositionInCreatorByOrdinal(ord: int, k: int) returns (r: Result<int>)
      requires Valid()
      ensures !(0 <= ord < |groups|) ==> r == Err(IndexOutOfBounds)
      ensures 0 <= ord < |groups| ==> r == Ok(OthersRows(groups, groups[ord].key) + k + 1)
    {
      var parent := GetParent(ord);
      if parent.Err? {
        return Err(parent.error);
      }
      var pos := GetChildOffsetPositionInCreator(parent.value, k);
      r := Ok(pos);
    }

    // ---------------------------------------------------------- view types

    /** `getCreatorItemViewTypeByPosition`: the header tag for a header row,
        the child tag for every other row. */
    method GetCreatorItemViewTypeByPosition(i: int) returns (t: int)
      requires Valid()
      ensures t == if IsHeaderRow(groups, i) then ParentTag(creatorType) else ChildTag(creatorType)
    {
      var parent := GetParentInCreatorPosition(i);
      if parent.Some? {
        t := ParentTag(creatorType);
      } else {
        t := ChildTag(creatorType);
      }
    }

    // ---------------------------------------------------- parent mutations

    /** `addParentItem(parent)`: `put(parent, [])` on the map, then notifies
        an insertion at the last row. */
    method AddParentItem(p: P) returns (r: Option<seq<C>>)
      requires Valid()
      modifies this
      ensures Valid()
      ensures r == Lookup(old(groups), p)
      ensures log == old(log) + [Inserted(Rows(groups) - 1)]
      ensures KeyIndex(old(groups), p).None? ==>
        && groups == old(groups) + [Entry(p, [])]
        && log == old(log) + [Inserted(HeaderStart(groups, |groups| - 1))]
      ensures KeyIndex(old(groups), p).Some? ==>
        groups == old(groups)[KeyIndex(old(groups), p).value := Entry(p, [])]
    {
      var put := Put(groups, p, []);
      match KeyIndex(groups, p) {
        case None =>
          PutAbsent(groups, p, []);
          HeaderStartStep(put.0, |groups|);
          HeaderStartAll(put.0);
        case Some(g) =>
          PutPresent(groups, p, [], g);
      }
      groups := put.0;
      log := log + [Inserted(ItemCount() - 1)];
      r := put.1;
    }

    /** `addParentItem(parentPosition, parent)`. */
    method AddParentItemAt(ord: int, p: P) returns (r: Result<Option<seq<C>>>)
      requires Valid()
      modifies this
      ensures Valid()
      ensures ord <= |old(groups)| ==> r == Err(IndexOutOfBounds) && unchanged(this)
      ensures |old(groups)| < ord ==>
        r == Ok(None) && groups == old(groups) && log == old(log) + [Inserted(OthersRows(groups, p))]
    {
      r := RealSetParentItem(ord, p, true);
    }

    /** `setParentItem(parentPosition, parent)`. */
    method SetParentItem(ord: int, p: P) returns (r: Result<Option<seq<C>>>)
      requires Valid()
      modifies this
      ensures Valid()
      ensures ord <= |old(groups)| ==> r == Err(IndexOutOfBounds) && unchanged(this)
      ensures |old(groups)| < ord ==>
        r == Ok(None) && groups == old(groups) && log == old(log) + [Inserted(OthersRows(groups, p))]
    {
      r := RealSetParentItem(ord, p, false);
    }

    /** `realSetParentItem`: its guard `dataMap.size < parentPosition` is the
        reverse of a bounds check. Every index up to and including the size
        throws, and so does every negative index; only an index above the
        size runs the loop, which never reaches it, so the map is rebuilt
        unchanged and nothing is displaced. */
    method RealSetParentItem(ord: int, p: P, isAdd: bool) returns (r: Result<Option<seq<C>>>)
      requires Valid()
      modifies this
      ensures Valid()
      ensures ord <= |old(groups)| ==> r == Err(IndexOutOfBounds) && unchanged(this)
      ensures |old(groups)| < ord ==>
        r == Ok(None) && groups == old(groups) && log == old(log) + [Inserted(OthersRows(groups, p))]
    {
      if !(|groups| < ord) {
        return Err(IndexOutOfBounds);
      }
      var rebuilt, result := RebuildEntries(groups, ord, p, isAdd);
      RebuildCopies(groups, ord, p, isAdd);
      groups := rebuilt;
      var pos := GetParentPositionInCreator(p);
      log := log + [Inserted(pos)];
      r := Ok(result);
    }

    /** `removedParentItem`: removes `p`'s entry (nothing for an absent key)
        and notifies the range from `GetParentPositionInCreator(p)` to that
        plus the number of `p`'s children, both taken before the removal. */
    method RemovedParentItem(p: P)
      requires Valid()
      modifies this
      ensures Valid()
      ensures KeyIndex(old(groups), p).None? ==>
        groups == old(groups) && log == old(log) + [RangeRemoved(Rows(groups), Rows(groups))]
      ensures KeyIndex(old(groups), p).Some? ==>
        var g := KeyIndex(old(groups), p).value;
        var start := OthersRows(old(groups), p);
        && groups == old(groups)[..g] + old(groups)[g + 1..]
        && log == old(log) + [RangeRemoved(start, start + |old(groups)[g].children|)]
    {
      var childList := Lookup(groups, p);
      var start := GetParentPositionInCreator(p);
      var end := start + (if childList.Some? then |childList.value| else 0);
      var index := KeyIndex(groups, p);
      if index.Some? {
        var g := index.value;
        RemoveKeepsDistinct(groups, g);
        groups := groups[..g] + groups[g + 1..];
      }
      log := log + [RangeRemoved(start, end)];
    }

    /** `removedParentItemAt`: resolves the index with `GetParent`. */
    method RemovedParentItemAt(ord: int) returns (r: Outcome)
      requires Valid()
      modifies this
      ensures Valid()
      ensures !(0 <= ord < |old(groups)|) ==> r == Fail(IndexOutOfBounds) && unchanged(this)
      ensures 0 <= ord < |old(groups)| ==>
        var start := OthersRows(old(groups), old(groups)[ord].key);
        && r == Pass
        && groups == old(groups)[..ord] + old(groups)[ord + 1..]
        && log == old(log) + [RangeRemoved(start, start + |old(groups)[ord].children|)]
    {
      var parent := GetParent(ord);
      if parent.Err? {
        return Fail(parent.error);
      }
      KeyIndexOfKeyAt(groups, ord);
      RemovedParentItem(parent.value);
      r := Pass;
    }

    // ----------------------------------------------------- child mutations

    /** `operatorChildItemByParent`: finds the group whose child list the
        operation will change; throws for an unknown parent. */
    function ChildListByParent(p: P): (r: Result<nat>)
      reads this
      ensures r.Ok? <==> exists g :: 0 <= g < |groups| && groups[g].key == p
      ensures r.Ok? ==> r.value < |groups| && groups[r.value].key == p
      ensures r.Err? ==> r.error == NullPointer
    {
      match KeyIndex(groups, p)
      case Some(g) => Ok(g)
      case None => Err(NullPointer)
    }

    /** `operatorChildItemByParentPosition`: `getParent` bounds-checks the
        index, and the key it returns is always found, so the
        NullPointerException branch is dead. */
    function ChildListByParentPosition(ord: int): (r: Result<nat>)
      reads this
      requires Valid()
      ensures 0 <= ord < |groups| ==> r == Ok(ord)
      ensures !(0 <= ord < |groups|) ==> r == Err(IndexOutOfBounds)
    {
      if 0 <= ord < |groups| then
        KeyIndexOfKeyAt(groups, ord);
        ChildListByParent(groups[ord].key)
      else Err(IndexOutOfBounds)
    }

    /** Replaces group `g`'s child list in place; no key moves. */
    method ReplaceChildren(g: nat, cs: seq<C>)
      requires Valid() && g < |groups|
      modifies this
      ensures Valid() && log == old(log)
      ensures groups == old(groups)[g := Entry(old(groups)[g].key, cs)]
      ensures KeyIndex(groups, groups[g].key) == Some(g)
      ensures Lookup(groups, groups[g].key) == Some(cs)
    {
      groups := groups[g := Entry(groups[g].key, cs)];
      KeyIndexOfKeyAt(groups, g);
    }

    /** `addChildItem(parent, child)`: appends `c`; the row notified comes
        from the first occurrence of `c` after the append, so a duplicate
        value reports the earlier copy's row. */
    method AddChildItem(p: P, c: C) returns (r: Result<bool>)
      requires Valid()
      modifies this
      ensures Valid()
      ensures KeyIndex(old(groups), p).None? ==> r == Err(NullPointer) && unchanged(this)
      ensures KeyIndex(old(groups), p).Some? ==>
        var g := KeyIndex(old(groups), p).value;
        var cs := old(groups)[g].children + [c];
        && r == Ok(true)
        && groups == old(groups)[g := Entry(p, cs)]
        && log == old(log) + [Inserted(OthersRows(groups, p) + IndexOf(cs, c) + 1)]
    {
      var found := ChildListByParent(p);
      if found.Err? {
        return Err(found.error);
      }
      var g := found.value;
      ReplaceChildren(g, groups[g].children + [c]);
      assert groups[g].key == p;
      var pos := GetChildPositionInCreator(p, c);
      log := log + [Inserted(pos)];
      r := Ok(true);
    }

    /** `addChildItem(parentPosition, child)`. The ordinal overloads resolve
        the key with `getParent`, both before the change and again for the
        notified row; no key moves in between, so each one acts as its
        keyed overload on `groups[ord].key`. */
    method AddChildItemByOrdinal(ord: int, c: C) returns (r: Result<bool>)
      requires Valid()
      modifies this
      ensures Valid()
      ensures !(0 <= ord < |old(groups)|) ==> r == Err(IndexOutOfBounds) && unchanged(this)
      ensures 0 <= ord < |old(groups)| ==>
        var p := old(groups)[ord].key;
        var cs := old(groups)[ord].children + [c];
        && r == Ok(true)
        && groups == old(groups)[ord := Entry(p, cs)]
        && log == old(log) + [Inserted(OthersRows(groups, p) + IndexOf(cs, c) + 1)]
    {
      var found := ChildListByParentPosition(ord);
      if found.Err? {
        return Err(found.error);
      }
      KeyIndexOfKeyAt(groups, ord);
      r := AddChildItem(groups[ord].key, c);
    }

    /** `addChildItem(parent, childPosition, child)`: `add(index, element)`
        throws unless 0 <= k <= size. */
    method InsertChildItem(p: P, k: int, c: C) returns (r: Outcome)
      requires Valid()
      modifies this
      ensures Valid()
      ensures KeyIndex(old(groups), p).None? ==> r == Fail(NullPointer) && unchanged(this)
      ensures KeyIndex(old(groups), p).Some? ==>
        var g := KeyIndex(old(groups), p).value;
        var old_cs := old(groups)[g].children;
        if 0 <= k <= |old_cs| then
          var cs := old_cs[..k] + [c] + old_cs[k..];
          && r == Pass
          && groups == old(groups)[g := Entry(p, cs)]
          && log == old(log) + [Inserted(OthersRows(groups, p) + IndexOf(cs, c) + 1)]
        else r == Fail(IndexOutOfBounds) && unchanged(this)
    {
      var found := ChildListByParent(p);
      if found.Err? {
        return Fail(found.error);
      }
      var g := found.value;
      var cs := groups[g].children;
      if !(0 <= k <= |cs|) {
        return Fail(IndexOutOfBounds);
      }
      ReplaceChildren(g, cs[..k] + [c] + cs[k..]);
      assert groups[g].key == p;
      var pos := GetChildPositionInCreator(p, c);
      log := log + [Inserted(pos)];
      r := Pass;
    }

    /** `addChildItem(parentPosition, childPosition, child)`. */
    method InsertChildItemByOrdinal(ord: int, k: int, c: C) returns (r: Outcome)
      requires Valid()
      modifies this
      ensures Valid()
      ensures !(0 <= ord < |old(groups)|) ==> r == Fail(IndexOutOfBounds) && unchanged(this)
      ensures 0 <= ord < |old(groups)| ==>
        var p := old(groups)[ord].key;
        var old_cs := old(groups)[ord].children;
        if 0 <= k <= |old_cs| then
          var cs := old_cs[..k] + [c] + old_cs[k..];
          && r == Pass
          && groups == old(groups)[ord := Entry(p, cs)]
          && log == old(log) + [Inserted(OthersRows(groups, p) + IndexOf(cs, c) + 1)]
        else r == Fail(IndexOutOfBounds) && unchanged(this)
    {
      var found := ChildListByParentPosition(ord);
      if found.Err? {
        return Fail(found.error);
      }
      KeyIndexOfKeyAt(groups, ord);
      r := InsertChildItem(groups[ord].key, k, c);
    }

    /** `setChildItem(parent, childPosition, child)`: `set` throws unless
        0 <= k < size and returns the element it replaced. */
    method SetChildItem(p: P, k: int, c: C) returns (r: Result<C>)
      requires Valid()
      modifies this
      ensures Valid()
      ensures KeyIndex(old(groups), p).None? ==> r == Err(NullPointer) && unchanged(this)
      ensures KeyIndex(old(groups), p).Some? ==>
        var g := KeyIndex(old(groups), p).value;
        var old_cs := old(groups)[g].children;
        if 0 <= k < |old_cs| then
          && r == Ok(old_cs[k])
          && groups == old(groups)[g := Entry(p, old_cs[k := c])]
          && log == old(log) + [Changed(OthersRows(groups, p) + k + 1)]
        else r == Err(IndexOutOfBounds) && unchanged(this)
    {
      var found := ChildListByParent(p);
      if found.Err? {
        return Err(found.error);
      }
      var g := found.value;
      var cs := groups[g].children;
      if !(0 <= k < |cs|) {
        return Err(IndexOutOfBounds);
      }
      ReplaceChildren(g, cs[k := c]);
      var pos := GetChildOffsetPositionInCreator(p, k);
      log := log + [Changed(pos)];
      r := Ok(cs[k]);
    }

    /** `setChildItem(parentPosition, childPosition, child)`. */
    method SetChildItemByOrdinal(ord: int, k: int, c: C) returns (r: Result<C>)
      requires Valid()
      modifies this
      ensures Valid()
      ensures !(0 <= ord < |old(groups)|) ==> r == Err(IndexOutOfBounds) && unchanged(this)
      ensures 0 <= ord < |old(groups)| ==>
        var p := old(groups)[ord].key;
        var old_cs := old(groups)[ord].children;
        if 0 <= k < |old_cs| then
          && r == Ok(old_cs[k])
          && groups == old(groups)[ord := Entry(p, old_cs[k := c])]
          && log == old(log) + [Changed(OthersRows(groups, p) + k + 1)]
        else r == Err(IndexOutOfBounds) && unchanged(this)
    {
      var found := ChildListByParentPosition(ord);
      if found.Err? {
        return Err(found.error);
      }
      KeyIndexOfKeyAt(groups, ord);
      r := SetChildItem(groups[ord].key, k, c);
    }

    /** `removedChildItem(parent, child)`: `remove(element)` drops the first
        occurrence and says whether there was one. The row notified is
        computed after the removal, so it is sent even when nothing was
        removed, and then reports offset -1 (or a later duplicate). */
    method RemovedChildItem(p: P, c: C) returns (r: Result<bool>)
      requires Valid()
      modifies this
      ensures Valid()
      ensures KeyIndex(old(groups), p).None? ==> r == Err(NullPointer) && unchanged(this)
      ensures KeyIndex(old(groups), p).Some? ==>
        var g := KeyIndex(old(groups), p).value;
        var old_cs := old(groups)[g].children;
        var cs := RemoveFirst(old_cs, c);
        && r == Ok(c in old_cs)
        && groups == old(groups)[g := Entry(p, cs)]
        && log == old(log) + [Removed(OthersRows(groups, p) + IndexOf(cs, c) + 1)]
    {
      var found := ChildListByParent(p);
      if found.Err? {
        return Err(found.error);
      }
      var g := found.value;
      var cs := groups[g].children;
      var present := c in cs;
      ReplaceChildren(g, RemoveFirst(cs, c));
      assert groups[g].key == p;
      var pos := GetChildPositionInCreator(p, c);
      log := log + [Removed(pos)];
      r := Ok(present);
    }

    /** `removedChildItem(parentPosition, child)`. */
    method RemovedChildItemByOrdinal(ord: int, c: C) returns (r: Result<bool>)
      requires Valid()
      modifies this
      ensures Valid()
      ensures !(0 <= ord < |old(groups)|) ==> r == Err(IndexOutOfBounds) && unchanged(this)
      ensures 0 <= ord < |old(groups)| ==>
        var p := old(groups)[ord].key;
        var old_cs := old(groups)[ord].children;
        var cs := RemoveFirst(old_cs, c);
        && r == Ok(c in old_cs)
        && groups == old(groups)[ord := Entry(p, cs)]
        && log == old(log) + [Removed(OthersRows(groups, p) + IndexOf(cs, c) + 1)]
    {
      var found := ChildListByParentPosition(ord);
      if found.Err? {
        return Err(found.error);
      }
      KeyIndexOfKeyAt(groups, ord);
      r := RemovedChildItem(groups[ord].key, c);
    }

    /** `removedChildItemAt(parent, childPosition)`: `removeAt` throws unless
        0 <= k < size and returns the element it removed. */
    method RemovedChildItemAt(p: P, k: int) returns (r: Result<C>)
      requires Valid()
      modifies this
      ensures Valid()
      ensures KeyIndex(old(groups), p).None? ==> r == Err(NullPointer) && unchanged(this)
      ensures KeyIndex(old(groups), p).Some? ==>
        var g := KeyIndex(old(groups), p).value;
        var old_cs := old(groups)[g].children;
        if 0 <= k < |old_cs| then
          && r == Ok(old_cs[k])
          && groups == old(groups)[g := Entry(p, old_cs[..k] + old_cs[k + 1..])]
          && log == old(log) + [Removed(OthersRows(groups, p) + k + 1)]
        else r == Err(IndexOutOfBounds) && unchanged(this)
    {
      var found := ChildListByParent(p);
      if found.Err? {
        return Err(found.error);
      }
      var g := found.value;
      var cs := groups[g].children;
      if !(0 <= k < |cs|) {
        return Err(IndexOutOfBounds);
      }
      ReplaceChildren(g, cs[..k] + cs[k + 1..]);
      var pos := GetChildOffsetPositionInCreator(p, k);
      log := log + [Removed(pos)];
      r := Ok(cs[k]);
    }

    /** `removedChildItemAt(parentPosition, childPosition)`. */
    method RemovedChildItemAtByOrdinal(ord: int, k: int) returns (r: Result<C>)
      requires Valid()
      modifies this
      ensures Valid()
      ensures !(0 <= ord < |old(groups)|) ==> r == Err(IndexOutOfBounds) && unchanged(this)
      ensures 0 <= ord < |old(groups)| ==>
        var p := old(groups)[ord].key;
        var old_cs := old(groups)[ord].children;
        if 0 <= k < |old_cs| then
          && r == Ok(old_cs[k])
          && groups == old(groups)[ord := Entry(p, old_cs[..k] + old_cs[k + 1..])]
          && log == old(log) + [Removed(OthersRows(groups, p) + k + 1)]
        else r == Err(IndexOutOfBounds) && unchanged(this)
    {
      var found := ChildListByParentPosition(ord);
      if found.Err? {
        return Err(found.error);
      }
      KeyIndexOfKeyAt(groups, ord);
      r := RemovedChildItemAt(groups[ord].key, k);
    }
  }
}
