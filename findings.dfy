/** Three places where the creator's code does not do what its names and
    its layout evidently intend. Each finding pairs the behaviour as
    written (modelled by the class in module Creator) with a corrected
    definition and the property the correction restores. */
module Findings {
  import opened KotlinLib
  import opened Groups
  import opened Rebuilding
  import opened ViewType
  import opened Creator

  // ---------------------------------------------------------------------
  // 1. `return@forEach` in `getParentPositionInCreator` skips one entry
  //    instead of leaving the loop, so the walk adds the footprints of the
  //    groups after `p` as well.

  /** The header row of `p`, where the walk was meant to stop; the row
      count when `p` is absent. */
  function HeaderPosition<P(==), C>(gs: seq<Entry<P, C>>, p: P): (r: nat)
    ensures KeyIndex(gs, p).Some? ==> RowAt(gs, r) == Some(Header(KeyIndex(gs, p).value))
    ensures KeyIndex(gs, p).None? ==> RowAt(gs, r).None? && r == Rows(gs)
  {
    match KeyIndex(gs, p)
    case Some(g) =>
      HeaderRowIff(gs, HeaderStart(gs, g), g);
      HeaderStart(gs, g)
    case None => Rows(gs)
  }

  /** The walk as evidently intended: leave the loop at `p`'s entry. */
  method HeaderPositionByLoop<P(==), C>(gs: seq<Entry<P, C>>, p: P) returns (r: nat)
    ensures r == HeaderPosition(gs, p)
  {
    r := 0;
    var j := 0;
    while j < |gs|
      invariant 0 <= j <= |gs|
      invariant r == HeaderStart(gs, j)
      invariant forall i :: 0 <= i < j ==> gs[i].key != p
    {
      if gs[j].key == p {
        return;
      }
      HeaderStartStep(gs, j);
      r := r + Footprint(gs[j]);
      j := j + 1;
    }
    HeaderStartAll(gs);
  }

  /** As written, the position reported for any group but the last lies
      past its header by at least the next group's footprint. */
  lemma ParentPositionOvershoots<P, C>(gs: seq<Entry<P, C>>, g: nat)
    requires DistinctKeys(gs) && g + 1 < |gs|
    ensures OthersRows(gs, gs[g].key) >= HeaderPosition(gs, gs[g].key) + Footprint(gs[g + 1])
  {
    KeyIndexOfKeyAt(gs, g);
    OthersRowsSplit(gs, g);
    HeaderStartMono(gs, g + 1, |gs|);
    HeaderStartAll(gs);
  }

  /** Two empty groups, with keys 1 and 2. */
  const TwoEmptyGroups: seq<Entry<int, int>> := [Entry(1, []), Entry(2, [])]

  /** Group 1's header is row 0, but the walk reports row 1. */
  lemma ParentPositionTwoGroups()
    ensures OthersRows(TwoEmptyGroups, 1) == 1
    ensures HeaderPosition(TwoEmptyGroups, 1) == 0
  {
    assert TwoEmptyGroups[..1] == [Entry(1, [])];
    assert Rows(TwoEmptyGroups[..1]) == 1;
  }

  // ---------------------------------------------------------------------
  // 2. `realSetParentItem` throws when `dataMap.size < parentPosition` is
  //    false, i.e. for every index up to and including the size and for
  //    every negative index; only an index above the size gets through,
  //    and then the map is rebuilt unchanged.

  /** Setting the first slot of a one-group creator throws. */
  method SetFirstParentThrows() returns (r: Result<Option<seq<int>>>)
    ensures r == Err(IndexOutOfBounds)
  {
    var creator := new ExpandableCreator<int, int>(0);
    var _ := creator.AddParentItem(1);
    r := creator.SetParentItem(0, 2);
  }

  /** The guard evidently intended: an index outside `[0, size)` throws,
      any other runs the rebuilding loop. */
  function SetParentChecked<P(==), C>(gs: seq<Entry<P, C>>, ord: int, p: P, isAdd: bool)
    : Result<(seq<Entry<P, C>>, Option<seq<C>>)>
  {
    if 0 <= ord < |gs| then Ok(Rebuild(gs, ord, p, isAdd)) else Err(IndexOutOfBounds)
  }

  /** With the corrected guard, a new key lands at index `ord`: inserted
      before the old entry there (`addParentItem`), or in its place
      (`setParentItem`); all other entries keep their order. */
  lemma SetParentCheckedSplices<P, C>(gs: seq<Entry<P, C>>, ord: nat, p: P, isAdd: bool)
    requires DistinctKeys(gs) && KeyIndex(gs, p).None? && ord < |gs|
    ensures SetParentChecked(gs, ord, p, isAdd) ==
      Ok((gs[..ord] + [Entry(p, [])] + (if isAdd then gs[ord..] else gs[ord + 1..]), None))
  {
    RebuildSplices(gs, ord, p, isAdd);
  }

  // ---------------------------------------------------------------------
  // 3. The header test `viewType / creatorType == ITEM_TYPE_PARENT`
  //    compares with the shift distance 8, but a header tag divided by
  //    its creator type gives 2^8.

  /** As written, neither tag passes the test for a non-zero creator type
      whose tags do not overflow. */
  lemma ParentTestMissesTags(creatorType: int)
    requires creatorType != 0 && -0x80_0000 <= creatorType < 0x80_0000
    ensures IsParentViewType(ParentTag(creatorType), creatorType) == Ok(false)
    ensures IsParentViewType(ChildTag(creatorType), creatorType) == Ok(false)
  {
    TagQuotient(creatorType, 256);
    TagQuotient(creatorType, 16);
  }

  /** The test passes for a header tag only through overflow: 256 times
      17318417 wraps to 138547456, which is 8 times 17318417 plus 120. */
  lemma ParentTestOverflowPasses()
    ensures IsParentViewType(ParentTag(17318417), 17318417) == Ok(true)
  {
    assert Pow2(ItemTypeParent) == 256;
    assert ParentTag(17318417) == 138547456;
  }

  /** The test evidently intended: divide by the creator type and compare
      with `1 shl ITEM_TYPE_PARENT`. */
  function IsParentViewTypeFixed(viewType: int, creatorType: int): (r: Result<bool>)
    requires IsInt(viewType) && IsInt(creatorType)
    ensures r.Err? <==> creatorType == 0
  {
    match IntDiv(viewType, creatorType)
    case Ok(q) => Ok(q == Shl(1, ItemTypeParent))
    case Err(e) => Err(e)
  }

  /** The corrected test tells the two tags apart. */
  lemma FixedTestSeparatesTags(creatorType: int)
    requires creatorType != 0 && -0x80_0000 <= creatorType < 0x80_0000
    ensures IsParentViewTypeFixed(ParentTag(creatorType), creatorType) == Ok(true)
    ensures IsParentViewTypeFixed(ChildTag(creatorType), creatorType) == Ok(false)
  {
    TagQuotient(creatorType, 256);
    TagQuotient(creatorType, 16);
    assert Pow2(ItemTypeParent) == 256;
  }
}
