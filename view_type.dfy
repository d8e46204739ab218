/** The view-type tags the creator hands to its host adapter, and the two
    tests the creator applies to raw view-type values. All arithmetic is on
    Kotlin's 32-bit `Int`. */
module ViewType {
  import opened KotlinLib

  /** The reserved shift distances `ITEM_TYPE_PARENT` and `ITEM_TYPE_CHILD`. */
  const ItemTypeParent: nat := 8
  const ItemTypeChild: nat := 4

  /** The tag of a header row: `creatorType shl ITEM_TYPE_PARENT`. Without
      overflow it is `256 * creatorType`. */
  function ParentTag(creatorType: int): (t: int)
    ensures IsInt(t)
    ensures -0x80_0000 <= creatorType < 0x80_0000 ==> t == 256 * creatorType
  {
    Shl(creatorType, ItemTypeParent)
  }

  /** The tag of a child row: `creatorType shl ITEM_TYPE_CHILD`. Without
      overflow it is `16 * creatorType`. */
  function ChildTag(creatorType: int): (t: int)
    ensures IsInt(t)
    ensures -0x800_0000 <= creatorType < 0x800_0000 ==> t == 16 * creatorType
  {
    Shl(creatorType, ItemTypeChild)
  }

  /** `getCreatorItemViewTypeByViteType`: keeps `viewType` when
      `viewType shr 8 == viewType || viewType shr 4 == 0`, else gives 0.
      That test holds exactly for the values -1 to 15. */
  function NormalizeViewType(viewType: int): (r: int)
    requires IsInt(viewType)
    ensures r == viewType || r == 0
    ensures r == viewType <==> -1 <= viewType < 16
  {
    if Shr(viewType, ItemTypeParent) == viewType || Shr(viewType, ItemTypeChild) == 0 then viewType
    else 0
  }

  /** For every non-zero creator type whose tags do not overflow, the
      normalisation maps both tags to 0: only creator type 0 has its tags
      kept. */
  lemma NormalizeDropsTags(creatorType: int)
    requires creatorType != 0 && -0x80_0000 <= creatorType < 0x80_0000
    ensures NormalizeViewType(ParentTag(creatorType)) == 0
    ensures NormalizeViewType(ChildTag(creatorType)) == 0
  {
  }

  /** The test `viewType / creatorType == ITEM_TYPE_PARENT` by which the
      creator decides that a view type belongs to a header row; Kotlin's `/`
      throws for the default creator type 0. */
  function IsParentViewType(viewType: int, creatorType: int): (r: Result<bool>)
    requires IsInt(viewType) && IsInt(creatorType)
    ensures r.Err? <==> creatorType == 0
    ensures r.Err? ==> r.error == Arithmetic
  {
    match IntDiv(viewType, creatorType)
    case Ok(q) => Ok(q == ItemTypeParent)
    case Err(e) => Err(e)
  }

  lemma MulDiv(c: nat, d: nat)
    requires d > 0
    ensures (c * d) / d == c
  {
    var q := (c * d) / d;
    var rem := (c * d) % d;
    assert c * d == q * d + rem && 0 <= rem < d;
    assert (c - q) * d == rem;
    if c - q >= 1 {
      assert false;
    } else if c - q <= -1 {
      assert false;
    }
  }

  /** Dividing an unwrapped tag by its non-zero creator type gives back the
      shift's factor. */
  lemma TagQuotient(creatorType: int, factor: nat)
    requires creatorType != 0 && IsInt(creatorType) && IsInt(factor * creatorType)
    requires 0 < factor <= 256
    ensures IntDiv(factor * creatorType, creatorType) == Ok(factor)
  {
    MulDiv(factor, Abs(creatorType));
    assert Abs(factor * creatorType) == factor * Abs(creatorType);
    assert (factor * creatorType < 0) == (creatorType < 0);
  }
}
