/**
 * The variant class of the older generated header, with exactly seven parameter slots.
 *
 * Its observers are those of VariantCore. What differs from the current design is how
 * it changes state: assignment always destroys the live object, sets the tag to -1
 * and rebuilds from the right-hand side, with no shortcut for equal indices and no
 * temporary; and swap always goes through a temporary copy and two assignments.
 */
module VariantSeven {
  import opened Basics
  import opened TypeList
  import opened VariantCore

  /** The number of parameter slots of this header's variant. */
  const Slots: nat := 7

  class VariantSeven {
    const types: seq<TypeDesc>
    var tag: int8
    var data: Storage
    ghost var destroyed: seq<Obj>

    function Snapshot(): Snap
      reads this
    {
      Snap(types, tag, data)
    }

    predicate Valid()
      reads this
    {
      |types| == Slots && Consistent(Snapshot())
    }

    /** The objects helper::destroy(type_index, ptr()) ends. */
    function Dying(): seq<Obj>
      reads this
      requires Valid()
    {
      HelperDestroy(types, ToSizeT(tag as int), data)
    }

    /** variant(): tag 0 over a value-initialised T0. */
    constructor Default(types: seq<TypeDesc>, init: int)
      requires Alternatives(types) && |types| == Slots
      ensures Valid() && this.types == types && destroyed == []
      ensures Index(Snapshot()) == 0 && data == Holds(Obj(init, DefaultConstructed))
    {
      this.types := types;
      tag := 0;
      data := Holds(Obj(init, DefaultConstructed));
      destroyed := [];
    }

    /** variant(Tn const &) and variant(Tn &&): tag n. */
    constructor FromValue(types: seq<TypeDesc>, n: nat, x: int, byMove: bool)
      requires Alternatives(types) && |types| == Slots && n < Slots
      ensures Valid() && this.types == types && destroyed == []
      ensures Index(Snapshot()) == n
      ensures data == Holds(Obj(x, if byMove then MoveConstructed else CopyConstructed))
    {
      this.types := types;
      tag := n as int8;
      data := Holds(Obj(x, if byMove then MoveConstructed else CopyConstructed));
      destroyed := [];
    }

    /** variant(variant const &): the source's tag, then helper::copy. */
    constructor Copy(other: VariantSeven)
      requires other.Valid()
      ensures Valid() && types == other.types && destroyed == []
      ensures tag == other.tag && ValueOf(data) == ValueOf(other.data)
      ensures other.data.Holds? ==> data == Holds(CopyOf(other.data.obj))
    {
      types := other.types;
      tag := other.tag;
      var built := HelperCopy(other.types, ToSizeT(other.tag as int), other.data, Empty, false);
      data := built.data;
      destroyed := [];
    }

    /** variant(variant &&): the source's tag, then helper::move; the source keeps its
        tag and is left holding a moved-from object. */
    constructor Move(other: VariantSeven)
      requires other.Valid()
      modifies other
      ensures Valid() && types == other.types && destroyed == []
      ensures tag == other.tag && ValueOf(data) == ValueOf(old(other.data))
      ensures old(other.data).Holds? ==> data == Holds(MoveOf(old(other.data).obj))
      ensures other.Valid() && other.tag == old(other.tag)
      ensures other.data == AfterMoveFrom(other.types, ToSizeT(other.tag as int), old(other.data))
      ensures other.destroyed == old(other.destroyed)
    {
      types := other.types;
      tag := other.tag;
      var from := ToSizeT(other.tag as int);
      var built := HelperMove(other.types, from, other.data, Empty, false);
      data := built.data;
      destroyed := [];
      other.data := AfterMoveFrom(other.types, from, other.data);
    }

    /** variant(in_place_type<T>, arg): tag -1, then helper::construct_t<T>. */
    constructor InPlaceType(types: seq<TypeDesc>, t: TypeDesc, arg: int)
      requires Alternatives(types) && |types| == Slots && t in types
      ensures Valid() && this.types == types && destroyed == []
      ensures 0 <= tag && types[tag] == t && data == Holds(Obj(arg, ValueConstructed))
    {
      this.types := types;
      tag := -1;
      var built := ConstructT(types, t, arg, false);
      tag := built.tag;
      data := built.data;
      destroyed := [];
    }

    /** variant(in_place_index<I>, arg): tag -1, then helper::construct_i<I>. */
    constructor InPlaceIndex(types: seq<TypeDesc>, i: nat, arg: int)
      requires Alternatives(types) && |types| == Slots && i < Slots
      ensures Valid() && this.types == types && destroyed == []
      ensures Index(Snapshot()) == i && data == Holds(Obj(arg, ValueConstructed))
    {
      this.types := types;
      tag := -1;
      var built := ConstructI(types, i, arg, false);
      tag := built.tag;
      data := built.data;
      destroyed := [];
    }

    /** ~variant(): helper::destroy(index(), ptr()). */
    method Destroy()
      requires Valid()
      modifies this
      ensures tag == old(tag) && data == old(data)
      ensures destroyed == old(destroyed) + (if data.Holds? then [data.obj] else [])
    {
      destroyed := destroyed + HelperDestroy(types, Index(Snapshot()), data);
    }

    /** copy_assign: destroy the live object, set the tag to -1, then helper::copy from
        `rhs`. The result has rhs's index: a valueless `rhs` leaves the variant
        valueless, as the helper has no case for variant_npos; a throwing copy leaves it
        valueless too. Assigning a variant to itself reads its tag after it was set to
        -1, so nothing is built and the variant ends valueless. */
    method CopyAssign(rhs: VariantSeven, fails: bool) returns (thrown: bool)
      requires Valid() && rhs.Valid() && rhs.types == types
      modifies this
      ensures Valid()
      ensures destroyed == old(destroyed) + old(Dying())
      ensures rhs == this ==> !thrown && ValuelessByException(Snapshot()) && data == Empty
      ensures rhs != this ==> (thrown <==> rhs.data.Holds? && fails)
      ensures rhs != this && thrown ==> ValuelessByException(Snapshot()) && data == Empty
      ensures rhs != this && !thrown ==>
                tag == rhs.tag
                && data == (if rhs.data.Holds? then Holds(CopyOf(rhs.data.obj)) else Empty)
    {
      destroyed := destroyed + Dying();
      tag := -1;
      data := Empty;
      var built := HelperCopy(types, ToSizeT(rhs.tag as int), rhs.data, data, fails);
      if built.Threw? {
        thrown := true;
        return;
      }
      thrown := false;
      tag := built.tag;
      data := built.data;
    }

    /** copy_assign as intended, with the self-assignment test the source lacks:
        `v = w` leaves v with w's index and value, or valueless when the copy throws,
        also when w is v itself. */
    method CopyAssignChecked(rhs: VariantSeven, fails: bool) returns (thrown: bool)
      requires Valid() && rhs.Valid() && rhs.types == types
      modifies this
      ensures Valid()
      ensures thrown ==> rhs != this && ValuelessByException(Snapshot())
      ensures !thrown ==> tag == old(rhs.tag) && ValueOf(data) == old(ValueOf(rhs.data))
      ensures rhs == this ==> !thrown && data == old(data) && destroyed == old(destroyed)
    {
      if rhs == this {
        return false;
      }
      thrown := CopyAssign(rhs, fails);
    }

    /** move_assign: the same with helper::move; `rhs` is left holding a moved-from
        object when the move happened. Moving a variant into itself ends valueless. */
    method MoveAssign(rhs: VariantSeven, fails: bool) returns (thrown: bool)
      requires Valid() && rhs.Valid() && rhs.types == types
      modifies this, rhs
      ensures Valid() && rhs.Valid()
      ensures destroyed == old(destroyed) + old(Dying())
      ensures rhs == this ==> !thrown && ValuelessByException(Snapshot()) && data == Empty
      ensures rhs != this ==>
                rhs.tag == old(rhs.tag) && rhs.destroyed == old(rhs.destroyed)
                && (thrown <==> old(rhs.data).Holds? && fails)
      ensures rhs != this && thrown ==>
                ValuelessByException(Snapshot()) && data == Empty && rhs.data == old(rhs.data)
      ensures rhs != this && !thrown ==>
                tag == rhs.tag
                && data == (if old(rhs.data).Holds? then Holds(MoveOf(old(rhs.data).obj))
                            else Empty)
                && rhs.data == AfterMoveFrom(types, ToSizeT(rhs.tag as int), old(rhs.data))
    {
      destroyed := destroyed + Dying();
      tag := -1;
      data := Empty;
      var from := ToSizeT(rhs.tag as int);
      var built := HelperMove(types, from, rhs.data, data, fails);
      if built.Threw? {
        thrown := true;
        return;
      }
      thrown := false;
      tag := built.tag;
      data := built.data;
      rhs.data := AfterMoveFrom(types, from, rhs.data);
    }

    /** emplace<T>(arg): destroy, tag -1, helper::construct_t<T>. */
    method EmplaceType(t: TypeDesc, arg: int, fails: bool) returns (thrown: bool)
      requires Valid() && t in types
      modifies this
      ensures Valid()
      ensures thrown <==> fails
      ensures destroyed == old(destroyed) + old(Dying())
      ensures thrown ==> ValuelessByException(Snapshot()) && data == Empty
      ensures !thrown ==> Index(Snapshot()) == IndexOfType(Snapshot(), t)
                          && types[tag] == t && data == Holds(Obj(arg, ValueConstructed))
    {
      destroyed := destroyed + Dying();
      tag := -1;
      data := Empty;
      var built := ConstructT(types, t, arg, fails);
      if built.Threw? {
        thrown := true;
        return;
      }
      thrown := false;
      tag := built.tag;
      data := built.data;
    }

    /** emplace<I>(arg): destroy, tag -1, helper::construct_i<I>. */
    method EmplaceIndex(i: nat, arg: int, fails: bool) returns (thrown: bool)
      requires Valid() && i < Slots
      modifies this
      ensures Valid()
      ensures thrown <==> fails
      ensures destroyed == old(destroyed) + old(Dying())
      ensures thrown ==> ValuelessByException(Snapshot()) && data == Empty
      ensures !thrown ==> Index(Snapshot()) == i && data == Holds(Obj(arg, ValueConstructed))
    {
      destroyed := destroyed + Dying();
      tag := -1;
      data := Empty;
      var built := ConstructI(types, i, arg, fails);
      if built.Threw? {
        thrown := true;
        return;
      }
      thrown := false;
      tag := built.tag;
      data := built.data;
    }

    /** swap(other): `variant temp = *this; *this = other; other = temp;`, whatever the
        indices. Each side ends with the other's former index and value, and each side's
        log gains the object it held. Swapping a variant with itself empties it and then
        copies the temporary back: the index and value come back. */
    method Swap(other: VariantSeven)
      requires Valid() && other.Valid() && other.types == types
      modifies this, other
      ensures Valid() && other.Valid()
      ensures tag == old(other.tag) && other.tag == old(tag)
      ensures ValueOf(data) == old(ValueOf(other.data))
      ensures ValueOf(other.data) == old(ValueOf(data))
      ensures other != this ==>
                destroyed == old(destroyed) + old(Dying())
                && other.destroyed == old(other.destroyed) + old(other.Dying())
      ensures other == this ==> destroyed == old(destroyed) + old(Dying())
    {
      var temp := new VariantSeven.Copy(this);
      var thrown := CopyAssign(other, false);
      thrown := other.CopyAssign(temp, false);
      temp.Destroy();
    }
  }

  /** The free swap(a, b): a.swap(b). It is declared for variants of six parameters, so
      it applies only where the seventh slot keeps its placeholder default. */
  method SwapVariants(a: VariantSeven, b: VariantSeven)
    requires a.Valid() && b.Valid() && a.types == b.types
    requires a.types[6] == Placeholder(6)
    modifies a, b
    ensures a.Valid() && b.Valid()
    ensures a.tag == old(b.tag) && b.tag == old(a.tag)
    ensures ValueOf(a.data) == old(ValueOf(b.data)) && ValueOf(b.data) == old(ValueOf(a.data))
    ensures a != b ==>
              a.destroyed == old(a.destroyed) + old(a.Dying())
              && b.destroyed == old(b.destroyed) + old(b.Dying())
    ensures a == b ==> a.destroyed == old(a.destroyed) + old(a.Dying())
  {
    a.Swap(b);
  }

  /** Swapping twice gives each variant back its index and value. */
  method SwapTwice(a: VariantSeven, b: VariantSeven)
    requires a.Valid() && b.Valid() && a.types == b.types
    modifies a, b
    ensures a.Valid() && b.Valid()
    ensures a.tag == old(a.tag) && b.tag == old(b.tag)
    ensures ValueOf(a.data) == old(ValueOf(a.data)) && ValueOf(b.data) == old(ValueOf(b.data))
  {
    a.Swap(b);
    a.Swap(b);
  }

  /** `v = v` as written: a variant that held a value ends valueless, its object
      destroyed, where the intended assignment (CopyAssignChecked) keeps it. */
  method SelfCopyAssign(v: VariantSeven) returns (thrown: bool)
    requires v.Valid() && v.data.Holds?
    modifies v
    ensures v.Valid() && !thrown && ValuelessByException(v.Snapshot())
    ensures v.destroyed == old(v.destroyed) + [old(v.data).obj]
  {
    thrown := v.CopyAssign(v, false);
  }

  /** variant_size counts the types the user named and none of the placeholders that
      fill the remaining slots: 1 to 7 for 1 to 7 types. */
  lemma VariantSize(reals: seq<TypeDesc>)
    requires 1 <= |reals| <= Slots
    requires forall i :: 0 <= i < |reals| ==> reals[i].Real?
    ensures 1 <= Size(Instantiate(reals, Slots)) == |reals| <= 7
  {
    InstantiateSize(reals, Slots);
  }
}
