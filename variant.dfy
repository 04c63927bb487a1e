/**
 * The variant class of the current design, for any number of parameter slots.
 *
 * A variant owns a storage block and a signed-char `type_index`; every operation is a
 * short sequence of steps on those two fields: destroy the live object, set the tag
 * to -1, build a new object, set the tag to what the build step returns. A build step
 * whose constructor throws stops the sequence where it is, so a variant whose tag was
 * already set to -1 stays valueless. Which constructor throws is a boolean parameter
 * of the operation.
 *
 * `destroyed` records, in order, the alternative objects whose destructor ran while
 * they were in this variant's storage; an object overwritten without a destructor call
 * never appears in it.
 */
module Variant {
  import opened Basics
  import opened TypeList
  import opened VariantCore

  class Variant {
    const types: seq<TypeDesc>
    var tag: int8
    var data: Storage
    ghost var destroyed: seq<Obj>

    /** The state as the observers of VariantCore read it. */
    function Snapshot(): Snap
      reads this
    {
      Snap(types, tag, data)
    }

    predicate Valid()
      reads this
    {
      Consistent(Snapshot())
    }

    /** The objects helper::destroy(type_index, ptr()) ends. */
    function Dying(): seq<Obj>
      reads this
      requires Valid()
    {
      HelperDestroy(types, ToSizeT(tag as int), data)
    }

    /** variant(): tag 0 over a value-initialised T0. */
    constructor Default(types: seq<TypeDesc>, init: int)
      requires Alternatives(types)
      ensures Valid() && this.types == types && destroyed == []
      ensures Index(Snapshot()) == 0 && data == Holds(Obj(init, DefaultConstructed))
    {
      this.types := types;
      tag := 0;
      data := Holds(Obj(init, DefaultConstructed));
      destroyed := [];
    }

    /** variant(Ti const &) and variant(Ti &&): tag i over a copy or a move of the
        argument. */
    constructor FromValue(types: seq<TypeDesc>, i: nat, x: int, byMove: bool)
      requires Alternatives(types) && i < |types|
      ensures Valid() && this.types == types && destroyed == []
      ensures Index(Snapshot()) == i
      ensures data == Holds(Obj(x, if byMove then MoveConstructed else CopyConstructed))
    {
      this.types := types;
      tag := i as int8;
      data := Holds(Obj(x, if byMove then MoveConstructed else CopyConstructed));
      destroyed := [];
    }

    /** variant(variant const &): take the source's tag, then helper::copy. A valueless
        source gives a valueless copy: the helper has no case for variant_npos. */
    constructor Copy(other: Variant)
      requires other.Valid()
      ensures Valid() && types == other.types && destroyed == []
      ensures tag == other.tag && ValueOf(data) == ValueOf(other.data)
      ensures other.data.Holds? ==> data == Holds(CopyOf(other.data.obj))
    {
      types := other.types;
      tag := other.tag;
      var built := HelperCopy(other.types, ToSizeT(other.tag as int), other.data, Empty, false);
      data := built.data;
      destroyed := [];
    }

    /** variant(variant &&): the same with helper::move; the source keeps its tag and
        is left holding a moved-from object. */
    constructor Move(other: Variant)
      requires other.Valid()
      modifies other
      ensures Valid() && types == other.types && destroyed == []
      ensures tag == other.tag && ValueOf(data) == ValueOf(old(other.data))
      ensures old(other.data).Holds? ==> data == Holds(MoveOf(old(other.data).obj))
      ensures other.Valid() && other.tag == old(other.tag)
      ensures other.data == AfterMoveFrom(other.types, ToSizeT(other.tag as int), old(other.data))
      ensures other.destroyed == old(other.destroyed)
    {
      types := other.types;
      tag := other.tag;
      var from := ToSizeT(other.tag as int);
      var built := HelperMove(other.types, from, other.data, Empty, false);
      data := built.data;
      destroyed := [];
      other.data := AfterMoveFrom(other.types, from, other.data);
    }

    /** variant(in_place_type<T>, args): tag -1, then helper::construct_t<T>. */
    constructor InPlaceType(types: seq<TypeDesc>, t: TypeDesc, arg: int)
      requires Alternatives(types) && t in types
      ensures Valid() && this.types == types && destroyed == []
      ensures 0 <= tag && types[tag] == t && data == Holds(Obj(arg, ValueConstructed))
    {
      this.types := types;
      tag := -1;
      var built := ConstructT(types, t, arg, false);
      tag := built.tag;
      data := built.data;
      destroyed := [];
    }

    /** variant(in_place_index<I>, args): tag -1, then helper::construct_i<I>. */
    constructor InPlaceIndex(types: seq<TypeDesc>, i: nat, arg: int)
      requires Alternatives(types) && i < |types|
      ensures Valid() && this.types == types && destroyed == []
      ensures Index(Snapshot()) == i && data == Holds(Obj(arg, ValueConstructed))
    {
      this.types := types;
      tag := -1;
      var built := ConstructI(types, i, arg, false);
      tag := built.tag;
      data := built.data;
      destroyed := [];
    }

    /** ~variant(): helper::destroy(index(), ptr()). */
    method Destroy()
      requires Valid()
      modifies this
      ensures tag == old(tag) && data == old(data)
      ensures destroyed == old(destroyed) + (if data.Holds? then [data.obj] else [])
    {
      destroyed := destroyed + HelperDestroy(types, Index(Snapshot()), data);
    }

    /** copy_assign (operator= from an lvalue variant).
        - Both valueless: nothing happens.
        - Only `rhs` valueless: the live object is destroyed and the variant becomes
          valueless.
        - Equal indices: helper::copy builds the copy over the live object, which is not
          destroyed first. `v = v` lands here and copies the object onto itself; the
          copy is taken to keep the value.
        - Otherwise a temporary copy of `rhs` is made first (it may throw: nothing has
          changed yet), then the live object is destroyed, the tag set to -1, and the
          temporary moved in, or copied in before C++11 (`cpp11`); that build may
          throw, and the variant then stays valueless. */
    method CopyAssign(rhs: Variant, cpp11: bool, tmpFails: bool, buildFails: bool)
      returns (thrown: bool)
      requires Valid() && rhs.Valid() && rhs.types == types
      modifies this
      ensures Valid()
      ensures old(tag) == -1 && old(rhs.tag) == -1 ==>
                !thrown && tag == -1 && data == old(data) && destroyed == old(destroyed)
      ensures old(tag) != -1 && old(rhs.tag) == -1 ==>
                !thrown && tag == -1 && data == Empty
                && destroyed == old(destroyed) + [old(data).obj]
      ensures old(tag) != -1 && old(tag) == old(rhs.tag) ==>
                !thrown && tag == old(rhs.tag) && data == Holds(CopyOf(old(rhs.data).obj))
                && destroyed == old(destroyed)
      ensures old(rhs.tag) != -1 && old(tag) != old(rhs.tag) ==>
                (thrown <==> tmpFails || buildFails)
                && (tmpFails ==>
                      tag == old(tag) && data == old(data) && destroyed == old(destroyed))
                && (!tmpFails ==> destroyed == old(destroyed) + old(Dying()))
                && (!tmpFails && buildFails ==> tag == -1 && data == Empty)
                && (!thrown ==> tag == old(rhs.tag)
                                && data == Holds(if cpp11 then MoveOf(old(rhs.data).obj)
                                                 else CopyOf(old(rhs.data).obj)))
    {
      thrown := false;
      if tag == -1 && rhs.tag == -1 {
        // no effect
      } else if tag != -1 && rhs.tag == -1 {
        destroyed := destroyed + Dying();
        tag := -1;
        data := Empty;
      } else if Index(Snapshot()) == Index(rhs.Snapshot()) {
        var built := HelperCopy(types, ToSizeT(rhs.tag as int), rhs.data, data, false);
        tag := built.tag;
        data := built.data;
      } else {
        var from := ToSizeT(rhs.tag as int);
        var tmp := HelperCopy(types, from, rhs.data, Empty, tmpFails);
        if tmp.Threw? {
          thrown := true;
          return;
        }
        destroyed := destroyed + Dying();
        tag := -1;
        data := Empty;
        var built := if cpp11 then HelperMove(types, from, tmp.data, data, buildFails)
                     else HelperCopy(types, from, tmp.data, data, buildFails);
        if built.Threw? {
          thrown := true;
          return;
        }
        tag := built.tag;
        data := built.data;
      }
    }

    /** move_assign (operator= from an rvalue variant): the cases of CopyAssign with
        helper::move straight from `rhs` and no temporary; `rhs` keeps its tag and is
        left holding a moved-from object when the move happened. */
    method MoveAssign(rhs: Variant, moveFails: bool) returns (thrown: bool)
      requires Valid() && rhs.Valid() && rhs != this && rhs.types == types
      modifies this, rhs
      ensures Valid() && rhs.Valid()
      ensures rhs.tag == old(rhs.tag) && rhs.destroyed == old(rhs.destroyed)
      ensures old(tag) == -1 && rhs.tag == -1 ==>
                !thrown && tag == -1 && data == old(data) && destroyed == old(destroyed)
                && rhs.data == old(rhs.data)
      ensures old(tag) != -1 && rhs.tag == -1 ==>
                !thrown && tag == -1 && data == Empty
                && destroyed == old(destroyed) + [old(data).obj] && rhs.data == old(rhs.data)
      ensures old(tag) != -1 && old(tag) == rhs.tag ==>
                !thrown && tag == rhs.tag && data == Holds(MoveOf(old(rhs.data).obj))
                && destroyed == old(destroyed)
                && rhs.data == Holds(MovedOut(old(rhs.data).obj))
      ensures rhs.tag != -1 && old(tag) != rhs.tag ==>
                (thrown <==> moveFails)
                && destroyed == old(destroyed) + old(Dying())
                && (thrown ==> tag == -1 && data == Empty && rhs.data == old(rhs.data))
                && (!thrown ==> tag == rhs.tag && data == Holds(MoveOf(old(rhs.data).obj))
                                && rhs.data == Holds(MovedOut(old(rhs.data).obj)))
    {
      thrown := false;
      if tag == -1 && rhs.tag == -1 {
        // no effect
      } else if tag != -1 && rhs.tag == -1 {
        destroyed := destroyed + Dying();
        tag := -1;
        data := Empty;
      } else if Index(Snapshot()) == Index(rhs.Snapshot()) {
        var from := ToSizeT(rhs.tag as int);
        var built := HelperMove(types, from, rhs.data, data, false);
        tag := built.tag;
        data := built.data;
        rhs.data := AfterMoveFrom(types, from, rhs.data);
      } else {
        destroyed := destroyed + Dying();
        tag := -1;
        data := Empty;
        var from := ToSizeT(rhs.tag as int);
        var built := HelperMove(types, from, rhs.data, data, moveFails);
        if built.Threw? {
          thrown := true;
          return;
        }
        tag := built.tag;
        data := built.data;
        rhs.data := AfterMoveFrom(types, from, rhs.data);
      }
    }

    /** move_assign_value<T, I> (operator=(Ti &&)) when `byMove`, copy_assign_value<T, I>
        (operator=(Ti const &), before C++11) otherwise. The same index uses the
        alternative's own assignment; another index destroys, sets the tag to -1,
        builds the new object (it may throw: the variant stays valueless) and sets the
        tag to I. */
    method AssignValue(i: nat, x: int, byMove: bool, fails: bool) returns (thrown: bool)
      requires Valid() && i < |types|
      modifies this
      ensures Valid()
      ensures old(Index(Snapshot())) == i ==>
                !thrown && tag == old(tag) && destroyed == old(destroyed)
                && data == Holds(Obj(x, if byMove then MoveAssigned else CopyAssigned))
      ensures old(Index(Snapshot())) != i ==>
                (thrown <==> fails) && destroyed == old(destroyed) + old(Dying())
                && (thrown ==> tag == -1 && data == Empty)
                && (!thrown ==>
                      Index(Snapshot()) == i
                      && data == Holds(Obj(x, if byMove then MoveConstructed else CopyConstructed)))
    {
      thrown := false;
      if Index(Snapshot()) == i {
        data := Holds(Obj(x, if byMove then MoveAssigned else CopyAssigned));
      } else {
        destroyed := destroyed + Dying();
        tag := -1;
        data := Empty;
        if fails {
          thrown := true;
          return;
        }
        data := Holds(Obj(x, if byMove then MoveConstructed else CopyConstructed));
        tag := i as int8;
      }
    }

    /** emplace<T>(args): destroy, tag -1, helper::construct_t<T>. */
    method EmplaceType(t: TypeDesc, arg: int, fails: bool) returns (thrown: bool)
      requires Valid() && t in types
      modifies this
      ensures Valid()
      ensures thrown <==> fails
      ensures destroyed == old(destroyed) + old(Dying())
      ensures thrown ==> ValuelessByException(Snapshot()) && data == Empty
      ensures !thrown ==> Index(Snapshot()) == IndexOfType(Snapshot(), t)
                          && types[tag] == t && data == Holds(Obj(arg, ValueConstructed))
    {
      destroyed := destroyed + Dying();
      tag := -1;
      data := Empty;
      var built := ConstructT(types, t, arg, fails);
      if built.Threw? {
        thrown := true;
        return;
      }
      thrown := false;
      tag := built.tag;
      data := built.data;
    }

    /** emplace<I>(args): emplace<type_at_t<I>>(args). */
    method EmplaceIndex(i: nat, arg: int, fails: bool) returns (thrown: bool)
      requires Valid() && i < |types|
      modifies this
      ensures Valid()
      ensures thrown <==> fails
      ensures destroyed == old(destroyed) + old(Dying())
      ensures thrown ==> ValuelessByException(Snapshot()) && data == Empty
      ensures !thrown ==> Index(Snapshot()) == i && data == Holds(Obj(arg, ValueConstructed))
    {
      thrown := EmplaceType(TypeAt(types, i), arg, fails);
      IndexOfTypeAt(types, i);
    }

    /** swap_value(index, rhs): std::swap of the two live objects of the same
        alternative, reached with member get<I>: each side ends holding the other's
        former value, written by move assignment. Swapping a variant with itself swaps
        its object with itself. Under the as-written get, an index equal to data_size
        throws bad_variant_access before anything is changed. */
    method SwapValue(rhs: Variant, rule: GetRule) returns (thrown: bool)
      requires Valid() && rhs.Valid() && rhs.types == types
      requires data.Holds? && Index(Snapshot()) == Index(rhs.Snapshot())
      modifies this, rhs
      ensures Valid() && rhs.Valid()
      ensures thrown <==> Misfires(rule, old(Snapshot()))
      ensures tag == old(tag) && rhs.tag == old(rhs.tag)
      ensures destroyed == old(destroyed) && rhs.destroyed == old(rhs.destroyed)
      ensures thrown ==> data == old(data) && rhs.data == old(rhs.data)
      ensures !thrown ==> data == Holds(Obj(old(rhs.data).obj.value, MoveAssigned))
                          && rhs.data == Holds(Obj(old(data).obj.value, MoveAssigned))
    {
      var n := Index(Snapshot());
      IndexOfTypeAt(types, n);
      var mine := MemberGetBy(rule, Snapshot(), TypeAt(types, n));
      var theirs := MemberGetBy(rule, rhs.Snapshot(), TypeAt(types, n));
      if !mine.Ref? || !theirs.Ref? {
        return true;
      }
      thrown := false;
      data := Holds(Obj(theirs.obj.value, MoveAssigned));
      rhs.data := Holds(Obj(mine.obj.value, MoveAssigned));
    }

    /** swap(rhs): nothing when both are valueless, swap_value on equal indices, and
        otherwise `tmp(*this); *this = rhs; rhs = tmp;` (copy assignments). Each side
        ends with the other's former index and value; only the third case destroys
        anything: the object each side held before. swap is `variant_noexcept`, which
        is `noexcept` since C++11 and nothing before: the as-written throw of
        swap_value then ends the program (`terminates`), or before C++11 leaves swap as
        bad_variant_access (`thrown`); either way nothing has changed. */
    method Swap(rhs: Variant, rule: GetRule, cpp11: bool) returns (terminates: bool, thrown: bool)
      requires Valid() && rhs.Valid() && rhs.types == types
      modifies this, rhs
      ensures Valid() && rhs.Valid()
      ensures terminates <==> cpp11 && old(tag) == old(rhs.tag) && Misfires(rule, old(Snapshot()))
      ensures thrown <==> !cpp11 && old(tag) == old(rhs.tag) && Misfires(rule, old(Snapshot()))
      ensures terminates || thrown ==> tag == old(tag) && data == old(data)
                                       && rhs.tag == old(rhs.tag) && rhs.data == old(rhs.data)
      ensures !terminates && !thrown ==> tag == old(rhs.tag) && rhs.tag == old(tag)
                                         && ValueOf(data) == old(ValueOf(rhs.data))
                                         && ValueOf(rhs.data) == old(ValueOf(data))
      ensures old(tag) == old(rhs.tag) ==>
                destroyed == old(destroyed) && rhs.destroyed == old(rhs.destroyed)
      ensures old(tag) != old(rhs.tag) ==>
                destroyed == old(destroyed) + old(Dying())
                && rhs.destroyed == old(rhs.destroyed) + old(rhs.Dying())
    {
      terminates, thrown := false, false;
      if tag == -1 && rhs.tag == -1 {
        // no effect
      } else if Index(Snapshot()) == Index(rhs.Snapshot()) {
        var failed := SwapValue(rhs, rule);
        terminates, thrown := cpp11 && failed, !cpp11 && failed;
      } else {
        var tmp := new Variant.Copy(this);
        var copyThrown := CopyAssign(rhs, cpp11, false, false);
        copyThrown := rhs.CopyAssign(tmp, cpp11, false, false);
        tmp.Destroy();
      }
    }
  }

  /** The free swap(a, b): a.swap(b). */
  method SwapVariants(a: Variant, b: Variant, rule: GetRule, cpp11: bool)
    returns (terminates: bool, thrown: bool)
    requires a.Valid() && b.Valid() && a.types == b.types
    modifies a, b
    ensures a.Valid() && b.Valid()
    ensures terminates <==> cpp11 && old(a.tag) == old(b.tag) && Misfires(rule, old(a.Snapshot()))
    ensures thrown <==> !cpp11 && old(a.tag) == old(b.tag) && Misfires(rule, old(a.Snapshot()))
    ensures terminates || thrown ==> a.tag == old(a.tag) && a.data == old(a.data)
                                     && b.tag == old(b.tag) && b.data == old(b.data)
    ensures !terminates && !thrown ==> a.tag == old(b.tag) && b.tag == old(a.tag)
                                       && ValueOf(a.data) == old(ValueOf(b.data))
                                       && ValueOf(b.data) == old(ValueOf(a.data))
    ensures old(a.tag) == old(b.tag) ==>
              a.destroyed == old(a.destroyed) && b.destroyed == old(b.destroyed)
    ensures old(a.tag) != old(b.tag) ==>
              a.destroyed == old(a.destroyed) + old(a.Dying())
              && b.destroyed == old(b.destroyed) + old(b.Dying())
  {
    terminates, thrown := a.Swap(b, rule, cpp11);
  }

  /** Swapping twice gives each variant back its index and value, unless the first swap
      already ends the program or throws. */
  method SwapTwice(a: Variant, b: Variant, rule: GetRule, cpp11: bool)
    returns (terminates: bool, thrown: bool)
    requires a.Valid() && b.Valid() && a.types == b.types
    modifies a, b
    ensures a.Valid() && b.Valid()
    ensures terminates <==> cpp11 && old(a.tag) == old(b.tag) && Misfires(rule, old(a.Snapshot()))
    ensures thrown <==> !cpp11 && old(a.tag) == old(b.tag) && Misfires(rule, old(a.Snapshot()))
    ensures !terminates && !thrown ==> a.tag == old(a.tag) && b.tag == old(b.tag)
                                       && ValueOf(a.data) == old(ValueOf(a.data))
                                       && ValueOf(b.data) == old(ValueOf(b.data))
  {
    terminates, thrown := SwapVariants(a, b, rule, cpp11);
    if !terminates && !thrown {
      terminates, thrown := SwapVariants(a, b, rule, cpp11);
    }
  }
}
