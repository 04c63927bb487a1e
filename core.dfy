/**
 * What every variant of variant-lite shares, as values: the signed-char tag and its
 * conversions to and from `size_t`, the alternative objects a variant can hold, the
 * `detail::helper` steps that build and tear down those objects, and the observers
 * (index, get, get_if, holds_alternative, visit and the relational operators), which
 * read a variant without changing it.
 *
 * A variant's state is a snapshot `Snap(types, tag, data)`: its parameter list, its
 * `type_index` and what its storage block holds. Both variant classes expose their
 * state as a snapshot, so the observers are defined once, here.
 */
module VariantCore {
  import opened Basics
  import opened TypeList

  /** `signed char`, the type of `type_index`. */
  newtype int8 = x: int | -128 <= x < 128

  /** 2^64: `size_t` arithmetic wraps modulo this (an LP64 target). */
  const SizeMax: nat := 0x1_0000_0000_0000_0000

  /** variant_npos, `static_cast<std::size_t>(-1)`. */
  const NPos: nat := 0xFFFF_FFFF_FFFF_FFFF

  /** The conversion of a signed value to `size_t`: reduction modulo 2^64. */
  function ToSizeT(x: int): (r: nat)
    ensures r < SizeMax
    ensures 0 <= x < SizeMax ==> r == x
    ensures x == -1 ==> r == NPos
  {
    x % SizeMax
  }

  /** helper::to_index_t, `static_cast<signed char>(index)`: the low eight bits read as
      a two's complement number. */
  function ToIndexT(index: nat): (r: int8)
    ensures index < 128 ==> r as int == index
    ensures index % 256 == 255 ==> r == -1
  {
    var low := index % 256;
    if low < 128 then low as int8 else (low - 256) as int8
  }

  /** Widening a tag to `size_t` and narrowing it back gives the tag again; in
      particular the internal sentinel -1 goes to variant_npos and back to -1. */
  lemma IndexTRoundTrip(tag: int8)
    ensures ToIndexT(ToSizeT(tag as int)) == tag
  {
    if tag < 0 {
      var w := ToSizeT(tag as int);
      assert w == SizeMax + tag as int;
      assert w == (SizeMax / 256 - 1) * 256 + (256 + tag as int);
    }
  }

  /** How an alternative object came to be, after the tracer type of the test suite:
      which constructor built it, or which assignment last wrote it. */
  datatype Trace =
    | DefaultConstructed
    | ValueConstructed
    | CopyConstructed
    | MoveConstructed
    | CopyAssigned
    | MoveAssigned
    | MovedFrom

  /** An alternative object: its value and its history. */
  datatype Obj = Obj(value: int, trace: Trace)

  /** A copy or a move leaves a fresh object with the same value. */
  function CopyOf(o: Obj): Obj {
    Obj(o.value, CopyConstructed)
  }

  function MoveOf(o: Obj): Obj {
    Obj(o.value, MoveConstructed)
  }

  /** What a move leaves behind in its source. */
  function MovedOut(o: Obj): Obj {
    Obj(o.value, MovedFrom)
  }

  /** The storage block of a variant: empty, or holding one live alternative object. */
  datatype Storage = Empty | Holds(obj: Obj)

  /** The value of the live object, if any: what a swap exchanges. */
  function ValueOf(d: Storage): (r: Option<int>)
    ensures r.Some? <==> d.Holds?
    ensures r.Some? ==> r.value == d.obj.value
  {
    if d.Holds? then Some(d.obj.value) else None
  }

  /** A variant's state: its parameter list, its `type_index`, its storage. */
  datatype Snap = Snap(types: seq<TypeDesc>, tag: int8, data: Storage)

  /** A parameter list a variant can be instantiated with: at least one type, indices
      that fit a signed char, no type twice, every type of positive size and smaller
      than the address space. */
  predicate Alternatives(types: seq<TypeDesc>) {
    1 <= |types| <= 127 && Distinct(types)
    && forall i :: 0 <= i < |types| ==> WellFormedType(types[i]) && SizeOf(types[i]) < NPos
  }

  /** The invariant of every variant: the tag is -1 (valueless) or names an alternative,
      and there is a live object exactly when the tag names one. */
  predicate Consistent(s: Snap) {
    Alternatives(s.types) && -1 <= s.tag as int < |s.types|
    && (s.tag == -1 <==> s.data.Empty?)
  }

  /** variant::index(): the tag, or variant_npos for the sentinel. */
  function Index(s: Snap): (r: nat)
    requires Consistent(s)
    ensures r == NPos <==> s.data.Empty?
    ensures s.data.Holds? ==> r < |s.types| && r == s.tag as int
  {
    if s.tag == -1 then NPos else s.tag as nat
  }

  /** variant::valueless_by_exception(). */
  function ValuelessByException(s: Snap): (r: bool)
    requires Consistent(s)
    ensures r <==> s.data.Empty?
    ensures r <==> Index(s) == NPos
  {
    s.tag == -1
  }

  /** variant::index_of<T>(): the list position of T converted to `size_t`; an absent T
      has position -1, which converts to variant_npos. */
  function IndexOfType(s: Snap, t: TypeDesc): (r: nat)
    requires Consistent(s)
    ensures r == NPos <==> t !in s.types
    ensures r != NPos ==> r < |s.types| && s.types[r] == t
  {
    ToSizeT(IndexOf(s.types, t))
  }

  /** holds_alternative<T>: `index() == index_of<T>()`. A valueless variant "holds"
      every type that is not in its list, since both sides are then variant_npos. */
  function HoldsAlternative(s: Snap, t: TypeDesc): (r: bool)
    requires Consistent(s)
    ensures r <==> (s.data.Holds? && s.types[s.tag] == t) || (s.data.Empty? && t !in s.types)
  {
    Index(s) == IndexOfType(s, t)
  }

  /** What an access yields: a reference to the live object, a null pointer, a thrown
      bad_variant_access, or a reference into storage that holds no object of that type. */
  datatype Access = Ref(obj: Obj) | Null | BadVariantAccess | Unowned

  /** Member get<T>() AS WRITTEN: it throws when `index_of<T>() != index()` and also
      when `index_of<T>() == max_index()`, where max_index() is data_size, the byte size
      of the largest alternative; an absent T on a valueless variant passes both tests
      and gets a reference into storage that holds no object. */
  function MemberGetAsWritten(s: Snap, t: TypeDesc): (r: Access)
    requires Consistent(s)
    ensures !r.Null?
    ensures r.Ref? <==> s.data.Holds? && s.types[s.tag] == t && s.tag as int != MaxSize(s.types)
    ensures r.Ref? ==> r.obj == s.data.obj
    ensures r.Unowned? <==> s.data.Empty? && t !in s.types
  {
    var i := IndexOfType(s, t);
    if i != Index(s) || i == MaxSize(s.types) then BadVariantAccess
    else if s.data.Holds? then Ref(s.data.obj)
    else Unowned
  }

  /** variant<char, bool> (seven slots) holding a bool: the bool is the alternative at
      index 1 and data_size is 1, so get<bool>() throws although the variant holds a
      bool, and so do get<1>, get_if<1> and `v == v`, which reach the value through
      it; the corrected test hands the bool out. */
  lemma MemberGetRejectsHeldAlternative(s: Snap, eq: AltRel)
    requires s == Snap(CharBool(), 1, Holds(Obj(1, ValueConstructed)))
    ensures Consistent(s) && HoldsAlternative(s, Real("bool", 1, 1))
            && MemberGetAsWritten(s, Real("bool", 1, 1)) == BadVariantAccess
            && MemberGet(s, Real("bool", 1, 1)) == Ref(Obj(1, ValueConstructed))
            && GetAt(AsWritten, s, 1) == BadVariantAccess
            && GetIfAt(AsWritten, s, 1) == BadVariantAccess
            && Equal(AsWritten, s, s, eq) == Throws
            && GetAt(Corrected, s, 1) == Ref(Obj(1, ValueConstructed))
  {
    var types := CharBool();
    assert MaxSize(types) == 1 by {
      assert forall k :: 0 <= k < 7 ==> SizeOf(types[k]) == 1;
    }
  }

  /** The parameter list of `variant<char, bool>` with seven slots. */
  function CharBool(): (r: seq<TypeDesc>)
    ensures r == Instantiate([Real("char", 1, 1), Real("bool", 1, 1)], 7)
    ensures Alternatives(r)
  {
    var reals := [Real("char", 1, 1), Real("bool", 1, 1)];
    var r := Instantiate(reals, 7);
    assert r[0] == reals[0] && r[1] == reals[1] && r[0].name[0] != r[1].name[0];
    assert forall k :: 0 <= k < 7 ==> WellFormedType(r[k]) && SizeOf(r[k]) < NPos;
    r
  }

  /** Member get<T>() as intended: throw unless `index_of<T>() == index()`, and also
      when T is absent (then both are variant_npos). It hands out the live object
      exactly when the variant holds a T. */
  function MemberGet(s: Snap, t: TypeDesc): (r: Access)
    requires Consistent(s)
    ensures r.Ref? || r.BadVariantAccess?
    ensures r.Ref? <==> s.data.Holds? && s.types[s.tag] == t
    ensures r.Ref? <==> HoldsAlternative(s, t) && t in s.types
    ensures r.Ref? ==> r.obj == s.data.obj
  {
    var i := IndexOfType(s, t);
    if i != Index(s) || i == NPos then BadVariantAccess else Ref(s.data.obj)
  }

  /** The two member gets differ only where the as-written test misfires: a held
      alternative whose index equals data_size, or an absent type on a valueless
      variant. */
  lemma MemberGetAsWrittenDiffers(s: Snap, t: TypeDesc)
    requires Consistent(s)
    requires MemberGetAsWritten(s, t) != MemberGet(s, t)
    ensures (s.data.Holds? && s.types[s.tag] == t && s.tag as int == MaxSize(s.types))
            || (s.data.Empty? && t !in s.types)
  {
  }

  /** Which test member get<T>() applies: the one in the source (MemberGetAsWritten) or
      the intended one (MemberGet). Everything that reaches a value through member get
      takes the rule as a parameter, so both readings are stated once. */
  datatype GetRule = AsWritten | Corrected

  /** Member get<T>() under a rule. */
  function MemberGetBy(rule: GetRule, s: Snap, t: TypeDesc): Access
    requires Consistent(s)
  {
    if rule.AsWritten? then MemberGetAsWritten(s, t) else MemberGet(s, t)
  }

  /** The as-written test rejects the live alternative itself: its index equals
      data_size. Under the corrected rule this never happens. */
  predicate Misfires(rule: GetRule, s: Snap) {
    rule.AsWritten? && s.data.Holds? && s.tag as int == MaxSize(s.types)
  }

  /** Free get<I>(v): throws when `I != v.index()`, otherwise member get of the I-th
      type, which as written also throws when I is data_size. I past the list does not
      compile, hence the requires. */
  function GetAt(rule: GetRule, s: Snap, i: nat): (r: Access)
    requires Consistent(s) && i < |s.types|
    ensures r.Ref? || r.BadVariantAccess?
    ensures r.Ref? <==> Index(s) == i && !Misfires(rule, s)
    ensures r.Ref? ==> r.obj == s.data.obj
  {
    if i != Index(s) then BadVariantAccess
    else
      IndexOfTypeAt(s.types, i);
      MemberGetBy(rule, s, TypeAt(s.types, i))
  }

  /** Free get<T>(v): member get<T>. As written, an absent T on a valueless variant
      yields a reference into empty storage. */
  function GetType(rule: GetRule, s: Snap, t: TypeDesc): (r: Access)
    requires Consistent(s)
    ensures !r.Null?
    ensures r.Ref? <==> HoldsAlternative(s, t) && t in s.types && !Misfires(rule, s)
    ensures r.Unowned? <==> rule.AsWritten? && s.data.Empty? && t !in s.types
    ensures r.Ref? ==> r.obj == s.data.obj
  {
    MemberGetBy(rule, s, t)
  }

  /** get_if<T>(&v): `&get<T>(v)` when `index() == index_of<T>()`, a null pointer
      otherwise; the get may still throw, or, as written, point into empty storage. */
  function GetIf(rule: GetRule, s: Snap, t: TypeDesc): (r: Access)
    requires Consistent(s)
    ensures r.Null? <==> !HoldsAlternative(s, t)
    ensures r.Ref? <==> HoldsAlternative(s, t) && t in s.types && !Misfires(rule, s)
    ensures r.Unowned? <==> rule.AsWritten? && s.data.Empty? && t !in s.types
    ensures r.BadVariantAccess? <==>
              HoldsAlternative(s, t) && (Misfires(rule, s) || (rule.Corrected? && s.data.Empty?))
    ensures r.Ref? ==> r.obj == s.data.obj
  {
    if Index(s) == IndexOfType(s, t) then GetType(rule, s, t) else Null
  }

  /** get_if<I>(&v): `&get<I>(v)` when `index() == I`, a null pointer otherwise. */
  function GetIfAt(rule: GetRule, s: Snap, i: nat): (r: Access)
    requires Consistent(s) && i < |s.types|
    ensures r.Null? <==> Index(s) != i
    ensures r.Ref? <==> Index(s) == i && !Misfires(rule, s)
    ensures r.BadVariantAccess? <==> Index(s) == i && Misfires(rule, s)
    ensures r.Ref? ==> r.obj == s.data.obj
  {
    if Index(s) == i then GetAt(rule, s, i) else Null
  }

  /** A value of one alternative, given by its index: what a visitor returns. */
  datatype AltValue = AltValue(index: nat, value: int)

  /** The variant a visitor's result converts to: `variant(T&&)` moves it in. */
  function FromAlt(types: seq<TypeDesc>, a: AltValue): (r: Snap)
    requires Alternatives(types) && a.index < |types|
    ensures Consistent(r) && r.types == types
    ensures Index(r) == a.index && r.data == Holds(Obj(a.value, MoveConstructed))
  {
    Snap(types, a.index as int8, Holds(Obj(a.value, MoveConstructed)))
  }

  /** visit(vis, v): throws on a valueless variant; otherwise applies the visitor to the
      active alternative, fetched with get<I> (which may throw), and returns its result
      as a variant of the same type. */
  function Visit(rule: GetRule, s: Snap, vis: (nat, Obj) -> AltValue): (r: Outcome<Snap>)
    requires Consistent(s)
    requires s.data.Holds? ==> vis(s.tag as nat, s.data.obj).index < |s.types|
    ensures r.Throws? <==> ValuelessByException(s) || Misfires(rule, s)
    ensures r.Ok? ==> r.value == FromAlt(s.types, vis(Index(s), s.data.obj))
  {
    if ValuelessByException(s) then Throws
    else
      var n := Index(s);
      match GetAt(rule, s, n)
      case Ref(o) => Ok(FromAlt(s.types, vis(n, o)))
      case _ => Throws
  }

  /** The comparison an alternative supplies, `==` or `<` of the type at the index. */
  type AltRel = (nat, Obj, Obj) -> bool

  /** Comparator::equal and Comparator::less_than: `get<n>(v) OP get<n>(w)` for v's index
      n, with OP the alternative's `==` or `<`; false when v is valueless. get<n>(w)
      throws when w holds another alternative, and, as written, both gets throw when n
      is data_size. */
  function Comparator(rule: GetRule, v: Snap, w: Snap, rel: AltRel): (r: Outcome<bool>)
    requires Consistent(v) && Consistent(w) && v.types == w.types
    ensures r.Throws? <==> v.data.Holds? && (Index(w) != Index(v) || Misfires(rule, v))
    ensures v.data.Empty? ==> r == Ok(false)
    ensures r.Ok? && v.data.Holds? ==> r.value == rel(Index(v), v.data.obj, w.data.obj)
  {
    var n := Index(v);
    if n < |v.types| then
      match (GetAt(rule, v, n), GetAt(rule, w, n))
      case (Ref(a), Ref(b)) => Ok(rel(n, a, b))
      case _ => Throws
    else Ok(false)
  }

  /** Two variants of one type, as the relational operators take them. */
  predicate Comparable(v: Snap, w: Snap) {
    Consistent(v) && Consistent(w) && v.types == w.types
  }

  /** `!` applied to a result that may be an exception. */
  function Negate(o: Outcome<bool>): Outcome<bool> {
    match o
    case Ok(b) => Ok(!b)
    case Throws => Throws
  }

  /** operator==: equal indices, and equal values unless both are valueless. As
      written, comparing two live values at index data_size throws. */
  function Equal(rule: GetRule, v: Snap, w: Snap, eq: AltRel): (r: Outcome<bool>)
    requires Comparable(v, w)
    ensures r.Throws? <==> Index(v) == Index(w) && Misfires(rule, v)
    ensures r.Ok? ==> (r.value <==> Index(v) == Index(w)
                                    && (v.data.Empty? || eq(Index(v), v.data.obj, w.data.obj)))
  {
    if Index(v) != Index(w) then Ok(false)
    else if ValuelessByException(v) then Ok(true)
    else Comparator(rule, v, w, eq)
  }

  /** operator!=: the negation of ==. */
  function NotEqual(rule: GetRule, v: Snap, w: Snap, eq: AltRel): (r: Outcome<bool>)
    requires Comparable(v, w)
    ensures r.Throws? <==> Index(v) == Index(w) && Misfires(rule, v)
    ensures r.Ok? ==> (r.value <==> Index(v) != Index(w)
                                    || (v.data.Holds? && !eq(Index(v), v.data.obj, w.data.obj)))
  {
    Negate(Equal(rule, v, w, eq))
  }

  /** operator<: nothing is below a valueless variant, a valueless variant is below
      every other, a lower index is below a higher one, and on equal indices the
      alternative's `<` decides (as written, throwing at index data_size). */
  function Less(rule: GetRule, v: Snap, w: Snap, lt: AltRel): (r: Outcome<bool>)
    requires Comparable(v, w)
    ensures r.Throws? <==> Index(v) == Index(w) && Misfires(rule, v)
    ensures r.Ok? ==> (r.value <==> w.data.Holds?
                                    && (v.data.Empty? || Index(v) < Index(w)
                                        || (Index(v) == Index(w)
                                            && lt(Index(v), v.data.obj, w.data.obj))))
  {
    if ValuelessByException(w) then Ok(false)
    else if ValuelessByException(v) then Ok(true)
    else if Index(v) < Index(w) then Ok(true)
    else if Index(v) > Index(w) then Ok(false)
    else Comparator(rule, v, w, lt)
  }

  /** operator>: `w < v`. */
  function Greater(rule: GetRule, v: Snap, w: Snap, lt: AltRel): (r: Outcome<bool>)
    requires Comparable(v, w)
    ensures r.Throws? <==> Index(v) == Index(w) && Misfires(rule, v)
    ensures r.Ok? ==> (r.value <==> v.data.Holds?
                                    && (w.data.Empty? || Index(w) < Index(v)
                                        || (Index(v) == Index(w)
                                            && lt(Index(v), w.data.obj, v.data.obj))))
  {
    Less(rule, w, v, lt)
  }

  /** operator<=: `!(v > w)`. */
  function LessEq(rule: GetRule, v: Snap, w: Snap, lt: AltRel): (r: Outcome<bool>)
    requires Comparable(v, w)
    ensures r.Throws? <==> Index(v) == Index(w) && Misfires(rule, v)
    ensures r.Ok? ==> (r.value <==> v.data.Empty?
                                    || (w.data.Holds? && (Index(v) < Index(w)
                                        || (Index(v) == Index(w)
                                            && !lt(Index(v), w.data.obj, v.data.obj)))))
  {
    Negate(Greater(rule, v, w, lt))
  }

  /** operator>=: `!(v < w)`. */
  function GreaterEq(rule: GetRule, v: Snap, w: Snap, lt: AltRel): (r: Outcome<bool>)
    requires Comparable(v, w)
    ensures r.Throws? <==> Index(v) == Index(w) && Misfires(rule, v)
    ensures r.Ok? ==> (r.value <==> w.data.Empty?
                                    || (v.data.Holds? && (Index(w) < Index(v)
                                        || (Index(v) == Index(w)
                                            && !lt(Index(v), v.data.obj, w.data.obj)))))
  {
    Negate(Less(rule, v, w, lt))
  }

  /** Wherever the as-written test does not misfire, the accessors give what the
      corrected ones give; get<T> and get_if<T> differ besides only for an absent T on
      a valueless variant. */
  lemma AccessRulesAgree(s: Snap, t: TypeDesc, i: nat, vis: (nat, Obj) -> AltValue)
    requires Consistent(s) && i < |s.types|
    requires s.data.Holds? ==> vis(s.tag as nat, s.data.obj).index < |s.types|
    ensures GetAt(AsWritten, s, i) != GetAt(Corrected, s, i) ==> Misfires(AsWritten, s)
    ensures GetIfAt(AsWritten, s, i) != GetIfAt(Corrected, s, i) ==> Misfires(AsWritten, s)
    ensures Visit(AsWritten, s, vis) != Visit(Corrected, s, vis) ==> Misfires(AsWritten, s)
    ensures GetType(AsWritten, s, t) != GetType(Corrected, s, t) ==>
              Misfires(AsWritten, s) || (s.data.Empty? && t !in s.types)
    ensures GetIf(AsWritten, s, t) != GetIf(Corrected, s, t) ==>
              Misfires(AsWritten, s) || (s.data.Empty? && t !in s.types)
  {
  }

  /** The relational operators under the two rules differ only by the as-written
      throw, on two live values at index data_size; under the corrected rule they never
      throw. */
  lemma OperatorRulesAgree(v: Snap, w: Snap, eq: AltRel, lt: AltRel)
    requires Comparable(v, w)
    ensures Equal(Corrected, v, w, eq).Ok? && Less(Corrected, v, w, lt).Ok?
    ensures !(Index(v) == Index(w) && Misfires(AsWritten, v)) ==>
              Equal(AsWritten, v, w, eq) == Equal(Corrected, v, w, eq)
              && NotEqual(AsWritten, v, w, eq) == NotEqual(Corrected, v, w, eq)
              && Less(AsWritten, v, w, lt) == Less(Corrected, v, w, lt)
              && Greater(AsWritten, v, w, lt) == Greater(Corrected, v, w, lt)
              && LessEq(AsWritten, v, w, lt) == LessEq(Corrected, v, w, lt)
              && GreaterEq(AsWritten, v, w, lt) == GreaterEq(Corrected, v, w, lt)
  {
  }

  /** The alternatives' `==` is an equivalence on every alternative. */
  ghost predicate EquivalenceAlt(eq: AltRel) {
    (forall n, a :: eq(n, a, a))
    && (forall n, a, b :: eq(n, a, b) ==> eq(n, b, a))
    && (forall n, a, b, c :: eq(n, a, b) && eq(n, b, c) ==> eq(n, a, c))
  }

  /** The alternatives' `<` is a strict order on every alternative. */
  ghost predicate StrictOrderAlt(lt: AltRel) {
    (forall n, a :: !lt(n, a, a))
    && (forall n, a, b, c :: lt(n, a, b) && lt(n, b, c) ==> lt(n, a, c))
  }

  /** On every alternative exactly one of `a < b`, `a == b`, `b < a` holds. */
  ghost predicate TrichotomousAlt(eq: AltRel, lt: AltRel) {
    forall n, a, b :: (lt(n, a, b) || eq(n, a, b) || lt(n, b, a))
                      && !(lt(n, a, b) && eq(n, a, b))
                      && !(lt(n, a, b) && lt(n, b, a))
                      && !(eq(n, a, b) && lt(n, b, a))
  }

  /** A valueless variant equals another valueless one and is below every other; none
      of these comparisons reaches a get, so neither rule throws. */
  lemma ValuelessIsLeast(rule: GetRule, v: Snap, w: Snap, eq: AltRel, lt: AltRel)
    requires Comparable(v, w) && ValuelessByException(v)
    ensures ValuelessByException(w) ==>
              Equal(rule, v, w, eq) == Ok(true)
              && Less(rule, v, w, lt) == Ok(false) && Less(rule, w, v, lt) == Ok(false)
    ensures !ValuelessByException(w) ==>
              Less(rule, v, w, lt) == Ok(true) && Less(rule, w, v, lt) == Ok(false)
              && Equal(rule, v, w, eq) == Ok(false)
  {
  }

  /** == on variants is an equivalence when it is on every alternative: `u == u` holds
      unless, as written, it throws, and symmetry and transitivity hold of every
      comparison that returns true. */
  lemma EqualIsEquivalence(rule: GetRule, u: Snap, v: Snap, w: Snap, eq: AltRel)
    requires Comparable(u, v) && Comparable(v, w) && EquivalenceAlt(eq)
    ensures Equal(rule, u, u, eq) == (if Misfires(rule, u) then Throws else Ok(true))
    ensures Equal(rule, u, v, eq) == Ok(true) ==> Equal(rule, v, u, eq) == Ok(true)
    ensures Equal(rule, u, v, eq) == Ok(true) && Equal(rule, v, w, eq) == Ok(true) ==>
              Equal(rule, u, w, eq) == Ok(true)
  {
  }

  /** < on variants is a strict order when it is on every alternative. */
  lemma LessIsStrictOrder(rule: GetRule, u: Snap, v: Snap, w: Snap, lt: AltRel)
    requires Comparable(u, v) && Comparable(v, w) && StrictOrderAlt(lt)
    ensures Less(rule, u, u, lt) == (if Misfires(rule, u) then Throws else Ok(false))
    ensures Less(rule, u, v, lt) == Ok(true) && Less(rule, v, w, lt) == Ok(true) ==>
              Less(rule, u, w, lt) == Ok(true)
  {
  }

  /** When the alternatives' operators are trichotomous, exactly one of v < w, v == w,
      v > w holds unless the comparison throws, and the derived operators mean what
      their names say. */
  lemma DerivedOperators(rule: GetRule, v: Snap, w: Snap, eq: AltRel, lt: AltRel)
    requires Comparable(v, w) && TrichotomousAlt(eq, lt)
    ensures (Index(v) == Index(w) && Misfires(rule, v))
            || Less(rule, v, w, lt) == Ok(true) || Equal(rule, v, w, eq) == Ok(true)
            || Greater(rule, v, w, lt) == Ok(true)
    ensures !(Less(rule, v, w, lt) == Ok(true) && Equal(rule, v, w, eq) == Ok(true))
            && !(Less(rule, v, w, lt) == Ok(true) && Greater(rule, v, w, lt) == Ok(true))
            && !(Equal(rule, v, w, eq) == Ok(true) && Greater(rule, v, w, lt) == Ok(true))
    ensures LessEq(rule, v, w, lt) == Ok(true) <==>
              Less(rule, v, w, lt) == Ok(true) || Equal(rule, v, w, eq) == Ok(true)
    ensures GreaterEq(rule, v, w, lt) == Ok(true) <==>
              Greater(rule, v, w, lt) == Ok(true) || Equal(rule, v, w, eq) == Ok(true)
    ensures NotEqual(rule, v, w, eq) == Ok(true) <==>
              Less(rule, v, w, lt) == Ok(true) || Greater(rule, v, w, lt) == Ok(true)
  {
  }

  /** The result of a helper step that builds an object: the tag it returns and the
      storage it leaves, or an exception out of the alternative's constructor. */
  datatype Built = Built(tag: int8, data: Storage) | Threw

  /** helper::destroy(index, data): the objects whose destructor runs. The switch has
      a case for every alternative and none for variant_npos. */
  function HelperDestroy(types: seq<TypeDesc>, index: nat, data: Storage): (dead: seq<Obj>)
    requires index < |types| ==> data.Holds?
    ensures |dead| <= 1
    ensures index < |types| ==> dead == [data.obj]
    ensures index >= |types| ==> dead == []
  {
    if index < |types| then [data.obj] else []
  }

  /** helper::copy(from_index, from, to): copy-construct alternative `from_index` into
      `to`, then return `to_index_t(from_index)`. variant_npos has no case, so nothing
      is built and the tag returned is -1. The copy constructor may throw (`fails`). */
  function HelperCopy(types: seq<TypeDesc>, fromIndex: nat, from: Storage, to: Storage,
                      fails: bool): (r: Built)
    requires 1 <= |types| <= 127 && (fromIndex < |types| || fromIndex == NPos)
    requires fromIndex < |types| ==> from.Holds?
    ensures r.Threw? <==> fromIndex < |types| && fails
    ensures r.Built? && fromIndex < |types| ==>
              r.tag as int == fromIndex && r.data == Holds(CopyOf(from.obj))
    ensures r.Built? && fromIndex == NPos ==> r.tag == -1 && r.data == to
  {
    if fromIndex < |types| then
      if fails then Threw else Built(ToIndexT(fromIndex), Holds(CopyOf(from.obj)))
    else Built(ToIndexT(fromIndex), to)
  }

  /** helper::move: the same with the move constructor; the source is left moved-from
      (see MovedOut). */
  function HelperMove(types: seq<TypeDesc>, fromIndex: nat, from: Storage, to: Storage,
                      fails: bool): (r: Built)
    requires 1 <= |types| <= 127 && (fromIndex < |types| || fromIndex == NPos)
    requires fromIndex < |types| ==> from.Holds?
    ensures r.Threw? <==> fromIndex < |types| && fails
    ensures r.Built? && fromIndex < |types| ==>
              r.tag as int == fromIndex && r.data == Holds(MoveOf(from.obj))
    ensures r.Built? && fromIndex == NPos ==> r.tag == -1 && r.data == to
  {
    if fromIndex < |types| then
      if fails then Threw else Built(ToIndexT(fromIndex), Holds(MoveOf(from.obj)))
    else Built(ToIndexT(fromIndex), to)
  }

  /** What the storage of a move's source holds afterwards. */
  function AfterMoveFrom(types: seq<TypeDesc>, fromIndex: nat, from: Storage): (r: Storage)
    requires fromIndex < |types| ==> from.Holds?
    ensures fromIndex < |types| ==> r == Holds(MovedOut(from.obj))
    ensures fromIndex >= |types| ==> r == from
  {
    if fromIndex < |types| then Holds(MovedOut(from.obj)) else from
  }

  /** helper::construct_t<T>(data, args): build a T from `arg`, then return
      `to_index_t(index_of<T>)`. For a T outside the list that is -1 over a live
      object, which no variant here is allowed to reach. */
  function ConstructT(types: seq<TypeDesc>, t: TypeDesc, arg: int, fails: bool): (r: Built)
    requires 1 <= |types| <= 127
    ensures r.Threw? <==> fails
    ensures r.Built? ==> r.data == Holds(Obj(arg, ValueConstructed))
    ensures r.Built? && t in types ==> 0 <= r.tag as int < |types| && types[r.tag] == t
    ensures r.Built? && t !in types ==> r.tag == -1
  {
    if fails then Threw
    else Built(ToIndexT(ToSizeT(IndexOf(types, t))), Holds(Obj(arg, ValueConstructed)))
  }

  /** helper::construct_i<I>(data, args): construct_t of the I-th type, then return
      `to_index_t(I)`. */
  function ConstructI(types: seq<TypeDesc>, i: nat, arg: int, fails: bool): (r: Built)
    requires 1 <= |types| <= 127 && i < |types|
    ensures r.Threw? <==> fails
    ensures r.Built? ==> r.tag as int == i && r.data == Holds(Obj(arg, ValueConstructed))
  {
    match ConstructT(types, TypeAt(types, i), arg, fails)
    case Threw => Threw
    case Built(_, data) => Built(ToIndexT(i), data)
  }

  /** On a list without repeats, emplacing by index or by the type at that index
      builds the same thing. */
  lemma ConstructIIsConstructT(types: seq<TypeDesc>, i: nat, arg: int, fails: bool)
    requires 1 <= |types| <= 127 && Distinct(types) && i < |types|
    ensures ConstructI(types, i, arg, fails) == ConstructT(types, types[i], arg, fails)
  {
    IndexOfTypeAt(types, i);
  }
}
