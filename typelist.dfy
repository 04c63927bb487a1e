/**
 * The compile-time type-list arithmetic of variant-lite.
 *
 * A type list `typelist<Head, Tail>` ending in `nulltype` becomes a `seq<TypeDesc>`;
 * each recursive template specialisation becomes a recursive function on the sequence.
 * A type is described by what the metafunctions look at: its `sizeof`, its `alignof`
 * and whether it is one of the placeholder types `detail::T1 .. detail::T6` that fill
 * the unused parameter slots of a variant.
 */
module TypeList {
  import opened Basics

  /** A type as the metafunctions see it. */
  datatype TypeDesc =
    | Real(name: string, size: nat, align: nat)   // a user alternative: sizeof and alignof
    | Placeholder(slot: nat)                      // detail::T<slot>, an empty struct TX<S<slot>>

  /** sizeof(T); a placeholder is an empty struct, of size 1. */
  function SizeOf(t: TypeDesc): nat {
    match t
    case Real(_, size, _) => size
    case Placeholder(_) => 1
  }

  /** alignof(T); a placeholder is an empty struct, aligned to 1. */
  function AlignOf(t: TypeDesc): nat {
    match t
    case Real(_, _, align) => align
    case Placeholder(_) => 1
  }

  /** What C++ guarantees of every complete object type: a positive size that is a
      multiple of its positive alignment. */
  predicate WellFormedType(t: TypeDesc) {
    SizeOf(t) >= 1 && AlignOf(t) >= 1 && SizeOf(t) % AlignOf(t) == 0
  }

  predicate Distinct(list: seq<TypeDesc>) {
    forall i, j :: 0 <= i < j < |list| ==> list[i] != list[j]
  }

  /** typelist_max<List>::value: the largest sizeof in the list, 0 for nulltype. */
  function MaxSize(list: seq<TypeDesc>): (r: nat)
    ensures forall i :: 0 <= i < |list| ==> SizeOf(list[i]) <= r
    ensures |list| == 0 ==> r == 0
    ensures |list| > 0 ==> exists i :: 0 <= i < |list| && SizeOf(list[i]) == r
  {
    if |list| == 0 then 0
    else
      var tail := MaxSize(list[1..]);
      assert forall i :: 1 <= i < |list| ==> list[i] == list[1..][i - 1];
      if SizeOf(list[0]) > tail then SizeOf(list[0]) else tail
  }

  /** typelist_max<List>::type: the element of largest size (`void`, here None, for
      nulltype). The head wins only when it is strictly larger than the tail's maximum,
      so of several elements of maximal size the LAST one is chosen. */
  function MaxType(list: seq<TypeDesc>): (r: Option<TypeDesc>)
    ensures r.None? <==> MaxSize(list) == 0
    ensures r.Some? ==> exists k :: 0 <= k < |list| && list[k] == r.value
                                 && SizeOf(list[k]) == MaxSize(list)
                                 && forall j :: k < j < |list| ==> SizeOf(list[j]) < MaxSize(list)
  {
    if |list| == 0 then None
    else
      var tail := MaxType(list[1..]);
      assert forall i :: 1 <= i < |list| ==> list[i] == list[1..][i - 1];
      if SizeOf(list[0]) > MaxSize(list[1..]) then Some(list[0]) else tail
  }

  /** typelist_max_alignof<List>::value: the largest alignof in the list, 0 for nulltype. */
  function MaxAlign(list: seq<TypeDesc>): (r: nat)
    ensures forall i :: 0 <= i < |list| ==> AlignOf(list[i]) <= r
    ensures |list| == 0 ==> r == 0
    ensures |list| > 0 ==> exists i :: 0 <= i < |list| && AlignOf(list[i]) == r
  {
    if |list| == 0 then 0
    else
      var tail := MaxAlign(list[1..]);
      assert forall i :: 1 <= i < |list| ==> list[i] == list[1..][i - 1];
      if AlignOf(list[0]) > tail then AlignOf(list[0]) else tail
  }

  /** typelist_size<T> for a type that is not a list: 1, except 0 for a placeholder. */
  function SlotSize(t: TypeDesc): nat {
    if t.Placeholder? then 0 else 1
  }

  /** typelist_size<List>::value: the number of entries that are not placeholders. */
  function Size(list: seq<TypeDesc>): (r: nat)
    ensures r <= |list|
    ensures r == |list| <==> forall i :: 0 <= i < |list| ==> list[i].Real?
    ensures r == 0 <==> forall i :: 0 <= i < |list| ==> list[i].Placeholder?
  {
    if |list| == 0 then 0
    else
      assert forall i :: 1 <= i < |list| ==> list[i] == list[1..][i - 1];
      SlotSize(list[0]) + Size(list[1..])
  }

  /** typelist_index_of<List, T>::value: the position of the first element equal to T,
      or -1 when T does not occur. */
  function IndexOf(list: seq<TypeDesc>, t: TypeDesc): (r: int)
    ensures -1 <= r < |list|
    ensures r == -1 <==> t !in list
    ensures 0 <= r ==> list[r] == t && forall j :: 0 <= j < r ==> list[j] != t
  {
    if |list| == 0 then -1
    else if list[0] == t then 0
    else
      var next := IndexOf(list[1..], t);
      assert forall i :: 1 <= i < |list| ==> list[i] == list[1..][i - 1];
      if next == -1 then -1 else 1 + next
  }

  /** typelist_type_at<List, i>::type: the recursion walks i steps down the list.
      An index past the end has no specialisation (a compile error), hence the requires. */
  function TypeAt(list: seq<TypeDesc>, i: nat): (r: TypeDesc)
    requires i < |list|
    ensures r == list[i]
  {
    if i == 0 then list[0] else TypeAt(list[1..], i - 1)
  }

  /** `TypeAt` undoes `IndexOf` for every type in the list. */
  lemma TypeAtIndexOf(list: seq<TypeDesc>, t: TypeDesc)
    requires t in list
    ensures 0 <= IndexOf(list, t) && TypeAt(list, IndexOf(list, t)) == t
  {
  }

  /** On a list without repeated types, `IndexOf` undoes `TypeAt`. */
  lemma IndexOfTypeAt(list: seq<TypeDesc>, i: nat)
    requires Distinct(list) && i < |list|
    ensures IndexOf(list, TypeAt(list, i)) == i
  {
  }

  /** typelist_size adds up over concatenation. */
  lemma {:induction false} SizeAppend(a: seq<TypeDesc>, b: seq<TypeDesc>)
    ensures Size(a + b) == Size(a) + Size(b)
  {
    if |a| > 0 {
      assert (a + b)[0] == a[0] && (a + b)[1..] == a[1..] + b;
      SizeAppend(a[1..], b);
    } else {
      assert a + b == b;
    }
  }

  /** The placeholder slots detail::T<lo> .. detail::T<hi - 1>. */
  function Placeholders(lo: nat, hi: nat): (r: seq<TypeDesc>)
    ensures |r| == if lo <= hi then hi - lo else 0
    ensures forall k :: 0 <= k < |r| ==> r[k] == Placeholder(lo + k)
    decreases hi - lo
  {
    if lo >= hi then [] else [Placeholder(lo)] + Placeholders(lo + 1, hi)
  }

  /** The parameter list of `variant<T0, .., Tm-1>` with n parameter slots: the m types
      the user names, then the default arguments detail::Tm .. detail::T<n-1>. */
  function Instantiate(reals: seq<TypeDesc>, n: nat): (r: seq<TypeDesc>)
    requires |reals| <= n
    ensures |r| == n && r[..|reals|] == reals
    ensures forall k :: |reals| <= k < n ==> r[k] == Placeholder(k)
  {
    reals + Placeholders(|reals|, n)
  }

  /** variant_size of an instantiation counts exactly the types the user named. */
  lemma InstantiateSize(reals: seq<TypeDesc>, n: nat)
    requires |reals| <= n
    requires forall i :: 0 <= i < |reals| ==> reals[i].Real?
    ensures Size(Instantiate(reals, n)) == |reals|
  {
    SizeAppend(reals, Placeholders(|reals|, n));
  }
}
