/**
 * How variant-lite sizes and aligns the raw storage block of a variant.
 *
 * With C++11 the block is `aligned_storage<data_size, data_align>` where `data_size` is
 * `typelist_max` and `data_align` is `typelist_max_alignof` of the alternatives. Before
 * C++11 (and without a configured alignment type) the block is an array of a POD type
 * `align_as_type`, chosen as the first type of `alignment_types` whose size equals
 * `alignment_of<max_type>`, where `max_type` is the largest alternative; the array has
 * `1 + (data_size - 1) / sizeof(align_as_type)` elements.
 */
module Layout {
  import opened Basics
  import opened TypeList

  /** The least multiple of `a` that is at least `x`: where the next member of a struct
      aligned to `a` goes after `x` bytes. */
  function RoundUp(x: nat, a: nat): (r: nat)
    requires a >= 1
    ensures x <= r < x + a && r % a == 0
  {
    var q, m := x / a, x % a;
    assert x == q * a + m;
    if m == 0 then x
    else
      assert (q + 1) * a == q * a + a;
      ModUnique((q + 1) * a, q + 1, 0, a);
      (q + 1) * a
  }

  lemma MulAtLeast(c: int, a: int)
    requires c >= 1 && a >= 1
    ensures c * a >= a
  {
  }

  /** A non-zero multiple of `a` is at least `a` away from zero. */
  lemma MulSign(c: int, a: int)
    requires a >= 1
    ensures c >= 1 ==> c * a >= a
    ensures c <= -1 ==> c * a <= -a
  {
    if c >= 1 {
      MulAtLeast(c, a);
    } else if c <= -1 {
      MulAtLeast(-c, a);
      assert (-c) * a == -(c * a);
    }
  }

  /** Quotient and remainder are unique: the basis of the facts below. */
  lemma ModUnique(y: nat, k: nat, m: nat, a: nat)
    requires a >= 1 && m < a && y == k * a + m
    ensures y / a == k && y % a == m
  {
    var d, n := y / a, y % a;
    assert y == d * a + n;
    MulSign(k - d, a);
    assert (k - d) * a == k * a - d * a;
  }

  /** sizeof(alignment_of_hack<T>), the struct `{ char c; T t; }`: `t` sits at the first
      multiple of alignof(T) after the char, and the struct is padded to alignof(T). */
  function HackSize(t: TypeDesc): (r: nat)
    requires WellFormedType(t)
    ensures r >= SizeOf(t) + 1
  {
    var a := AlignOf(t);
    RoundUp(RoundUp(1, a) + SizeOf(t), a)
  }

  /** alignment_of<T>::value = alignment_logic<sizeof(hack) - sizeof(T), sizeof(T)>,
      the smaller of the two. */
  function AlignmentOf(t: TypeDesc): (r: nat)
    requires WellFormedType(t)
    ensures 1 <= r <= SizeOf(t)
  {
    var a := HackSize(t) - SizeOf(t);
    if a < SizeOf(t) then a else SizeOf(t)
  }

  /** The padding trick recovers the true alignment of every well-formed type. */
  lemma AlignmentOfIsAlignof(t: TypeDesc)
    requires WellFormedType(t)
    ensures AlignmentOf(t) == AlignOf(t)
  {
    var a, s := AlignOf(t), SizeOf(t);
    assert RoundUp(1, a) == a by {
      if a > 1 { ModUnique(1, 0, 1, a); }
    }
    assert (a + s) % a == 0 by {
      ModAddMultiple(s, a);
    }
    assert HackSize(t) == a + s;
    assert a <= s by {
      if s < a { ModUnique(s, 0, s, a); }
    }
  }

  /** Adding the modulus does not change the remainder. */
  lemma ModAddMultiple(s: nat, a: nat)
    requires a >= 1
    ensures (a + s) % a == s % a
  {
    DivBounds(s, a);
    ModUnique(a + s, s / a + 1, s % a, a);
  }

  /** type_of_size<List, N>::type: the first type of the list whose size is N, or the
      fallback type (variant_CONFIG_ALIGN_AS_FALLBACK) when there is none. */
  function TypeOfSize(list: seq<TypeDesc>, n: nat, fallback: TypeDesc): (r: TypeDesc)
    ensures (forall i :: 0 <= i < |list| ==> SizeOf(list[i]) != n) ==> r == fallback
    ensures (exists i :: 0 <= i < |list| && SizeOf(list[i]) == n) ==>
              exists k :: 0 <= k < |list| && r == list[k] && SizeOf(list[k]) == n
                          && forall j :: 0 <= j < k ==> SizeOf(list[j]) != n
  {
    if |list| == 0 then fallback
    else if n == SizeOf(list[0]) then list[0]
    else
      assert forall i :: 1 <= i < |list| ==> list[i] == list[1..][i - 1];
      TypeOfSize(list[1..], n, fallback)
  }

  /** variant_CONFIG_ALIGN_AS_FALLBACK, `double` by default. */
  const AlignFallback: TypeDesc := Real("double", 8, 8)

  /** detail::alignment_types: each type followed by `struct_t<type>` around it, with
      the sizes and alignments of an LP64 target (x86-64 System V); other targets give
      other numbers. */
  function AlignmentTypes(): (r: seq<TypeDesc>)
    ensures forall i :: 0 <= i < |r| ==> SizeOf(r[i]) >= 1
  {
    [
      Real("char", 1, 1), Real("struct_t<char>", 1, 1),
      Real("short", 2, 2), Real("struct_t<short>", 2, 2),
      Real("int", 4, 4), Real("struct_t<int>", 4, 4),
      Real("long", 8, 8), Real("struct_t<long>", 8, 8),
      Real("float", 4, 4), Real("struct_t<float>", 4, 4),
      Real("double", 8, 8), Real("struct_t<double>", 8, 8),
      Real("long double", 16, 16), Real("struct_t<long double>", 16, 16),
      Real("char *", 8, 8), Real("struct_t<char *>", 8, 8),
      Real("short *", 8, 8), Real("struct_t<short *>", 8, 8),
      Real("int *", 8, 8), Real("struct_t<int *>", 8, 8),
      Real("long *", 8, 8), Real("struct_t<long *>", 8, 8),
      Real("float *", 8, 8), Real("struct_t<float *>", 8, 8),
      Real("double *", 8, 8), Real("struct_t<double *>", 8, 8),
      Real("long double *", 8, 8), Real("struct_t<long double *>", 8, 8),
      Real("Unknown (*)(Unknown)", 8, 8), Real("struct_t<Unknown (*)(Unknown)>", 8, 8),
      Real("Unknown * Unknown::*", 8, 8), Real("struct_t<Unknown * Unknown::*>", 8, 8),
      Real("Unknown (Unknown::*)(Unknown)", 16, 8), Real("struct_t<Unknown (Unknown::*)(Unknown)>", 16, 8)
    ]
  }

  /** The element count of the fallback storage array, `1 + (data_size - 1) / unit`:
      the fewest elements of `unit` bytes that cover `data_size` bytes. */
  function StorageLength(dataSize: nat, unit: nat): (r: nat)
    requires dataSize >= 1 && unit >= 1
    ensures r >= 1 && r * unit >= dataSize && (r - 1) * unit < dataSize
  {
    DivBounds(dataSize - 1, unit);
    1 + (dataSize - 1) / unit
  }

  /** Euclidean division brackets its dividend. */
  lemma DivBounds(x: nat, u: nat)
    requires u >= 1
    ensures (x / u) * u <= x < (x / u + 1) * u
  {
    var q, r := x / u, x % u;
    assert x == q * u + r && r < u;
    assert (q + 1) * u == q * u + u;
  }

  /** The list of a variant: at least one slot, every type well formed. */
  predicate LayoutList(types: seq<TypeDesc>) {
    |types| >= 1 && forall i :: 0 <= i < |types| ==> WellFormedType(types[i])
  }

  /** variant_ALIGN_AS(max_type): the POD type the pre-C++11 storage is an array of. */
  function FallbackAlignType(types: seq<TypeDesc>): (r: TypeDesc)
    requires LayoutList(types)
    ensures MaxType(types).Some?
    ensures r == TypeOfSize(AlignmentTypes(), AlignOf(MaxType(types).value), AlignFallback)
  {
    assert SizeOf(types[0]) >= 1;
    var maxType := MaxType(types).value;
    assert maxType in types;
    AlignmentOfIsAlignof(maxType);
    TypeOfSize(AlignmentTypes(), AlignmentOf(maxType), AlignFallback)
  }

  /** The number of bytes of the pre-C++11 storage block: always enough for the
      largest alternative. */
  function FallbackStorageBytes(types: seq<TypeDesc>): (r: nat)
    requires LayoutList(types)
    ensures forall i :: 0 <= i < |types| ==> SizeOf(types[i]) <= r
  {
    var unit := FallbackAlignType(types);
    assert SizeOf(types[0]) >= 1;
    StorageLength(MaxSize(types), SizeOf(unit)) * SizeOf(unit)
  }

  /** The alignment of the pre-C++11 storage block, AS WRITTEN: that of a POD type
      whose size is the alignment of the LARGEST alternative only. */
  function FallbackStorageAlign(types: seq<TypeDesc>): (r: nat)
    requires LayoutList(types)
    ensures MaxType(types).Some?
    ensures var a := AlignOf(MaxType(types).value);
            (a == 1 || a == 2 || a == 4 || a == 8 || a == 16) ==> r == a
    ensures var a := AlignOf(MaxType(types).value);
            !(a == 1 || a == 2 || a == 4 || a == 8 || a == 16) ==> r == AlignOf(AlignFallback)
  {
    var unit := FallbackAlignType(types);
    var a := AlignOf(MaxType(types).value);
    if a == 1 || a == 2 || a == 4 || a == 8 || a == 16 then
      AlignmentTypesPick(AlignmentTypes(), a);
      AlignOf(unit)
    else
      AlignmentTypesMiss(AlignmentTypes(), a);
      AlignOf(unit)
  }

  /** type_of_size yields the element at the first position whose size is N. */
  lemma {:induction false} TypeOfSizeAt(list: seq<TypeDesc>, n: nat, fallback: TypeDesc, k: nat)
    requires k < |list| && SizeOf(list[k]) == n
    requires forall j :: 0 <= j < k ==> SizeOf(list[j]) != n
    ensures TypeOfSize(list, n, fallback) == list[k]
    decreases k
  {
    if k > 0 {
      assert forall j :: 0 <= j < k - 1 ==> list[1..][j] == list[j + 1];
      TypeOfSizeAt(list[1..], n, fallback, k - 1);
    }
  }

  /** For 1, 2, 4, 8 and 16, type_of_size picks from alignment_types `char`, `short`,
      `int`, `long` or `long double`, whose alignment equals their size; the 16-byte
      member-function pointer, aligned to 8, comes later in the list. */
  lemma AlignmentTypesPick(list: seq<TypeDesc>, n: nat)
    requires list == AlignmentTypes()
    requires n == 1 || n == 2 || n == 4 || n == 8 || n == 16
    ensures AlignOf(TypeOfSize(list, n, AlignFallback)) == n
  {
    if n == 1 {
      AlignmentTypesFirst1(list, n);
    } else if n == 2 {
      AlignmentTypesFirst2(list, n);
    } else if n == 4 {
      AlignmentTypesFirst4(list, n);
    } else if n == 8 {
      AlignmentTypesFirst8(list, n);
    } else {
      AlignmentTypesFirst16(list, n);
    }
  }

  /** type_of_size<alignment_types, 1> is `char`, at position 0. */
  lemma AlignmentTypesFirst1(list: seq<TypeDesc>, n: nat)
    requires list == AlignmentTypes() && n == 1
    ensures TypeOfSize(list, n, AlignFallback) == Real("char", n, n)
  {
    TypeOfSizeAt(list, n, AlignFallback, 0);
  }

  /** type_of_size<alignment_types, 2> is `short`, at position 2. */
  lemma AlignmentTypesFirst2(list: seq<TypeDesc>, n: nat)
    requires list == AlignmentTypes() && n == 2
    ensures TypeOfSize(list, n, AlignFallback) == Real("short", n, n)
  {
    assert forall j :: 0 <= j < 2 ==> SizeOf(list[j]) != n;
    TypeOfSizeAt(list, n, AlignFallback, 2);
  }

  /** type_of_size<alignment_types, 4> is `int`, at position 4. */
  lemma AlignmentTypesFirst4(list: seq<TypeDesc>, n: nat)
    requires list == AlignmentTypes() && n == 4
    ensures TypeOfSize(list, n, AlignFallback) == Real("int", n, n)
  {
    assert list[4] == Real("int", 4, 4);
    assert forall j :: 0 <= j < 4 ==> SizeOf(list[j]) <= 2;
    TypeOfSizeAt(list, n, AlignFallback, 4);
  }

  /** type_of_size<alignment_types, 8> is `long`, at position 6. */
  lemma AlignmentTypesFirst8(list: seq<TypeDesc>, n: nat)
    requires list == AlignmentTypes() && n == 8
    ensures TypeOfSize(list, n, AlignFallback) == Real("long", n, n)
  {
    assert list[6] == Real("long", 8, 8);
    assert forall j :: 0 <= j < 6 ==> SizeOf(list[j]) <= 4;
    TypeOfSizeAt(list, n, AlignFallback, 6);
  }

  /** type_of_size<alignment_types, 16> is `long double`, at position 12. */
  lemma AlignmentTypesFirst16(list: seq<TypeDesc>, n: nat)
    requires list == AlignmentTypes() && n == 16
    ensures TypeOfSize(list, n, AlignFallback) == Real("long double", n, n)
  {
    assert forall j :: 0 <= j < 12 ==> SizeOf(list[j]) != n;
    TypeOfSizeAt(list, n, AlignFallback, 12);
  }

  /** For every other size, type_of_size falls back: no type of alignment_types has it. */
  lemma AlignmentTypesMiss(list: seq<TypeDesc>, n: nat)
    requires list == AlignmentTypes()
    requires !(n == 1 || n == 2 || n == 4 || n == 8 || n == 16)
    ensures TypeOfSize(list, n, AlignFallback) == AlignFallback
  {
    assert forall i :: 0 <= i < |list| ==> SizeOf(list[i]) != n;
  }

  /** Seven parameter slots holding a struct of 16 chars and a double: the largest
      alternative is the struct, aligned to 1, so the block is an array of `char` and
      is not aligned for the double it may have to hold. */
  lemma FallbackStorageUnderaligned(types: seq<TypeDesc>)
    requires types == Instantiate([Real("struct { char b[16]; }", 16, 1), Real("double", 8, 8)], 7)
    ensures LayoutList(types) && FallbackStorageAlign(types) == 1
            && FallbackStorageAlign(types) < AlignOf(types[1])
  {
    assert forall i :: 2 <= i < 7 ==> types[i] == Placeholder(i);
    assert LayoutList(types);
    assert MaxType(types) == Some(types[0]) by {
      assert MaxSize(types[1..]) == 8 by {
        assert forall i :: 0 <= i < |types[1..]| ==> SizeOf(types[1..][i]) <= 8;
      }
    }
  }

  /** The storage alignment as intended, and as the C++11 branch computes it
      (`data_align = typelist_max_alignof`): suitable for every alternative. */
  function StorageAlign(types: seq<TypeDesc>): (r: nat)
    requires LayoutList(types)
    ensures forall i :: 0 <= i < |types| ==> AlignOf(types[i]) <= r
    ensures exists i :: 0 <= i < |types| && AlignOf(types[i]) == r
  {
    MaxAlign(types)
  }
}
