# variant-lite in Dafny

This project models variant-lite. That library is a C++98/C++11 tagged union, `nonstd::variant<T0, ..., Tn-1>`, for compilers without `std::variant`. A variant is a raw storage block big enough for its largest alternative, plus a `signed char` tag `type_index`:
- 0..n-1 names the live alternative.
- -1 means "valueless by exception".

The model covers three layers of the library.

- **Type-list metafunctions** (`typelist.dfy`, `layout.dfy`). The recursive templates `typelist_max`, `typelist_max_alignof`, `typelist_size`, `typelist_index_of`, `typelist_type_at`, `alignment_of` and `type_of_size` become recursive functions over a `seq<TypeDesc>`. A `TypeDesc` is either a real type, with its `sizeof` and `alignof`, or a placeholder `detail::T<k>`. The pre-C++11 storage block (an array of a POD type chosen by alignment) is modelled too.
- **The variant state machine.** `variant.dfy` models the current design, which is generated for any number of parameter slots. `variant_seven.dfy` models the older generated 7-slot header. Each is a class with fields `types`, `tag` and `data`. Each operation performs the source's own sequence of destroy, set-tag-to--1, build and set-tag steps. A constructor that may throw is a boolean parameter of the operation. A ghost log `destroyed` records which alternative objects had their destructor run. Alternative objects carry a value and a trace of how they were built, as the tracer type of the test suite does. This lets the model state that an object was copy-constructed rather than copy-assigned.
- **Observers** (`core.dfy`). `index`, `valueless_by_exception`, `index_of`, `holds_alternative`, member and free `get`, `get_if`, single-variant `visit` and the relational operators. They read a snapshot `Snap(types, tag, data)` of a variant, and both classes share them. The same file holds the `detail::helper` steps (`destroy`, `copy`, `move`, `construct_t`, `construct_i`) and the signed-char/`size_t` conversions. `monostate.dfy` holds `monostate` and its operators. `hash.dfy` holds the byte fold `detail::hash`.

Where the two headers agree, rows cite the current design, `template/variant.hpp`. Its code for these observers is the same as that of `include/nonstd/variant.hpp`.

Assignment between variants that hold the same alternative does not call that alternative's assignment operator, as `std::variant`'s would. The code (template/variant.hpp:1129-1132) copy- or move-constructs the new value over the live object, with no destructor call in between. The test suite expects exactly that: test/variant.t.cpp:145-146 checks for `copy_constructed` after a copy assignment. `Variant.Variant.CopyAssign` and `Variant.Variant.MoveAssign` state that the object is rebuilt and that `destroyed` does not grow.

Member `get<T>` carries a defect (see "## Findings"). Everything that reaches a value through it (free `get`, `get_if`, `visit`, `swap_value`, `swap` and the relational operators) takes a `GetRule` parameter. Under `AsWritten` the observer behaves as the code does. Under `Corrected` it behaves as intended. `VariantCore.AccessRulesAgree` and `VariantCore.OperatorRulesAgree` prove that the two readings differ only where the as-written test misfires.

## Model

| member | source | states |
|---|---|---|
| TypeList.MaxSize | template/variant.hpp:432-454 | typelist_max::value is at least the size of every element and equal to one of them; it is 0 for the empty list |
| TypeList.MaxType | template/variant.hpp:432-454 | typelist_max::type is `void` exactly when the maximum is 0; otherwise it is an element of maximal size, the last such one |
| TypeList.MaxAlign | template/variant.hpp:460-477 | typelist_max_alignof is at least every alignment and equal to one of them; it is 0 for the empty list |
| TypeList.Size | template/variant.hpp:483-499 | typelist_size is at most the length, equals it iff no element is a placeholder, and is 0 iff all are placeholders |
| TypeList.IndexOf | template/variant.hpp:503-525 | typelist_index_of is -1 iff T is absent; otherwise it is the position of the first element equal to T |
| TypeList.TypeAt | template/variant.hpp:529-542 | typelist_type_at<i> is the i-th element |
| TypeList.TypeAtIndexOf | template/variant.hpp:503-542 | type_at(index_of(T)) == T for every T in the list |
| TypeList.IndexOfTypeAt | template/variant.hpp:503-542 | on a list without repeats, index_of(type_at(i)) == i |
| TypeList.SizeAppend | template/variant.hpp:483-499 | typelist_size adds up over concatenation |
| TypeList.Placeholders | template/variant.hpp:417-419 | the default arguments `detail::T<lo>..T<hi-1>` of the unused slots |
| TypeList.Instantiate | template/variant.hpp:869-876 | the parameter list of a variant naming m types in n slots: those m types, then placeholders m..n-1 |
| TypeList.InstantiateSize | template/variant.hpp:807-814 | variant_size of an instantiation is the number of types named |
| VariantSeven.VariantSize | include/nonstd/variant.hpp:697-704 | variant_size of the 7-slot variant is 1..7 for 1..7 named types |
| Layout.RoundUp | template/variant.hpp:614-620 | the offset rule the `alignment_of_hack` struct relies on: the least multiple of the alignment not below x |
| Layout.HackSize | template/variant.hpp:614-620 | sizeof(alignment_of_hack<T>) is at least sizeof(T) |
| Layout.AlignmentOf | template/variant.hpp:622-633 | alignment_of<T> is at least 1 and at most sizeof(T) |
| Layout.AlignmentOfIsAlignof | template/variant.hpp:622-633 | alignment_of<T> (min of hack padding and size) equals the true alignment of every well-formed type |
| Layout.TypeOfSize | template/variant.hpp:635-648 | type_of_size is a type of the list with size N and no earlier type has size N; it is the fallback type when no type has size N |
| Layout.TypeOfSizeAt | template/variant.hpp:635-643 | when position k holds the first type of size N, type_of_size is that type |
| Layout.AlignmentTypesPick | template/variant.hpp:650-683 | for N in 1, 2, 4, 8, 16, type_of_size<alignment_types, N> has alignment N |
| Layout.AlignmentTypesFirst1 | template/variant.hpp:650-683 | type_of_size<alignment_types, 1> is `char` |
| Layout.AlignmentTypesFirst2 | template/variant.hpp:650-683 | type_of_size<alignment_types, 2> is `short` |
| Layout.AlignmentTypesFirst4 | template/variant.hpp:650-683 | type_of_size<alignment_types, 4> is `int` |
| Layout.AlignmentTypesFirst8 | template/variant.hpp:650-683 | type_of_size<alignment_types, 8> is `long` |
| Layout.AlignmentTypesFirst16 | template/variant.hpp:650-683 | type_of_size<alignment_types, 16> is `long double` |
| Layout.AlignmentTypesMiss | template/variant.hpp:644-648 | for any other N, no type of alignment_types has size N, so type_of_size is the fallback `double` |
| Layout.AlignmentTypes | template/variant.hpp:650-683 | every type of alignment_types has a positive size |
| Layout.StorageLength | template/variant.hpp:1244 | `1 + (data_size - 1) / unit` elements cover data_size bytes, and one fewer would not |
| Layout.FallbackAlignType | template/variant.hpp:1240-1242 | align_as_type is variant_ALIGN_AS(max_type) (defined at lines 607-608): type_of_size of the true alignment of the largest alternative |
| Layout.FallbackStorageAlign | template/variant.hpp:1242-1244 | the storage union is aligned to alignof(max_type) when that is 1, 2, 4, 8 or 16, and to alignof(double) otherwise |
| Layout.FallbackStorageBytes | template/variant.hpp:1240-1245 | the pre-C++11 storage block holds at least sizeof of every alternative |
| Layout.FallbackStorageUnderaligned | template/variant.hpp:1240-1245 | as written, the block for {struct of 16 chars, double} is aligned to 1, below alignof(double) |
| Layout.StorageAlign | template/variant.hpp:1227 | data_align is at least the alignment of every alternative and equal to one of them |
| Hash.Hash | template/variant.hpp:689-705 | the loop computes the left fold from 37 of `h*54059 ^ byte*76963` in 32-bit arithmetic; the result is below 2^32 and is 37 for no bytes |
| Hash.FoldAppend | template/variant.hpp:700-703 | hashing a concatenation continues from the hash of the first part |
| Hash.FoldSnoc | template/variant.hpp:700-703 | one more byte is one more round of the loop body |
| Hash.FoldIsDigest | template/variant.hpp:689-705 | the front-first fold agrees with the last-round-last reading of the loop |
| Monostate.Less | template/variant.hpp:798 | monostate < monostate is false |
| Monostate.Greater | template/variant.hpp:799 | > is < with its arguments swapped |
| Monostate.Equal | template/variant.hpp:802 | == holds exactly when the values are equal, which all monostates are |
| Monostate.NotEqual | template/variant.hpp:803 | != is the negation of == |
| Monostate.LessEq | template/variant.hpp:800 | <= is < or == |
| Monostate.GreaterEq | template/variant.hpp:801 | >= is > or == |
| Monostate.Hash | template/variant.hpp:1451-1458 | std::hash<monostate> is 42, so equal monostates hash alike |
| VariantCore.ToSizeT | template/variant.hpp:851 | conversion to size_t keeps representable values and sends -1 to variant_npos |
| VariantCore.ToIndexT | template/variant.hpp:729-732 | to_index_t keeps indices below 128 and sends variant_npos to -1 |
| VariantCore.IndexTRoundTrip | template/variant.hpp:729-732 | widening a tag to size_t and narrowing it back gives the same tag |
| VariantCore.Index | template/variant.hpp:970-973 | index() is variant_npos iff no object is live; otherwise it is the tag, which names an alternative |
| VariantCore.ValuelessByException | template/variant.hpp:975-978 | valueless_by_exception() holds iff no object is live, iff index() is variant_npos |
| VariantCore.IndexOfType | template/variant.hpp:1037-1041 | index_of<T>() is variant_npos iff T is absent, and otherwise the position of T |
| VariantCore.HoldsAlternative | template/variant.hpp:1254-1258 | holds_alternative<T> holds iff the live alternative is T, or the variant is valueless and T is absent |
| VariantCore.MemberGetAsWritten | template/variant.hpp:1043-1053 | as written, get<T> hands out the live object iff it is a T whose index differs from data_size. It yields a reference into empty storage iff the variant is valueless and T is absent. It never yields null |
| VariantCore.MemberGetRejectsHeldAlternative | template/variant.hpp:1043-1053 | variant<char, bool> holding a bool: as written, get<bool>, get<1>, get_if<1> and `v == v` throw; the corrected get<bool> and get<1> return the bool |
| VariantCore.MemberGetAsWrittenDiffers | template/variant.hpp:1043-1053 | the as-written and corrected get differ only where the index equals data_size, or T is absent on a valueless variant |
| VariantCore.MemberGet | template/variant.hpp:1043-1081 | get<T>/get<I> (corrected) hand out the live object iff the variant holds a T, and throw otherwise |
| VariantCore.GetAt | template/variant.hpp:1272-1294 | free get<I> hands out the live object iff index() == I and, as written, I is not data_size; it throws otherwise |
| VariantCore.GetType | template/variant.hpp:1260-1270 | free get<T> is never null. It hands out the live object iff holds_alternative<T>, T is in the list and, as written, T's index is not data_size. As written, it yields a reference into empty storage iff the variant is valueless and T is absent. It throws otherwise |
| VariantCore.GetIf | template/variant.hpp:1296-1308 | get_if<T> is null iff holds_alternative<T> is false. It points to the live object iff the variant holds a T and, as written, T's index is not data_size. As written, it yields an empty-storage reference for an absent T on a valueless variant. It throws exactly in the remaining cases |
| VariantCore.GetIfAt | template/variant.hpp:1310-1322 | get_if<I> is null iff index() != I. Otherwise it points to the live object, except that, as written, it throws when I is data_size |
| VariantCore.FromAlt | template/variant.hpp:889 | a visitor's result becomes a variant holding that alternative, built by move |
| VariantCore.Visit | template/variant.hpp:1338-1353 | visit throws iff the variant is valueless or, as written, its index is data_size; otherwise it returns the visitor's result on the live alternative |
| VariantCore.Comparator | template/variant.hpp:1357-1381 | Comparator::equal and less_than apply the alternative's == or < to the live values and give false for a valueless v. They throw iff v is live and w holds another alternative or, as written, v's index is data_size |
| VariantCore.Equal | template/variant.hpp:1385-1393 | == throws iff, as written, both sides are live at index data_size. Otherwise it is true iff the indices are equal and either both are valueless or the values are == |
| VariantCore.NotEqual | template/variant.hpp:1395-1401 | != throws where == does. Otherwise it is true iff the indices differ or the live values are not == |
| VariantCore.Less | template/variant.hpp:1403-1413 | < throws where == does. Otherwise it is false when w is valueless and true when only v is. A lower index is less, and equal indices compare values with < |
| VariantCore.Greater | template/variant.hpp:1415-1421 | > throws where == does; otherwise it is the same order with the arguments exchanged |
| VariantCore.LessEq | template/variant.hpp:1423-1429 | <= throws where == does. Otherwise it is true iff v is valueless, or w is live and v's index is lower, or the indices are equal and not w < v |
| VariantCore.GreaterEq | template/variant.hpp:1431-1437 | >= throws where == does; otherwise it is <= with the arguments exchanged |
| VariantCore.AccessRulesAgree | template/variant.hpp:1260-1353 | the as-written get<I>, get_if<I> and visit agree with the corrected ones unless the index is data_size. get<T> and get_if<T> also differ for an absent T on a valueless variant |
| VariantCore.OperatorRulesAgree | template/variant.hpp:1385-1437 | under the corrected get the six operators never throw; as written, they agree with the corrected ones unless both sides are live at index data_size |
| VariantCore.ValuelessIsLeast | template/variant.hpp:1385-1413 | under either reading of get, a valueless variant equals another valueless one and is below every other variant, without throwing |
| VariantCore.EqualIsEquivalence | template/variant.hpp:1385-1393 | when == is an equivalence on every alternative, `u == u` is true (or throws, as written, at index data_size). Symmetry and transitivity hold of every comparison that yields true |
| VariantCore.LessIsStrictOrder | template/variant.hpp:1403-1413 | when < is a strict order on every alternative, `u < u` is false (or throws, as written, at index data_size). < is transitive on comparisons that yield true |
| VariantCore.DerivedOperators | template/variant.hpp:1395-1437 | with trichotomous alternatives, exactly one of <, ==, > yields true unless the comparison throws, and !=, <=, >= yield true exactly as their names say |
| VariantCore.HelperDestroy | template/variant.hpp:734-742 | destroy ends the live object of a real index and nothing for variant_npos |
| VariantCore.HelperCopy | template/variant.hpp:775-784 | copy builds a copy and returns the source index as tag; for variant_npos it builds nothing and returns -1 |
| VariantCore.HelperMove | template/variant.hpp:763-772 | move builds by move and returns the source index as tag; for variant_npos it builds nothing and returns -1 |
| VariantCore.AfterMoveFrom | template/variant.hpp:763-772 | a move leaves its source object moved-from |
| VariantCore.ConstructT | template/variant.hpp:745-751 | construct_t<T> builds the object and returns T's index, or -1 for an absent T |
| VariantCore.ConstructI | template/variant.hpp:753-761 | construct_i<I> builds the object and returns I |
| VariantCore.ConstructIIsConstructT | template/variant.hpp:745-761 | on a list without repeats, construct_i<I> and construct_t<type_at<I>> agree |
| Variant.Variant.Default | template/variant.hpp:881 | the default constructor gives tag 0 over a default-constructed T0 |
| Variant.Variant.FromValue | template/variant.hpp:884-891 | construction from a Ti gives tag i over a copy or a move of it |
| Variant.Variant.Copy | template/variant.hpp:893-897 | a copy has the source's tag and value; a valueless source gives a valueless copy |
| Variant.Variant.Move | template/variant.hpp:901-905 | a move has the source's tag and value; the source is left moved-from |
| Variant.Variant.InPlaceType | template/variant.hpp:910-916 | in_place_type<T> construction ends with the tag of T |
| Variant.Variant.InPlaceIndex | template/variant.hpp:926-932 | in_place_index<I> construction ends with tag I |
| Variant.Variant.Destroy | template/variant.hpp:944-947 | the destructor ends exactly the live object |
| Variant.Variant.CopyAssign | template/variant.hpp:1118-1147 | all four cases. A failing temporary copy leaves lhs unchanged; a failing build leaves it valueless. Equal indices rebuild over the live object without destroying it. A different index builds from the temporary by move (C++11) or by copy (before). `v = v` on a live variant takes the equal-index case |
| Variant.Variant.MoveAssign | template/variant.hpp:1151-1173 | the same four cases with a move from rhs, which is left moved-from |
| Variant.Variant.AssignValue | template/variant.hpp:1175-1207 | same index: the alternative's own assignment, tag unchanged. Otherwise: destroy, then valueless on failure, or tag I over the new object |
| Variant.Variant.EmplaceType | template/variant.hpp:981-987 | emplace<T> destroys, then ends with index_of<T>, or valueless on failure |
| Variant.Variant.EmplaceIndex | template/variant.hpp:999-1004 | emplace<I> ends with index I, or valueless on failure |
| Variant.Variant.SwapValue | template/variant.hpp:1211-1220 | swap_value exchanges the two values of the same alternative and keeps the tags. As written, when the index is data_size, get throws bad_variant_access before anything changes |
| Variant.Variant.Swap | template/variant.hpp:1015-1031 | swap exchanges indices and values in all three cases, self-swap included. As written, equal indices at data_size change nothing: since C++11 the program terminates (swap is `noexcept`); before C++11 swap throws bad_variant_access. On different indices each side's log gains the object it held |
| Variant.SwapVariants | template/variant.hpp:1324-1330 | the free swap exchanges indices and values, or terminates or throws exactly as member swap does; the destroyed logs are those of member swap |
| Variant.SwapTwice | template/variant.hpp:1015-1031 | swapping twice restores both variants unless the first swap terminates or throws |
| VariantSeven.VariantSeven.Default | include/nonstd/variant.hpp:772 | the default constructor gives tag 0 |
| VariantSeven.VariantSeven.FromValue | include/nonstd/variant.hpp:774-789 | construction from a Tn gives tag n |
| VariantSeven.VariantSeven.Copy | include/nonstd/variant.hpp:792-796 | a copy has the source's tag and value |
| VariantSeven.VariantSeven.Move | include/nonstd/variant.hpp:800-804 | a move has the source's tag and value; the source is left moved-from |
| VariantSeven.VariantSeven.InPlaceType | include/nonstd/variant.hpp:806-811 | in_place_type<T> construction ends with the tag of T |
| VariantSeven.VariantSeven.InPlaceIndex | include/nonstd/variant.hpp:817-822 | in_place_index<I> construction ends with tag I |
| VariantSeven.VariantSeven.Destroy | include/nonstd/variant.hpp:830-833 | the destructor ends exactly the live object |
| VariantSeven.VariantSeven.CopyAssign | include/nonstd/variant.hpp:964-969 | always destroys, sets -1, then copies: lhs ends with rhs's index (valueless if rhs is) or valueless on failure. `v = v` ends valueless |
| VariantSeven.VariantSeven.CopyAssignChecked | include/nonstd/variant.hpp:964-969 | assignment as intended: `v = w` gives v the index and value of w, also when w is v; it can throw only for a different w, and then leaves v valueless |
| VariantSeven.SelfCopyAssign | include/nonstd/variant.hpp:964-969 | as written, `v = v` on a variant holding a value destroys that value and leaves v valueless, without throwing |
| VariantSeven.VariantSeven.MoveAssign | include/nonstd/variant.hpp:972-977 | the same with a move; rhs is left moved-from; moving a variant into itself ends valueless |
| VariantSeven.VariantSeven.EmplaceType | include/nonstd/variant.hpp:860-866 | emplace<T> destroys, sets -1, and ends with index_of<T>, or valueless on failure |
| VariantSeven.VariantSeven.EmplaceIndex | include/nonstd/variant.hpp:872-878 | emplace<I> destroys, sets -1, and ends with index I, or valueless on failure |
| VariantSeven.VariantSeven.Swap | include/nonstd/variant.hpp:886-891 | a temporary copy and two assignments exchange indices and values, also for a self-swap; each side's log gains the object it held |
| VariantSeven.SwapVariants | include/nonstd/variant.hpp:1104-1110 | the free swap, declared for six parameters and so applicable only while the seventh slot is the placeholder, exchanges indices and values; each side's log gains the object it held |
| VariantSeven.SwapTwice | include/nonstd/variant.hpp:886-891 | swapping twice restores both variants |

## Left out

- Raw storage: `reinterpret_cast`, placement new, `aligned_storage`, the `max_align_t` hack and object bytes are not modelled. Storage is a tagged payload; only its size and alignment arithmetic are kept.
- Layout.AlignmentTypes: the sizes and alignments are those of an LP64 target (x86-64 System V). Other targets give other numbers.
- Hash.Hash: hashes an abstract byte sequence. Which bytes make up a variant object, padding included, is not modelled.
- A throwing constructor of the variant itself (default, value, copy, move, in-place) leaves no object behind. The constructors are modelled for the success path only.
- Variant.Variant.CopyAssign: a copy constructor that throws while rebuilding over a live alternative of the same index is not modelled. The source would then leave the tag naming a half-built object.
- Variant.Variant.MoveAssign: the same for a throwing move constructor in the same-index case.
- Variant.Variant.AssignValue: a throwing assignment operator of the alternative itself, in the same-index case, is not modelled.
- Variant.Variant.Swap: `variant_noexcept` makes swap `noexcept` since C++11, so an exception inside it ends the program; before C++11 the exception leaves swap. The `terminates` and `thrown` results cover the as-written get throwing. A copy constructor throwing inside swap is not modelled; those steps are taken to succeed.
- VariantSeven.VariantSeven.Swap: swap is `variant_noexcept` too. Its copies are taken to succeed, so neither outcome of a throw is modelled.
- Variant.Variant.CopyAssign: `v = v` on a live variant copy-constructs the object onto its own storage from itself, since the code has no self-assignment test. The model takes that copy constructor to keep the value, as the test suite's tracer `S` copies its `value` member. An alternative whose copy constructor does not survive reading its own storage gets no promise from the source either.
- Variant.Variant.MoveAssign: requires `rhs != this`. A self move-assignment with a value move-constructs the object onto its own storage from itself. What state that leaves depends on the alternative's move constructor, which the model does not fix.
- Variant.Variant.EmplaceType: requires T to be in the list. With an absent T the source compiles and leaves tag -1 over a live object; `VariantCore.ConstructT` states that outcome.
- VariantSeven.VariantSeven.EmplaceType: same as Variant.Variant.EmplaceType.
- Variant.Variant.InPlaceType: same as Variant.Variant.EmplaceType.
- VariantSeven.VariantSeven.InPlaceType: same as Variant.Variant.EmplaceType.
- Parameter lists with a repeated type, or with more than 127 slots, are not modelled. Repeats make the value constructors ambiguous and `index_of` refer to the first copy; more slots would not fit the signed-char tag.
- Emplace and in-place construction take one argument, an `int` payload. Variadic arguments, initializer lists, `std::forward` and the `enable_if` constructibility checks are compile-time matters.
- The alternatives' own `==` and `<` are parameters (`AltRel`). The visitor is a function parameter returning a value of some alternative.
- The older header has no value assignment (`operator=(Tn)`), so there is nothing to model.
- The C++17 passthrough to `std::variant`, the feature-detection macros, the `TX<T>` placeholder operators and the in_place tag-function trick are configuration and type-system workarounds.
- `variant_alternative`, `bad_variant_access::what()` and the `std::hash<variant>` wrapper are type aliases or one-line forwards. They are not modelled separately.

## Findings

| source | as written | input that shows it | evidently intended | confidence | as-written member | corrected member |
|---|---|---|---|---|---|---|
| template/variant.hpp:1048 | member `get<T>` also throws when `index_of<T>() == max_index()`, and `max_index()` is `data_size`, a byte count. The same test sits at include/nonstd/variant.hpp:908. Free `get`, `get_if`, `visit`, `swap_value` and the comparison operators all go through it; each of them is modelled under both rules | `variant<char, bool>` holding a `bool`: its index 1 equals `data_size` 1, so `get<bool>()` throws bad_variant_access | throw only when T is absent, i.e. `index_of<T>() == variant_npos` | high; not executed | VariantCore.MemberGetRejectsHeldAlternative | VariantCore.MemberGet |
| template/variant.hpp:1240-1245 | without C++11 and the max-align hack, the storage array's element type is chosen by `alignment_of<max_type>`, the alignment of the LARGEST alternative only | a struct holding `char b[16]`, and `double`: the struct is the largest type and has alignment 1, so the block is a `char` array while it may hold a `double` | align the block for the most strictly aligned alternative (`typelist_max_alignof`, as the C++11 branch does) | medium; not executed | Layout.FallbackStorageUnderaligned | Layout.StorageAlign |
| include/nonstd/variant.hpp:964-969 | `copy_assign` destroys the live object and sets the tag to -1 before it reads `rhs`; with no self-assignment test, `v = v` then copies from a valueless variant | `v = v` with v holding a value: v ends valueless and its value is destroyed | `v = v` leaves v's index and value unchanged, as assignment of `std::variant` does | medium; not executed | VariantSeven.SelfCopyAssign | VariantSeven.VariantSeven.CopyAssignChecked |
