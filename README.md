# variant: an index-tagged union with visitor dispatch

This project models `variant_storage` / `variant` from the C++ part of the
repository (`src/main/cpp/tox/core/variant.h`). It is a closed sum type built as a
recursive union over a type list. Every level of the union starts with the same
one-byte `tag` slot (`unsigned char`). The level whose head is the `k`-th of `n`
types has a tail of `n - 1 - k` types, and that count is its index. So the head
type gets the largest tag and the last type gets tag 0. The reserved
`invalid_index`, -1 converted to `unsigned char` (255), marks an empty variant.

The model has two modules.

- `Variant` (`variant.dfy`) holds the type-level part:
  - the tag type and the conversion to it (`ToTag`);
  - the static assertion each level makes (`LevelFits`, `TagFits`);
  - the recursion by which a constructor finds the level of a value's type (`IndexOf`);
  - the call of a `variant_visitor` with a value of one alternative's type (`VisitorApply`);
  - the recursion of `dispatch` down the levels to the matching one or to the failing base case (`Dispatch`);
  - the recursion of the copy and move constructors (`CopyStorage`).
- `VariantStorage` (`storage.dfy`) holds the class `Storage`. Its fields are the
  shared `tag` and the `value` storage. Its constructors are default, from a value,
  copy and move. Assignment and `clear` are methods that change the object in
  place. `empty`, `visit` and `operator ()` only read it. `Lifecycle` is an
  example client that drives one variant through these operations.

Modelling choices:

- Alternatives are elements of a sequence `types` of a type-identifier type `Ty`.
  A value "of alternative `t`" is passed as the pair `t`, `x`.
- Dafny has no heterogeneous union, so one payload type `V` stands for the values of every alternative.
- A `variant_visitor` is the sequence of its functions in the order of the type list, as its constructor takes them.
  When it is called with a value of type `t`, the call reaches the function of the first position whose type is `t`.
- A generic visitor passed to `operator ()` is a function `(Ty, V) -> R` that receives the held alternative and its value.

## Model

| member | source | states |
|---|---|---|
| `Variant.ToTag` | src/main/cpp/tox/core/variant.h:58-59 | conversion to the `unsigned char` tag agrees with the integer modulo 256 and keeps every value in 0..255 |
| `Variant.TagFitsBound` | src/main/cpp/tox/core/variant.h:58-62 | `invalid_index` is 255, and the static assertions of all levels hold exactly when there are at most 255 alternatives |
| `Variant.IndexOf` | src/main/cpp/tox/core/variant.h:73-80 | a constructor from a value of type `t` writes a tag below `invalid_index` that names a level whose head is `t`, and no level nearer the head has type `t` |
| `Variant.TagOfAlternative` | src/main/cpp/tox/core/variant.h:58 | the alternative at position `k` of `n`, if it is the first of its type, gets tag `n - 1 - k` |
| `Variant.TagsDistinct` | src/main/cpp/tox/core/variant.h:73-80 | two types of the list get the same tag if and only if they are the same type |
| `Variant.IndexOfNamesFirst` | src/main/cpp/tox/core/variant.h:73-80 | the tag written for a value of type `t` names a level whose head type appears at no position nearer the head |
| `Variant.VisitorApply` | src/main/cpp/tox/core/variant.h:14-33 | calling a `variant_visitor` with a value of type `t` returns the function of the first position of `t` applied to the value, because each level's operator hides the inherited one with the same parameter type |
| `Variant.Dispatch` | src/main/cpp/tox/core/variant.h:167-187 | dispatch over `levels` levels returns a result exactly when the tag is one of their indices; the result is the visitor called with the stored value as a value of the type at position `n - 1 - tag`. Otherwise it reaches the failing base case |
| `Variant.DispatchSelects` | src/main/cpp/tox/core/variant.h:167-174 | on a tag that names the first position of its type, dispatch returns the visitor function of position `n - 1 - tag` applied to the stored value |
| `Variant.DispatchEmptyFails` | src/main/cpp/tox/core/variant.h:185-187 | dispatching on `invalid_index` always reaches the failing base case |
| `Variant.DispatchUsesOnlySelected` | src/main/cpp/tox/core/variant.h:26-29 | visitors that agree on the function of the held type's first position give the same dispatch result, so only that one function is called |
| `Variant.ConstructThenDispatch` | src/main/cpp/tox/core/variant.h:78-80 | dispatching on the tag written for a value `x` of the type at position `k` returns the function of that type's first position applied to `x`, which is position `k` when no earlier position has the type |
| `Variant.CopyStorage` | src/main/cpp/tox/core/variant.h:97-113 | the copy has the source's tag, as asserted at lines 103 and 112; it carries the value exactly when the source holds one, and then it carries the source's value |
| `Variant.CopyTagAsWritten` | src/main/cpp/tox/core/variant.h:106-113 | as the copy constructor is written, a tag is written exactly when the source's tag names a level, and it is the source's tag |
| `Variant.EmptyCopyTagUnwritten` | src/main/cpp/tox/core/variant.h:106-113 | as written, copying an empty variant writes no tag at any level |
| `VariantStorage.Storage.Default` | src/main/cpp/tox/core/variant.h:92-95 | a default-constructed variant is valid and empty and holds no alternative |
| `VariantStorage.Storage.FromValue` | src/main/cpp/tox/core/variant.h:73-80 | construction from `x` of alternative `t` gives tag `IndexOf(types, t)` and value `x`; the result is non-empty and holds `t` |
| `VariantStorage.Storage.Copy` | src/main/cpp/tox/core/variant.h:106-113 | the copy has the source's tag and alternative, and its value when the source is non-empty; the source is unchanged |
| `VariantStorage.Storage.Move` | src/main/cpp/tox/core/variant.h:97-104 | the new variant has the source's former tag, alternative and value; the source keeps its tag and stays valid |
| `VariantStorage.Storage.Empty` | src/main/cpp/tox/core/variant.h:123-126 | on a valid variant, `empty` holds exactly when no alternative is held |
| `VariantStorage.Storage.Assign` | src/main/cpp/tox/core/variant.h:82-90 | after assigning `x` of alternative `t`, the tag is `t`'s index and the value is `x`, whatever was held before |
| `VariantStorage.Storage.Clear` | src/main/cpp/tox/core/variant.h:128-132 | after `clear` the variant is empty with tag `invalid_index` and its storage untouched, so a second `clear` leaves the same state |
| `VariantStorage.Storage.Visit` | src/main/cpp/tox/core/variant.h:142-164 | `visit` returns a result exactly when the variant is non-empty, and then it is the visitor called with the stored value as a value of the held alternative, which is the function of the held position |
| `VariantStorage.Storage.Call` | src/main/cpp/tox/core/variant.h:134-139 | `operator ()` returns a result exactly when the variant is non-empty, and then it is the visitor applied to the held alternative and its value |

## Left out

- The project models only `src/main/cpp/tox/core/variant.h`. The Java tests `src/test/java/im/tox/tox4j/LoadSaveEmptyTest.java` and `src/test/java/im/tox/tox4j/ToxCoreImplTestBase.java` are not part of this model. They exercise a JNI bridge to the native Tox library, and that library is not part of this model.
- Object lifetime (lines 85-88, 100-102, 109-111): placement `new`, the destructor `~variant_storage` (lines 115-121) and union member aliasing are not modelled. Destroying a value has no effect in the model beyond the tag no longer naming it. After `clear` the old value stays in `value`, and nothing reads it.
- Per-alternative value types: one payload type `V` stands for all of them, so the model does not capture that each alternative stores a value of its own C++ type.
- Compile-time checks become preconditions or typing instead of behaviour:
  - the `static_assert` for a type not in the list (lines 180-183) is the precondition `t in types`;
  - the tag-size `static_assert` (lines 60-62) is `TagFits`;
  - a `variant<>` with no alternatives has no default constructor, so `Storage` requires at least one alternative;
  - `std::result_of` is the result type parameter `R`.
- Overload resolution in `variant_visitor` (lines 25-29) is modelled by type and position, not by C++ name lookup. Each level's `operator ()` hides the inherited one with the same parameter type, so a call with a value of type `t` reaches the first position of `t` (`VisitorApply`). A repeated type therefore compiles. Every tag a constructor writes names that first position, and `Storage.Valid` keeps this invariant.
- The empty `variant_visitor<Result>` base (lines 35-39) declares an `operator ()` that is never defined or called. It is not modelled.
- `visit<Result>()` with `operator >>=` (lines 142-158) is a different spelling of `visit(v)`. It is covered by `Storage.Visit` rather than a member of its own.
- On an empty variant `dispatch` asserts. Without assertions it falls off the end of a non-void function, which is undefined behaviour. The model returns `VisitedEmpty` in both builds.
- The state of an object after an exception is not modelled. During `operator =` the rebuild (line 88) ends at the initializer `head { index, head }` (line 79), which writes the tag before it copies the value. If that copy throws, the tag already names the new alternative, although no value of it was constructed.
- Assigning from a value that lives inside the variant itself is not modelled. The source would read a destroyed object. The model passes values by copy, so it cannot alias.
- `Storage.Move`: the moved-from value of the source is left unspecified, because C++ leaves that to the alternative's own move constructor.

## Findings

| source | as written | input that shows it | evidently intended | confidence | as-written member | corrected member |
|---|---|---|---|---|---|---|
| src/main/cpp/tox/core/variant.h:97-113 | When the source is empty, no level's index equals `rhs.head.tag`, so every level copies its tail. The innermost tail, `variant_storage<Tag>`, has no members. No statement writes the new variant's `head.tag`, yet the assertion on line 103 or 112 reads it. | copy-constructing (or moving) a `variant<int>` from a default-constructed one | the copy of an empty variant is empty: its tag is `invalid_index`, as the assertion expects | low, not executed: the tag arrives only if the implicit copy of the memberless innermost union copies its single byte, which shares its address with the tag | `Variant.CopyTagAsWritten` | `Variant.CopyStorage` |

`Variant.EmptyCopyTagUnwritten` shows the as-written case: for every valid type list, copying `invalid_index` writes no tag. `Variant.CopyStorage` copies the source's tag when no level matches. It is proved to give the source's tag in every case. `Storage.Copy` and `Storage.Move` use it.
