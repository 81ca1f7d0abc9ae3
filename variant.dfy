/** The type-level part of the index-tagged union `variant_storage`: the tag type,
    the index each level of the type list carries, how a constructor picks the
    level of a value's type, and how dispatch and copying descend the levels.

    A type list `types` is read head first: `types[0]` is the head alternative,
    `types[1..]` the tail. The level whose head is `types[k]` has a tail of
    `|types| - 1 - k` alternatives, and that count is its index. */
module Variant {

  datatype Option<T> = None | Some(value: T)

  /** The result of dispatching on a variant: the visitor's result, or the
      failure of the base case when no level's index equals the tag. */
  datatype Dispatched<R> = Returned(result: R) | VisitedEmpty

  /** What a copy writes: the tag, and the value when some level copied its head. */
  datatype Copied<V> = Copied(tag: Tag, value: Option<V>)

  /** The tag slot, `unsigned char`. */
  type Tag = x: int | 0 <= x < 256

  /** Conversion of an integer to `unsigned char`: taken modulo 2^8. */
  function ToTag(x: int): (t: Tag)
    ensures 0 <= x < 256 ==> t == x
    ensures (t - x) % 256 == 0
  {
    x % 256
  }

  /** `invalid_index`, the tag of an empty variant: -1 converted to `unsigned char`. */
  const InvalidIndex: Tag := ToTag(-1)

  /** The static assertion of the level whose tail has `tailLength` alternatives:
      the index survives the conversion to the tag type and stays below
      `invalid_index`. */
  predicate LevelFits(tailLength: nat)
  {
    ToTag(tailLength) == tailLength && ToTag(tailLength) < InvalidIndex
  }

  /** Every level of the type list passes its static assertion; instantiating the
      variant fails to compile otherwise. */
  predicate TagFits<Ty>(types: seq<Ty>)
  {
    forall m: nat :: m < |types| ==> LevelFits(m)
  }

  /** The static assertions hold exactly when there are at most 255 alternatives. */
  lemma {:induction false} TagFitsBound<Ty>(types: seq<Ty>)
    ensures InvalidIndex == 255
    ensures TagFits(types) <==> |types| <= 255
  {
    if |types| > 255 {
      assert !LevelFits(255);
    } else {
      forall m: nat | m < |types| ensures LevelFits(m) {
        assert ToTag(m) == m;
      }
    }
  }

  /** The tail of a list whose levels fit has levels that fit. */
  lemma TailFits<Ty>(types: seq<Ty>)
    requires |types| > 0 && TagFits(types)
    ensures TagFits(types[1..])
  {
  }

  /** The tag a constructor from a value of type `t` writes: the head level takes
      the value if `t` is its head type and writes its own index, any other level
      hands the value to its tail. The tag names the first position of `t`, counted
      from the end of the list. */
  function IndexOf<Ty(==)>(types: seq<Ty>, t: Ty): (tag: Tag)
    requires TagFits(types) && t in types
    ensures tag < InvalidIndex
    ensures tag < |types| && types[|types| - 1 - tag] == t
    ensures forall j :: 0 <= j < |types| - 1 - tag ==> types[j] != t
  {
    assert LevelFits(|types| - 1);
    if types[0] == t then
      ToTag(|types| - 1)
    else
      TailFits(types);
      assert t in types[1..];
      var tag := IndexOf(types[1..], t);
      assert types[1..][|types| - 2 - tag] == t;
      tag
  }

  /** The alternative at position `k`, if no earlier position has the same type,
      gets the tag `|types| - 1 - k`: the head the largest, the last type 0. */
  lemma TagOfAlternative<Ty>(types: seq<Ty>, k: nat)
    requires TagFits(types) && k < |types|
    requires types[k] !in types[..k]
    ensures IndexOf(types, types[k]) == |types| - 1 - k
  {
  }

  /** Distinct types get distinct tags. */
  lemma TagsDistinct<Ty>(types: seq<Ty>, a: Ty, b: Ty)
    requires TagFits(types) && a in types && b in types
    ensures IndexOf(types, a) == IndexOf(types, b) <==> a == b
  {
  }

  /** A tag names the first position of its alternative's type: no position
      nearer the head has the same type. Every tag a constructor writes does. */
  predicate NamesFirst<Ty(==)>(types: seq<Ty>, tag: Tag)
  {
    tag < |types| ==> types[|types| - 1 - tag] !in types[..|types| - 1 - tag]
  }

  /** The tag written for a value of type `t` names the first position of `t`. */
  lemma IndexOfNamesFirst<Ty>(types: seq<Ty>, t: Ty)
    requires TagFits(types) && t in types
    ensures NamesFirst(types, IndexOf(types, t))
  {
  }

  /** A `variant_visitor` built from `funs` (one function per position of the type
      list) called with a value of type `t`. Each level declares the call operator
      for its head type, which hides the inherited operator with the same
      parameter type, so the call reaches the function of the first position
      whose type is `t`. */
  function VisitorApply<Ty(==), V, R>(types: seq<Ty>, funs: seq<V -> R>, t: Ty, x: V): (r: R)
    requires TagFits(types) && |funs| == |types| && t in types
    ensures r == funs[|types| - 1 - IndexOf(types, t)](x)
  {
    if types[0] == t then
      funs[0](x)
    else
      TailFits(types);
      assert t in types[1..];
      VisitorApply(types[1..], funs[1..], t, x)
  }

  /** `dispatch` over the last `levels` levels of the union (a call on the whole
      variant passes `|types|`): each level compares the tag with its index; on a
      match it calls the visitor with the stored value as a value of its head
      type, otherwise it descends to its tail. The base case, reached when no level
      matches, is the assertion failure "Attempted to visit empty variant". */
  function Dispatch<Ty(==), V, R>(types: seq<Ty>, funs: seq<V -> R>, levels: nat, tag: Tag, value: V): (r: Dispatched<R>)
    requires TagFits(types) && |funs| == |types| && levels <= |types|
    ensures r.Returned? <==> tag < levels
    ensures r.Returned? ==> r.result == VisitorApply(types, funs, types[|types| - 1 - tag], value)
    decreases levels
  {
    assert levels > 0 ==> LevelFits(levels - 1);
    if levels == 0 then
      VisitedEmpty
    else if tag == ToTag(levels - 1) then
      Returned(VisitorApply(types, funs, types[|types| - levels], value))
    else
      Dispatch(types, funs, levels - 1, tag, value)
  }

  /** On a tag that names the first position of its type, dispatch calls the
      visitor function of exactly that position. */
  lemma DispatchSelects<Ty, V, R>(types: seq<Ty>, funs: seq<V -> R>, tag: Tag, value: V)
    requires TagFits(types) && |funs| == |types| && tag < |types|
    requires NamesFirst(types, tag)
    ensures Dispatch(types, funs, |types|, tag, value) == Returned(funs[|types| - 1 - tag](value))
  {
    TagOfAlternative(types, |types| - 1 - tag);
  }

  /** An empty variant's tag names no level, so dispatching on it fails. */
  lemma DispatchEmptyFails<Ty, V, R>(types: seq<Ty>, funs: seq<V -> R>, value: V)
    requires TagFits(types) && |funs| == |types|
    ensures Dispatch(types, funs, |types|, InvalidIndex, value) == VisitedEmpty
  {
    TagFitsBound(types);
  }

  /** Dispatch calls only the function of the selected alternative: visitors that
      agree on the function of the first position of the held type give the same
      result, whatever the other functions do. */
  lemma DispatchUsesOnlySelected<Ty, V, R>(types: seq<Ty>, f: seq<V -> R>, g: seq<V -> R>, tag: Tag, value: V)
    requires TagFits(types) && |f| == |types| && |g| == |types|
    requires tag < |types| ==>
      var q := |types| - 1 - IndexOf(types, types[|types| - 1 - tag]);
      f[q] == g[q]
    ensures Dispatch(types, f, |types|, tag, value) == Dispatch(types, g, |types|, tag, value)
  {
  }

  /** Constructing from a value `x` of type `types[k]` and dispatching calls the
      visitor function of the first position whose type is `types[k]`, which is
      `k` itself when no earlier position has that type. */
  lemma {:induction false} ConstructThenDispatch<Ty, V, R>(types: seq<Ty>, funs: seq<V -> R>, k: nat, x: V)
    requires TagFits(types) && |funs| == |types| && k < |types|
    ensures Dispatch(types, funs, |types|, IndexOf(types, types[k]), x)
         == Returned(funs[|types| - 1 - IndexOf(types, types[k])](x))
    ensures types[k] !in types[..k] ==>
            Dispatch(types, funs, |types|, IndexOf(types, types[k]), x) == Returned(funs[k](x))
  {
    IndexOfNamesFirst(types, types[k]);
    DispatchSelects(types, funs, IndexOf(types, types[k]), x);
    if types[k] !in types[..k] {
      TagOfAlternative(types, k);
    }
  }

  /** The copy (and move) constructor as the levels perform it when the source
      holds a value: the level whose index equals the source's tag copies its head,
      tag and value together. When no level matches (an empty source) the
      copy writes the source's tag itself, so the copy is empty as well. */
  function CopyStorage<Ty, V>(types: seq<Ty>, rhsTag: Tag, rhsValue: V): (c: Copied<V>)
    requires TagFits(types)
    ensures c.tag == rhsTag
    ensures c.value.Some? <==> rhsTag < |types|
    ensures c.value.Some? ==> c.value.value == rhsValue
    decreases |types|
  {
    if |types| == 0 then
      Copied(rhsTag, None)
    else if rhsTag == ToTag(|types| - 1) then
      assert LevelFits(|types| - 1);
      Copied(ToTag(|types| - 1), Some(rhsValue))
    else
      TailFits(types);
      assert LevelFits(|types| - 1);
      CopyStorage(types[1..], rhsTag, rhsValue)
  }

  /** The tag the copy constructor writes as the source is written: only a level
      whose index equals the source's tag writes one (`None`: no statement writes
      the tag; the memberless innermost storage is copied without members). */
  function CopyTagAsWritten<Ty>(types: seq<Ty>, rhsTag: Tag): (t: Option<Tag>)
    requires TagFits(types)
    ensures t.Some? <==> rhsTag < |types|
    ensures t.Some? ==> t.value == rhsTag
    decreases |types|
  {
    if |types| == 0 then
      None
    else if rhsTag == ToTag(|types| - 1) then
      assert LevelFits(|types| - 1);
      Some(ToTag(|types| - 1))
    else
      TailFits(types);
      assert LevelFits(|types| - 1);
      CopyTagAsWritten(types[1..], rhsTag)
  }

  /** Copying an empty variant, as written, writes no tag at any level. */
  lemma EmptyCopyTagUnwritten<Ty>(types: seq<Ty>)
    requires TagFits(types)
    ensures CopyTagAsWritten(types, InvalidIndex) == None
  {
    TagFitsBound(types);
  }
}
