/** The variant object itself, `variant<Types...>`: the shared tag slot and the
    storage of the held value, updated in place by assignment and `clear`. */
module VariantStorage {
  import opened Variant

  /** A variant over the alternatives `types`, all of whose values are modelled by
      one payload type `V`. `tag` is the `head.tag` slot that every level of the
      union shares; `value` is the storage of the held alternative. When the
      variant is empty the storage holds no live value and nothing reads it. */
  class Storage<Ty(==), V(0)> {
    const types: seq<Ty>
    var tag: Tag
    var value: V

    /** The type list passes its static assertions and the tag either is
        `invalid_index` or names a level whose head type no level nearer the
        head has, as every tag a constructor writes does. */
    ghost predicate Valid()
      reads this
    {
      && |types| > 0 && TagFits(types)
      && (tag == InvalidIndex || tag < |types|)
      && NamesFirst(types, tag)
    }

    /** The alternative the variant holds, if any: the level whose index is the tag. */
    function Alternative(): (a: Option<Ty>)
      reads this
      requires Valid()
      ensures a.Some? ==> a.value in types
    {
      if tag < |types| then Some(types[|types| - 1 - tag]) else None
    }

    /** The default constructor: an empty variant. */
    constructor Default(types: seq<Ty>)
      requires |types| > 0 && TagFits(types)
      ensures Valid() && this.types == types
      ensures Empty() && Alternative() == None
    {
      this.types := types;
      tag := InvalidIndex;
      new;
      TagFitsBound(types);
    }

    /** The constructor from a value `x` of the alternative `t`. */
    constructor FromValue(types: seq<Ty>, t: Ty, x: V)
      requires |types| > 0 && TagFits(types) && t in types
      ensures Valid() && this.types == types
      ensures tag == IndexOf(types, t) && value == x
      ensures !Empty() && Alternative() == Some(t)
    {
      this.types := types;
      tag := IndexOf(types, t);
      value := x;
      new;
      IndexOfNamesFirst(types, t);
    }

    /** The copy constructor: the same alternative and value as `rhs`, which it
        reads and does not change. */
    constructor Copy(rhs: Storage<Ty, V>)
      requires rhs.Valid()
      ensures Valid() && types == rhs.types
      ensures tag == rhs.tag && Alternative() == rhs.Alternative()
      ensures !rhs.Empty() ==> value == rhs.value
      ensures unchanged(rhs)
    {
      var c := CopyStorage(rhs.types, rhs.tag, rhs.value);
      types := rhs.types;
      tag := c.tag;
      if c.value.Some? {
        value := c.value.value;
      }
    }

    /** The move constructor: the same alternative and value as `rhs` had; `rhs`
        keeps its tag and is left with a moved-from value. */
    constructor Move(rhs: Storage<Ty, V>)
      requires rhs.Valid()
      modifies rhs
      ensures Valid() && types == rhs.types
      ensures tag == old(rhs.tag) && Alternative() == old(rhs.Alternative())
      ensures !Empty() ==> value == old(rhs.value)
      ensures rhs.Valid() && rhs.tag == old(rhs.tag)
    {
      var c := CopyStorage(rhs.types, rhs.tag, rhs.value);
      types := rhs.types;
      tag := c.tag;
      if c.value.Some? {
        value := c.value.value;
      }
      new;
      rhs.value := *;
    }

    /** `empty`: the tag is `invalid_index`, which no level carries, so the
        variant is empty exactly when it holds no alternative. */
    function Empty(): (e: bool)
      reads this
      ensures Valid() ==> (e <==> Alternative() == None)
    {
      TagFitsBound(types);
      tag == InvalidIndex
    }

    /** Assignment from a value `x` of alternative `t`: the old value is destroyed
        and the variant is rebuilt as if constructed from `x`; nothing of the old
        contents survives. */
    method Assign(t: Ty, x: V)
      requires Valid() && t in types
      modifies this
      ensures Valid()
      ensures tag == IndexOf(types, t) && value == x
      ensures !Empty() && Alternative() == Some(t)
    {
      tag := IndexOf(types, t);
      value := x;
      IndexOfNamesFirst(types, t);
    }

    /** `clear`: the held value is destroyed and the tag set to `invalid_index`.
        The storage itself is not overwritten. */
    method Clear()
      requires Valid()
      modifies this
      ensures Valid()
      ensures tag == InvalidIndex && value == old(value)
      ensures Empty() && Alternative() == None
    {
      tag := InvalidIndex;
      TagFitsBound(types);
    }

    /** `visit` with a `variant_visitor` built from `funs`, one function per
        alternative in the order of the type list: the visitor is called with the
        stored value as a value of the held alternative, which reaches the function
        of the held position; on an empty variant the dispatch fails. */
    function Visit<R>(funs: seq<V -> R>): (r: Dispatched<R>)
      reads this
      requires Valid() && |funs| == |types|
      ensures r.Returned? <==> !Empty()
      ensures r.Returned? ==> r.result == funs[|types| - 1 - tag](value)
      ensures r.Returned? ==> r.result == VisitorApply(types, funs, Alternative().value, value)
    {
      TagFitsBound(types);
      if tag < |types| then DispatchSelects(types, funs, tag, value); Dispatch(types, funs, |types|, tag, value)
      else Dispatch(types, funs, |types|, tag, value)
    }

    /** `operator ()` with an arbitrary visitor: the visitor is called with the
        stored value as a value of the held alternative, whose type it receives. */
    function Call<R>(visitor: (Ty, V) -> R): (r: Dispatched<R>)
      reads this
      requires Valid()
      ensures r.Returned? <==> !Empty()
      ensures r.Returned? ==> Alternative().Some? && r.result == visitor(Alternative().value, value)
    {
      var funs := seq(|types|, k requires 0 <= k < |types| => (x: V) => visitor(types[k], x));
      TagFitsBound(types);
      Dispatch(types, funs, |types|, tag, value)
    }
  }

  /** The two alternatives of the example below. */
  datatype Kind = Number | Text

  /** A variant over two alternatives, driven through its whole life. */
  method Lifecycle(x: int, y: int)
  {
    var funs := [(n: int) => n + 1, (n: int) => n * 2];
    var v := new Storage<Kind, int>.Default([Number, Text]);
    assert v.Visit(funs) == VisitedEmpty;

    v.Assign(Text, x);
    assert v.tag == 0;
    assert v.Visit(funs) == Returned(x * 2);

    var w := new Storage.Copy(v);
    assert w.tag == v.tag && w.Visit(funs) == Returned(x * 2);

    v.Assign(Number, y);
    assert v.tag == 1;
    assert v.Visit(funs) == Returned(y + 1);
    assert w.Visit(funs) == Returned(x * 2);

    v.Clear();
    var t, s := v.tag, v.value;
    v.Clear();
    assert v.Empty() && v.tag == t && v.value == s;
  }
}
