/** `handleAttributeClick`: the ban list as an ordered sequence whose entries
    are toggled in and out by clicking an attribute chip. */
module BanList {
  import opened CatData

  /** `list.filter(item => !(item equals x))`: every entry equal to `x`
      removed, the others kept in order. */
  function Without(list: seq<BanRule>, x: BanRule): (r: seq<BanRule>)
    ensures x !in r
    ensures forall y :: y in r <==> y in list && y != x
    ensures |r| <= |list|
  {
    if list == [] then []
    else (if list[0] == x then [] else [list[0]]) + Without(list[1..], x)
  }

  /** The new ban list after a click on `(kind, value)`: if some entry equals
      the pair, every such entry is removed; otherwise the pair is appended. */
  function Toggle(list: seq<BanRule>, kind: AttrType, value: string): (r: seq<BanRule>)
    ensures BanRule(kind, value) in r <==> BanRule(kind, value) !in list
    ensures forall y :: y != BanRule(kind, value) ==> (y in r <==> y in list)
  {
    var x := BanRule(kind, value);
    if x in list then Without(list, x) else list + [x]
  }

  /** No pair occurs twice. */
  ghost predicate NoDuplicates(list: seq<BanRule>)
  {
    forall y :: multiset(list)[y] <= 1
  }

  lemma {:induction false} WithoutAppend(list: seq<BanRule>, y: BanRule, x: BanRule)
    ensures Without(list + [y], x) == Without(list, x) + (if y == x then [] else [y])
  {
    if list == [] {
      assert [] + [y] == [y];
    } else {
      assert (list + [y])[1..] == list[1..] + [y];
      WithoutAppend(list[1..], y, x);
    }
  }

  lemma {:induction false} WithoutAbsent(list: seq<BanRule>, x: BanRule)
    requires x !in list
    ensures Without(list, x) == list
  {
    if list != [] {
      WithoutAbsent(list[1..], x);
      assert list == [list[0]] + list[1..];
    }
  }

  /** Removal takes every copy of `x` out and leaves every other pair's
      number of occurrences alone. */
  lemma {:induction false} WithoutMultiset(list: seq<BanRule>, x: BanRule)
    ensures multiset(Without(list, x)) == multiset(list)[x := 0]
  {
    if list != [] {
      WithoutMultiset(list[1..], x);
      assert list == [list[0]] + list[1..];
    }
  }

  /** The occurrences after a click: the pair disappears completely if it was
      there and occurs exactly once if it was not; every other pair keeps its
      number of occurrences. */
  lemma ToggleMultiset(list: seq<BanRule>, kind: AttrType, value: string)
    ensures var x := BanRule(kind, value);
      multiset(Toggle(list, kind, value)) ==
        if x in list then multiset(list)[x := 0] else multiset(list) + multiset{x}
  {
    WithoutMultiset(list, BanRule(kind, value));
  }

  /** Every entry other than the clicked pair stays, in the same relative
      order: filtering the pair out of the list before and after the click
      gives the same sequence. */
  lemma ToggleKeepsOthers(list: seq<BanRule>, kind: AttrType, value: string)
    ensures var x := BanRule(kind, value);
      Without(Toggle(list, kind, value), x) == Without(list, x)
  {
    var x := BanRule(kind, value);
    if x in list {
      WithoutAbsent(Without(list, x), x);
    } else {
      WithoutAppend(list, x, x);
      assert Without(list, x) + [] == Without(list, x);
    }
  }

  /** An addition goes to the end of the list. */
  lemma ToggleAppends(list: seq<BanRule>, kind: AttrType, value: string)
    requires BanRule(kind, value) !in list
    ensures var r := Toggle(list, kind, value);
      |r| == |list| + 1 && r[..|list|] == list && r[|list|] == BanRule(kind, value)
  {
  }

  /** Clicking an absent pair twice restores the exact original list. */
  lemma ToggleTwiceRestores(list: seq<BanRule>, kind: AttrType, value: string)
    requires BanRule(kind, value) !in list
    ensures Toggle(Toggle(list, kind, value), kind, value) == list
  {
    var x := BanRule(kind, value);
    WithoutAppend(list, x, x);
    WithoutAbsent(list, x);
  }

  /** Clicking a present pair twice keeps the same set of entries; the pair
      moves to the end (once). */
  lemma ToggleTwicePresent(list: seq<BanRule>, kind: AttrType, value: string)
    requires BanRule(kind, value) in list
    ensures var r := Toggle(Toggle(list, kind, value), kind, value);
      r == Without(list, BanRule(kind, value)) + [BanRule(kind, value)] &&
      forall y :: y in r <==> y in list
  {
  }

  /** A click keeps the list free of duplicate pairs. */
  lemma ToggleNoDuplicates(list: seq<BanRule>, kind: AttrType, value: string)
    requires NoDuplicates(list)
    ensures NoDuplicates(Toggle(list, kind, value))
  {
    var x := BanRule(kind, value);
    ToggleMultiset(list, kind, value);
    assert x !in list ==> multiset(list)[x] == 0;
  }

  /** Example: clicking "Siamese" in the breed row of an empty
      list gives exactly one such rule; clicking again leaves it out. */
  lemma SiameseExample()
    ensures Toggle([], BreedName, "Siamese") == [BanRule(BreedName, "Siamese")]
    ensures Toggle(Toggle([], BreedName, "Siamese"), BreedName, "Siamese") == []
  {
    ToggleTwiceRestores([], BreedName, "Siamese");
  }
}
