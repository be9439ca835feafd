/** The `HostgroupFacet` concern: a facet model class keeps a list of the
    attribute names its hostgroup facets pass down the hostgroup tree, and each
    facet exposes the restriction of its attributes to those names. */
module HostgroupFacet {
  import opened Values

  predicate NoDuplicates(s: seq<string>) {
    forall i, j :: 0 <= i < j < |s| ==> s[i] != s[j]
  }

  /** The position of the first occurrence of `x` in `s`. */
  function FirstIndex(s: seq<string>, x: string): (r: nat)
    requires x in s
    ensures r < |s| && s[r] == x && x !in s[..r]
  {
    if s[0] == x then 0
    else
      var r := 1 + FirstIndex(s[1..], x);
      assert s[..r] == [s[0]] + s[1..][..r - 1];
      r
  }

  /** A name that occurs in a prefix first occurs at the same position there. */
  lemma FirstIndexInPrefix(s: seq<string>, k: nat, x: string)
    requires k <= |s| && x in s[..k]
    ensures FirstIndex(s, x) == FirstIndex(s[..k], x)
  {
    var a, b := FirstIndex(s, x), FirstIndex(s[..k], x);
    assert s[b] == x && s[..b] == s[..k][..b];
    assert forall j :: 0 <= j < a ==> s[..a][j] == s[j];
    assert forall j :: 0 <= j < b ==> s[..b][j] == s[j];
  }

  /** Ruby's `Array#uniq`: the first occurrence of every element, in order. */
  function Uniq(s: seq<string>): (r: seq<string>)
    ensures NoDuplicates(r)
    ensures forall x :: x in r <==> x in s
    ensures |r| <= |s|
  {
    if s == [] then []
    else
      var u := Uniq(s[..|s| - 1]);
      if s[|s| - 1] in u then u else u + [s[|s| - 1]]
  }

  /** `uniq` lists the elements in the order of their first occurrences. */
  lemma {:induction false} UniqKeepsFirstOccurrenceOrder(s: seq<string>)
    ensures forall i, j :: 0 <= i < j < |Uniq(s)| ==> FirstIndex(s, Uniq(s)[i]) < FirstIndex(s, Uniq(s)[j])
  {
    if s != [] {
      var init, last := s[..|s| - 1], s[|s| - 1];
      var u := Uniq(init);
      UniqKeepsFirstOccurrenceOrder(init);
      forall x | x in init ensures FirstIndex(s, x) == FirstIndex(init, x) < |s| - 1 {
        FirstIndexInPrefix(s, |s| - 1, x);
      }
      if last !in u {
        assert forall j :: 0 <= j < |s| - 1 ==> init[j] == s[j];
        assert Uniq(s) == u + [last];
      }
    }
  }

  /** The elements of `s` that are not in `seen`, in order. */
  function Unseen(s: seq<string>, seen: seq<string>): (r: seq<string>)
    ensures forall x :: x in r <==> x in s && x !in seen
  {
    if s == [] then []
    else Unseen(s[..|s| - 1], seen) + (if s[|s| - 1] in seen then [] else [s[|s| - 1]])
  }

  /** Nothing is left once every element has been seen. */
  lemma {:induction false} UnseenOfSeen(s: seq<string>, seen: seq<string>)
    requires forall x :: x in s ==> x in seen
    ensures Unseen(s, seen) == []
  {
    if s != [] {
      UnseenOfSeen(s[..|s| - 1], seen);
      assert s[|s| - 1] in s;
    }
  }

  /** A list without duplicates is its own `uniq`. */
  lemma {:induction false} UniqOfDistinct(s: seq<string>)
    requires NoDuplicates(s)
    ensures Uniq(s) == s
  {
    if s != [] {
      var init := s[..|s| - 1];
      assert NoDuplicates(init);
      UniqOfDistinct(init);
      assert s[|s| - 1] !in init;
      assert init + [s[|s| - 1]] == s;
    }
  }

  /** `uniq` of a duplicate-free list followed by more names: the list itself,
      then the new names in first-occurrence order. */
  lemma {:induction false} UniqAfterDistinct(l: seq<string>, t: seq<string>)
    requires NoDuplicates(l)
    ensures Uniq(l + t) == l + Uniq(Unseen(t, l))
  {
    if t == [] {
      assert l + t == l;
      UniqOfDistinct(l);
    } else {
      var init, x := t[..|t| - 1], t[|t| - 1];
      UniqAfterDistinct(l, init);
      assert (l + t)[..|l + t| - 1] == l + init;
      assert (l + t)[|l + t| - 1] == x;
      var w := Uniq(Unseen(init, l));
      if x in l {
        assert Unseen(t, l) == Unseen(init, l) + [];
        assert Unseen(t, l) == Unseen(init, l);
      } else {
        assert Unseen(t, l) == Unseen(init, l) + [x];
        assert Unseen(t, l)[..|Unseen(t, l)| - 1] == Unseen(init, l);
      }
    }
  }

  /** The Ruby class-level state of one facet model (`@attributes_to_inherit`). */
  class FacetModel {
    var attributesToInherit: Option<seq<string>>   // nil until first read

    ghost predicate Valid()
      reads this
    {
      attributesToInherit.Some? ==> NoDuplicates(attributesToInherit.value)
    }

    constructor ()
      ensures Valid()
      ensures attributesToInherit == None
    {
      attributesToInherit := None;
    }

    /** `attributes_to_inherit`: lazily initialised to the empty list. */
    method AttributesToInherit() returns (names: seq<string>)
      requires Valid()
      modifies this
      ensures Valid()
      ensures old(attributesToInherit).None? ==> names == []
      ensures old(attributesToInherit).Some? ==> names == old(attributesToInherit).value
      ensures attributesToInherit == Some(names)
      ensures NoDuplicates(names)
    {
      if attributesToInherit.None? {
        attributesToInherit := Some([]);
      }
      names := attributesToInherit.value;
    }

    /** `inherit_attributes(*names)`: `concat` then `uniq!` on the stored list. */
    method InheritAttributes(names: seq<string>)
      requires Valid()
      modifies this
      ensures Valid()
      ensures attributesToInherit.Some?
      ensures var before := if old(attributesToInherit).Some? then old(attributesToInherit).value else [];
              attributesToInherit.value == Uniq(before + names)
    {
      var current := AttributesToInherit();
      attributesToInherit := Some(Uniq(current + names));
    }
  }

  /** Re-declaring names that are already in a duplicate-free list leaves it unchanged. */
  lemma InheritAttributesIdempotent(l: seq<string>, names: seq<string>)
    requires NoDuplicates(l)
    requires forall x :: x in names ==> x in l
    ensures Uniq(l + names) == l
  {
    UniqAfterDistinct(l, names);
    UnseenOfSeen(names, l);
    assert l + Uniq([]) == l;
  }

  /** `attributes.slice(*names)`: the entries of `attributes` whose key is
      among `names`, values unchanged; names without an entry are skipped. */
  function Slice(attributes: map<string, Value>, names: seq<string>): (r: map<string, Value>)
    ensures forall k :: k in r <==> k in attributes && k in names
    ensures forall k :: k in r ==> r[k] == attributes[k]
  {
    if names == [] then map[]
    else
      var r := Slice(attributes, names[..|names| - 1]);
      var k := names[|names| - 1];
      if k in attributes then r[k := attributes[k]] else r
  }

  /** `inherited_attributes` of a facet whose model declares `toInherit`. */
  function InheritedAttributes(attributes: map<string, Value>, toInherit: seq<string>): map<string, Value> {
    Slice(attributes, toInherit)
  }

  /** A model that never called `inherit_attributes` passes nothing down. */
  lemma NothingDeclaredNothingInherited(attributes: map<string, Value>)
    ensures InheritedAttributes(attributes, []) == map[]
  {
  }
}
