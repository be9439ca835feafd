/** The `HostgroupExtensions` concern: the hostgroup kind of the binding
    code, the memoised ancestry of a hostgroup, and the resolver that
    computes a facet's effective inheritable attributes from the hostgroup's
    own facet and its ancestors' facets. */
module HostgroupExtensions {
  import opened Values
  import opened Facets
  import opened HostgroupFacet
  import opened ModelExtensionsBase

  /** The hostgroup extension module overrides the kind methods: facet type
      `:hostgroup`, foreign key `:hostgroup_id`, inverse `:hostgroup`. */
  const HostgroupModule: ExtensionModule :=
    ExtensionModule(Some(HostgroupKind), Some("hostgroup_id"), Some("hostgroup"))

  /** Binding onto `Hostgroup` uses the hostgroup configuration and the
      hostgroup keys; definitions without a hostgroup configuration are skipped. */
  lemma HostgroupBinding(s: ClassState, d: FacetDefinition, inMigrate: bool)
    ensures d.hostgroupConfiguration.None? ==> AfterRegister(s, HostgroupModule, d, inMigrate) == Ok(s)
    ensures d.hostgroupConfiguration.Some? ==>
      && AfterRegister(s, HostgroupModule, d, inMigrate).Ok?
      && AfterRegister(s, HostgroupModule, d, inMigrate).value.associations[d.name]
         == Association(d.hostgroupConfiguration.value.model, "hostgroup_id", "hostgroup")
  {
  }

  /** `merge!` with the block `{ |_, left, right| left || right }`. */
  function MergeOr(into: map<string, Value>, other: map<string, Value>): map<string, Value> {
    map k | k in into.Keys + other.Keys ::
      if k in into && k in other then Or(into[k], other[k])
      else if k in into then into[k]
      else other[k]
  }

  /** One iteration of the loop: merge an ancestor's inherited attributes,
      or skip the ancestor when it lacks the facet. */
  function MergeRow(acc: map<string, Value>, row: FacetTable, name: string, toInherit: seq<string>)
    : map<string, Value>
  {
    if name in row then MergeOr(acc, InheritedAttributes(row[name].attributes, toInherit)) else acc
  }

  /** The loop over the root-first `ancestry`, walked nearest-first
      (`reverse_each`): the last ancestor is merged first. */
  function MergeAncestry(acc: map<string, Value>, ancestry: seq<FacetTable>, name: string, toInherit: seq<string>)
    : map<string, Value>
    decreases |ancestry|
  {
    if ancestry == [] then acc
    else MergeAncestry(MergeRow(acc, ancestry[|ancestry| - 1], name, toInherit), ancestry[..|ancestry| - 1], name, toInherit)
  }

  /** `inherited_facet_attributes` for a hostgroup whose own facet accessors
      are `own` and whose ancestors are `ancestry`: raises when the hostgroup
      has no facet of its own, since `inherited_attributes` is then called on nil. */
  function InheritedFacetAttributesOf(own: FacetTable, ancestry: seq<FacetTable>, name: string, toInherit: seq<string>)
    : Result<map<string, Value>>
  {
    if name !in own then Err(NoMethodOnNil("inherited_attributes"))
    else Ok(MergeAncestry(InheritedAttributes(own[name].attributes, toInherit), ancestry, name, toInherit))
  }

  /** The loop of `inherited_facet_attributes` (lines 47-51). */
  method MergeAncestors(start: map<string, Value>, ancestry: seq<FacetTable>, name: string, toInherit: seq<string>)
    returns (result: map<string, Value>)
    ensures result == MergeAncestry(start, ancestry, name, toInherit)
  {
    result := start;
    var i := |ancestry|;
    assert ancestry[..i] == ancestry;
    while i > 0
      invariant 0 <= i <= |ancestry|
      invariant MergeAncestry(result, ancestry[..i], name, toInherit) == MergeAncestry(start, ancestry, name, toInherit)
    {
      assert ancestry[..i][..i - 1] == ancestry[..i - 1];
      i := i - 1;
      var row := ancestry[i];
      if name in row {
        result := MergeOr(result, InheritedAttributes(row[name].attributes, toInherit));
      }
    }
  }

  /* ---------------------------------------------------------------------- */
  /* What the resolver promises                                              */
  /* ---------------------------------------------------------------------- */

  /** The ancestor `row` offers a non-nil, non-false value for `k`. */
  predicate TruthyAt(row: FacetTable, name: string, toInherit: seq<string>, k: string) {
    name in row && k in toInherit && k in row[name].attributes && Truthy(row[name].attributes[k])
  }

  /** The ancestor `row` offers some value for `k`. */
  predicate OffersKey(row: FacetTable, name: string, toInherit: seq<string>, k: string) {
    name in row && k in toInherit && k in row[name].attributes
  }

  /** A value that is already truthy is never replaced. */
  lemma {:induction false} TruthyValueKept(
    acc: map<string, Value>, ancestry: seq<FacetTable>, name: string, toInherit: seq<string>, k: string)
    requires k in acc && Truthy(acc[k])
    ensures k in MergeAncestry(acc, ancestry, name, toInherit)
    ensures MergeAncestry(acc, ancestry, name, toInherit)[k] == acc[k]
    decreases |ancestry|
  {
    if ancestry != [] {
      var acc' := MergeRow(acc, ancestry[|ancestry| - 1], name, toInherit);
      assert k in acc' && acc'[k] == acc[k];
      TruthyValueKept(acc', ancestry[..|ancestry| - 1], name, toInherit, k);
    }
  }

  /** Where nothing so far is truthy for `k`, the nearest ancestor offering a
      truthy value supplies it. */
  lemma {:induction false} NearestTruthyAncestorWins(
    acc: map<string, Value>, ancestry: seq<FacetTable>, name: string, toInherit: seq<string>, k: string, j: int)
    requires k !in acc || !Truthy(acc[k])
    requires 0 <= j < |ancestry| && TruthyAt(ancestry[j], name, toInherit, k)
    requires forall i :: j < i < |ancestry| ==> !TruthyAt(ancestry[i], name, toInherit, k)
    ensures k in MergeAncestry(acc, ancestry, name, toInherit)
    ensures MergeAncestry(acc, ancestry, name, toInherit)[k] == ancestry[j][name].attributes[k]
    decreases |ancestry|
  {
    var last := |ancestry| - 1;
    var acc' := MergeRow(acc, ancestry[last], name, toInherit);
    var init := ancestry[..last];
    if j == last {
      assert acc'[k] == ancestry[j][name].attributes[k];
      TruthyValueKept(acc', init, name, toInherit, k);
    } else {
      assert !TruthyAt(ancestry[last], name, toInherit, k);
      assert k !in acc' || !Truthy(acc'[k]);
      assert init[j] == ancestry[j];
      NearestTruthyAncestorWins(acc', init, name, toInherit, k, j);
    }
  }

  /** The keys of the result: those already there and those some ancestor with
      the facet offers. */
  lemma {:induction false} MergedKeys(
    acc: map<string, Value>, ancestry: seq<FacetTable>, name: string, toInherit: seq<string>, k: string)
    ensures k in MergeAncestry(acc, ancestry, name, toInherit)
        <==> k in acc || exists i :: 0 <= i < |ancestry| && OffersKey(ancestry[i], name, toInherit, k)
    decreases |ancestry|
  {
    if ancestry != [] {
      var last := |ancestry| - 1;
      var acc' := MergeRow(acc, ancestry[last], name, toInherit);
      var init := ancestry[..last];
      MergedKeys(acc', init, name, toInherit, k);
      assert k in acc' <==> k in acc || OffersKey(ancestry[last], name, toInherit, k);
      if exists i :: 0 <= i < |init| && OffersKey(init[i], name, toInherit, k) {
        var i :| 0 <= i < |init| && OffersKey(init[i], name, toInherit, k);
        assert ancestry[i] == init[i];
      }
      if exists i :: 0 <= i < |ancestry| && OffersKey(ancestry[i], name, toInherit, k) {
        var i :| 0 <= i < |ancestry| && OffersKey(ancestry[i], name, toInherit, k);
        if i < last {
          assert init[i] == ancestry[i];
        }
      }
    }
  }

  /** A key nobody holds a truthy value for stays blank (or absent). */
  lemma {:induction false} AllBlankStaysBlank(
    acc: map<string, Value>, ancestry: seq<FacetTable>, name: string, toInherit: seq<string>, k: string)
    requires k !in acc || !Truthy(acc[k])
    requires forall i :: 0 <= i < |ancestry| ==> !TruthyAt(ancestry[i], name, toInherit, k)
    ensures k in MergeAncestry(acc, ancestry, name, toInherit) ==> !Truthy(MergeAncestry(acc, ancestry, name, toInherit)[k])
    decreases |ancestry|
  {
    if ancestry != [] {
      var last := |ancestry| - 1;
      var acc' := MergeRow(acc, ancestry[last], name, toInherit);
      var init := ancestry[..last];
      assert !TruthyAt(ancestry[last], name, toInherit, k);
      assert k !in acc' || !Truthy(acc'[k]);
      forall i | 0 <= i < |init| ensures !TruthyAt(init[i], name, toInherit, k) {
        assert init[i] == ancestry[i];
      }
      AllBlankStaysBlank(acc', init, name, toInherit, k);
    }
  }

  /** Ancestors that do not offer `k` leave it as it was, present or not,
      truthy or not. */
  lemma {:induction false} UnofferedKeyKept(
    acc: map<string, Value>, ancestry: seq<FacetTable>, name: string, toInherit: seq<string>, k: string)
    requires forall i :: 0 <= i < |ancestry| ==> !OffersKey(ancestry[i], name, toInherit, k)
    ensures k in MergeAncestry(acc, ancestry, name, toInherit) <==> k in acc
    ensures k in acc ==> MergeAncestry(acc, ancestry, name, toInherit)[k] == acc[k]
    decreases |ancestry|
  {
    if ancestry != [] {
      var last := |ancestry| - 1;
      var acc' := MergeRow(acc, ancestry[last], name, toInherit);
      var init := ancestry[..last];
      assert !OffersKey(ancestry[last], name, toInherit, k);
      assert (k in acc' <==> k in acc) && (k in acc ==> acc'[k] == acc[k]);
      forall i | 0 <= i < |init| ensures !OffersKey(init[i], name, toInherit, k) {
        assert init[i] == ancestry[i];
      }
      UnofferedKeyKept(acc', init, name, toInherit, k);
    }
  }

  /** Where no value for `k` is truthy, `left || right` always takes the
      right-hand side, so the value merged last wins: that of the farthest
      ancestor offering `k` (the first in root-first order), nil and false
      included. */
  lemma {:induction false} FarthestBlankOfferWins(
    acc: map<string, Value>, ancestry: seq<FacetTable>, name: string, toInherit: seq<string>, k: string, i0: int)
    requires k !in acc || !Truthy(acc[k])
    requires forall i :: 0 <= i < |ancestry| ==> !TruthyAt(ancestry[i], name, toInherit, k)
    requires 0 <= i0 < |ancestry| && OffersKey(ancestry[i0], name, toInherit, k)
    requires forall i :: 0 <= i < i0 ==> !OffersKey(ancestry[i], name, toInherit, k)
    ensures k in MergeAncestry(acc, ancestry, name, toInherit)
    ensures MergeAncestry(acc, ancestry, name, toInherit)[k] == ancestry[i0][name].attributes[k]
    decreases |ancestry|
  {
    var last := |ancestry| - 1;
    var acc' := MergeRow(acc, ancestry[last], name, toInherit);
    var init := ancestry[..last];
    assert !TruthyAt(ancestry[last], name, toInherit, k);
    forall i | 0 <= i < |init| ensures init[i] == ancestry[i] {
    }
    if i0 == last {
      assert acc'[k] == ancestry[i0][name].attributes[k];
      UnofferedKeyKept(acc', init, name, toInherit, k);
    } else {
      assert k !in acc' || !Truthy(acc'[k]);
      FarthestBlankOfferWins(acc', init, name, toInherit, k, i0);
    }
  }

  /** An ancestor without the facet contributes nothing: leaving it out of
      the ancestry gives the same result. */
  lemma {:induction false} AncestorWithoutFacetSkipped(
    acc: map<string, Value>, before: seq<FacetTable>, row: FacetTable, after: seq<FacetTable>,
    name: string, toInherit: seq<string>)
    requires name !in row
    ensures MergeAncestry(acc, before + [row] + after, name, toInherit)
         == MergeAncestry(acc, before + after, name, toInherit)
    decreases |after|
  {
    if after == [] {
      assert (before + [row] + after)[..|before|] == before;
      assert before + after == before;
    } else {
      var x := after[|after| - 1];
      var after' := after[..|after| - 1];
      var acc' := MergeRow(acc, x, name, toInherit);
      assert (before + [row] + after)[..|before + [row] + after| - 1] == before + [row] + after';
      assert (before + after)[..|before + after| - 1] == before + after';
      AncestorWithoutFacetSkipped(acc', before, row, after', name, toInherit);
    }
  }

  /* ---------------------------------------------------------------------- */
  /* The same promises, stated for a hostgroup                               */
  /* ---------------------------------------------------------------------- */

  /** The hostgroup's own truthy value wins, whatever the ancestors hold;
      `""` and `0` count as set. */
  lemma OwnTruthyValueWins(own: FacetTable, ancestry: seq<FacetTable>, name: string, toInherit: seq<string>, k: string)
    requires TruthyAt(own, name, toInherit, k)
    ensures InheritedFacetAttributesOf(own, ancestry, name, toInherit).Ok?
    ensures var r := InheritedFacetAttributesOf(own, ancestry, name, toInherit).value;
            k in r && r[k] == own[name].attributes[k]
  {
    TruthyValueKept(InheritedAttributes(own[name].attributes, toInherit), ancestry, name, toInherit, k);
  }

  /** When the hostgroup's own value is nil, false or missing, the nearest
      ancestor holding a truthy value supplies it. */
  lemma NearestAncestorFillsBlank(
    own: FacetTable, ancestry: seq<FacetTable>, name: string, toInherit: seq<string>, k: string, j: int)
    requires name in own && !TruthyAt(own, name, toInherit, k)
    requires 0 <= j < |ancestry| && TruthyAt(ancestry[j], name, toInherit, k)
    requires forall i :: j < i < |ancestry| ==> !TruthyAt(ancestry[i], name, toInherit, k)
    ensures InheritedFacetAttributesOf(own, ancestry, name, toInherit).Ok?
    ensures var r := InheritedFacetAttributesOf(own, ancestry, name, toInherit).value;
            k in r && r[k] == ancestry[j][name].attributes[k]
  {
    NearestTruthyAncestorWins(InheritedAttributes(own[name].attributes, toInherit), ancestry, name, toInherit, k, j);
  }

  /** The result's keys: the hostgroup's own inheritable keys and those of
      every ancestor that has the facet. */
  lemma ResolvedKeys(own: FacetTable, ancestry: seq<FacetTable>, name: string, toInherit: seq<string>, k: string)
    requires name in own
    ensures var r := InheritedFacetAttributesOf(own, ancestry, name, toInherit).value;
            k in r <==> OffersKey(own, name, toInherit, k)
                        || exists i :: 0 <= i < |ancestry| && OffersKey(ancestry[i], name, toInherit, k)
  {
    MergedKeys(InheritedAttributes(own[name].attributes, toInherit), ancestry, name, toInherit, k);
  }

  /** With no truthy value for `k` anywhere in the chain, `k` is absent or blank. */
  lemma NoTruthyValueStaysBlank(own: FacetTable, ancestry: seq<FacetTable>, name: string, toInherit: seq<string>, k: string)
    requires name in own && !TruthyAt(own, name, toInherit, k)
    requires forall i :: 0 <= i < |ancestry| ==> !TruthyAt(ancestry[i], name, toInherit, k)
    ensures var r := InheritedFacetAttributesOf(own, ancestry, name, toInherit).value;
            k in r ==> !Truthy(r[k])
  {
    AllBlankStaysBlank(InheritedAttributes(own[name].attributes, toInherit), ancestry, name, toInherit, k);
  }

  /** With no truthy value for `k` anywhere in the chain, an ancestor that
      offers `k` still sets it: the farthest such ancestor's value (nil or
      false) is the result, replacing the hostgroup's own blank value. */
  lemma FarthestAncestorSetsBlank(
    own: FacetTable, ancestry: seq<FacetTable>, name: string, toInherit: seq<string>, k: string, i0: int)
    requires name in own && !TruthyAt(own, name, toInherit, k)
    requires forall i :: 0 <= i < |ancestry| ==> !TruthyAt(ancestry[i], name, toInherit, k)
    requires 0 <= i0 < |ancestry| && OffersKey(ancestry[i0], name, toInherit, k)
    requires forall i :: 0 <= i < i0 ==> !OffersKey(ancestry[i], name, toInherit, k)
    ensures InheritedFacetAttributesOf(own, ancestry, name, toInherit).Ok?
    ensures var r := InheritedFacetAttributesOf(own, ancestry, name, toInherit).value;
            k in r && r[k] == ancestry[i0][name].attributes[k]
  {
    FarthestBlankOfferWins(InheritedAttributes(own[name].attributes, toInherit), ancestry, name, toInherit, k, i0);
  }

  /** When no ancestor offers `k`, the hostgroup's own inheritable value, or
      its absence, is the result, whatever that value is. */
  lemma OwnValueKeptWithoutOffers(own: FacetTable, ancestry: seq<FacetTable>, name: string, toInherit: seq<string>, k: string)
    requires name in own
    requires forall i :: 0 <= i < |ancestry| ==> !OffersKey(ancestry[i], name, toInherit, k)
    ensures InheritedFacetAttributesOf(own, ancestry, name, toInherit).Ok?
    ensures var r := InheritedFacetAttributesOf(own, ancestry, name, toInherit).value;
            && (k in r <==> OffersKey(own, name, toInherit, k))
            && (OffersKey(own, name, toInherit, k) ==> r[k] == own[name].attributes[k])
  {
    UnofferedKeyKept(InheritedAttributes(own[name].attributes, toInherit), ancestry, name, toInherit, k);
  }

  /** A hostgroup without its own facet makes the resolver raise. */
  lemma MissingOwnFacetRaises(own: FacetTable, ancestry: seq<FacetTable>, name: string, toInherit: seq<string>)
    requires name !in own
    ensures InheritedFacetAttributesOf(own, ancestry, name, toInherit).Err?
  {
  }

  /** The three-level scenario: root `os = "rhel8"`, middle `domain =
      "corp.example"`, leaf with both nil, inheriting `os` and `domain`. */
  lemma ThreeLevelScenario()
    ensures
      var nil2 := map["os" := Nil, "domain" := Nil];
      var root := map["provisioning" := FacetInstance(map["os" := Str("rhel8"), "domain" := Nil])];
      var mid := map["provisioning" := FacetInstance(map["os" := Nil, "domain" := Str("corp.example")])];
      var leaf := map["provisioning" := FacetInstance(nil2)];
      InheritedFacetAttributesOf(leaf, [root, mid], "provisioning", ["os", "domain"])
        == Ok(map["os" := Str("rhel8"), "domain" := Str("corp.example")])
  {
    var nil2 := map["os" := Nil, "domain" := Nil];
    var root := map["provisioning" := FacetInstance(map["os" := Str("rhel8"), "domain" := Nil])];
    var mid := map["provisioning" := FacetInstance(map["os" := Nil, "domain" := Str("corp.example")])];
    var leaf := map["provisioning" := FacetInstance(nil2)];
    var names := ["os", "domain"];
    var r := InheritedFacetAttributesOf(leaf, [root, mid], "provisioning", names).value;
    NearestAncestorFillsBlank(leaf, [root, mid], "provisioning", names, "os", 0);
    NearestAncestorFillsBlank(leaf, [root, mid], "provisioning", names, "domain", 1);
    forall k ensures k in r <==> k == "os" || k == "domain" {
      ResolvedKeys(leaf, [root, mid], "provisioning", names, k);
    }
    assert r == map["os" := Str("rhel8"), "domain" := Str("corp.example")];
  }

  /* ---------------------------------------------------------------------- */
  /* The hostgroup record                                                    */
  /* ---------------------------------------------------------------------- */

  /** A hostgroup: its facet accessors and the memoised ancestry
      (`@hostgroup_ancestry_cache`), each ancestor loaded with its facets. */
  class Hostgroup {
    const facets: FacetTable
    var ancestryCache: Option<seq<FacetTable>>

    constructor (facets: FacetTable)
      ensures this.facets == facets && ancestryCache == None
    {
      this.facets := facets;
      ancestryCache := None;
    }

    /** `hostgroup_ancestry_cache`: the first call stores the ancestors the
        storage layer loads (root first); later calls return the stored list. */
    method HostgroupAncestryCache(loaded: seq<FacetTable>) returns (ancestry: seq<FacetTable>)
      modifies this`ancestryCache
      ensures old(ancestryCache).Some? ==> ancestry == old(ancestryCache).value
      ensures old(ancestryCache).None? ==> ancestry == loaded
      ensures ancestryCache == Some(ancestry)
    {
      if ancestryCache.None? {
        ancestryCache := Some(loaded);
      }
      ancestry := ancestryCache.value;
    }

    /** `inherited_facet_attributes(facet_config)`; the facet model's
        declared names come from `model`, whose list is initialised on first read. */
    method InheritedFacetAttributes(name: string, model: FacetModel, loaded: seq<FacetTable>)
      returns (r: Result<map<string, Value>>)
      requires model.Valid()
      modifies this`ancestryCache, model
      ensures name !in facets ==> r.Err? && ancestryCache == old(ancestryCache)
      ensures name !in facets ==> model.attributesToInherit == old(model.attributesToInherit)
      ensures name in facets ==>
        model.attributesToInherit
          == Some(if old(model.attributesToInherit).Some? then old(model.attributesToInherit).value else [])
      ensures name in facets ==>
        && ancestryCache.Some?
        && (old(ancestryCache).Some? ==> ancestryCache == old(ancestryCache))
        && (old(ancestryCache).None? ==> ancestryCache == Some(loaded))
        && var toInherit := if old(model.attributesToInherit).Some? then old(model.attributesToInherit).value else [];
           r == InheritedFacetAttributesOf(facets, ancestryCache.value, name, toInherit)
      ensures model.Valid()
    {
      if name !in facets {
        return Err(NoMethodOnNil("inherited_attributes"));
      }
      var toInherit := model.AttributesToInherit();
      var own := InheritedAttributes(facets[name].attributes, toInherit);
      var ancestry := HostgroupAncestryCache(loaded);
      var merged := MergeAncestors(own, ancestry, name, toInherit);
      r := Ok(merged);
    }
  }
}
