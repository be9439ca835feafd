/** The `ManagedHostExtensions` concern: the host kind of the binding code
    and `apply_facet_attributes`, which fills a new host's attribute hash
    with what its hostgroup passes down to each host facet. */
module ManagedHostExtensions {
  import opened Values
  import opened Facets
  import opened ModelExtensionsBase

  /** The host extension module: facet type `:host`, foreign key `:host_id`,
      inverse `:host` (the values it hands to `configure_facet`). */
  const ManagedHostModule: ExtensionModule :=
    ExtensionModule(Some(HostKind), Some("host_id"), Some("host"))

  /** Binding onto `Host::Managed` uses the host configuration and the host
      keys; definitions without a host configuration are skipped. */
  lemma ManagedHostBinding(s: ClassState, d: FacetDefinition, inMigrate: bool)
    ensures d.hostConfiguration.None? ==> AfterRegister(s, ManagedHostModule, d, inMigrate) == Ok(s)
    ensures d.hostConfiguration.Some? ==>
      && AfterRegister(s, ManagedHostModule, d, inMigrate).Ok?
      && AfterRegister(s, ManagedHostModule, d, inMigrate).value.associations[d.name]
         == Association(d.hostConfiguration.value.model, "host_id", "host")
  {
  }

  /** A facet model's `inherited_attributes(hostgroup, attributes)`, for the
      hostgroup at hand: it receives the facet model's name and the
      caller-supplied facet attributes and answers an attribute hash. Its
      code is not part of this model. */
  type Resolver = (string, Value) -> map<string, Value>

  /** `attributes["<name>_attributes"] || {}`. */
  function FacetAttributesInput(attributes: map<string, Value>, key: string): Value {
    if key in attributes && Truthy(attributes[key]) then attributes[key] else Hash(map[])
  }

  /** One iteration of the loop over the registry. */
  function ApplyDefinition(attributes: map<string, Value>, d: FacetDefinition, resolve: Resolver)
    : map<string, Value>
  {
    if d.hostConfiguration.None? then attributes
    else
      var key := AttributesKey(d.name);
      var merged := resolve(d.hostConfiguration.value.model, FacetAttributesInput(attributes, key));
      if merged == map[] then attributes else attributes[key := Hash(merged)]
  }

  /** The attribute hash after the loop over the registry, in registration order. */
  function AppliedFacetAttributes(attributes: map<string, Value>, registry: seq<FacetDefinition>, resolve: Resolver)
    : map<string, Value>
    decreases |registry|
  {
    if registry == [] then attributes
    else AppliedFacetAttributes(ApplyDefinition(attributes, registry[0], resolve), registry[1..], resolve)
  }

  /** The caller's attribute hash, updated in place. */
  class AttributeHash {
    var entries: map<string, Value>

    constructor (entries: map<string, Value>)
      ensures this.entries == entries
    {
      this.entries := entries;
    }
  }

  /** `apply_facet_attributes(hostgroup, attributes)`: updates `attributes`
      in place and returns it. */
  method ApplyFacetAttributes(attributes: AttributeHash, registry: seq<FacetDefinition>, resolve: Resolver)
    returns (r: AttributeHash)
    modifies attributes
    ensures r == attributes
    ensures attributes.entries == AppliedFacetAttributes(old(attributes.entries), registry, resolve)
  {
    var i := 0;
    assert registry[i..] == registry;
    while i < |registry|
      invariant 0 <= i <= |registry|
      invariant AppliedFacetAttributes(attributes.entries, registry[i..], resolve)
             == AppliedFacetAttributes(old(attributes.entries), registry, resolve)
    {
      assert registry[i..][0] == registry[i] && registry[i..][1..] == registry[i + 1..];
      var d := registry[i];
      if d.hostConfiguration.Some? {
        var key := AttributesKey(d.name);
        var facetAttributes := if key in attributes.entries && Truthy(attributes.entries[key])
          then attributes.entries[key] else Hash(map[]);
        var merged := resolve(d.hostConfiguration.value.model, facetAttributes);
        if merged != map[] {
          attributes.entries := attributes.entries[key := Hash(merged)];
        }
      }
      i := i + 1;
    }
    r := attributes;
  }

  /** Keys that are not the `"<name>_attributes"` key of a host-configured
      facet are never added, removed or changed. */
  lemma {:induction false} OtherKeysUnchanged(
    attributes: map<string, Value>, registry: seq<FacetDefinition>, resolve: Resolver, k: string)
    requires forall d :: d in registry && d.hostConfiguration.Some? ==> k != AttributesKey(d.name)
    ensures k in AppliedFacetAttributes(attributes, registry, resolve) <==> k in attributes
    ensures k in attributes ==> AppliedFacetAttributes(attributes, registry, resolve)[k] == attributes[k]
    decreases |registry|
  {
    if registry != [] {
      var next := ApplyDefinition(attributes, registry[0], resolve);
      assert k in next <==> k in attributes;
      assert k in attributes ==> next[k] == attributes[k];
      forall d | d in registry[1..] && d.hostConfiguration.Some? ensures k != AttributesKey(d.name) {
        assert d in registry;
      }
      OtherKeysUnchanged(next, registry[1..], resolve, k);
    }
  }

  /** A definition without a host configuration is skipped: its
      `"<name>_attributes"` entry is left as it was. */
  lemma NonHostFacetEntryUntouched(
    attributes: map<string, Value>, registry: seq<FacetDefinition>, resolve: Resolver, d: FacetDefinition)
    requires UniqueNames(registry) && d in registry && d.hostConfiguration.None?
    ensures var key := AttributesKey(d.name);
            var result := AppliedFacetAttributes(attributes, registry, resolve);
            (key in result <==> key in attributes) && (key in attributes ==> result[key] == attributes[key])
  {
    var key := AttributesKey(d.name);
    forall e | e in registry && e.hostConfiguration.Some? ensures key != AttributesKey(e.name) {
      var i :| 0 <= i < |registry| && registry[i] == d;
      var j :| 0 <= j < |registry| && registry[j] == e;
      assert i != j;
      AttributesKeyInjective(d.name, e.name);
    }
    OtherKeysUnchanged(attributes, registry, resolve, key);
  }

  /** For a host-configured facet: a missing, nil or false entry reaches the
      resolver as an empty hash; the resolver's answer is written back only
      when it is non-empty, otherwise the entry (or its absence) is kept. */
  lemma {:induction false} HostFacetEntryResolved(
    attributes: map<string, Value>, registry: seq<FacetDefinition>, resolve: Resolver, d: FacetDefinition)
    requires UniqueNames(registry) && d in registry && d.hostConfiguration.Some?
    ensures var key := AttributesKey(d.name);
            (key !in attributes || !Truthy(attributes[key])) ==> FacetAttributesInput(attributes, key) == Hash(map[])
    ensures var key := AttributesKey(d.name);
            var merged := resolve(d.hostConfiguration.value.model, FacetAttributesInput(attributes, key));
            var result := AppliedFacetAttributes(attributes, registry, resolve);
            && (merged != map[] ==> key in result && result[key] == Hash(merged))
            && (merged == map[] ==> (key in result <==> key in attributes) && (key in attributes ==> result[key] == attributes[key]))
    decreases |registry|
  {
    var key := AttributesKey(d.name);
    var first := registry[0];
    var next := ApplyDefinition(attributes, first, resolve);
    var rest := registry[1..];
    assert UniqueNames(rest);
    if first == d {
      forall e | e in rest && e.hostConfiguration.Some? ensures key != AttributesKey(e.name) {
        var j :| 0 <= j < |rest| && rest[j] == e;
        assert registry[j + 1] == e;
        AttributesKeyInjective(d.name, e.name);
      }
      OtherKeysUnchanged(next, rest, resolve, key);
    } else {
      var i :| 0 <= i < |registry| && registry[i] == d;
      assert i != 0;
      AttributesKeyInjective(d.name, first.name);
      assert key != AttributesKey(first.name);
      assert (key in next <==> key in attributes) && (key in attributes ==> next[key] == attributes[key]);
      assert FacetAttributesInput(next, key) == FacetAttributesInput(attributes, key);
      assert d in rest;
      HostFacetEntryResolved(next, rest, resolve, d);
    }
  }
}
