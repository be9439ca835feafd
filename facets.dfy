/** The facet data every concern works on: facet definitions with their
    per-kind configurations, the registry of definitions, facet instances and
    the `"<name>_attributes"` key under which a facet's attributes travel.
    The registry module itself (`Facets.registered_facets`, `Facets.after_entry_created`)
    is not part of this model; the registry is passed around as a sequence in
    registration order. */
module Facets {
  import opened Values

  /** The base-entity kinds a facet can be configured for. */
  datatype Kind = HostKind | HostgroupKind

  /** A facet definition's configuration for one kind. */
  datatype TypeConfig = TypeConfig(
    model: string,                                   // class name of the facet record
    extension: Option<string>,                       // module mixed into the base model
    compatibilityProperties: Option<seq<string>>)    // legacy properties forwarded to the facet

  /** A registered facet definition. */
  datatype FacetDefinition = FacetDefinition(
    name: string,
    hostConfiguration: Option<TypeConfig>,
    hostgroupConfiguration: Option<TypeConfig>)

  function Configuration(d: FacetDefinition, kind: Kind): Option<TypeConfig> {
    match kind
    case HostKind => d.hostConfiguration
    case HostgroupKind => d.hostgroupConfiguration
  }

  predicate HasConfiguration(d: FacetDefinition, kind: Kind) {
    Configuration(d, kind).Some?
  }

  /** The registry is a hash keyed by facet name, so names are unique. */
  predicate UniqueNames(registry: seq<FacetDefinition>) {
    forall i, j :: 0 <= i < j < |registry| ==> registry[i].name != registry[j].name
  }

  /** A facet record attached to a host or a hostgroup. */
  datatype FacetInstance = FacetInstance(attributes: map<string, Value>)

  /** What an entity's facet accessors return, by facet name; a missing name
      stands for an accessor returning nil. */
  type FacetTable = map<string, FacetInstance>

  /** The key `"#{name}_attributes"`. */
  function AttributesKey(name: string): string {
    name + "_attributes"
  }

  /** Distinct facets never share an attributes key. */
  lemma AttributesKeyInjective(a: string, b: string)
    ensures AttributesKey(a) == AttributesKey(b) <==> a == b
  {
    if AttributesKey(a) == AttributesKey(b) {
      assert |a| == |b|;
      assert a == AttributesKey(a)[..|a|];
      assert b == AttributesKey(b)[..|b|];
    }
  }
}
