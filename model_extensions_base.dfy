/** The `ModelExtensionsBase` concern shared by hosts and hostgroups: the
    facet-bearing entity surface (`facets`, `facets_with_definitions`, the
    `attributes` override, property forwarding) and the binding of facet
    definitions onto a model class (`register_facet_relation`,
    `refresh_facet_relations`, the overridable kind methods). */
module ModelExtensionsBase {
  import opened Values
  import opened Facets

  /* ---------------------------------------------------------------------- */
  /* Facet-bearing entity                                                    */
  /* ---------------------------------------------------------------------- */

  /** A host or hostgroup record: its own attributes (what `super` returns in
      the `attributes` override) and its facet accessors. */
  datatype Entity = Entity(own: map<string, Value>, facets: FacetTable)

  /** `facets_with_definitions`: each registered definition whose facet is
      present, paired with that facet instance, in registration order. */
  function FacetsWithDefinitions(facets: FacetTable, registry: seq<FacetDefinition>)
    : (r: seq<(FacetInstance, FacetDefinition)>)
    ensures |r| <= |registry|
    ensures forall p :: p in r ==> p.1 in registry && p.1.name in facets && p.0 == facets[p.1.name]
    ensures forall d :: d in registry && d.name in facets ==> (facets[d.name], d) in r
  {
    if registry == [] then []
    else
      var d := registry[0];
      (if d.name in facets then [(facets[d.name], d)] else []) + FacetsWithDefinitions(facets, registry[1..])
  }

  /** Registration order is kept: the pairs for a registry are those for its
      first part followed by those for its second part. */
  lemma {:induction false} FacetsWithDefinitionsKeepsOrder(
    facets: FacetTable, first: seq<FacetDefinition>, second: seq<FacetDefinition>)
    ensures FacetsWithDefinitions(facets, first + second)
         == FacetsWithDefinitions(facets, first) + FacetsWithDefinitions(facets, second)
  {
    if first == [] {
      assert first + second == second;
    } else {
      assert (first + second)[0] == first[0];
      assert (first + second)[1..] == first[1..] + second;
      FacetsWithDefinitionsKeepsOrder(facets, first[1..], second);
      var head := if first[0].name in facets then [(facets[first[0].name], first[0])] else [];
      assert head + (FacetsWithDefinitions(facets, first[1..]) + FacetsWithDefinitions(facets, second))
          == (head + FacetsWithDefinitions(facets, first[1..])) + FacetsWithDefinitions(facets, second);
    }
  }

  /** A definition appears in `facets_with_definitions` exactly when the
      entity's accessor for it returns an instance. */
  lemma FacetsWithDefinitionsMembership(facets: FacetTable, registry: seq<FacetDefinition>, d: FacetDefinition)
    requires d in registry
    ensures (exists f :: (f, d) in FacetsWithDefinitions(facets, registry)) <==> d.name in facets
  {
    if d.name in facets {
      assert (facets[d.name], d) in FacetsWithDefinitions(facets, registry);
    }
  }

  /** `facets`: the keys of `facets_with_definitions`. */
  function FacetsOf(facets: FacetTable, registry: seq<FacetDefinition>): (r: seq<FacetInstance>)
    ensures |r| == |FacetsWithDefinitions(facets, registry)|
    ensures forall i :: 0 <= i < |r| ==> r[i] == FacetsWithDefinitions(facets, registry)[i].0
  {
    var pairs := FacetsWithDefinitions(facets, registry);
    seq(|pairs|, i requires 0 <= i < |pairs| => pairs[i].0)
  }

  /** An instance is among `facets` exactly when some registered definition's
      accessor returns it. */
  lemma FacetsAreAttachedInstances(facets: FacetTable, registry: seq<FacetDefinition>, x: FacetInstance)
    ensures x in FacetsOf(facets, registry)
        <==> exists d :: d in registry && d.name in facets && facets[d.name] == x
  {
    var pairs := FacetsWithDefinitions(facets, registry);
    var r := FacetsOf(facets, registry);
    if x in r {
      var i :| 0 <= i < |r| && r[i] == x;
      assert pairs[i] in pairs;
    }
    if exists d :: d in registry && d.name in facets && facets[d.name] == x {
      var d :| d in registry && d.name in facets && facets[d.name] == x;
      assert (x, d) in pairs;
      var i :| 0 <= i < |pairs| && pairs[i] == (x, d);
      assert r[i] == x;
    }
  }

  /** The bookkeeping keys the `attributes` override leaves out of a facet's sub-hash. */
  const Timestamps: set<string> := {"created_at", "updated_at"}

  /** True when `k` is the `"<name>_attributes"` key of a facet the entity has. */
  ghost predicate IsAttachedKey(e: Entity, registry: seq<FacetDefinition>, k: string) {
    exists d :: d in registry && d.name in e.facets && k == AttributesKey(d.name)
  }

  /** The `attributes` override: the entity's own attributes, plus, for every
      attached facet, `"<name>_attributes"` holding the facet's attributes
      without the timestamps. */
  method Attributes(e: Entity, registry: seq<FacetDefinition>) returns (hash: map<string, Value>)
    ensures forall d :: d in registry && d.name in e.facets ==>
      AttributesKey(d.name) in hash && hash[AttributesKey(d.name)] == Hash(e.facets[d.name].attributes - Timestamps)
    ensures forall k :: k in e.own && !IsAttachedKey(e, registry, k) ==> k in hash && hash[k] == e.own[k]
    ensures forall k :: k in hash ==> k in e.own || IsAttachedKey(e, registry, k)
  {
    hash := e.own;
    var pairs := FacetsWithDefinitions(e.facets, registry);
    for i := 0 to |pairs|
      invariant forall j :: 0 <= j < i ==>
        AttributesKey(pairs[j].1.name) in hash
        && hash[AttributesKey(pairs[j].1.name)] == Hash(pairs[j].0.attributes - Timestamps)
      invariant forall k :: k in e.own && !IsAttachedKey(e, registry, k) ==> k in hash && hash[k] == e.own[k]
      invariant forall k :: k in hash ==> k in e.own || IsAttachedKey(e, registry, k)
    {
      var (facet, definition) := pairs[i];
      assert pairs[i] in pairs;
      var key := AttributesKey(definition.name);
      forall j | 0 <= j < i && AttributesKey(pairs[j].1.name) == key
        ensures pairs[j].0 == facet
      {
        assert pairs[j] in pairs;
        AttributesKeyInjective(pairs[j].1.name, definition.name);
      }
      hash := hash[key := Hash(facet.attributes - Timestamps)];
    }
    forall d | d in registry && d.name in e.facets
      ensures AttributesKey(d.name) in hash && hash[AttributesKey(d.name)] == Hash(e.facets[d.name].attributes - Timestamps)
    {
      var j :| 0 <= j < |pairs| && pairs[j] == (e.facets[d.name], d);
    }
  }

  /** `forward_property_call`: nil when the entity has no such facet,
      otherwise the facet's own answer to the same call. The facet's methods
      are not part of this model: `call` stands for them. */
  function ForwardPropertyCall(
    e: Entity, property: string, args: seq<Value>, facetName: string,
    call: (FacetInstance, string, seq<Value>) -> Value): Value
  {
    if facetName in e.facets then call(e.facets[facetName], property, args) else Nil
  }

  /* ---------------------------------------------------------------------- */
  /* Binding definitions onto a model class                                  */
  /* ---------------------------------------------------------------------- */

  /** What an extension module answers for the overridable class methods;
      `None` is the default that raises. */
  datatype ExtensionModule = ExtensionModule(
    facetType: Option<Kind>,
    baseModelIdField: Option<string>,
    baseModelSymbol: Option<string>)

  /** The `has_one` association a facet gets, with its nested attributes and
      the `"<name>_attributes"` alias. */
  datatype Association = Association(className: string, foreignKey: string, inverseOf: string)

  /** The facet-related definitions of a model class. */
  datatype ClassState = ClassState(
    associations: map<string, Association>,   // by facet name
    extensions: set<string>,                  // included extension modules
    clonedFacets: set<string>,                // facets included in cloning
    forwarders: map<string, string>,          // compatibility property -> facet name
    migrationChecked: set<string>)            // accessors wrapped by the migration guard

  /** The forwarders `extend_model` defines for one configuration. */
  function Forwarders(properties: Option<seq<string>>, facetName: string): map<string, string> {
    match properties
    case None => map[]
    case Some(ps) => map p | p in ps :: facetName
  }

  /** The class definition after `register_facet_relation(klass, d)`, or the
      error it raises. */
  function AfterRegister(s: ClassState, mod: ExtensionModule, d: FacetDefinition, inMigrate: bool)
    : Result<ClassState>
  {
    match mod.facetType
    case None => Err(NotOverridden("facet_type"))
    case Some(kind) =>
      if !HasConfiguration(d, kind) then Ok(s)
      else if mod.baseModelIdField.None? then Err(NotOverridden("base_model_id_field"))
      else if mod.baseModelSymbol.None? then Err(NotOverridden("base_model_symbol"))
      else
        var config := Configuration(d, kind).value;
        Ok(ClassState(
          s.associations[d.name := Association(config.model, mod.baseModelIdField.value, mod.baseModelSymbol.value)],
          s.extensions + (if config.extension.Some? then {config.extension.value} else {}),
          s.clonedFacets + {d.name},
          s.forwarders + Forwarders(config.compatibilityProperties, d.name),
          s.migrationChecked + (if inMigrate then {d.name} else {})))
  }

  /** The class definition after `refresh_facet_relations(klass)`, or the
      first error raised. */
  function AfterRefresh(s: ClassState, mod: ExtensionModule, registry: seq<FacetDefinition>, inMigrate: bool)
    : Result<ClassState>
    decreases |registry|
  {
    if registry == [] then Ok(s)
    else
      match AfterRegister(s, mod, registry[0], inMigrate)
      case Err(e) => Err(e)
      case Ok(t) => AfterRefresh(t, mod, registry[1..], inMigrate)
  }

  /** Calling a compatibility property on an entity of a class with the given
      forwarders: `None` when the class defines no such method. */
  function CallCompatibilityProperty(
    forwarders: map<string, string>, e: Entity, property: string, args: seq<Value>,
    call: (FacetInstance, string, seq<Value>) -> Value): Option<Value>
  {
    if property in forwarders then Some(ForwardPropertyCall(e, property, args, forwarders[property], call))
    else None
  }

  /** The accessor of a facet: inside `db:migrate`, when the guard wraps it and
      the facet's table does not exist yet, it answers nil. */
  function FacetAccessor(stored: Option<FacetInstance>, guarded: bool, tableExists: bool): Option<FacetInstance> {
    if guarded && !tableExists then None else stored
  }

  /** The guards: a definition with no configuration for the module's kind
      leaves the class untouched; a module that does not override
      `facet_type` raises for every definition; a configured definition
      raises for whichever of `base_model_id_field` and `base_model_symbol`
      (in that order) is not overridden. */
  lemma RegisterGuards(s: ClassState, mod: ExtensionModule, d: FacetDefinition, inMigrate: bool)
    ensures mod.facetType.None? ==> AfterRegister(s, mod, d, inMigrate) == Err(NotOverridden("facet_type"))
    ensures mod.facetType.Some? && !HasConfiguration(d, mod.facetType.value) ==>
      AfterRegister(s, mod, d, inMigrate) == Ok(s)
    ensures mod.facetType.Some? && HasConfiguration(d, mod.facetType.value) && mod.baseModelIdField.None? ==>
      AfterRegister(s, mod, d, inMigrate) == Err(NotOverridden("base_model_id_field"))
    ensures mod.facetType.Some? && HasConfiguration(d, mod.facetType.value)
            && mod.baseModelIdField.Some? && mod.baseModelSymbol.None? ==>
      AfterRegister(s, mod, d, inMigrate) == Err(NotOverridden("base_model_symbol"))
  {
  }

  /** One forwarder per listed compatibility property, each naming this
      facet; none when the list is nil; the other forwarders are kept. */
  lemma RegisterInstallsForwarders(s: ClassState, mod: ExtensionModule, d: FacetDefinition, inMigrate: bool)
    requires mod.facetType.Some? && HasConfiguration(d, mod.facetType.value)
    requires AfterRegister(s, mod, d, inMigrate).Ok?
    ensures var t := AfterRegister(s, mod, d, inMigrate).value;
            var props := Configuration(d, mod.facetType.value).value.compatibilityProperties;
            && (props.None? ==> t.forwarders == s.forwarders)
            && (props.Some? ==> t.forwarders.Keys == s.forwarders.Keys + set p | p in props.value)
            && (props.Some? ==> forall p :: p in props.value ==> t.forwarders[p] == d.name)
            && (forall p :: p in s.forwarders && (props.None? || p !in props.value) ==> t.forwarders[p] == s.forwarders[p])
  {
  }

  /** Through an installed forwarder, a compatibility property answers nil
      when the entity lacks the facet and the facet's answer otherwise. */
  lemma ForwardedPropertyCall(
    s: ClassState, mod: ExtensionModule, d: FacetDefinition, inMigrate: bool,
    e: Entity, p: string, args: seq<Value>, call: (FacetInstance, string, seq<Value>) -> Value)
    requires mod.facetType.Some? && HasConfiguration(d, mod.facetType.value)
    requires AfterRegister(s, mod, d, inMigrate).Ok?
    requires var props := Configuration(d, mod.facetType.value).value.compatibilityProperties;
             props.Some? && p in props.value
    ensures var t := AfterRegister(s, mod, d, inMigrate).value;
            CallCompatibilityProperty(t.forwarders, e, p, args, call)
              == Some(if d.name in e.facets then call(e.facets[d.name], p, args) else Nil)
  {
    RegisterInstallsForwarders(s, mod, d, inMigrate);
  }

  /** Outside `db:migrate`, registering the same definition twice leaves the
      class as registering it once. */
  lemma RegisterIdempotent(s: ClassState, mod: ExtensionModule, d: FacetDefinition)
    requires AfterRegister(s, mod, d, false).Ok?
    ensures var t := AfterRegister(s, mod, d, false).value;
            AfterRegister(t, mod, d, false) == Ok(t)
  {
    var inMigrate := false;
    var t := AfterRegister(s, mod, d, inMigrate).value;
    if mod.facetType.Some? && HasConfiguration(d, mod.facetType.value) {
      var config := Configuration(d, mod.facetType.value).value;
      var f := Forwarders(config.compatibilityProperties, d.name);
      var a := Association(config.model, mod.baseModelIdField.value, mod.baseModelSymbol.value);
      assert t.associations[d.name := a] == t.associations;
      assert t.forwarders + f == t.forwarders;
      assert t.extensions + (if config.extension.Some? then {config.extension.value} else {}) == t.extensions;
      assert t.clonedFacets + {d.name} == t.clonedFacets;
      assert t.migrationChecked + (if inMigrate then {d.name} else {}) == t.migrationChecked;
    }
  }

  /** After a successful refresh the class has an association for exactly the
      definitions configured for its kind (besides those it had), and each is
      included in cloning. */
  lemma {:induction false} RefreshRegistersEachConfigured(
    s: ClassState, mod: ExtensionModule, registry: seq<FacetDefinition>, inMigrate: bool)
    requires AfterRefresh(s, mod, registry, inMigrate).Ok?
    ensures registry != [] ==> mod.facetType.Some?
    ensures s.clonedFacets <= AfterRefresh(s, mod, registry, inMigrate).value.clonedFacets
    ensures var t := AfterRefresh(s, mod, registry, inMigrate).value;
            forall d :: d in registry && mod.facetType.Some? && HasConfiguration(d, mod.facetType.value) ==>
              d.name in t.associations && d.name in t.clonedFacets
    ensures var t := AfterRefresh(s, mod, registry, inMigrate).value;
            forall n :: n in t.associations <==>
              n in s.associations
              || exists d :: d in registry && mod.facetType.Some? && HasConfiguration(d, mod.facetType.value) && d.name == n
    decreases |registry|
  {
    if registry != [] {
      var t1 := AfterRegister(s, mod, registry[0], inMigrate).value;
      RefreshRegistersEachConfigured(t1, mod, registry[1..], inMigrate);
      var t := AfterRefresh(s, mod, registry, inMigrate).value;
      assert t == AfterRefresh(t1, mod, registry[1..], inMigrate).value;
      forall d | d in registry && HasConfiguration(d, mod.facetType.value)
        ensures d.name in t.associations && d.name in t.clonedFacets
      {
        if d != registry[0] {
          assert d in registry[1..];
        }
      }
      forall n
        ensures n in t.associations <==>
          n in s.associations
          || exists d :: d in registry && mod.facetType.Some? && HasConfiguration(d, mod.facetType.value) && d.name == n
      {
        if exists d :: d in registry[1..] && HasConfiguration(d, mod.facetType.value) && d.name == n {
          var d :| d in registry[1..] && HasConfiguration(d, mod.facetType.value) && d.name == n;
          assert d in registry;
        }
        if exists d :: d in registry && HasConfiguration(d, mod.facetType.value) && d.name == n {
          var d :| d in registry && HasConfiguration(d, mod.facetType.value) && d.name == n;
          if d != registry[0] {
            assert d in registry[1..];
          }
        }
      }
    }
  }

  /** A failing refresh changes nothing: the only errors come from methods the
      module does not override, and those raise before any definition with a
      configuration for the kind is bound. */
  lemma {:induction false} RefreshErrorChangesNothing(
    s: ClassState, mod: ExtensionModule, registry: seq<FacetDefinition>, inMigrate: bool)
    requires mod.facetType.None? || mod.baseModelIdField.None? || mod.baseModelSymbol.None?
    ensures AfterRefresh(s, mod, registry, inMigrate).Ok? ==> AfterRefresh(s, mod, registry, inMigrate).value == s
    ensures mod.facetType.None? && registry != [] ==>
      AfterRefresh(s, mod, registry, inMigrate) == Err(NotOverridden("facet_type"))
    ensures mod.facetType.Some? && (exists d :: d in registry && HasConfiguration(d, mod.facetType.value)) ==>
      AfterRefresh(s, mod, registry, inMigrate)
        == Err(NotOverridden(if mod.baseModelIdField.None? then "base_model_id_field" else "base_model_symbol"))
    decreases |registry|
  {
    if registry != [] {
      match AfterRegister(s, mod, registry[0], inMigrate)
      case Err(_) =>
      case Ok(t) =>
        assert t == s;
        RefreshErrorChangesNothing(s, mod, registry[1..], inMigrate);
        if mod.facetType.Some? && (exists d :: d in registry && HasConfiguration(d, mod.facetType.value)) {
          var d :| d in registry && HasConfiguration(d, mod.facetType.value);
          assert d != registry[0];
          assert d in registry[1..];
        }
    }
  }

  /** Outside `db:migrate` binding never wraps an accessor: it returns the stored facet. */
  lemma AccessorUnguardedOutsideMigration(
    s: ClassState, mod: ExtensionModule, d: FacetDefinition, stored: Option<FacetInstance>, tableExists: bool)
    requires AfterRegister(s, mod, d, false).Ok?
    requires d.name !in s.migrationChecked
    ensures var t := AfterRegister(s, mod, d, false).value;
            FacetAccessor(stored, d.name in t.migrationChecked, tableExists) == stored
  {
  }

  /** The `define_method` loop of `extend_model`: one forwarder per listed
      compatibility property, none when the list is nil; a property that
      already had a forwarder is redefined. */
  method DefineForwarders(forwarders: map<string, string>, properties: Option<seq<string>>, facetName: string)
    returns (installed: map<string, string>)
    ensures installed == forwarders + Forwarders(properties, facetName)
  {
    installed := forwarders;
    if properties.Some? {
      var props := properties.value;
      for i := 0 to |props|
        invariant installed == forwarders + map p | p in props[..i] :: facetName
      {
        assert props[..i + 1] == props[..i] + [props[i]];
        installed := installed[props[i] := facetName];
      }
      assert props[..|props|] == props;
    }
  }

  /** A Rails model class whose definition the binding code extends in place. */
  class ModelClass {
    var associations: map<string, Association>
    var extensions: set<string>
    var clonedFacets: set<string>
    var forwarders: map<string, string>
    var migrationChecked: set<string>

    function State(): ClassState
      reads this
    {
      ClassState(associations, extensions, clonedFacets, forwarders, migrationChecked)
    }

    constructor (s: ClassState)
      ensures State() == s
    {
      associations, extensions, clonedFacets := s.associations, s.extensions, s.clonedFacets;
      forwarders, migrationChecked := s.forwarders, s.migrationChecked;
    }

    /** `register_facet_relation(klass, d)` of extension module `mod`. */
    method RegisterFacetRelation(mod: ExtensionModule, d: FacetDefinition, inMigrate: bool)
      returns (error: Option<Error>)
      modifies this
      ensures AfterRegister(old(State()), mod, d, inMigrate).Ok? ==>
        error == None && State() == AfterRegister(old(State()), mod, d, inMigrate).value
      ensures AfterRegister(old(State()), mod, d, inMigrate).Err? ==>
        error == Some(AfterRegister(old(State()), mod, d, inMigrate).error) && State() == old(State())
    {
      if mod.facetType.None? {
        return Some(NotOverridden("facet_type"));
      }
      var kind := mod.facetType.value;
      if !HasConfiguration(d, kind) {
        return None;
      }
      var config := Configuration(d, kind).value;
      // extend_model_attributes
      if mod.baseModelIdField.None? {
        return Some(NotOverridden("base_model_id_field"));
      }
      if mod.baseModelSymbol.None? {
        return Some(NotOverridden("base_model_symbol"));
      }
      ghost var expected := AfterRegister(State(), mod, d, inMigrate).value;
      associations := associations[d.name :=
        Association(config.model, mod.baseModelIdField.value, mod.baseModelSymbol.value)];
      // extend_model
      if config.extension.Some? {
        extensions := extensions + {config.extension.value};
      }
      clonedFacets := clonedFacets + {d.name};
      var installed := DefineForwarders(forwarders, config.compatibilityProperties, d.name);
      forwarders := installed;
      // handle_migrations
      if inMigrate {
        migrationChecked := migrationChecked + {d.name};
      }
      assert State() == expected;
      error := None;
    }

    /** `refresh_facet_relations(klass)`: `register_facet_relation` for every
        registered definition, in order, stopping at the first error. */
    method RefreshFacetRelations(mod: ExtensionModule, registry: seq<FacetDefinition>, inMigrate: bool)
      returns (error: Option<Error>)
      modifies this
      ensures AfterRefresh(old(State()), mod, registry, inMigrate).Ok? ==>
        error == None && State() == AfterRefresh(old(State()), mod, registry, inMigrate).value
      ensures AfterRefresh(old(State()), mod, registry, inMigrate).Err? ==>
        error == Some(AfterRefresh(old(State()), mod, registry, inMigrate).error) && State() == old(State())
    {
      var i := 0;
      while i < |registry|
        invariant 0 <= i <= |registry|
        invariant AfterRefresh(old(State()), mod, registry, inMigrate)
               == AfterRefresh(State(), mod, registry[i..], inMigrate)
        invariant (mod.facetType.None? || mod.baseModelIdField.None? || mod.baseModelSymbol.None?) ==>
          State() == old(State())
      {
        assert registry[i..][0] == registry[i] && registry[i..][1..] == registry[i + 1..];
        error := RegisterFacetRelation(mod, registry[i], inMigrate);
        if error.Some? {
          return;
        }
        i := i + 1;
      }
      error := None;
    }
  }
}
