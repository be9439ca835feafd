# Foreman facets: wiring and hostgroup inheritance, in Dafny

This project models the facet concerns of Foreman's models. A *facet* is an
optional sub-record (a provisioning configuration, say) that a host or a
hostgroup may carry, one per registered facet definition. The model covers:

- **Binding** (`ModelExtensionsBase`): `register_facet_relation` and
  `refresh_facet_relations` extend a model class with one association per
  facet configured for the class's kind, the extension module, cloning, one
  forwarder per compatibility property, and, inside `db:migrate`, the guard
  around the facet accessor. The overridable class methods (`facet_type`,
  `base_model_id_field`, `base_model_symbol`) raise unless a kind module
  overrides them; `HostgroupExtensions.HostgroupModule` and
  `ManagedHostExtensions.ManagedHostModule` are the two kinds.
- **The facet-bearing entity** (`ModelExtensionsBase`): `facets_with_definitions`,
  `facets`, the `attributes` override (`"<name>_attributes"` sub-hashes without
  timestamps) and `forward_property_call`.
- **Declared inheritable names** (`HostgroupFacet`): the class-level list
  that `inherit_attributes` extends with `concat` and `uniq!`, and
  `inherited_attributes`, the `slice` of a facet's attributes to that list.
- **The hostgroup resolver** (`HostgroupExtensions`): `inherited_facet_attributes`
  starts from the hostgroup's own facet's inherited attributes and merges each
  ancestor's, nearest ancestor first, with `merge!` and `left || right`, so a
  value that is neither nil nor false is never replaced. The ancestry is
  memoised per hostgroup object.
- **`apply_facet_attributes`** (`ManagedHostExtensions`): for each
  host-configured facet, the caller's `"<name>_attributes"` entry (or an empty
  hash) goes through the facet model's resolver, and the answer is written
  back only when it is non-empty.

Values are a small `Value` datatype (`Nil`, `Bool`, `Str`, `Int`, `Hash`) with
Ruby truthiness: only `nil` and `false` are falsy, so `""` and `0` count as set.
Attribute hashes are `map<string, Value>`. The registry is a sequence of
definitions in registration order, with unique names where a property needs
them (`Facets.registered_facets` is a hash keyed by name). An ancestry is a
root-first sequence of facet tables: each table maps facet names to the
instances an ancestor's accessors return. A missing name stands for `nil`.

Files: `values.dfy`, `facets.dfy` (definitions, instances, the attributes key),
`hostgroup_facet.dfy`, `model_extensions_base.dfy`, `hostgroup_extensions.dfy`,
`managed_host_extensions.dfy`. State that the Ruby code changes in place is
modelled with classes:
- `HostgroupFacet.FacetModel` holds `@attributes_to_inherit`;
- `HostgroupExtensions.Hostgroup` holds `@hostgroup_ancestry_cache`;
- `ModelExtensionsBase.ModelClass` is the Rails class being extended;
- `ManagedHostExtensions.AttributeHash` is the caller's hash.

The model follows the code:
- A hostgroup without its own facet makes `inherited_facet_attributes` raise,
  because `inherited_attributes` is called on nil (hostgroup_extensions.rb:46).
  The model does not start from an empty hash in that case.
- `""` is truthy in Ruby and is never replaced by an ancestor's value
  (line 50 uses `||`). The model does not treat it as blank.
- A blank value is not kept against an ancestor's blank value: `left || right`
  answers `right` whenever `left` is nil or false. So an own `false` is replaced
  by an ancestor's `nil`, and the farthest ancestor offering the key decides it.

## Model

| member | source | states |
|---|---|---|
| Facets.AttributesKeyInjective | app/models/concerns/facets/model_extensions_base.rb:13 | two facet names give the same `"<name>_attributes"` key exactly when they are the same name |
| HostgroupFacet.Uniq | app/models/concerns/facets/hostgroup_facet.rb:13 | `uniq` leaves no duplicates, keeps exactly the input's elements and never grows the list |
| HostgroupFacet.UniqKeepsFirstOccurrenceOrder | app/models/concerns/facets/hostgroup_facet.rb:13 | `uniq` lists the elements in the order of their first occurrences in the input, so together with `Uniq`'s own clauses its result is fully determined |
| HostgroupFacet.UniqOfDistinct | app/models/concerns/facets/hostgroup_facet.rb:13 | `uniq` of a list without duplicates is that list |
| HostgroupFacet.UniqAfterDistinct | app/models/concerns/facets/hostgroup_facet.rb:13 | `uniq` of a duplicate-free list followed by new names is that list, then the new names not already in it, in first-occurrence order |
| HostgroupFacet.InheritAttributesIdempotent | app/models/concerns/facets/hostgroup_facet.rb:12-14 | re-declaring names that are all already in the list leaves the list unchanged |
| HostgroupFacet.FacetModel.AttributesToInherit | app/models/concerns/facets/hostgroup_facet.rb:16-18 | before any declaration the list reads as empty and is stored; afterwards the stored list is returned unchanged |
| HostgroupFacet.FacetModel.InheritAttributes | app/models/concerns/facets/hostgroup_facet.rb:12-14 | the stored list becomes `uniq` of the previous list (empty if never read) followed by the given names, and stays duplicate-free |
| HostgroupFacet.Slice | app/models/concerns/facets/hostgroup_facet.rb:21-23 | `inherited_attributes` holds exactly the facet's entries whose key is declared, values unchanged; declared keys missing from the attributes do not appear |
| HostgroupFacet.NothingDeclaredNothingInherited | app/models/concerns/facets/hostgroup_facet.rb:16-23 | with no declared names, `inherited_attributes` is empty |
| ModelExtensionsBase.FacetsWithDefinitions | app/models/concerns/facets/model_extensions_base.rb:119-124 | every pair holds a registered definition and the entity's present instance for it. Every registered definition with a present instance appears. Definitions with a nil instance are left out |
| ModelExtensionsBase.FacetsWithDefinitionsKeepsOrder | app/models/concerns/facets/model_extensions_base.rb:119-124 | registration order is kept: the pairs of a split registry are the pairs of the first part followed by those of the second |
| ModelExtensionsBase.FacetsWithDefinitionsMembership | app/models/concerns/facets/managed_host_extensions.rb:23-28 | a registered definition appears in `facets_with_definitions` if and only if the entity's instance for it is non-nil |
| ModelExtensionsBase.FacetsOf | app/models/concerns/facets/model_extensions_base.rb:112-114 | `facets` is the instance column of `facets_with_definitions`, same length and order |
| ModelExtensionsBase.FacetsAreAttachedInstances | app/models/concerns/facets/managed_host_extensions.rb:16-18 | an instance is in `facets` exactly when some registered definition's accessor returns it |
| ModelExtensionsBase.Attributes | app/models/concerns/facets/model_extensions_base.rb:8-16 | each attached facet's `"<name>_attributes"` entry is its attributes without `created_at` and `updated_at`. Every other own attribute is unchanged. No other key appears |
| ModelExtensionsBase.DefineForwarders | app/models/concerns/facets/model_extensions_base.rb:97-99 | the forwarder table gains one entry per listed compatibility property, each naming the facet, and none when the list is nil |
| ModelExtensionsBase.RegisterGuards | app/models/concerns/facets/model_extensions_base.rb:35-55 | a module that does not override `facet_type` raises; a definition with no configuration for the module's kind leaves the class unchanged; a configured definition raises for an un-overridden `base_model_id_field`, or else for an un-overridden `base_model_symbol` |
| ModelExtensionsBase.RegisterInstallsForwarders | app/models/concerns/facets/model_extensions_base.rb:91-101 | after binding, the forwarder keys are the old ones plus the listed properties, each naming this facet. Other forwarders keep their targets. A nil list installs none |
| ModelExtensionsBase.ForwardedPropertyCall | app/models/concerns/facets/model_extensions_base.rb:128-133 | calling an installed compatibility property returns nil when the entity lacks the facet, and otherwise the facet's answer to the same call with the same arguments |
| ModelExtensionsBase.RegisterIdempotent | app/models/concerns/facets/model_extensions_base.rb:35-45 | outside `db:migrate`, binding the same definition a second time leaves the class as the first binding left it |
| ModelExtensionsBase.RefreshRegistersEachConfigured | app/models/concerns/facets/model_extensions_base.rb:66-71 | a successful refresh gives every definition configured for the kind an association and a cloning entry. The association names become exactly the old ones plus the configured definitions' names |
| ModelExtensionsBase.RefreshErrorChangesNothing | app/models/concerns/facets/model_extensions_base.rb:48-71 | with a kind method not overridden, a refresh binds nothing; a non-empty registry raises for `facet_type` when that is the missing one, and otherwise the refresh raises for `base_model_id_field` (or else `base_model_symbol`) as soon as the registry holds a definition configured for the kind |
| ModelExtensionsBase.AccessorUnguardedOutsideMigration | app/models/concerns/facets/model_extensions_base.rb:74-89 | outside `db:migrate` binding does not guard the accessor, which then returns the stored facet |
| ModelExtensionsBase.ModelClass.RegisterFacetRelation | app/models/concerns/facets/model_extensions_base.rb:35-45 | the class becomes `AfterRegister` of its old definition, or stays unchanged and reports the error raised |
| ModelExtensionsBase.ModelClass.RefreshFacetRelations | app/models/concerns/facets/model_extensions_base.rb:66-71 | registers every definition in order; the class becomes `AfterRefresh` of its old definition, or stays unchanged and reports the first error |
| HostgroupExtensions.HostgroupBinding | app/models/concerns/facets/hostgroup_extensions.rb:17-27 | binding onto hostgroups uses the hostgroup configuration's model with `hostgroup_id` and `hostgroup`; definitions without a hostgroup configuration are skipped |
| HostgroupExtensions.MergeAncestors | app/models/concerns/facets/hostgroup_extensions.rb:47-51 | the loop walks the root-first ancestry from its end and yields `MergeAncestry` of the start hash |
| HostgroupExtensions.TruthyValueKept | app/models/concerns/facets/hostgroup_extensions.rb:50 | a non-nil, non-false value already in the result is never replaced by any ancestor |
| HostgroupExtensions.NearestTruthyAncestorWins | app/models/concerns/facets/hostgroup_extensions.rb:47-50 | a key that is missing, nil or false gets the value of the nearest ancestor that has the facet and a truthy value for it |
| HostgroupExtensions.MergedKeys | app/models/concerns/facets/hostgroup_extensions.rb:47-50 | the result's keys are the starting keys plus every inheritable key present in some ancestor that has the facet |
| HostgroupExtensions.AllBlankStaysBlank | app/models/concerns/facets/hostgroup_extensions.rb:50 | a key for which nothing holds a truthy value ends absent, nil or false |
| HostgroupExtensions.UnofferedKeyKept | app/models/concerns/facets/hostgroup_extensions.rb:47-51 | ancestors that do not offer a key leave it present or absent as it was, with the same value |
| HostgroupExtensions.FarthestBlankOfferWins | app/models/concerns/facets/hostgroup_extensions.rb:47-51 | with no truthy value for a key anywhere, the key ends with the value (nil or false) of the farthest ancestor offering it, since `||` then always takes the right-hand side |
| HostgroupExtensions.AncestorWithoutFacetSkipped | app/models/concerns/facets/hostgroup_extensions.rb:48-49 | removing an ancestor that lacks the facet from the ancestry does not change the result |
| HostgroupExtensions.OwnTruthyValueWins | app/models/concerns/facets/hostgroup_extensions.rb:46-50 | if the hostgroup's own facet has a truthy inheritable value (including `""` and `0`), that is the result for the key, whatever the ancestors hold |
| HostgroupExtensions.NearestAncestorFillsBlank | app/models/concerns/facets/hostgroup_extensions.rb:41-50 | if the hostgroup's own value is missing, nil or false, the nearest ancestor with a truthy value supplies the result for the key |
| HostgroupExtensions.ResolvedKeys | app/models/concerns/facets/hostgroup_extensions.rb:46-50 | the result's keys are the own facet's inheritable keys together with those of every ancestor that has the facet |
| HostgroupExtensions.NoTruthyValueStaysBlank | app/models/concerns/facets/hostgroup_extensions.rb:46-53 | if no node in the chain has a truthy value for a key, the key is absent or blank in the result |
| HostgroupExtensions.FarthestAncestorSetsBlank | app/models/concerns/facets/hostgroup_extensions.rb:46-53 | if no node in the chain has a truthy value for a key but some ancestor offers it, the result holds the farthest such ancestor's value, replacing the hostgroup's own nil or false |
| HostgroupExtensions.OwnValueKeptWithoutOffers | app/models/concerns/facets/hostgroup_extensions.rb:46-53 | if no ancestor offers a key, the result holds the hostgroup's own inheritable value for it, whatever it is, and lacks the key when the hostgroup lacks it |
| HostgroupExtensions.MissingOwnFacetRaises | app/models/concerns/facets/hostgroup_extensions.rb:46 | a hostgroup with no facet of its own makes the resolver raise instead of answering a hash |
| HostgroupExtensions.ThreeLevelScenario | app/models/concerns/facets/hostgroup_extensions.rb:45-54 | root `os = "rhel8"`, middle `domain = "corp.example"` and a blank leaf resolve to exactly `{os: "rhel8", domain: "corp.example"}` |
| HostgroupExtensions.Hostgroup.HostgroupAncestryCache | app/models/concerns/facets/hostgroup_extensions.rb:37-43 | the first call stores the loaded ancestry; later calls return the stored one and ignore what storage would load |
| HostgroupExtensions.Hostgroup.InheritedFacetAttributes | app/models/concerns/facets/hostgroup_extensions.rb:45-54 | raises when the hostgroup has no own facet, leaving the cache and the model's declared-name list alone. Otherwise it answers `InheritedFacetAttributesOf` over the memoised ancestry and the model's declared names, and the model's list is its old value, or `[]` if it was unset |
| ManagedHostExtensions.ManagedHostBinding | app/models/concerns/facets/managed_host_extensions.rb:9-13 | binding onto hosts uses the host configuration's model with `host_id` and `host`; definitions without a host configuration are skipped |
| ManagedHostExtensions.ApplyFacetAttributes | app/models/concerns/facets/managed_host_extensions.rb:33-42 | updates the caller's hash in place to `AppliedFacetAttributes` of its old entries and returns that same hash |
| ManagedHostExtensions.OtherKeysUnchanged | app/models/concerns/facets/managed_host_extensions.rb:34-41 | keys other than host-configured facets' `"<name>_attributes"` keys are never added, removed or changed |
| ManagedHostExtensions.NonHostFacetEntryUntouched | app/models/concerns/facets/managed_host_extensions.rb:35 | a definition without a host configuration is skipped; its `"<name>_attributes"` entry stays as it was |
| ManagedHostExtensions.HostFacetEntryResolved | app/models/concerns/facets/managed_host_extensions.rb:36-39 | a missing, nil or false entry reaches the resolver as an empty hash. A non-empty answer is written under the facet's key. An empty answer leaves the entry, or its absence, as it was |

## Left out

- Ruby hash key order is not modelled: attribute hashes are maps. The pairs of `facets_with_definitions` are a sequence rather than a hash keyed by facet object, since instances of different facets are distinct objects.
- ModelExtensionsBase.FacetsWithDefinitions: `send(name)` for a registered facet that has no accessor on the entity raises `NoMethodError` in Ruby. The model reads a missing accessor as nil.
- ActiveRecord plumbing is abstracted. `has_one`, `accepts_nested_attributes_for` and the `"<name>_attributes"` alias become one `Association` entry per facet name. `include type_config.extension` becomes a set of module names, `include_in_clone` a set of facet names, and `define_method` a forwarder table.
- `handle_migrations` is reduced to a set of guarded accessor names and `FacetAccessor`. The logger warning is not modelled. Wrapping the same accessor twice with `alias_method_chain` is not modelled either.
- ModelExtensionsBase.RegisterIdempotent: is stated only outside `db:migrate`. Inside it, a second binding runs `alias_method_chain` again (model_extensions_base.rb:87). The accessor then calls itself, whereas the model's guarded-name set simply stays the same.
- `on_register_facet_relation` is a no-op for both kinds (its hostgroup body is commented out), so it adds nothing to the class state.
- The registry module (`Facets.registered_facets`, `Facets.after_entry_created`) and `configure_facet` are not part of this model. The registry is a sequence in registration order. The host kind's keys (`host`, `host_id`) are read from the `configure_facet(:host, :host, :host_id)` call.
- The `included` hooks are not modelled. This includes the call at model_extensions_base.rb:18, which refreshes host facet relations on every including class.
- The ancestry query with its preloading (`ancestors.includes(...)`) is a parameter: the root-first list of ancestor facet tables that storage would load.
- `facet_config.model.inherited_attributes(hostgroup, attrs)` called from `apply_facet_attributes` is not part of this model. It is the `Resolver` function parameter, keyed by the host configuration's model name. The host configuration's name is taken to be the facet's name.
- `populate_facet_fields` is not modelled: it parses facts through a parser and proxy that are not part of this model.
- Registry errors (duplicate or unknown facets) are not modelled: the modelled code does not raise them.
- HostgroupFacet.Slice: declared names are assumed to be strings spelled like the attribute keys. In Ruby, `inherit_attributes` stores whatever objects it is given, so a name declared as a Symbol such as `:os` matches no key of the string-keyed `attributes` hash under `slice`, and `uniq!` keeps `:os` and `"os"` apart. Neither is modelled.
- Ruby values other than nil, booleans, strings, integers and nested hashes (floats, symbols, dates) are not modelled.
- Concurrency is not modelled: binding happens once at start-up and the resolver only reads.
