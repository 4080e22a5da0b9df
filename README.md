# ascode object model and HCL serialiser, in Dafny

ascode lets a Starlark script describe Terraform infrastructure. A script
obtains a provider and reads resource types from its registries. It sets
fields on the resources it creates, and finally asks for HCL. This project
models the part of ascode that does this work:

- **Resources.** A `Resource` is a record bound to a block schema. The
  schema declares attributes (each with a type and a computed flag) and
  nested blocks (each with a repetition limit). The resource's `values`
  map holds only the fields a script has set, plus the nested blocks that
  were read. A nested block is created on first read: a singleton
  `Resource` when its limit is 1, a `ResourceCollection` otherwise.
- **Assignment.** `SetField` validates a value against the attribute's
  type, or loads a dict into a singleton nested block.
- **Reading and conversion.** `Attr` answers names in a fixed precedence.
  `toDict` turns the resource into a dict. `Hash` folds the entries into a
  `uint32`.
- **Serialiser.** `ToHCL` appends blocks and attributes to an `hclwrite`
  body. It walks provider → registry → collection → resource → nested
  blocks.
- **Registries.** `MapSchema` is a memoising cache from short names
  (`instance`) to the collection of the qualified type (`aws_instance`).
  `MapSchemaIntance` is a read-only variant. `computeNestedBlocks`
  flattens every nested block path of every schema into a `_`-joined key.
- **Root object.** `tf` is the Terraform root value. It has one settable
  field, the state backend.

## How the model is built

Code that changes state in place is modelled as classes.

- `Resources.Resource`, `Resources.ResourceCollection`,
  `Registry.MapSchema`, `HclWrite.Body`,
  `ProviderInstance.NestedBlockIndex` and `TerraformRoot.Terraform` are
  classes.
- A resource owns its nested blocks. A ghost `Repr` tracks what each one
  owns.
- The ghost function `View()` turns the owned object tree into a plain
  value (`Tree`).
- Every method that changes a resource is proved against a function on
  trees. Examples are `SetFieldSpec`, `LoadDictFrom`, `AttrEffect` and
  `ToDictSpec`. The properties of those functions are lemmas.
- The serialiser methods are proved against `EmitTree` / `EmitTrees`. The
  properties of the output (block headers, the attributes written, the
  order of blocks) are lemmas about those functions.

Go iterates maps in an unspecified order. Every loop over a map is
therefore modelled over a sequence:

- `Runtime.order(keys)` may return any enumeration of `keys`;
  `Runtime.Valid()` states that it does. It is one function for the
  whole run, so every walk over the same key set visits it in the same
  order, where Go may choose a new order at each `range`. No property
  proved here depends on that order being fixed.
- `Resource.Hash` takes the visiting order as a parameter.

Functionality outside these files is passed in as function-valued fields
of `Runtime`:

- cty type validation;
- Starlark string and value hashing;
- `Value.Cty()`;
- the string form of a computed reference;
- hclwrite's byte formatting.

Go panics become error values:

- `NotAResource` for the `*Resource` type assertion in
  `setFieldFromNestedBlock`;
- `KeyNotString` for a non-string dict key in `loadDict`;
- `Err(key)` for a schema key without `_` in `AttrNames`.

## Model

| member | source | states |
|---|---|---|
| Resources.MakeResource | provider/resource.go:29-39 | the new resource has the given name, type, kind and schema, and its state and error are those of loading the keyword arguments into an empty tree |
| Resources.Resource.constructor | provider/resource.go:30-36 | a new resource is valid and has no values |
| Resources.Resource.LoadDict | provider/resource.go:41-51 | assigns the dict's entries in key order and stops at the first error, with no rollback: the new tree and the error are `LoadDictFrom(old tree, d, 0)`; every stored nested block, and every value under a key the dict does not name, stays the same object |
| Resources.Resource.LoadKeywordArgs | provider/resource.go:53-62 | assigns the keyword arguments in order and stops at the first error: the new tree and the error are `LoadKwargsFrom(old tree, kwargs, 0)`; every stored nested block, and every value under a name not assigned, stays the same object |
| Resources.Resource.String | provider/resource.go:65-67 | the string is the type, then the quoted name in parentheses |
| Resources.Resource.Truth | provider/resource.go:75-77 | a resource is always truthy, even when empty |
| Resources.Resource.Hash | provider/resource.go:83-98 | visiting the keys in the given enumeration, the result is the fold starting at x = 8731, m = 9839: x ^= 3·namehash, x ^= y·m, m += 7349, all in uint32; the first value hash error is returned |
| ResourceHash.HashFailsIff | provider/resource.go:89-92 | the hash fails exactly when some visited value cannot be hashed |
| ResourceHash.HashOfNothing | provider/resource.go:85-97 | a resource with no values hashes to 8731 |
| Resources.Resource.Attr | provider/resource.go:101-122 | `__dict__` answers the dict of the old tree; `to_hcl` answers the builtin bound to this resource and a fresh empty file; a computed attribute or `id` answers `Computed(this, name)` and changes nothing; a nested block name answers the stored block, created if absent; any other name answers the stored value or no value; the new tree is `AttrEffect(old tree, name)`; stored values are never replaced, so reading a block again gives the same object, and only an absent nested block name gains an entry |
| Resources.Resource.AttrBlock | provider/resource.go:127-140 | the block is created only when absent: a present block is returned with `values` unchanged; an absent one is created fresh (a collection when MaxItems != 1, otherwise an empty `NestedK` resource named "" of the block's type) and is the only key added |
| ResourceProperties.MaterializeConforms | provider/resource.go:127-140 | creating a nested block keeps the tree conforming to its schema, stores the block, and a second read changes nothing more |
| ResourceProperties.AttrEffectConforms | provider/resource.go:101-140 | reading any name keeps the tree conforming, is idempotent, and adds at most the one key read |
| Resources.Resource.AttrNames | provider/resource.go:143-158 | the names are the attribute names, then the nested block names, each in map order: every declared name exactly once |
| Resources.Resource.SetField | provider/resource.go:161-178 | the new tree and the error are `SetFieldSpec(old tree, name, v)`; the values under other names stay the same objects, and an already stored nested block is never replaced |
| ResourceProperties.SetAttributeOutcome | provider/resource.go:166-177 | for a non-block name, assignment succeeds exactly when the name is a declared attribute whose type accepts the value; on success only that key changes (overwriting any earlier value), and on failure nothing changes; an undeclared name fails with "`typ` has no .`name` field or method" |
| ResourceProperties.SetFieldIdentity | provider/resource.go:161-178 | assignment never changes any key other than `name`, and never changes the resource's name, type, kind or schema |
| ResourceProperties.SetFieldConforms | provider/resource.go:161-178 | assignment keeps a conforming tree conforming |
| Resources.Resource.SetFieldFromNestedBlock | provider/resource.go:180-188 | assigning to a nested block name has the state and error of `SetFieldSpec`; no stored value is replaced, so the dict is loaded into the block object a script may already hold |
| ResourceProperties.SetNestedOutcome | provider/resource.go:180-188 | a non-dict is refused with "expected dict or list" and the tree is left untouched; a dict is loaded into the singleton block (created if absent): the stored block becomes exactly the tree that load produces, with the load's error, and no other key changes; a repeatable block fails as not a resource |
| ResourceProperties.LoadDictFrame | provider/resource.go:41-51 | loading a dict leaves every key the dict does not name as it was |
| ResourceProperties.LoadDictSucceedsOnlyOnStrings | provider/resource.go:42-43 | loading succeeds only when every key is a string; a non-string key is reported when it is reached |
| ResourceProperties.LoadDictConforms | provider/resource.go:41-51 | loading a dict keeps the tree conforming and keeps its schema, kind and type |
| ResourceProperties.LoadKwargsConforms | provider/resource.go:53-62 | loading keyword arguments keeps the tree conforming |
| ResourceProperties.EmptyConforms | provider/resource.go:29-36 | a new resource conforms to its schema |
| Resources.Resource.ToDict | provider/resource.go:190-207 | the dict is `ToDictSpec` of the resource's tree |
| Resources.ResourceCollection.ToDict | provider/resource.go:198-200 | at the call site in `toDict`, a nested collection converts to a list of its elements' dicts in index order (the collection's own `toDict` is assumed, see Left out) |
| ResourceProperties.ToDictEntries | provider/resource.go:190-207 | the dict has one entry per stored key, keyed by that key as a string, each key once, holding the value with nested blocks converted |
| Resources.Resource.ValueToDict | provider/resource.go:193-203 | one entry's value is the nested block's dict, the collection's list, or the stored value itself |
| Hcl.InvokeToHcl | provider/hcl.go:13-18 | `to_hcl` serialises the resource into the file's body and returns the bytes of that body |
| Hcl.ProviderToHcl | provider/hcl.go:20-23 | the body receives the data-source registry's blocks, then the resource registry's |
| Hcl.DataBeforeResources | provider/hcl.go:20-23 | in the output, every data-source block header precedes every resource block header |
| Hcl.RegistryToHcl | provider/hcl.go:25-29 | the body receives every cached collection's blocks, visiting the cache in map order |
| Hcl.CollectionToHcl | provider/hcl.go:31-36 | the body receives one block per element, in index order 0..Len-1 |
| Hcl.EmitTreesHeaders | provider/hcl.go:31-36 | serialising a sequence of resources adds exactly their headers, in order |
| Hcl.ResourceToHcl | provider/hcl.go:38-79 | the body receives `EmitTree` of the resource's tree: a blank line when the body already holds content, then one block with the right header, whose body holds the stored attributes and then the stored nested blocks |
| Hcl.EmitTreeShape | provider/hcl.go:39-48 | exactly one newline is added, and only if the body already holds a block or attribute; then exactly one block is added |
| Hcl.EmitTreeHeaders | provider/hcl.go:43-48 | a resource adds exactly its own header: a top-level kind is labelled [typ, name], and a nested block has its type as the block type and no labels |
| Hcl.EmitIntoEmpty | provider/resource.go:106 | serialising into a fresh empty file gives exactly one block and no blank line |
| Hcl.WriteAttributes | provider/hcl.go:51-67 | the new block's body receives the attribute loop's output, visiting the declared attributes in map order |
| Hcl.WriteValues | provider/hcl.go:51-67 | running the loop over the stored values yields `EmitAttrs` of the tree |
| Hcl.AttributesOfBody | provider/hcl.go:51-67 | the attribute part of a block holds exactly one attribute per declared attribute that has a stored value, with no duplicates; a computed value is written as a traversal rooted at its string form, any other value as its cty literal |
| Hcl.AttrItemsSound | provider/hcl.go:51-66 | every attribute written is for a stored key, with the expression `AttrExpr` gives for its value |
| Hcl.AttrItemsComplete | provider/hcl.go:51-55 | every stored declared attribute is written |
| Hcl.AttrItemsDistinct | provider/hcl.go:51-55 | no attribute name is written twice |
| Hcl.EmitAttrsAppends | provider/hcl.go:51-67 | with distinct keys, the attribute loop only appends |
| Hcl.WriteNestedBlocks | provider/hcl.go:69-78 | the body receives the nested-block loop's output, visiting the declared nested blocks in map order |
| Hcl.WriteNestedBlock | provider/hcl.go:70-77 | an unset nested block adds nothing; a stored one is serialised recursively into the body, and the resource's tree is unchanged |
| Hcl.UnsetNestedSkipped | provider/hcl.go:70-73 | nested blocks with no stored value contribute nothing |
| HclWrite.SetAttr | provider/hcl.go:59-66 | setting an attribute leaves it present; a new name is appended; an existing name keeps the body's length |
| HclWrite.SetAttrReplaces | provider/hcl.go:59-66 | setting a name the body already has replaces the first attribute of that name in place by the new expression; every other item stays where it was |
| HclWrite.Body.AppendNewline | provider/hcl.go:40 | one newline item is appended |
| HclWrite.Body.AppendBlock | provider/hcl.go:45-47 | one block with the given type, labels and body is appended |
| HclWrite.Body.SetAttribute | provider/hcl.go:59-66 | the items become `SetAttr` of the old items |
| Registry.ProviderArguments | starlark/types/provider.go:17-36 | one or two string arguments give (name, version), with the version defaulting to ""; any other count fails with "unexpected positional arguments count"; a non-string version is checked before the name |
| Registry.Provider.constructor | starlark/types/provider.go:67-76 | both registries are new, empty, prefixed with the provider name and of the data-source and resource kinds |
| Registry.Provider.Attr | starlark/types/provider.go:91-102 | "version", "data" and "resource" answer the version and the two registries without touching the resource; any other name is delegated to the embedded resource, with its state change and its answer: `__dict__` the resource's dict, `to_hcl` a fresh empty body bound to the resource, a computed attribute or `id` a computed reference, a nested block its (possibly new) block, anything else the stored value or no value |
| Registry.Provider.AttrNames | starlark/types/provider.go:105-107 | the embedded resource's names, followed by "data", "resource" and "version" |
| Registry.MapSchema.constructor | starlark/types/provider.go:118-126 | a new registry has an empty cache |
| Registry.MapSchema.Truth | starlark/types/provider.go:137 | a registry is always truthy |
| Registry.MapSchema.Hash | starlark/types/provider.go:138 | a registry always hashes to 1 |
| Registry.MapSchema.Attr | starlark/types/provider.go:141-154 | looks up prefix_name. A cached collection is returned as is, with the cache unchanged. On a cache miss with a schema hit, one fresh empty collection is cached under that key and returned, and no other cache entry changes. On a schema miss the result is None and the cache is unchanged |
| Registry.MapSchema.AttrNames | starlark/types/provider.go:156-167 | one name per schema key, in map order: the i-th name is the text after the first "_" of the i-th key; a key without "_" is an error |
| Registry.ShortNames | starlark/types/provider.go:157-166 | the loop succeeds exactly when every key has a "_", gives each key's short name at its position, and otherwise reports a key without "_" |
| Registry.ShortName | starlark/types/provider.go:161-162 | defined exactly when the key contains "_", and shorter than the key |
| Registry.ShortNameOfQualified | starlark/types/provider.go:142 | a prefix without "_" followed by "_" and s has short name s |
| Registry.QualifiedOfShortName | starlark/types/provider.go:161-162 | a key is the text before its first "_", then "_", then its short name |
| Registry.ShortNameRoundTrip | starlark/types/provider.go:142 | re-qualifying a listed short name gives back its key exactly when the prefix is the key's text before its first "_" |
| ProviderInstance.NestedBlockIndex.constructor | provider.go:48 | the index starts empty |
| ProviderInstance.ComputeNestedBlocks | provider.go:47-57 | the map built is `ComputeFrom` over the schemas in map order |
| ProviderInstance.NestedBlockIndex.WalkSchema | provider.go:50-53 | the inner loop registers each direct nested block of a schema and all of its descendants: `FlattenChildren` |
| ProviderInstance.NestedBlockIndex.DoComputeNestedBlocks | provider.go:59-67 | the index becomes `Flatten(old index, name, nb)`: `nb` under `name`, then every child under `name_k`, recursively |
| ProviderInstance.Flatten | provider.go:59-67 | the walk only adds keys and always registers its own name |
| ProviderInstance.FlattenComplete | provider.go:59-67 | every path the walk produces is a key of the result |
| ProviderInstance.FlattenSound | provider.go:59-67 | a key some path of the walk produces holds a block that path leads to; every other key keeps its old value |
| ProviderInstance.ComputeExact | provider.go:47-67 | the keys of the result are exactly the schema name followed by one or more "_"-joined nested block names, each holding a block that path leads to |
| ProviderInstance.DirectChildIndexed | provider.go:49-52 | for every schema k and every direct nested block n, k_n is a key of the result |
| ProviderInstance.ComputeFromComplete | provider.go:49-54 | every path any schema produces is a key |
| ProviderInstance.ComputeFromSound | provider.go:49-54 | a key some schema's walk produces holds a block its path leads to; every other key keeps its old value |
| ProviderInstance.MapSchemaInstance.Attr | provider.go:118-126 | a constructor for prefix_name exactly when that key is a schema, holding that schema's block; None otherwise; no state |
| ProviderInstance.MapSchemaInstance.AttrNames | provider.go:128-139 | one name per schema key, in map order: the i-th name is the text after the first "_" of the i-th key; a key without "_" is an error |
| ProviderInstance.AttrOfListedName | provider.go:118-139 | when the prefix has no "_", every listed short name leads back through Attr to its own schema |
| ProviderInstance.ProviderInstance.Attr | provider.go:81-94 | "data" and "resource" answer the two registries; every name outside `AttrNames` = ["data", "resource"] answers None |
| ProviderInstance.ProviderInstance.AttrNames | provider.go:92-94 | the names are "data" then "resource", the only names `Attr` answers |
| TerraformRoot.Terraform.constructor | starlark/types/terraform.go:55-59 | a new root has no backend |
| TerraformRoot.Terraform.Attr | starlark/types/terraform.go:62-77 | "version" answers the version string and "provider" the provider collection; "backend" answers the stored backend, or None while none is set; any other name answers None, not an error |
| TerraformRoot.Terraform.SetField | starlark/types/terraform.go:80-92 | a name other than "backend" fails with "terraform has no .`name` field or method"; a non-backend value fails with "unexpected value `type` at backend"; both leave the backend unchanged; a backend is stored and read back by Attr |
| TerraformRoot.Terraform.AttrNames | starlark/types/terraform.go:95-97 | the names are "provider", "backend" and "version", in that order; `Attr` answers None for every other name |
| TerraformRoot.Terraform.Hash | starlark/types/terraform.go:103-105 | always fails with "unhashable type: Terraform" |
| TerraformRoot.Terraform.Truth | starlark/types/terraform.go:113-115 | truthy exactly when the provider collection is non-empty |
| ResourceHash.HashDependsOnOrder | provider/resource.go:85-95 | the same two values visited in the two orders a Go map allows hash differently |
| ResourceHash.CorrectedHashOrderFree | provider/resource.go:83-98 | the order-free hash gives the same result for any two enumerations of the keys |
| ResourceHash.CorrectedHashFailsLikeHash | provider/resource.go:89-92 | the order-free hash fails on exactly the maps the original fails on |
| ResourceHash.CorrectedHashOkIff | provider/resource.go:89-92 | the order-free hash succeeds exactly when every value can be hashed, and is then 8731 xor the entries' contributions |

## Left out

- The plugin process and gRPC plumbing are not modelled. This covers
  `MakeProvider` (starlark/types/provider.go:51-79) and
  `NewProviderInstance` (provider.go:22-45). The schemas they fetch are
  inputs to `Registry.Provider.constructor` and
  `ProviderInstance.ProviderInstance`.
- `Freeze`, `Type`, `Name` and the `String` methods other than
  `Resource.String` are not modelled. They are constant display strings or
  no-ops.
- The constant `Truth` and `Hash` of `ProviderInstance` and
  `MapSchemaIntance` (provider.go:77-79, 113-116) are not modelled, since
  they are constants.
- cmd/common.go and the script test harness are outside the core and are
  not part of this model.
- cty validation, `Cty()`, Starlark hashing, `Computed.String()`, Go's `%q`
  quoting and hclwrite's byte formatting are parameters. They are
  uninterpreted here.
- `ResourceCollection` is known only through its elements, its length and
  in-order iteration. Its own source is not part of this model.
- Resources.ResourceCollection.ToDict: the collection's own `toDict` is not
  part of this model. It is assumed to give a Starlark list holding each
  element's dict, in index order, as `Resource.toDict` does for one
  resource.
- `ProviderCollection` and `Backend` in starlark/types/terraform.go are
  known only by the collection's length and by the backend's identity. The
  Terraform version string is a parameter.
- `attrComputed` / `NewComputed` return `Computed(resource, name)`. The
  computed value's own behaviour is not part of this model.
- Go panics are returned as errors rather than aborting the script:
  - the `*Resource` assertion in `setFieldFromNestedBlock`;
  - a non-string key in `loadDict`;
  - a schema key without `_` in `AttrNames`.
- Hcl.ResourceToHcl: the order of mutation differs from the source. The
  source appends the block first and then fills its body. The model fills
  the body first and then appends the finished block. The resulting body
  is the same.
- Resources.ResourceCollection.Valid: the elements of a collection are
  not tied to the collection's nested-block schema or to the `NestedK`
  kind; the model promises nothing about their shape beyond each being a
  valid resource.
- Resources.Resource.Hash: a stored value is hashed by the opaque
  `Runtime.valueHash`, also when it is a nested block. In Go a nested
  block's `Hash` is `Resource.Hash` again, applied to the nested
  resource, so a change inside a nested block changes the parent's hash.
  The model's `valueHash` of a nested block sees only the block object,
  not its contents, so it does not promise that.
- Resources.Resource.ValueToDict: an entry is converted according to its
  role in the schema (nested block name or attribute), where Go switches
  on the stored value's dynamic type (`*Resource`, `*ResourceCollection`).
  The two agree as long as validation never accepts a resource value for
  an attribute.
- Hcl.ProviderToHcl: the `Provider` whose `ToHCL` is modelled stands for
  the provider of the `provider` package, whose definition is not part
  of this model. It is modelled by the scripting-layer `Registry.Provider`
  (two registries, data sources first).
- Hcl.RegistryToHcl: likewise the `MapSchema` of the `provider` package
  is modelled by the scripting-layer `Registry.MapSchema` and its cache
  of collections.
- Registry.MapSchema.Attr: a collection is created from its name, kind
  and block only. The provider's embedded resource, which
  `NewResourceCollection` also receives as its fourth argument, is not
  recorded in the model's collections (the collection's source is not
  part of this model).
- Registry.Provider.Attr: the embedded resource is modelled by the
  `Resource` of provider/resource.go. The scripting-layer `Resource` that
  starlark/types/provider.go embeds is not part of this model. Its kind's
  header word is assumed to be "provider".
- TerraformRoot.Terraform.Truth: the provider count is fixed when the
  global is made. Providers a script adds later are not followed, so the
  answer does not change over a run here.
- Registry.Provider.constructor: the embedded resource is passed in. The
  scripting-layer `MakeResource` has a different signature from the one
  in provider/resource.go and is not part of this model.
- Schema.WellFormed: it is assumed that no name is both an attribute and a
  nested block, as Terraform's schema validation guarantees.

## Findings

| source | as written | input that shows it | evidently intended | confidence | as-written member | corrected member |
|---|---|---|---|---|---|---|
| provider/resource.go:85-95 | `Resource.Hash` copies the positional multiplier of Starlark's tuple hash (m starts at 9839 and grows by 7349 per entry) but walks a Go map, whose order is unspecified, so each value's contribution depends on the order of that walk | values {p: "a", q: "b"} where only "a" hashes to non-zero: order [p, q] gives 8731 ^ 9839, order [q, p] gives 8731 ^ 17188 | equal resources hash equally, whatever the map order (combine per-entry contributions with an order-free operation such as xor) | medium, not executed | ResourceHash.HashDependsOnOrder | ResourceHash.CorrectedHashOrderFree |
