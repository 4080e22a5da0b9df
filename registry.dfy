/** starlark/types/provider.go: the scripting-layer provider. A `MapSchema`
    is the registry of one provider's data sources or resource types, keyed
    by qualified type name (`aws_instance`) and reached by short name
    (`instance`); it creates one `ResourceCollection` per type on first use
    and caches it. `Provider` answers `version`, `data` and `resource` itself
    and hands every other name to the resource it embeds. */
module Registry {
  import opened Base
  import opened Schema
  import opened Resources

  /** `strings.SplitN(k, "_", 2)[1]`: the text after the first '_'. Without a
      '_' the Go slice has one element and indexing it panics: `None`. */
  function ShortName(k: string): (r: Option<string>)
    ensures r.Some? <==> '_' in k
    ensures r.Some? ==> |r.value| < |k|
  {
    if k == [] then None
    else if k[0] == '_' then Some(k[1..])
    else
      var r := ShortName(k[1..]);
      assert '_' in k <==> '_' in k[1..] by {
        assert k == [k[0]] + k[1..];
      }
      r
  }

  /** The short name of a qualified name is what follows the prefix, provided
      the prefix itself has no '_'. */
  lemma {:induction false} ShortNameOfQualified(prefix: string, s: string)
    requires '_' !in prefix
    ensures ShortName(prefix + "_" + s) == Some(s)
  {
    if prefix == [] {
      assert prefix + "_" + s == ['_'] + s;
    } else {
      assert (prefix + "_" + s)[1..] == prefix[1..] + "_" + s;
      ShortNameOfQualified(prefix[1..], s);
    }
  }

  /** Conversely, a key is the short name re-qualified with exactly the text
      before its first '_'. */
  lemma {:induction false} QualifiedOfShortName(k: string)
    requires ShortName(k).Some?
    ensures var s := ShortName(k).value;
      var head := k[..|k| - |s| - 1];
      '_' !in head && k == head + "_" + s
  {
    if k[0] != '_' {
      QualifiedOfShortName(k[1..]);
      var s := ShortName(k).value;
      assert k[1..][..|k[1..]| - |s| - 1] == k[1..|k| - |s| - 1];
      assert k == [k[0]] + k[1..];
    }
  }

  /** `MapSchema.Attr(AttrNames()[i])` finds the schema key it came from
      exactly when the registry's prefix is that key's text before the first
      '_'. */
  lemma ShortNameRoundTrip(prefix: string, k: string)
    requires ShortName(k).Some?
    ensures var s := ShortName(k).value;
      prefix + "_" + s == k <==> prefix == k[..|k| - |s| - 1]
  {
    QualifiedOfShortName(k);
    var s := ShortName(k).value;
    var head := k[..|k| - |s| - 1];
    if prefix + "_" + s == k {
      assert |prefix| == |head|;
      assert prefix == (prefix + "_" + s)[..|prefix|];
    }
  }

  /** The `AttrNames` loop shared by both registries: fill a slice as long as
      the key list with each key's short name. A key without '_' is the Go
      index-out-of-range panic, returned here as that key. */
  method ShortNames(keys: seq<string>) returns (r: Result<seq<string>, string>)
    ensures r.Ok? <==> forall i | 0 <= i < |keys| :: '_' in keys[i]
    ensures r.Ok? ==> |r.value| == |keys| && forall i | 0 <= i < |keys| :: ShortName(keys[i]) == Some(r.value[i])
    ensures r.Err? ==> r.error in keys && '_' !in r.error
  {
    var names := new string[|keys|];
    var i := 0;
    while i < |keys|
      invariant i <= |keys|
      invariant forall j | 0 <= j < i :: ShortName(keys[j]) == Some(names[j])
    {
      match ShortName(keys[i])
      case None =>
        return Err(keys[i]);
      case Some(s) =>
        names[i] := s;
      i := i + 1;
    }
    return Ok(names[..]);
  }

  /** `MapSchema`: the per-kind registry of a provider's schemas, with the
      collections created so far. */
  class MapSchema {
    const prefix: string
    const kind: Kind
    const schemas: map<string, Block>
    var collections: map<string, ResourceCollection>
    ghost var Repr: set<object>

    /** Every cached collection belongs to a schema and was made for it. */
    ghost predicate Valid()
      reads this, Repr
    {
      && this in Repr
      && forall q | q in collections ::
           && q in schemas
           && collections[q] in Repr && collections[q].Repr <= Repr && this !in collections[q].Repr
           && collections[q].Valid()
           && collections[q].typ == q && collections[q].kind == kind && collections[q].block == schemas[q]
    }

    /** `NewMapSchema`: an empty cache. */
    constructor (prefix: string, kind: Kind, schemas: map<string, Block>)
      ensures Valid() && fresh(Repr)
      ensures this.prefix == prefix && this.kind == kind && this.schemas == schemas
      ensures collections == map[]
    {
      this.prefix := prefix;
      this.kind := kind;
      this.schemas := schemas;
      collections := map[];
      Repr := {this};
    }

    /** A registry is always truthy. */
    function Truth(): (b: bool)
      ensures b
    {
      true
    }

    /** A registry is always hashable, to 1. */
    function Hash(): (h: Result<bv32, string>)
      ensures h.Ok? && h.value == 1
    {
      Ok(1)
    }

    /** `Attr`: the collection of type `prefix_name`, cached on first use;
        `None` when the provider has no such type. */
    method Attr(name: string) returns (r: Option<ResourceCollection>)
      requires Valid()
      modifies this
      ensures Valid() && fresh(Repr - old(Repr))
      ensures r.Some? <==> prefix + "_" + name in schemas
      ensures r.Some? ==> prefix + "_" + name in collections && collections[prefix + "_" + name] == r.value
      ensures prefix + "_" + name in old(collections) ==>
                r == Some(old(collections)[prefix + "_" + name]) && collections == old(collections)
      ensures prefix + "_" + name !in old(collections) && prefix + "_" + name in schemas ==>
                && fresh(r.value) && r.value.elems == []
                && collections == old(collections)[prefix + "_" + name := r.value]
      ensures prefix + "_" + name !in schemas ==> collections == old(collections)
    {
      var q := prefix + "_" + name;
      if q in collections {
        return Some(collections[q]);
      }
      if q in schemas {
        var c := new ResourceCollection(q, kind, schemas[q]);
        collections := collections[q := c];
        Repr := Repr + c.Repr;
        return Some(c);
      }
      return None;
    }

    /** `AttrNames`: the short name of every schema key, in map order. */
    method AttrNames(rt: Runtime) returns (r: Result<seq<string>, string>)
      requires rt.Valid()
      ensures r.Ok? <==> forall k | k in schemas :: '_' in k
      ensures r.Ok? ==> |r.value| == |schemas|
      ensures r.Ok? ==> forall k | k in schemas :: ShortName(k).Some? && ShortName(k).value in r.value
      ensures r.Ok? ==> (|rt.order(schemas.Keys)| == |r.value| &&
                   forall i | 0 <= i < |r.value| :: ShortName(rt.order(schemas.Keys)[i]) == Some(r.value[i]))
      ensures r.Err? ==> r.error in schemas && '_' !in r.error
    {
      var keys := rt.order(schemas.Keys);
      EnumerationLength(keys, schemas.Keys);
      r := ShortNames(keys);
      if r.Ok? {
        forall k | k in schemas ensures '_' in k && ShortName(k).value in r.value {
          var i :| 0 <= i < |keys| && keys[i] == k;
          assert ShortName(keys[i]) == Some(r.value[i]);
        }
      }
    }
  }

  /** What `Provider.Attr` answers: its version string, one of its two
      registries, or whatever the embedded resource answers. */
  datatype ProviderAnswer =
    | Version(version: string)
    | Registry(registry: MapSchema)
    | Delegated(result: AttrResult)

  /** `Provider`: a provider instance with its schemas already fetched (the
      plugin start-up of `MakeProvider` is not part of this model). */
  class Provider {
    const name: string
    /** The version the plugin reports in its metadata, not the version
        constraint the script asked for. */
    const version: string
    const dataSources: MapSchema
    const resources: MapSchema
    const resource: Resource

    /** The assignments of `MakeProvider` once the schemas are known. */
    constructor (name: string, version: string, resource: Resource,
                 dataSchemas: map<string, Block>, resourceSchemas: map<string, Block>)
      ensures this.name == name && this.version == version && this.resource == resource
      ensures fresh(dataSources) && fresh(resources)
      ensures dataSources.Valid() && fresh(dataSources.Repr) && dataSources.collections == map[]
      ensures dataSources.prefix == name && dataSources.kind == DataResourceK && dataSources.schemas == dataSchemas
      ensures resources.Valid() && fresh(resources.Repr) && resources.collections == map[]
      ensures resources.prefix == name && resources.kind == ResourceK && resources.schemas == resourceSchemas
    {
      this.name := name;
      this.version := version;
      this.resource := resource;
      dataSources := new MapSchema(name, DataResourceK, dataSchemas);
      resources := new MapSchema(name, ResourceK, resourceSchemas);
    }

    /** `Provider.Attr`: the three names of its own, then the embedded resource. */
    method Attr(k: string, rt: Runtime) returns (a: ProviderAnswer)
      requires resource.Valid() && rt.Valid()
      modifies resource
      ensures resource.Valid() && fresh(resource.Repr - old(resource.Repr))
      ensures k == "version" ==> a == Version(version)
      ensures k == "data" ==> a == Registry(dataSources)
      ensures k == "resource" ==> a == Registry(resources)
      ensures k in {"version", "data", "resource"} ==> resource.View() == old(resource.View())
      ensures k !in {"version", "data", "resource"} ==>
                a.Delegated? && resource.View() == AttrEffect(old(resource.View()), k)
      ensures k == "__dict__" ==> a == Delegated(Got(ToDictSpec(old(resource.View()), rt)))
      ensures k == "to_hcl" ==>
                a.Delegated? && a.result.ToHcl? && a.result.target == resource &&
                fresh(a.result.file) && a.result.file.items == []
      ensures k !in {"version", "data", "resource"} && !IsSpecial(k) && ReadsComputed(resource.block, k) ==>
                a == Delegated(Got(Computed(resource, k)))
      ensures k !in {"version", "data", "resource"} && !IsSpecial(k) && !ReadsComputed(resource.block, k) &&
              k in resource.block.blockTypes ==>
                k in resource.values && a == Delegated(Got(resource.values[k]))
      ensures k !in {"version", "data", "resource"} && !IsSpecial(k) && !ReadsComputed(resource.block, k) &&
              k !in resource.block.blockTypes ==>
                a == Delegated(if k in resource.values then Got(resource.values[k]) else NoValue)
    {
      if k == "version" {
        return Version(version);
      } else if k == "data" {
        return Registry(dataSources);
      } else if k == "resource" {
        return Registry(resources);
      }
      var r := resource.Attr(k, rt);
      return Delegated(r);
    }

    /** `Provider.AttrNames`: the embedded resource's names, then its own three. */
    method AttrNames(rt: Runtime) returns (names: seq<string>)
      requires WellFormed(resource.block) && rt.Valid()
      ensures |names| == |resource.block.attributes| + |resource.block.blockTypes| + 3
      ensures names[..|names| - 3] == rt.order(resource.block.attributes.Keys) + rt.order(resource.block.blockTypes.Keys)
      ensures names[|names| - 3..] == ["data", "resource", "version"]
    {
      var own := resource.AttrNames(rt);
      names := own + ["data", "resource", "version"];
      assert names[..|names| - 3] == own;
    }
  }

  /** The positional-argument checks of `BuiltinProvider`: one argument (the
      name) or two (name, version), all strings; the version defaults to "".
      With two arguments the version is checked before the name. */
  function ProviderArguments(args: seq<Value>, typeName: Value -> string): (r: Result<(string, string), string>)
    ensures r.Ok? <==> (|args| == 1 || |args| == 2) && forall i | 0 <= i < |args| :: args[i].Str?
    ensures r.Ok? ==> r.value.0 == args[0].s && r.value.1 == (if |args| == 2 then args[1].s else "")
    ensures |args| != 1 && |args| != 2 ==> r == Err("resource: unexpected positional arguments count")
    ensures |args| == 2 && !args[1].Str? ==> r == Err("resource: expected string, go " + typeName(args[1]))
    ensures (|args| == 1 || (|args| == 2 && args[1].Str?)) && !args[0].Str? ==>
              r == Err("provider: expected string, got " + typeName(args[0]))
  {
    if |args| == 2 && !args[1].Str? then
      Err("resource: expected string, go " + typeName(args[1]))
    else if |args| == 2 || |args| == 1 then
      if !args[0].Str? then Err("provider: expected string, got " + typeName(args[0]))
      else Ok((args[0].s, if |args| == 2 then args[1].s else ""))
    else
      Err("resource: unexpected positional arguments count")
  }
}
