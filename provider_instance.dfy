/** provider.go: the command-line provider instance. Its registries only map
    short names to schemas, and `computeNestedBlocks` flattens every nested
    block of every schema into one index keyed by the `_`-joined path of
    block names (`aws_instance_ebs_block_device`). */
module ProviderInstance {
  import opened Base
  import opened Schema
  import Registry

  // ---------------------------------------------------------------------
  // Flattening nested blocks

  /** `doComputeNestedBlocks(name, nb, list)` on the map `m`: register `nb`
      under `name`, then each child `k`, in `order`, under `name_k` followed
      by its own descendants. Later writes win. */
  function Flatten(m: map<string, NestedBlock>, name: string, nb: NestedBlock,
                   order: set<string> -> seq<string>): (r: map<string, NestedBlock>)
    requires forall keys: set<string> :: Enumerates(order(keys), keys)
    ensures m.Keys <= r.Keys && name in r
    decreases nb, 1
  {
    var keys := order(nb.block.blockTypes.Keys);
    assert Enumerates(keys, nb.block.blockTypes.Keys);
    FlattenChildren(m[name := nb], name, nb.block, keys, order)
  }

  /** The loop of `doComputeNestedBlocks` from child `keys[0]` on. */
  function FlattenChildren(m: map<string, NestedBlock>, name: string, b: Block, keys: seq<string>,
                           order: set<string> -> seq<string>): (r: map<string, NestedBlock>)
    requires forall keys: set<string> :: Enumerates(order(keys), keys)
    requires forall k | k in keys :: k in b.blockTypes
    ensures m.Keys <= r.Keys
    decreases b, 0, |keys|
  {
    if keys == [] then m
    else
      var key := name + "_" + keys[0];
      var child := b.blockTypes[keys[0]];
      FlattenChildren(Flatten(m[key := child], key, child, order), name, b, keys[1..], order)
  }

  /** `nb` is registered under `key` by the walk that starts at `name`:
      `key` is `name` itself, or `name_k` followed by a path below child `k`. */
  ghost predicate Produces(name: string, nb: NestedBlock, key: string, target: NestedBlock)
    decreases nb
  {
    || (key == name && target == nb)
    || exists k | k in nb.block.blockTypes :: ProducesBelow(name, nb, k, key, target)
  }

  ghost predicate ProducesBelow(name: string, nb: NestedBlock, k: string, key: string, target: NestedBlock)
    requires k in nb.block.blockTypes
    decreases nb, 0
  {
    Produces(name + "_" + k, nb.block.blockTypes[k], key, target)
  }

  /** Some child in `keys` of block `b` registered under `name` produces `key`. */
  ghost predicate ChildProduces(name: string, b: Block, keys: seq<string>, key: string, target: NestedBlock)
    requires forall k | k in keys :: k in b.blockTypes
  {
    exists i | 0 <= i < |keys| :: Produces(name + "_" + keys[i], b.blockTypes[keys[i]], key, target)
  }

  /** A walk from `name` produces `name` itself or what one of its children's
      walks produces. */
  lemma ProducesSplit(name: string, nb: NestedBlock, keys: seq<string>)
    requires Enumerates(keys, nb.block.blockTypes.Keys)
    ensures forall k | k in keys :: k in nb.block.blockTypes
    ensures forall key, t :: Produces(name, nb, key, t) <==>
              (key == name && t == nb) || ChildProduces(name, nb.block, keys, key, t)
  {
    forall key, t ensures Produces(name, nb, key, t) <==>
                            (key == name && t == nb) || ChildProduces(name, nb.block, keys, key, t) {
      if ChildProduces(name, nb.block, keys, key, t) {
        var i :| 0 <= i < |keys| && Produces(name + "_" + keys[i], nb.block.blockTypes[keys[i]], key, t);
        assert ProducesBelow(name, nb, keys[i], key, t);
      }
      if Produces(name, nb, key, t) && (key != name || t != nb) {
        var k :| k in nb.block.blockTypes && ProducesBelow(name, nb, k, key, t);
        var i :| 0 <= i < |keys| && keys[i] == k;
      }
    }
  }

  /** Completeness of the flattening: every path the walk produces is a key. */
  lemma {:induction false} FlattenComplete(m: map<string, NestedBlock>, name: string, nb: NestedBlock,
                                           order: set<string> -> seq<string>)
    requires forall keys: set<string> :: Enumerates(order(keys), keys)
    ensures forall key, t | Produces(name, nb, key, t) :: key in Flatten(m, name, nb, order)
    decreases nb, 1
  {
    var keys := order(nb.block.blockTypes.Keys);
    assert Enumerates(keys, nb.block.blockTypes.Keys);
    ProducesSplit(name, nb, keys);
    ChildrenComplete(m[name := nb], name, nb.block, keys, order);
  }

  lemma {:induction false} ChildrenComplete(m: map<string, NestedBlock>, name: string, b: Block, keys: seq<string>,
                                            order: set<string> -> seq<string>)
    requires forall keys: set<string> :: Enumerates(order(keys), keys)
    requires forall k | k in keys :: k in b.blockTypes
    ensures forall key, t | ChildProduces(name, b, keys, key, t) :: key in FlattenChildren(m, name, b, keys, order)
    decreases b, 0, |keys|
  {
    if keys != [] {
      var key0 := name + "_" + keys[0];
      var child := b.blockTypes[keys[0]];
      var m1 := Flatten(m[key0 := child], key0, child, order);
      var rest := keys[1..];
      assert forall k | k in rest :: k in keys;
      FlattenComplete(m[key0 := child], key0, child, order);
      ChildrenComplete(m1, name, b, rest, order);
      forall key, t | ChildProduces(name, b, keys, key, t) ensures key in FlattenChildren(m, name, b, keys, order) {
        var i :| 0 <= i < |keys| && Produces(name + "_" + keys[i], b.blockTypes[keys[i]], key, t);
        if i > 0 {
          assert rest[i - 1] == keys[i];
          assert ChildProduces(name, b, rest, key, t);
        }
      }
    }
  }

  /** Soundness of the flattening: a key the walk wrote holds a block some
      path produces for it; every other key keeps its old value. */
  lemma {:induction false} FlattenSound(m: map<string, NestedBlock>, name: string, nb: NestedBlock,
                                        order: set<string> -> seq<string>)
    requires forall keys: set<string> :: Enumerates(order(keys), keys)
    ensures forall key | key in Flatten(m, name, nb, order) ::
              if exists t :: Produces(name, nb, key, t)
              then Produces(name, nb, key, Flatten(m, name, nb, order)[key])
              else key in m && Flatten(m, name, nb, order)[key] == m[key]
    decreases nb, 1
  {
    var keys := order(nb.block.blockTypes.Keys);
    assert Enumerates(keys, nb.block.blockTypes.Keys);
    ProducesSplit(name, nb, keys);
    ChildrenSound(m[name := nb], name, nb.block, keys, order);
  }

  lemma {:induction false} ChildrenSound(m: map<string, NestedBlock>, name: string, b: Block, keys: seq<string>,
                                         order: set<string> -> seq<string>)
    requires forall keys: set<string> :: Enumerates(order(keys), keys)
    requires forall k | k in keys :: k in b.blockTypes
    ensures forall key | key in FlattenChildren(m, name, b, keys, order) ::
              if exists t :: ChildProduces(name, b, keys, key, t)
              then ChildProduces(name, b, keys, key, FlattenChildren(m, name, b, keys, order)[key])
              else key in m && FlattenChildren(m, name, b, keys, order)[key] == m[key]
    decreases b, 0, |keys|
  {
    if keys != [] {
      var key0 := name + "_" + keys[0];
      var child := b.blockTypes[keys[0]];
      var m0 := m[key0 := child];
      var m1 := Flatten(m0, key0, child, order);
      var rest := keys[1..];
      assert forall k | k in rest :: k in keys;
      var r := FlattenChildren(m1, name, b, rest, order);
      assert r == FlattenChildren(m, name, b, keys, order);
      FlattenSound(m0, key0, child, order);
      ChildrenSound(m1, name, b, rest, order);
      ChildProducesSplit(name, b, keys);
      assert Produces(key0, child, key0, child);
      forall key | key in r
        ensures if exists t :: ChildProduces(name, b, keys, key, t)
                then ChildProduces(name, b, keys, key, r[key])
                else key in m && r[key] == m[key]
      {
        if !exists t :: ChildProduces(name, b, rest, key, t) {
          assert key in m1 && r[key] == m1[key];
          if !exists t :: Produces(key0, child, key, t) {
            assert key != key0;
          }
        }
      }
    }
  }

  lemma ChildProducesSplit(name: string, b: Block, keys: seq<string>)
    requires keys != [] && forall k | k in keys :: k in b.blockTypes
    ensures forall k | k in keys[1..] :: k in b.blockTypes
    ensures forall key, t :: ChildProduces(name, b, keys, key, t) <==>
              Produces(name + "_" + keys[0], b.blockTypes[keys[0]], key, t) || ChildProduces(name, b, keys[1..], key, t)
  {
    var rest := keys[1..];
    assert forall k | k in rest :: k in keys;
    forall key, t ensures ChildProduces(name, b, keys, key, t) <==>
                            Produces(name + "_" + keys[0], b.blockTypes[keys[0]], key, t) || ChildProduces(name, b, rest, key, t) {
      if ChildProduces(name, b, keys, key, t) {
        var i :| 0 <= i < |keys| && Produces(name + "_" + keys[i], b.blockTypes[keys[i]], key, t);
        if i > 0 {
          assert rest[i - 1] == keys[i];
        }
      }
      if ChildProduces(name, b, rest, key, t) {
        var i :| 0 <= i < |rest| && Produces(name + "_" + rest[i], b.blockTypes[rest[i]], key, t);
        assert keys[i + 1] == rest[i];
      }
    }
  }

  /** `computeNestedBlocks` on the schemas from key `keys[0]` on: for each
      schema `k`, each of its direct nested blocks `n` is walked from `k_n`. */
  function ComputeFrom(m: map<string, NestedBlock>, schemas: map<string, Block>, keys: seq<string>,
                       order: set<string> -> seq<string>): (r: map<string, NestedBlock>)
    requires forall keys: set<string> :: Enumerates(order(keys), keys)
    requires forall k | k in keys :: k in schemas
    ensures m.Keys <= r.Keys
    decreases |keys|
  {
    if keys == [] then m
    else
      var b := schemas[keys[0]];
      var ns := order(b.blockTypes.Keys);
      assert Enumerates(ns, b.blockTypes.Keys);
      ComputeFrom(FlattenChildren(m, keys[0], b, ns, order), schemas, keys[1..], order)
  }

  /** Some direct nested block `n` of `b`, walked from `name_n`, produces `key`. */
  ghost predicate Produced(b: Block, name: string, key: string, t: NestedBlock)
  {
    exists n | n in b.blockTypes :: Produces(name + "_" + n, b.blockTypes[n], key, t)
  }

  /** Walking the children in any enumeration produces the same keys. */
  lemma ChildProducesEnumerated(name: string, b: Block, ns: seq<string>)
    requires Enumerates(ns, b.blockTypes.Keys)
    ensures forall k | k in ns :: k in b.blockTypes
    ensures forall key, t :: ChildProduces(name, b, ns, key, t) <==> Produced(b, name, key, t)
  {
    forall key, t | Produced(b, name, key, t) ensures ChildProduces(name, b, ns, key, t) {
      var n :| n in b.blockTypes && Produces(name + "_" + n, b.blockTypes[n], key, t);
      var i :| 0 <= i < |ns| && ns[i] == n;
    }
  }

  /** Some schema among `keys` produces `key`. */
  ghost predicate SchemaProduces(schemas: map<string, Block>, keys: seq<string>, key: string, t: NestedBlock)
    requires forall k | k in keys :: k in schemas
  {
    exists i | 0 <= i < |keys| :: Produced(schemas[keys[i]], keys[i], key, t)
  }

  lemma SchemaProducesSplit(schemas: map<string, Block>, keys: seq<string>)
    requires keys != [] && forall k | k in keys :: k in schemas
    ensures forall k | k in keys[1..] :: k in schemas
    ensures forall key, t :: SchemaProduces(schemas, keys, key, t) <==>
              Produced(schemas[keys[0]], keys[0], key, t) || SchemaProduces(schemas, keys[1..], key, t)
  {
    var rest := keys[1..];
    assert forall k | k in rest :: k in keys;
    forall key, t ensures SchemaProduces(schemas, keys, key, t) <==>
                            Produced(schemas[keys[0]], keys[0], key, t) || SchemaProduces(schemas, rest, key, t) {
      if SchemaProduces(schemas, keys, key, t) {
        var i :| 0 <= i < |keys| && Produced(schemas[keys[i]], keys[i], key, t);
        if i > 0 {
          assert rest[i - 1] == keys[i];
        }
      }
      if SchemaProduces(schemas, rest, key, t) {
        var i :| 0 <= i < |rest| && Produced(schemas[rest[i]], rest[i], key, t);
        assert keys[i + 1] == rest[i];
      }
    }
  }

  lemma {:induction false} ComputeFromComplete(m: map<string, NestedBlock>, schemas: map<string, Block>, keys: seq<string>,
                                               order: set<string> -> seq<string>)
    requires forall keys: set<string> :: Enumerates(order(keys), keys)
    requires forall k | k in keys :: k in schemas
    ensures forall key, t | SchemaProduces(schemas, keys, key, t) :: key in ComputeFrom(m, schemas, keys, order)
    decreases |keys|
  {
    if keys != [] {
      var b := schemas[keys[0]];
      var ns := order(b.blockTypes.Keys);
      assert Enumerates(ns, b.blockTypes.Keys);
      var m1 := FlattenChildren(m, keys[0], b, ns, order);
      SchemaProducesSplit(schemas, keys);
      ChildProducesEnumerated(keys[0], b, ns);
      ChildrenComplete(m, keys[0], b, ns, order);
      ComputeFromComplete(m1, schemas, keys[1..], order);
      assert ComputeFrom(m, schemas, keys, order) == ComputeFrom(m1, schemas, keys[1..], order);
    }
  }

  lemma {:induction false} ComputeFromSound(m: map<string, NestedBlock>, schemas: map<string, Block>, keys: seq<string>,
                                            order: set<string> -> seq<string>)
    requires forall keys: set<string> :: Enumerates(order(keys), keys)
    requires forall k | k in keys :: k in schemas
    ensures forall key | key in ComputeFrom(m, schemas, keys, order) ::
              if exists t :: SchemaProduces(schemas, keys, key, t)
              then SchemaProduces(schemas, keys, key, ComputeFrom(m, schemas, keys, order)[key])
              else key in m && ComputeFrom(m, schemas, keys, order)[key] == m[key]
    decreases |keys|
  {
    if keys != [] {
      var b := schemas[keys[0]];
      var ns := order(b.blockTypes.Keys);
      assert Enumerates(ns, b.blockTypes.Keys);
      var m1 := FlattenChildren(m, keys[0], b, ns, order);
      SchemaProducesSplit(schemas, keys);
      ChildProducesEnumerated(keys[0], b, ns);
      ChildrenSound(m, keys[0], b, ns, order);
      ComputeFromSound(m1, schemas, keys[1..], order);
      assert ComputeFrom(m, schemas, keys, order) == ComputeFrom(m1, schemas, keys[1..], order);
    }
  }

  /** The index a walk over all schemas produces: `key` is the path from
      some schema `k` through one or more of its nested block names. */
  ghost predicate Indexed(schemas: map<string, Block>, key: string, t: NestedBlock)
  {
    exists k | k in schemas :: Produced(schemas[k], k, key, t)
  }

  /** Every direct nested block `n` of every schema `k` is indexed under
      `k_n`, and so is every deeper path; every key of the index is such a
      path and holds a block that path leads to. */
  lemma ComputeExact(schemas: map<string, Block>, order: set<string> -> seq<string>)
    requires forall keys: set<string> :: Enumerates(order(keys), keys)
    ensures forall k | k in order(schemas.Keys) :: k in schemas
    ensures forall key, t | Indexed(schemas, key, t) :: key in ComputeFrom(map[], schemas, order(schemas.Keys), order)
    ensures forall key | key in ComputeFrom(map[], schemas, order(schemas.Keys), order) ::
              Indexed(schemas, key, ComputeFrom(map[], schemas, order(schemas.Keys), order)[key])
  {
    var keys := order(schemas.Keys);
    assert forall k | k in keys :: k in schemas;
    var r := ComputeFrom(map[], schemas, keys, order);
    ComputeFromComplete(map[], schemas, keys, order);
    ComputeFromSound(map[], schemas, keys, order);
    forall key, t | Indexed(schemas, key, t) ensures key in r {
      var k :| k in schemas && Produced(schemas[k], k, key, t);
      var i :| 0 <= i < |keys| && keys[i] == k;
      assert SchemaProduces(schemas, keys, key, t);
    }
    forall key | key in r ensures Indexed(schemas, key, r[key]) {
      var i :| 0 <= i < |keys| && Produced(schemas[keys[i]], keys[i], key, r[key]);
    }
  }

  /** The direct case: schema `k`'s nested block `n` is indexed under `k_n`.
      The block stored there need not be `n`'s: joined names can collide
      (schema `a` with nested `b_c`, schema `a_b` with nested `c`), and the
      later walk wins. `ComputeExact` says which blocks a key can hold. */
  lemma DirectChildIndexed(schemas: map<string, Block>, order: set<string> -> seq<string>, k: string, n: string)
    requires forall keys: set<string> :: Enumerates(order(keys), keys)
    requires k in schemas && n in schemas[k].blockTypes
    ensures forall k | k in order(schemas.Keys) :: k in schemas
    ensures k + "_" + n in ComputeFrom(map[], schemas, order(schemas.Keys), order)
  {
    ComputeExact(schemas, order);
    assert Produces(k + "_" + n, schemas[k].blockTypes[n], k + "_" + n, schemas[k].blockTypes[n]);
    assert Indexed(schemas, k + "_" + n, schemas[k].blockTypes[n]);
  }

  // ---------------------------------------------------------------------
  // The flattening, as the source computes it

  /** The map `computeNestedBlocks` allocates and its helper fills in place. */
  class NestedBlockIndex {
    var blocks: map<string, NestedBlock>

    constructor ()
      ensures blocks == map[]
    {
      blocks := map[];
    }

    /** `doComputeNestedBlocks(name, nb, list)`. */
    method DoComputeNestedBlocks(name: string, nb: NestedBlock, order: set<string> -> seq<string>)
      requires forall keys: set<string> :: Enumerates(order(keys), keys)
      modifies this
      ensures blocks == Flatten(old(blocks), name, nb, order)
      decreases nb
    {
      blocks := blocks[name := nb];
      var keys := order(nb.block.blockTypes.Keys);
      assert forall k | k in keys :: k in nb.block.blockTypes by {
        assert Enumerates(keys, nb.block.blockTypes.Keys);
      }
      var i := 0;
      while i < |keys|
        invariant i <= |keys|
        invariant FlattenChildren(blocks, name, nb.block, keys[i..], order) == Flatten(old(blocks), name, nb, order)
      {
        assert keys[i..][1..] == keys[i + 1..];
        var key := name + "_" + keys[i];
        var child := nb.block.blockTypes[keys[i]];
        blocks := blocks[key := child];
        DoComputeNestedBlocks(key, child, order);
        i := i + 1;
      }
    }

    /** The inner loop of `computeNestedBlocks` for the schema `name`: walk
        each direct nested block `n` of `b`, in map order, from `name_n`. */
    method WalkSchema(name: string, b: Block, order: set<string> -> seq<string>)
      requires forall keys: set<string> :: Enumerates(order(keys), keys)
      modifies this
      ensures forall k | k in order(b.blockTypes.Keys) :: k in b.blockTypes
      ensures blocks == FlattenChildren(old(blocks), name, b, order(b.blockTypes.Keys), order)
    {
      var ns := order(b.blockTypes.Keys);
      assert forall k | k in ns :: k in b.blockTypes by {
        assert Enumerates(ns, b.blockTypes.Keys);
      }
      var j := 0;
      while j < |ns|
        invariant j <= |ns|
        invariant FlattenChildren(blocks, name, b, ns[j..], order) == FlattenChildren(old(blocks), name, b, ns, order)
      {
        var key := name + "_" + ns[j];
        var nested := b.blockTypes[ns[j]];
        ghost var before := blocks;
        DoComputeNestedBlocks(key, nested, order);
        ChildStep(before, name, b, ns, j, order);
        j := j + 1;
      }
      assert ns[j..] == [];
    }
  }

  /** One turn of the inner loop of `computeNestedBlocks`: walking child
      `ns[j]` from `name_ns[j]` leaves the rest of the children to walk. The
      loop does not register the child itself first; the walk does. */
  lemma ChildStep(m: map<string, NestedBlock>, name: string, b: Block, ns: seq<string>, j: nat,
                  order: set<string> -> seq<string>)
    requires forall keys: set<string> :: Enumerates(order(keys), keys)
    requires forall k | k in ns :: k in b.blockTypes
    requires j < |ns|
    ensures FlattenChildren(m, name, b, ns[j..], order) ==
            FlattenChildren(Flatten(m, name + "_" + ns[j], b.blockTypes[ns[j]], order), name, b, ns[j + 1..], order)
  {
    var key := name + "_" + ns[j];
    var nested := b.blockTypes[ns[j]];
    assert ns[j..][0] == ns[j] && ns[j..][1..] == ns[j + 1..];
    assert m[key := nested][key := nested] == m[key := nested];
  }

  /** One turn of the outer loop of `computeNestedBlocks`. */
  lemma SchemaStep(m: map<string, NestedBlock>, schemas: map<string, Block>, keys: seq<string>, i: nat,
                   order: set<string> -> seq<string>)
    requires forall keys: set<string> :: Enumerates(order(keys), keys)
    requires forall k | k in keys :: k in schemas
    requires i < |keys|
    ensures forall k | k in order(schemas[keys[i]].blockTypes.Keys) :: k in schemas[keys[i]].blockTypes
    ensures ComputeFrom(m, schemas, keys[i..], order) ==
            ComputeFrom(FlattenChildren(m, keys[i], schemas[keys[i]], order(schemas[keys[i]].blockTypes.Keys), order),
                        schemas, keys[i + 1..], order)
  {
    var b := schemas[keys[i]];
    assert Enumerates(order(b.blockTypes.Keys), b.blockTypes.Keys);
    assert keys[i..][0] == keys[i] && keys[i..][1..] == keys[i + 1..];
  }

  /** `computeNestedBlocks`: every nested block of every schema, at any
      depth, under its `_`-joined path. */
  method ComputeNestedBlocks(schemas: map<string, Block>, order: set<string> -> seq<string>)
    returns (blks: map<string, NestedBlock>)
    requires forall keys: set<string> :: Enumerates(order(keys), keys)
    ensures forall k | k in order(schemas.Keys) :: k in schemas
    ensures blks == ComputeFrom(map[], schemas, order(schemas.Keys), order)
  {
    var index := new NestedBlockIndex();
    var keys := order(schemas.Keys);
    assert forall k | k in keys :: k in schemas by {
      assert Enumerates(keys, schemas.Keys);
    }
    var i := 0;
    while i < |keys|
      invariant i <= |keys|
      invariant ComputeFrom(index.blocks, schemas, keys[i..], order) == ComputeFrom(map[], schemas, keys, order)
    {
      ghost var start := index.blocks;
      index.WalkSchema(keys[i], schemas[keys[i]], order);
      SchemaStep(start, schemas, keys, i, order);
      i := i + 1;
    }
    blks := index.blocks;
  }

  // ---------------------------------------------------------------------
  // The instance registries

  /** `NewResourceInstanceConstructor(name, block, nil)`: what a registry
      hands out for a known type. */
  datatype Constructor = Constructor(name: string, block: Block)

  /** `MapSchemaIntance`: a read-only registry of one provider's schemas. */
  datatype MapSchemaInstance = MapSchemaInstance(prefix: string, schemas: map<string, Block>)
  {
    /** `Attr`: a constructor for `prefix_name`, or `None`. */
    function Attr(name: string): (r: Option<Constructor>)
      ensures r.Some? <==> prefix + "_" + name in schemas
      ensures r.Some? ==> r.value.name == prefix + "_" + name && r.value.block == schemas[r.value.name]
    {
      var q := prefix + "_" + name;
      if q in schemas then Some(Constructor(q, schemas[q])) else None
    }

    /** `AttrNames`: the short name of every schema key, in map order. */
    method AttrNames(order: set<string> -> seq<string>) returns (r: Result<seq<string>, string>)
      requires forall keys: set<string> :: Enumerates(order(keys), keys)
      ensures r.Ok? <==> forall k | k in schemas :: '_' in k
      ensures r.Ok? ==> |r.value| == |schemas|
      ensures r.Ok? ==> forall k | k in schemas :: Registry.ShortName(k).Some? && Registry.ShortName(k).value in r.value
      ensures r.Ok? ==> (|order(schemas.Keys)| == |r.value| &&
                   forall i | 0 <= i < |r.value| :: Registry.ShortName(order(schemas.Keys)[i]) == Some(r.value[i]))
      ensures r.Err? ==> r.error in schemas && '_' !in r.error
    {
      var keys := order(schemas.Keys);
      assert Enumerates(keys, schemas.Keys);
      EnumerationLength(keys, schemas.Keys);
      r := Registry.ShortNames(keys);
      if r.Ok? {
        forall k | k in schemas ensures '_' in k && Registry.ShortName(k).value in r.value {
          var i :| 0 <= i < |keys| && keys[i] == k;
          assert Registry.ShortName(keys[i]) == Some(r.value[i]);
        }
      }
    }
  }

  /** A name `AttrNames` lists leads back, through `Attr`, to the schema it
      came from whenever the key starts with the registry's prefix and '_'. */
  lemma AttrOfListedName(m: MapSchemaInstance, k: string)
    requires k in m.schemas && '_' !in m.prefix && |m.prefix| < |k| && k[..|m.prefix| + 1] == m.prefix + "_"
    ensures Registry.ShortName(k).Some?
    ensures m.Attr(Registry.ShortName(k).value) == Some(Constructor(k, m.schemas[k]))
  {
    var s := k[|m.prefix| + 1..];
    assert k == m.prefix + "_" + s;
    Registry.ShortNameOfQualified(m.prefix, s);
  }

  /** `ProviderInstance`, once its schemas are fetched. */
  datatype ProviderInstance = ProviderInstance(name: string, dataSources: MapSchemaInstance, resources: MapSchemaInstance)
  {
    /** `AttrNames`: the two registries; `Attr` answers `None` for every
        other name. */
    function AttrNames(): (names: seq<string>)
      ensures names == ["data", "resource"]
    {
      ["data", "resource"]
    }

    /** `Attr`: the two registries; `None`, not an error, for anything else. */
    function Attr(k: string): (r: Option<MapSchemaInstance>)
      ensures r.Some? <==> k in AttrNames()
      ensures k == "data" ==> r == Some(dataSources)
      ensures k == "resource" ==> r == Some(resources)
    {
      if k == "data" then Some(dataSources)
      else if k == "resource" then Some(resources)
      else None
    }
  }
}
