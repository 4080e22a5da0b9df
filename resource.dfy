/** provider/resource.go: a `Resource` is a mutable record bound to one block
    schema. Its `values` map holds only the fields a script has set, plus the
    nested blocks that reading materialised. Nested blocks are owned objects
    (a `Resource` for a singleton block, a `ResourceCollection` otherwise), so
    the model keeps them as objects and tracks what each one owns in a ghost
    `Repr`; `View()` turns the owned tree into a plain value, and every method
    that changes state is proved against a function on trees. */
module Resources {
  import opened Base
  import opened Schema
  import HclWrite

  /** `ResourceKind`; `ProviderK` is the kind the scripting layer gives to the
      resource embedded in a provider. */
  datatype Kind = ResourceK | DataResourceK | NestedK | ProviderK

  function KindName(k: Kind): string
  {
    match k
    case ResourceK => "resource"
    case DataResourceK => "data"
    case NestedK => "nested"
    case ProviderK => "provider"
  }

  /** A Starlark value as far as the object model tells values apart. */
  datatype Value =
    | Str(s: string)
    | Dict(entries: seq<(Value, Value)>)        // a *starlark.Dict, entries in key order
    | List(items: seq<Value>)
    | Computed(origin: Resource, attr: string)  // a reference to an attribute of a resource
    | Nested(res: Resource)                     // a *Resource
    | Collection(col: ResourceCollection)       // a *ResourceCollection
    | Other(typeName: string, token: int)       // any other value (numbers, booleans, ...)

  datatype Error =
    | NoSuchAttr(message: string)          // starlark.NoSuchAttrError
    | Invalid(reason: string)              // the declared type rejected the value
    | ExpectedDictOrList(got: Value)       // "expected dict or list, got <type>"
    | NotAResource(name: string)           // the source panics: `resource.(*Resource)`
    | KeyNotString(key: Value)             // the source panics: `k.(starlark.String)`

  function NoSuchAttrMessage(typ: string, name: string): string
  {
    typ + " has no ." + name + " field or method"
  }

  /** The collaborators the object model calls but that are not part of it:
      cty type validation, Starlark hashing, `Value.Cty()`, the string form of
      a computed reference, hclwrite's byte formatting, and the order in which
      a Go `range` loop visits a map's keys. */
  datatype Runtime = Runtime(
    validate: (CtyType, Value) -> Option<string>,
    stringHash: string -> bv32,
    valueHash: Value -> Result<bv32, string>,
    cty: Value -> CtyValue,
    computedName: (Resource, string) -> string,
    bytes: seq<HclWrite.Item> -> string,
    order: set<string> -> seq<string>)
  {
    ghost predicate Valid()
    {
      forall keys: set<string> :: Enumerates(order(keys), keys)
    }
  }

  /** What `Attr` hands back: a value, the `to_hcl` builtin bound to a fresh
      empty file, or `(nil, nil)`. */
  datatype AttrResult = Got(v: Value) | ToHcl(target: Resource, file: HclWrite.Body) | NoValue

  /** The value of a resource tree: owned nested blocks appear as their own trees. */
  datatype Tree = Tree(name: string, typ: string, kind: Kind, block: Block, values: map<string, Entry>)

  datatype Entry = Plain(v: Value) | One(view: Tree) | Many(views: seq<Tree>)

  function EmptyTree(name: string, typ: string, kind: Kind, block: Block): Tree
  {
    Tree(name, typ, kind, block, map[])
  }

  /** Names `Attr` answers before consulting the schema. */
  predicate IsSpecial(name: string)
  {
    name == "__dict__" || name == "to_hcl"
  }

  /** Reading `name` yields a computed reference: a computed attribute, or `id`. */
  predicate ReadsComputed(b: Block, name: string)
  {
    (name in b.attributes && b.attributes[name].computed) || name == "id"
  }

  /** The nested block `attrBlock` creates for `name`. */
  function FreshEntry(name: string, nb: NestedBlock): Entry
  {
    if nb.maxItems != 1 then Many([]) else One(EmptyTree("", name, NestedK, nb.block))
  }

  /** `attrBlock`: create the nested block only if it is absent. */
  function Materialize(r: Tree, name: string): Tree
    requires name in r.block.blockTypes
  {
    if name in r.values then r
    else r.(values := r.values[name := FreshEntry(name, r.block.blockTypes[name])])
  }

  /** The state change `Attr(name)` makes. */
  function AttrEffect(r: Tree, name: string): Tree
  {
    if !IsSpecial(name) && !ReadsComputed(r.block, name) && name in r.block.blockTypes
    then Materialize(r, name)
    else r
  }

  /** `SetField(name, v)` on a tree: the new view and the error, if any. */
  function SetFieldSpec(r: Tree, name: string, v: Value, rt: Runtime): (Tree, Option<Error>)
    decreases v, 2, 0
  {
    if name in r.block.blockTypes then
      if !v.Dict? then (r, Some(ExpectedDictOrList(v)))
      else if IsSpecial(name) || ReadsComputed(r.block, name) then (r, Some(NotAResource(name)))
      else
        var r1 := Materialize(r, name);
        match r1.values[name]
        case One(c) =>
          var (c2, err) := LoadDictFrom(c, v, 0, rt);
          (r1.(values := r1.values[name := One(c2)]), err)
        case _ => (r1, Some(NotAResource(name)))
    else if name !in r.block.attributes then (r, Some(NoSuchAttr(NoSuchAttrMessage(r.typ, name))))
    else
      match rt.validate(r.block.attributes[name].typ, v)
      case Some(e) => (r, Some(Invalid(e)))
      case None => (r.(values := r.values[name := Plain(v)]), None)
  }

  /** `loadDict` from entry `i` on: assign key by key, stop at the first error. */
  function LoadDictFrom(r: Tree, d: Value, i: nat, rt: Runtime): (Tree, Option<Error>)
    requires d.Dict? && i <= |d.entries|
    decreases d, 1, |d.entries| - i
  {
    if i == |d.entries| then (r, None)
    else
      var (k, x) := d.entries[i];
      assert d.entries[i] in d.entries;
      if !k.Str? then (r, Some(KeyNotString(k)))
      else
        var (r1, err) := SetFieldSpec(r, k.s, x, rt);
        if err.Some? then (r1, err) else LoadDictFrom(r1, d, i + 1, rt)
  }

  /** `loadKeywordArgs` from argument `i` on. */
  function LoadKwargsFrom(r: Tree, kwargs: seq<(string, Value)>, i: nat, rt: Runtime): (Tree, Option<Error>)
    requires i <= |kwargs|
    decreases |kwargs| - i
  {
    if i == |kwargs| then (r, None)
    else
      var (r1, err) := SetFieldSpec(r, kwargs[i].0, kwargs[i].1, rt);
      if err.Some? then (r1, err) else LoadKwargsFrom(r1, kwargs, i + 1, rt)
  }

  /** `toDict` on a tree: one entry per stored key, in the runtime's order. */
  function ToDictSpec(r: Tree, rt: Runtime): Value
    requires rt.Valid()
    decreases r, 2
  {
    var keys := rt.order(r.values.Keys);
    assert forall k | k in keys :: k in r.values;
    Dict(DictEntries(r, keys, rt))
  }

  function DictEntries(r: Tree, keys: seq<string>, rt: Runtime): seq<(Value, Value)>
    requires rt.Valid() && forall k | k in keys :: k in r.values
    decreases r, 1, |keys|
  {
    if keys == [] then []
    else
      var k := keys[|keys| - 1];
      DictEntries(r, keys[..|keys| - 1], rt) + [(Str(k), PlainOf(r.values[k], rt))]
  }

  /** One more key adds its entry at the end. */
  lemma DictEntriesStep(r: Tree, keys: seq<string>, i: nat, rt: Runtime)
    requires rt.Valid() && i < |keys| && forall k | k in keys :: k in r.values
    ensures forall k | k in keys[..i + 1] :: k in r.values
    ensures DictEntries(r, keys[..i + 1], rt) == DictEntries(r, keys[..i], rt) + [(Str(keys[i]), PlainOf(r.values[keys[i]], rt))]
  {
    assert keys[..i + 1][..i] == keys[..i];
  }

  function PlainOf(e: Entry, rt: Runtime): Value
    requires rt.Valid()
    decreases e, 0
  {
    match e
    case Plain(v) => v
    case One(c) => ToDictSpec(c, rt)
    case Many(vs) => List(ListOf(vs, rt))
  }

  function ListOf(vs: seq<Tree>, rt: Runtime): seq<Value>
    requires rt.Valid()
    decreases vs, 0
  {
    if vs == [] then [] else ListOf(vs[..|vs| - 1], rt) + [ToDictSpec(vs[|vs| - 1], rt)]
  }

  /** No entry of the dict `d` has the key `j`. */
  predicate Unnamed(d: Value, j: string)
    requires d.Dict?
  {
    forall n | 0 <= n < |d.entries| :: d.entries[n].0 != Str(j)
  }

  /** No keyword argument is called `j`. */
  predicate NotAssigned(kwargs: seq<(string, Value)>, j: string)
  {
    forall n | 0 <= n < |kwargs| :: kwargs[n].0 != j
  }

  /** The two mixing steps of `Hash`, in uint32 arithmetic. */
  function MixName(x: bv32, nameHash: bv32): bv32
  {
    x ^ (3 * nameHash)
  }

  function MixValue(x: bv32, y: bv32, m: bv32): bv32
  {
    x ^ (y * m)
  }

  /** `Hash` from the entry `order[0]` on, with running state `x` and multiplier `m`. */
  function HashFrom(values: map<string, Value>, order: seq<string>, rt: Runtime, x: bv32, m: bv32): Result<bv32, string>
    requires forall k | k in order :: k in values
  {
    if order == [] then Ok(x)
    else
      var x1 := MixName(x, rt.stringHash(order[0]));
      match rt.valueHash(values[order[0]])
      case Err(e) => Err(e)
      case Ok(y) => HashFrom(values, order[1..], rt, MixValue(x1, y, m), m + 7349)
  }

  /** The objects a value stands for, when it is a nested block. */
  function Handle(v: Value): set<object>
  {
    match v
    case Nested(c) => {c}
    case Collection(col) => {col}
    case _ => {}
  }

  ghost function Footprint(v: Value): set<object>
    reads Handle(v)
  {
    match v
    case Nested(c) => c.Repr
    case Collection(col) => col.Repr
    case _ => {}
  }

  /** A valid nested block object (singleton or collection). */
  ghost predicate Owned(v: Value)
    reads Handle(v), if v.Nested? then v.res.Repr else if v.Collection? then v.col.Repr else {}
  {
    (v.Nested? && v.res.Valid()) || (v.Collection? && v.col.Valid())
  }

  /** The tree of an owned nested block. */
  ghost function SubtreeOf(v: Value): Entry
    reads Handle(v), if v.Nested? then v.res.Repr else if v.Collection? then v.col.Repr else {}
    requires Owned(v)
    decreases Footprint(v), 3, 0
  {
    if v.Nested? then One(v.res.View()) else Many(v.col.Views())
  }

  /** A nested block whose objects nothing has touched keeps its validity,
      footprint and tree. */
  twostate lemma SubtreeUnchanged(v: Value)
    requires old(Owned(v))
    requires old(Handle(v) <= Footprint(v)) && unchanged(old(Footprint(v)))
    ensures Owned(v)
    ensures Footprint(v) == old(Footprint(v)) && SubtreeOf(v) == old(SubtreeOf(v))
  {
  }

  class Resource {
    const name: string
    const typ: string
    const kind: Kind
    const block: Block
    var values: map<string, Value>
    ghost var Repr: set<object>

    /** Every stored nested block is an owned object; distinct nested blocks
        own disjoint objects; the schema is well formed. */
    ghost predicate Valid()
      reads this, Repr
      decreases Repr, 1
    {
      && this in Repr
      && WellFormed(block)
      && (forall k | k in values && k in block.blockTypes :: Holds(values[k]))
      && (forall k, k' | k in values && k' in values && k in block.blockTypes && k' in block.blockTypes && k != k' ::
            Footprint(values[k]) !! Footprint(values[k']))
    }

    ghost predicate Holds(v: Value)
      reads this, Repr
      decreases Repr, 0
    {
      && this in Repr
      && match v
         case Nested(c) => c in Repr && c != this && c.Repr <= Repr && this !in c.Repr && c in c.Repr && c.Valid()
         case Collection(col) => col in Repr && col.Repr <= Repr && this !in col.Repr && col in col.Repr && col.Valid()
         case _ => false
    }

    ghost function View(): Tree
      reads this, Repr
      requires Valid()
      decreases Repr, 2, 0
    {
      Tree(name, typ, kind, block, map k | k in values :: EntryOf(k))
    }

    ghost function EntryOf(k: string): Entry
      reads this, Repr
      requires Valid() && k in values
      decreases Repr, 1, 0
    {
      if k in block.blockTypes then
        assert Holds(values[k]);
        SubtreeOf(values[k])
      else Plain(values[k])
    }

    /** `MakeResource` before its keyword arguments are loaded. */
    constructor (name: string, typ: string, kind: Kind, block: Block)
      requires WellFormed(block)
      ensures Valid() && fresh(Repr)
      ensures this.name == name && this.typ == typ && this.kind == kind && this.block == block
      ensures values == map[]
      ensures View() == EmptyTree(name, typ, kind, block)
    {
      this.name := name;
      this.typ := typ;
      this.kind := kind;
      this.block := block;
      values := map[];
      Repr := {this};
    }

    /** `String`: the type, then the name quoted by Go's `%q` (given as
        `quote`), in parentheses: `aws_instance("web")`. */
    function String(quote: string -> string): (s: string)
      ensures |s| == |typ| + |quote(name)| + 2
      ensures s[..|typ|] == typ && s[|typ|] == '(' && s[|s| - 1] == ')'
      ensures s[|typ| + 1..|s| - 1] == quote(name)
    {
      typ + "(" + quote(name) + ")"
    }

    /** `Truth`: a resource is truthy even when no field is set. */
    function Truth(): (b: bool)
      ensures b
    {
      true
    }

    /** Store a newly created nested block under the block name `k`. */
    method Adopt(k: string, v: Value)
      requires Valid() && k in block.blockTypes && k !in values
      requires Owned(v) && Footprint(v) !! Repr
      modifies this
      ensures Valid()
      ensures values == old(values)[k := v] && Repr == old(Repr) + Footprint(v)
      ensures View() == old(View()).(values := old(View()).values[k := SubtreeOf(v)])
    {
      ghost var before := View();
      values := values[k := v];
      Repr := Repr + Footprint(v);
      Replaced(k);
    }

    /** `attrBlock`: the nested block stored under `k`, created on first use. */
    method AttrBlock(k: string) returns (v: Value)
      requires Valid() && k in block.blockTypes
      modifies this
      ensures Valid() && fresh(Repr - old(Repr))
      ensures k in values && v == values[k]
      ensures View() == Materialize(old(View()), k)
      ensures k in old(values) ==> values == old(values)
      ensures k !in old(values) ==> values == old(values)[k := v] && fresh(Handle(v))
    {
      var nb := block.blockTypes[k];
      if nb.maxItems != 1 {
        if k !in values {
          var col := new ResourceCollection(k, NestedK, nb.block);
          assert col.Views() == [];
          Adopt(k, Collection(col));
        }
      }
      if k !in values {
        var c := new Resource("", k, NestedK, nb.block);
        Adopt(k, Nested(c));
      }
      v := values[k];
    }

    /** `Attr`: the special names first, then computed references, then nested
        blocks (created on first read), then stored values. */
    method Attr(k: string, rt: Runtime) returns (r: AttrResult)
      requires Valid() && rt.Valid()
      modifies this
      ensures Valid() && fresh(Repr - old(Repr))
      ensures View() == AttrEffect(old(View()), k)
      ensures values.Keys <= old(values).Keys + {k}
      ensures forall j | j in old(values) :: j in values && values[j] == old(values)[j]
      ensures k in old(values) || k !in block.blockTypes ==> values == old(values)
      ensures k == "__dict__" ==> r == Got(ToDictSpec(old(View()), rt))
      ensures k == "to_hcl" ==> r.ToHcl? && r.target == this && fresh(r.file) && r.file.items == []
      ensures !IsSpecial(k) && ReadsComputed(block, k) ==> r == Got(Computed(this, k))
      ensures !IsSpecial(k) && !ReadsComputed(block, k) && k in block.blockTypes ==>
                k in values && r == Got(values[k])
      ensures !IsSpecial(k) && !ReadsComputed(block, k) && k !in block.blockTypes ==>
                r == if k in values then Got(values[k]) else NoValue
    {
      if k == "__dict__" {
        var d := ToDict(rt);
        return Got(d);
      } else if k == "to_hcl" {
        var file := new HclWrite.Body();
        return ToHcl(this, file);
      }
      if (k in block.attributes && block.attributes[k].computed) || k == "id" {
        return Got(Computed(this, k));
      }
      if k in block.blockTypes {
        var v := AttrBlock(k);
        return Got(v);
      }
      if k in values {
        return Got(values[k]);
      }
      return NoValue;
    }

    /** `SetField`: a nested block name takes a dict that is loaded into the
        block; an attribute takes any value its declared type accepts. */
    method SetField(k: string, v: Value, rt: Runtime) returns (err: Option<Error>)
      requires Valid() && rt.Valid()
      modifies Repr
      ensures Valid() && fresh(Repr - old(Repr))
      ensures (View(), err) == SetFieldSpec(old(View()), k, v, rt)
      ensures values.Keys <= old(values).Keys + {k}
      ensures forall j | j in old(values) && j != k :: j in values && values[j] == old(values)[j]
      ensures k in block.blockTypes && k in old(values) ==> values == old(values)
      decreases v, 4
    {
      if k in block.blockTypes {
        err := SetFieldFromNestedBlock(k, v, rt);
      } else if k !in block.attributes {
        err := Some(NoSuchAttr(NoSuchAttrMessage(typ, k)));
      } else {
        var e := rt.validate(block.attributes[k].typ, v);
        if e.Some? {
          err := Some(Invalid(e.value));
        } else {
          Store(k, v);
          err := None;
        }
      }
    }

    /** Store an attribute's value. */
    method Store(k: string, v: Value)
      requires Valid() && k in block.attributes
      modifies this
      ensures Valid() && Repr == old(Repr)
      ensures values == old(values)[k := v]
      ensures View() == old(View()).(values := old(View()).values[k := Plain(v)])
    {
      ghost var before := View();
      values := values[k := v];
      Replaced(k);
    }

    /** `setFieldFromNestedBlock`: only a dict is accepted; it is loaded into
        the block `Attr` returns, which must be a singleton nested block. */
    method SetFieldFromNestedBlock(k: string, v: Value, rt: Runtime) returns (err: Option<Error>)
      requires Valid() && rt.Valid() && k in block.blockTypes
      modifies Repr
      ensures Valid() && fresh(Repr - old(Repr))
      ensures (View(), err) == SetFieldSpec(old(View()), k, v, rt)
      ensures values.Keys <= old(values).Keys + {k}
      ensures forall j | j in old(values) :: j in values && values[j] == old(values)[j]
      decreases v, 3
    {
      ghost var before := View();
      if !v.Dict? {
        assert SetFieldSpec(before, k, v, rt) == (before, Some(ExpectedDictOrList(v)));
        return Some(ExpectedDictOrList(v));
      }
      var a := Attr(k, rt);
      ghost var mid := View();
      assert mid == AttrEffect(before, k);
      if a.Got? && a.v.Nested? {
        assert !IsSpecial(k) && !ReadsComputed(block, k);
        err := LoadInto(k, v, rt);
      } else {
        err := Some(NotAResource(k));
        if !IsSpecial(k) && !ReadsComputed(block, k) {
          assert Holds(values[k]);
          assert mid.values[k] == EntryOf(k) == SubtreeOf(values[k]);
        }
      }
    }

    /** Load a dict into the singleton nested block stored under `k`, then
        take in the objects it acquired; the other nested blocks are untouched. */
    method LoadInto(k: string, v: Value, rt: Runtime) returns (err: Option<Error>)
      requires Valid() && rt.Valid() && v.Dict?
      requires k in values && k in block.blockTypes && values[k].Nested?
      modifies Repr
      ensures Valid() && fresh(Repr - old(Repr)) && values == old(values)
      ensures var t := old(View());
              && t.values[k].One?
              && var (c2, e) := LoadDictFrom(t.values[k].view, v, 0, rt);
              View() == t.(values := t.values[k := One(c2)]) && err == e
      decreases v, 2
    {
      ghost var mid := View();
      var c := values[k].res;
      assert Holds(values[k]);
      assert mid.values[k] == EntryOf(k) == SubtreeOf(values[k]);
      err := c.LoadDict(v, rt);
      Repr := Repr + c.Repr;
      Replaced(k);
    }

    /** What the nested block stored under `k` owns, if there is one. */
    ghost function KeyFootprint(k: string): set<object>
      reads this, if k in values then Handle(values[k]) else {}
    {
      if k in values && k in block.blockTypes then Footprint(values[k]) else {}
    }

    /** After the entry under `k` alone changed (and with it only what `k`
        owned), the resource is valid again and its tree differs from the old
        one at `k` alone. */
    twostate lemma Replaced(k: string)
      requires old(Valid()) && k in values
      requires values.Keys == old(values).Keys + {k}
      requires forall j | j in old(values) && j != k :: values[j] == old(values[j])
      requires Repr == old(Repr) + KeyFootprint(k)
      requires forall o | o in old(Repr) && o != this && o !in old(KeyFootprint(k)) :: unchanged(o)
      requires k in block.blockTypes ==>
                 && Owned(values[k]) && Handle(values[k]) <= Footprint(values[k])
                 && this !in Footprint(values[k])
                 && Footprint(values[k]) !! old(Repr) - old(KeyFootprint(k))
      ensures Valid()
      ensures View() == old(View()).(values := old(View()).values[k := EntryOf(k)])
    {
      ReplacedValid(k);
      ReplacedEntries(k);
      ViewReplaced(old(View()).values, k);
    }

    /** The entries under the other keys read the same as before. */
    twostate lemma ReplacedEntries(k: string)
      requires old(Valid()) && Valid() && k in values
      requires values.Keys == old(values).Keys + {k}
      requires forall j | j in old(values) && j != k :: values[j] == old(values[j])
      requires forall j | j in old(values) && j in block.blockTypes && j != k ::
                 old(Owned(values[j])) && Owned(values[j]) && SubtreeOf(values[j]) == old(SubtreeOf(values[j]))
      ensures old(View()).values.Keys + {k} == values.Keys
      ensures forall j | j in old(View()).values && j != k :: EntryOf(j) == old(View()).values[j]
    {
      forall j | j in old(values) && j != k
        ensures EntryOf(j) == old(EntryOf(j))
      {
        if j in block.blockTypes {
          assert EntryOf(j) == SubtreeOf(values[j]);
          assert old(EntryOf(j)) == old(SubtreeOf(values[j]));
        }
      }
    }

    /** A tree whose entries agree with `before` except under `k`. */
    lemma ViewReplaced(before: map<string, Entry>, k: string)
      requires Valid() && k in values && before.Keys + {k} == values.Keys
      requires forall j | j in before && j != k :: EntryOf(j) == before[j]
      ensures View().values == before[k := EntryOf(k)]
    {
      forall j | j in values
        ensures View().values[j] == before[k := EntryOf(k)][j]
      {
      }
    }

    twostate lemma ReplacedValid(k: string)
      requires old(Valid()) && k in values
      requires values.Keys == old(values).Keys + {k}
      requires forall j | j in old(values) && j != k :: values[j] == old(values[j])
      requires Repr == old(Repr) + KeyFootprint(k)
      requires forall o | o in old(Repr) && o != this && o !in old(KeyFootprint(k)) :: unchanged(o)
      requires k in block.blockTypes ==>
                 && Owned(values[k]) && Handle(values[k]) <= Footprint(values[k])
                 && this !in Footprint(values[k])
                 && Footprint(values[k]) !! old(Repr) - old(KeyFootprint(k))
      ensures Valid()
      ensures forall j | j in old(values) && j in block.blockTypes && j != k ::
                old(Owned(values[j])) && Owned(values[j]) && SubtreeOf(values[j]) == old(SubtreeOf(values[j]))
    {
      Siblings(k);
      if k in block.blockTypes {
        assert Holds(values[k]);
      }
    }

    /** While only `this` and what `k` owned were touched, every other nested
        block kept its validity, its footprint and its tree. */
    twostate lemma Siblings(k: string)
      requires old(Valid())
      requires forall j | j in old(values) && j != k :: j in values && values[j] == old(values[j])
      requires forall o | o in old(Repr) && o != this && o !in old(KeyFootprint(k)) :: unchanged(o)
      ensures forall j | j in old(values) && j in block.blockTypes && j != k ::
                && old(Holds(values[j]))
                && Footprint(values[j]) == old(Footprint(values[j]))
                && Footprint(values[j]) <= old(Repr)
                && Footprint(values[j]) !! old(KeyFootprint(k))
                && Owned(values[j])
                && SubtreeOf(values[j]) == old(SubtreeOf(values[j]))
    {
      forall j | j in old(values) && j in block.blockTypes && j != k
        ensures && old(Holds(values[j]))
                && Footprint(values[j]) == old(Footprint(values[j]))
                && Footprint(values[j]) <= old(Repr)
                && Footprint(values[j]) !! old(KeyFootprint(k))
                && Owned(values[j])
                && SubtreeOf(values[j]) == old(SubtreeOf(values[j]))
      {
        assert old(Holds(values[j]));
        if k in old(values) && k in block.blockTypes {
          assert old(Footprint(values[j]) !! Footprint(values[k]));
        }
        SubtreeUnchanged(values[j]);
      }
    }

    /** `loadDict`: assign the entries in the dict's order, stop at the first error. */
    method LoadDict(d: Value, rt: Runtime) returns (err: Option<Error>)
      requires Valid() && rt.Valid() && d.Dict?
      modifies Repr
      ensures Valid() && fresh(Repr - old(Repr))
      ensures (View(), err) == LoadDictFrom(old(View()), d, 0, rt)
      ensures forall j | j in old(values) && (j in block.blockTypes || Unnamed(d, j)) ::
                j in values && values[j] == old(values)[j]
      decreases d, 1
    {
      var i := 0;
      while i < |d.entries|
        invariant i <= |d.entries|
        invariant Valid() && fresh(Repr - old(Repr))
        invariant LoadDictFrom(View(), d, i, rt) == LoadDictFrom(old(View()), d, 0, rt)
        invariant forall j | j in old(values) && (j in block.blockTypes || Unnamed(d, j)) ::
                    j in values && values[j] == old(values)[j]
      {
        var (k, x) := d.entries[i];
        assert d.entries[i] in d.entries;
        if !k.Str? {
          return Some(KeyNotString(k));
        }
        err := SetField(k.s, x, rt);
        if err.Some? {
          return;
        }
        i := i + 1;
      }
      return None;
    }

    /** `toDict`: one entry per stored key; nested blocks become dicts (or
        lists of dicts) themselves. */
    method ToDict(rt: Runtime) returns (d: Value)
      requires Valid() && rt.Valid()
      ensures d == ToDictSpec(View(), rt)
      decreases Repr, 1
    {
      ghost var t := View();
      var keys := rt.order(values.Keys);
      assert t.values.Keys == values.Keys;
      assert forall k | k in keys :: k in values by { assert Enumerates(keys, values.Keys); }
      var entries := [];
      var i := 0;
      while i < |keys|
        invariant i <= |keys|
        invariant View() == t
        invariant entries == DictEntries(t, keys[..i], rt)
      {
        var k := keys[i];
        var x := ValueToDict(k, rt);
        DictEntriesStep(t, keys, i, rt);
        entries := entries + [(Str(k), x)];
        i := i + 1;
      }
      assert keys[..i] == keys;
      return Dict(entries);
    }

    /** One entry of `toDict`. */
    method ValueToDict(k: string, rt: Runtime) returns (x: Value)
      requires Valid() && rt.Valid() && k in values
      ensures x == PlainOf(View().values[k], rt)
      decreases Repr, 0
    {
      assert View().values[k] == EntryOf(k);
      if k in block.blockTypes {
        assert Holds(values[k]);
        match values[k]
        case Nested(c) =>
          x := c.ToDict(rt);
        case Collection(col) =>
          x := col.ToDict(rt);
      } else {
        x := values[k];
      }
    }

    /** `loadKeywordArgs`: assign the keyword arguments in order, stop at the
        first error. */
    method LoadKeywordArgs(kwargs: seq<(string, Value)>, rt: Runtime) returns (err: Option<Error>)
      requires Valid() && rt.Valid()
      modifies Repr
      ensures Valid() && fresh(Repr - old(Repr))
      ensures (View(), err) == LoadKwargsFrom(old(View()), kwargs, 0, rt)
      ensures forall j | j in old(values) && (j in block.blockTypes || NotAssigned(kwargs, j)) ::
                j in values && values[j] == old(values)[j]
    {
      var i := 0;
      while i < |kwargs|
        invariant i <= |kwargs|
        invariant Valid() && fresh(Repr - old(Repr))
        invariant LoadKwargsFrom(View(), kwargs, i, rt) == LoadKwargsFrom(old(View()), kwargs, 0, rt)
        invariant forall j | j in old(values) && (j in block.blockTypes || NotAssigned(kwargs, j)) ::
                    j in values && values[j] == old(values)[j]
      {
        err := SetField(kwargs[i].0, kwargs[i].1, rt);
        if err.Some? {
          return;
        }
        i := i + 1;
      }
      return None;
    }

    /** `AttrNames`: every attribute name, then every nested block name, each
        group in the runtime's map order. */
    method AttrNames(rt: Runtime) returns (names: seq<string>)
      requires WellFormed(block) && rt.Valid()
      ensures names == rt.order(block.attributes.Keys) + rt.order(block.blockTypes.Keys)
      ensures Enumerates(names, block.attributes.Keys + block.blockTypes.Keys)
      ensures |names| == |block.attributes| + |block.blockTypes|
    {
      var attrs := rt.order(block.attributes.Keys);
      var blocks := rt.order(block.blockTypes.Keys);
      EnumerationLength(attrs, block.attributes.Keys);
      EnumerationLength(blocks, block.blockTypes.Keys);
      var a := new string[|attrs| + |blocks|];
      CopyInto(a, 0, attrs);
      assert a[..|attrs|] == attrs;
      CopyInto(a, |attrs|, blocks);
      names := a[..];
      assert names == attrs + blocks;
      assert WellFormed(block);
      ConcatEnumerates(attrs, blocks, block.attributes.Keys, block.blockTypes.Keys);
    }

    /** `Hash`, visiting the stored keys in `order` (one possible iteration
        order of the map). */
    method Hash(order: seq<string>, rt: Runtime) returns (h: Result<bv32, string>)
      requires Enumerates(order, values.Keys)
      ensures h == HashFrom(values, order, rt, 8731, 9839)
    {
      var x: bv32, m: bv32 := 8731, 9839;
      var i := 0;
      while i < |order|
        invariant i <= |order|
        invariant HashFrom(values, order[i..], rt, x, m) == HashFrom(values, order, rt, 8731, 9839)
      {
        var k := order[i];
        assert order[i..][1..] == order[i + 1..];
        x := MixName(x, rt.stringHash(k));
        var y := rt.valueHash(values[k]);
        if y.Err? {
          return Err(y.error);
        }
        x := MixValue(x, y.value, m);
        m := m + 7349;
        i := i + 1;
      }
      assert order[i..] == [];
      return Ok(x);
    }
  }

  /** `MakeResource`: a resource with no values, then its keyword arguments. */
  method MakeResource(name: string, typ: string, k: Kind, b: Block, kwargs: seq<(string, Value)>, rt: Runtime)
    returns (r: Resource, err: Option<Error>)
    requires WellFormed(b) && rt.Valid()
    ensures fresh(r.Repr) && r.Valid()
    ensures r.name == name && r.typ == typ && r.kind == k && r.block == b
    ensures (r.View(), err) == LoadKwargsFrom(EmptyTree(name, typ, k, b), kwargs, 0, rt)
  {
    r := new Resource(name, typ, k, b);
    err := r.LoadKeywordArgs(kwargs, rt);
  }

  /** Write `s` into `a` from index `at` on, leaving the rest as it was. */
  method CopyInto(a: array<string>, at: nat, s: seq<string>)
    requires at + |s| <= a.Length
    modifies a
    ensures a[..] == old(a[..at]) + s + old(a[at + |s|..])
  {
    var i := 0;
    while i < |s|
      invariant i <= |s|
      invariant forall n | 0 <= n < a.Length :: a[n] == if at <= n < at + i then s[n - at] else old(a[n])
    {
      a[at + i] := s[i];
      i := i + 1;
    }
    ghost var want := old(a[..at]) + s + old(a[at + |s|..]);
    assert |a[..]| == |want|;
    forall n | 0 <= n < a.Length ensures a[..][n] == want[n] {
      if n < at {
        assert want[n] == old(a[..at])[n];
      } else if n < at + |s| {
        assert want[n] == s[n - at];
      } else {
        assert want[n] == old(a[at + |s|..])[n - at - |s|];
      }
    }
  }

  /** A `ResourceCollection`: an ordered list of resources of one nested
      block. Its source is not part of this model beyond its length and
      in-order iteration; `Valid` does not tie the elements to `block`. */
  class ResourceCollection {
    const typ: string
    const kind: Kind
    const block: Block
    var elems: seq<Resource>
    ghost var Repr: set<object>

    ghost predicate Valid()
      reads this, Repr
      decreases Repr, 1
    {
      && this in Repr
      && forall i | 0 <= i < |elems| ::
           elems[i] in Repr && elems[i].Repr <= Repr && this !in elems[i].Repr && elems[i].Valid()
    }

    ghost function ViewsUpTo(n: nat): (vs: seq<Tree>)
      reads this, Repr
      requires Valid() && n <= |elems|
      ensures |vs| == n
      decreases Repr, 0, n
    {
      if n == 0 then [] else ViewsUpTo(n - 1) + [elems[n - 1].View()]
    }

    ghost function Views(): seq<Tree>
      reads this, Repr
      requires Valid()
      decreases Repr, 1, 0
    {
      ViewsUpTo(|elems|)
    }

    /** `NewResourceCollection(typ, kind, block)`: empty. */
    constructor (typ: string, kind: Kind, block: Block)
      ensures Valid() && fresh(Repr)
      ensures this.typ == typ && this.kind == kind && this.block == block && elems == []
    {
      this.typ := typ;
      this.kind := kind;
      this.block := block;
      elems := [];
      Repr := {this};
    }

    /** The collection as a list of its elements' dicts. */
    method ToDict(rt: Runtime) returns (d: Value)
      requires Valid() && rt.Valid()
      ensures d == List(ListOf(Views(), rt))
      decreases Repr, 1
    {
      var items := [];
      var i := 0;
      while i < |elems|
        invariant i <= |elems|
        invariant items == ListOf(ViewsUpTo(i), rt)
      {
        var x := elems[i].ToDict(rt);
        assert ViewsUpTo(i + 1)[..i] == ViewsUpTo(i);
        items := items + [x];
        i := i + 1;
      }
      return List(items);
    }
  }
}
