/** Properties of the resource object model, stated on trees. */
module ResourceProperties {
  import opened Base
  import opened Schema
  import opened Resources

  /** The shape a resource tree keeps: every stored key is declared by the
      schema, an attribute holds a plain value, a singleton nested block holds
      one conforming tree of that block's schema, a repeatable one a list. */
  ghost predicate Conforms(t: Tree)
    decreases t
  {
    && WellFormed(t.block)
    && (forall k | k in t.values :: k in t.block.attributes || k in t.block.blockTypes)
    && (forall k | k in t.values && k in t.block.attributes :: t.values[k].Plain?)
    && (forall k | k in t.values && k in t.block.blockTypes :: EntryConforms(t.values[k], k, t.block.blockTypes[k]))
  }

  ghost predicate EntryConforms(e: Entry, k: string, nb: NestedBlock)
    decreases e
  {
    match e
    case Plain(_) => false
    case One(c) => nb.maxItems == 1 && c.kind == NestedK && c.typ == k && c.block == nb.block && Conforms(c)
    case Many(cs) => nb.maxItems != 1 && forall i | 0 <= i < |cs| :: Conforms(cs[i])
  }

  /** A freshly made resource conforms to its schema. */
  lemma EmptyConforms(name: string, typ: string, kind: Kind, b: Block)
    requires WellFormed(b)
    ensures Conforms(EmptyTree(name, typ, kind, b))
  {
  }

  /** Reading a nested block creates exactly the entry its schema calls for. */
  lemma MaterializeConforms(r: Tree, name: string)
    requires Conforms(r) && name in r.block.blockTypes
    ensures Conforms(Materialize(r, name))
    ensures name in Materialize(r, name).values
    ensures Materialize(Materialize(r, name), name) == Materialize(r, name)
  {
    if name !in r.values {
      var nb := r.block.blockTypes[name];
      assert WellFormed(nb.block);
      assert Conforms(EmptyTree("", name, NestedK, nb.block));
    }
  }

  /** `Attr` never breaks the shape, and reading twice changes nothing more
      than reading once. */
  lemma AttrEffectConforms(r: Tree, name: string)
    requires Conforms(r)
    ensures Conforms(AttrEffect(r, name))
    ensures AttrEffect(AttrEffect(r, name), name) == AttrEffect(r, name)
    ensures AttrEffect(r, name).values.Keys == r.values.Keys + (if AttrEffect(r, name) == r then {} else {name})
  {
    if !IsSpecial(name) && !ReadsComputed(r.block, name) && name in r.block.blockTypes {
      MaterializeConforms(r, name);
    }
  }

  /** `SetField` and `loadDict` keep a conforming tree conforming, whatever
      they return. */
  lemma {:induction false} SetFieldConforms(r: Tree, name: string, v: Value, rt: Runtime)
    requires Conforms(r)
    ensures Conforms(SetFieldSpec(r, name, v, rt).0)
    ensures SetFieldSpec(r, name, v, rt).0.block == r.block
    decreases v, 3
  {
    if name in r.block.blockTypes {
      if v.Dict? && !IsSpecial(name) && !ReadsComputed(r.block, name) {
        SetNestedConforms(r, name, v, rt);
      }
    } else if name in r.block.attributes {
      assert name !in r.block.blockTypes;
    }
  }

  lemma {:induction false} SetNestedConforms(r: Tree, name: string, v: Value, rt: Runtime)
    requires Conforms(r) && name in r.block.blockTypes && v.Dict?
    requires !IsSpecial(name) && !ReadsComputed(r.block, name)
    ensures Conforms(SetFieldSpec(r, name, v, rt).0)
    ensures SetFieldSpec(r, name, v, rt).0.block == r.block
    decreases v, 2
  {
    var r1 := Materialize(r, name);
    MaterializeConforms(r, name);
    if r1.values[name].One? {
      var c := r1.values[name].view;
      assert EntryConforms(r1.values[name], name, r.block.blockTypes[name]);
      LoadDictConforms(c, v, 0, rt);
      var c2 := LoadDictFrom(c, v, 0, rt).0;
      assert EntryConforms(One(c2), name, r.block.blockTypes[name]);
      var r2 := r1.(values := r1.values[name := One(c2)]);
      assert Conforms(r2);
    }
  }

  lemma {:induction false} LoadDictConforms(r: Tree, d: Value, i: nat, rt: Runtime)
    requires Conforms(r) && d.Dict? && i <= |d.entries|
    ensures Conforms(LoadDictFrom(r, d, i, rt).0)
    ensures LoadDictFrom(r, d, i, rt).0.block == r.block
    ensures LoadDictFrom(r, d, i, rt).0.kind == r.kind && LoadDictFrom(r, d, i, rt).0.typ == r.typ
    decreases d, 1, |d.entries| - i
  {
    if i < |d.entries| {
      var (k, x) := d.entries[i];
      assert d.entries[i] in d.entries;
      if k.Str? {
        SetFieldConforms(r, k.s, x, rt);
        SetFieldIdentity(r, k.s, x, rt);
        var (r1, err) := SetFieldSpec(r, k.s, x, rt);
        if err.None? {
          LoadDictConforms(r1, d, i + 1, rt);
        }
      }
    }
  }

  /** `SetField` touches no key but `name`, and never changes the resource's
      name, type, kind or schema. */
  lemma SetFieldIdentity(r: Tree, name: string, v: Value, rt: Runtime)
    ensures var t := SetFieldSpec(r, name, v, rt).0;
      && t.name == r.name && t.typ == r.typ && t.kind == r.kind && t.block == r.block
      && t.values.Keys <= r.values.Keys + {name}
      && forall j | j in r.values && j != name :: j in t.values && t.values[j] == r.values[j]
  {
  }

  /** An attribute assignment succeeds exactly when the name is an attribute
      and its type accepts the value; on success only that key changes, on
      failure nothing does. */
  lemma SetAttributeOutcome(r: Tree, name: string, v: Value, rt: Runtime)
    requires name !in r.block.blockTypes
    ensures var (t, err) := SetFieldSpec(r, name, v, rt);
      && (err.None? <==> name in r.block.attributes && rt.validate(r.block.attributes[name].typ, v).None?)
      && (err.Some? ==> t == r)
      && (err.None? ==> t.values == r.values[name := Plain(v)])
      && (name !in r.block.attributes ==> err == Some(NoSuchAttr(r.typ + " has no ." + name + " field or method")))
  {
  }

  /** Assigning a nested block: anything but a dict is refused untouched; a
      dict goes into the (possibly new) singleton block, and a repeatable,
      special or computed name is refused. */
  lemma SetNestedOutcome(r: Tree, name: string, v: Value, rt: Runtime)
    requires Conforms(r) && name in r.block.blockTypes
    ensures var (t, err) := SetFieldSpec(r, name, v, rt);
      && (!v.Dict? ==> t == r && err == Some(ExpectedDictOrList(v)))
      && (v.Dict? && (IsSpecial(name) || ReadsComputed(r.block, name)) ==> t == r && err == Some(NotAResource(name)))
      && (v.Dict? && !IsSpecial(name) && !ReadsComputed(r.block, name) && r.block.blockTypes[name].maxItems != 1 ==>
            err == Some(NotAResource(name)) && name in t.values && t.values[name].Many?)
      && (v.Dict? && !IsSpecial(name) && !ReadsComputed(r.block, name) && r.block.blockTypes[name].maxItems == 1 ==>
            && name in t.values && t.values[name].One?
            && Materialize(r, name).values[name].One?
            && var (c2, e) := LoadDictFrom(Materialize(r, name).values[name].view, v, 0, rt);
               t.values == r.values[name := One(c2)] && err == e)
  {
    if v.Dict? && !IsSpecial(name) && !ReadsComputed(r.block, name) {
      if r.block.blockTypes[name].maxItems == 1 {
        SetNestedLoads(r, name, v, rt);
      } else {
        MaterializeConforms(r, name);
        assert EntryConforms(Materialize(r, name).values[name], name, r.block.blockTypes[name]);
      }
    }
  }

  /** A dict assigned to a singleton block is loaded into that block (made
      first if absent); the result of that load is what is stored. */
  lemma SetNestedLoads(r: Tree, name: string, v: Value, rt: Runtime)
    requires Conforms(r) && name in r.block.blockTypes && r.block.blockTypes[name].maxItems == 1
    requires v.Dict? && !IsSpecial(name) && !ReadsComputed(r.block, name)
    ensures var (t, err) := SetFieldSpec(r, name, v, rt);
      && name in t.values && t.values[name].One?
      && Materialize(r, name).values[name].One?
      && var (c2, e) := LoadDictFrom(Materialize(r, name).values[name].view, v, 0, rt);
         t.values == r.values[name := One(c2)] && err == e
  {
    MaterializeConforms(r, name);
    assert EntryConforms(Materialize(r, name).values[name], name, r.block.blockTypes[name]);
  }

  /** The keys a dict names from entry `i` on. */
  ghost predicate NamedFrom(d: Value, i: nat, j: string)
    requires d.Dict?
  {
    exists n | i <= n < |d.entries| :: d.entries[n].0 == Str(j)
  }

  /** `loadDict` leaves every key the dict does not name as it was. */
  lemma {:induction false} LoadDictFrame(r: Tree, d: Value, i: nat, rt: Runtime, j: string)
    requires d.Dict? && i <= |d.entries| && !NamedFrom(d, i, j)
    ensures var t := LoadDictFrom(r, d, i, rt).0;
      (j in r.values <==> j in t.values) && (j in r.values ==> t.values[j] == r.values[j])
    decreases |d.entries| - i
  {
    if i < |d.entries| {
      var k := d.entries[i].0;
      if k.Str? {
        assert k.s != j;
        var step := SetFieldSpec(r, k.s, d.entries[i].1, rt);
        SetFieldIdentity(r, k.s, d.entries[i].1, rt);
        if step.1.None? {
          assert LoadDictFrom(r, d, i, rt) == LoadDictFrom(step.0, d, i + 1, rt);
          assert !NamedFrom(d, i + 1, j);
          LoadDictFrame(step.0, d, i + 1, rt, j);
        } else {
          assert LoadDictFrom(r, d, i, rt) == step;
        }
      }
    }
  }

  /** `loadDict` fails on a non-string key exactly when no earlier entry
      failed; it succeeds only if every key is a string. */
  lemma {:induction false} LoadDictSucceedsOnlyOnStrings(r: Tree, d: Value, i: nat, rt: Runtime)
    requires d.Dict? && i <= |d.entries|
    ensures LoadDictFrom(r, d, i, rt).1.None? ==> forall n | i <= n < |d.entries| :: d.entries[n].0.Str?
    ensures LoadDictFrom(r, d, i, rt).1 == Some(KeyNotString(d.entries[i].0)) <== i < |d.entries| && !d.entries[i].0.Str?
    decreases |d.entries| - i
  {
    if i < |d.entries| && d.entries[i].0.Str? {
      var (r1, err) := SetFieldSpec(r, d.entries[i].0.s, d.entries[i].1, rt);
      if err.None? {
        LoadDictSucceedsOnlyOnStrings(r1, d, i + 1, rt);
      }
    }
  }

  /** `loadKeywordArgs` keeps a conforming tree conforming. */
  lemma {:induction false} LoadKwargsConforms(r: Tree, kwargs: seq<(string, Value)>, i: nat, rt: Runtime)
    requires Conforms(r) && i <= |kwargs|
    ensures Conforms(LoadKwargsFrom(r, kwargs, i, rt).0)
    decreases |kwargs| - i
  {
    if i < |kwargs| {
      SetFieldConforms(r, kwargs[i].0, kwargs[i].1, rt);
      var (r1, err) := SetFieldSpec(r, kwargs[i].0, kwargs[i].1, rt);
      if err.None? {
        LoadKwargsConforms(r1, kwargs, i + 1, rt);
      }
    }
  }

  /** `toDict` lists every stored key once, as a string, with its value
      (nested blocks converted). */
  lemma ToDictEntries(r: Tree, rt: Runtime)
    requires rt.Valid()
    ensures var es := ToDictSpec(r, rt).entries;
      && ToDictSpec(r, rt).Dict?
      && |es| == |r.values|
      && (forall n | 0 <= n < |es| :: es[n].0.Str? && es[n].0.s in r.values && es[n].1 == PlainOf(r.values[es[n].0.s], rt))
      && (forall k | k in r.values :: exists n | 0 <= n < |es| :: es[n].0 == Str(k))
      && (forall n, m | 0 <= n < m < |es| :: es[n].0 != es[m].0)
  {
    var keys := rt.order(r.values.Keys);
    EnumerationLength(keys, r.values.Keys);
    DictEntriesFollow(r, keys, rt);
    var es := ToDictSpec(r, rt).entries;
    forall k | k in r.values ensures exists n | 0 <= n < |es| :: es[n].0 == Str(k) {
      var n :| 0 <= n < |keys| && keys[n] == k;
      assert es[n].0 == Str(k);
    }
  }

  lemma {:induction false} DictEntriesFollow(r: Tree, keys: seq<string>, rt: Runtime)
    requires rt.Valid() && forall k | k in keys :: k in r.values
    ensures var es := DictEntries(r, keys, rt);
      && |es| == |keys|
      && forall n | 0 <= n < |es| :: es[n] == (Str(keys[n]), PlainOf(r.values[keys[n]], rt))
    decreases |keys|
  {
    if keys != [] {
      DictEntriesFollow(r, keys[..|keys| - 1], rt);
    }
  }
}
