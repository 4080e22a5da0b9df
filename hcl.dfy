/** provider/hcl.go: serialising the object model to HCL. A resource becomes
    one block (preceded by a blank line when the body already has content)
    whose body holds the stored attributes and then the stored nested blocks;
    a collection serialises its elements in index order; a registry its
    collections; a provider its data sources before its resources. Each
    method is proved against a function on the resource trees of
    `Resources.Tree`. */
module Hcl {
  import opened Base
  import opened Schema
  import opened Resources
  import HclWrite
  import Registry

  type Items = seq<HclWrite.Item>

  /** The block header: top-level kinds are labelled with type and name,
      nested blocks are named after their type and unlabelled. */
  function Header(t: Tree): (string, seq<string>)
  {
    if t.kind != NestedK then (KindName(t.kind), [t.typ, t.name]) else (t.typ, [])
  }

  /** A blank line before the new block, only when the body has content. */
  function Separated(items: Items): Items
  {
    if HclWrite.HasContent(items) then items + [HclWrite.Newline] else items
  }

  /** A computed reference is written as a traversal rooted at its string
      form; every other value as its cty conversion. */
  function AttrExpr(v: Value, rt: Runtime): HclWrite.Expr
  {
    if v.Computed? then HclWrite.Traversal(rt.computedName(v.origin, v.attr))
    else HclWrite.Literal(rt.cty(v))
  }

  /** The plain value stored under an attribute name, if any. */
  function Stored(t: Tree, k: string): Option<Value>
  {
    if k in t.values && t.values[k].Plain? then Some(t.values[k].v) else None
  }

  /** One turn of the attribute loop: set `k` if it holds a value. */
  function EmitAttr(items: Items, t: Tree, k: string, rt: Runtime): Items
  {
    match Stored(t, k)
    case None => items
    case Some(v) => HclWrite.SetAttr(items, k, AttrExpr(v, rt))
  }

  /** The attribute loop from key `keys[0]` on. */
  function EmitAttrs(items: Items, t: Tree, keys: seq<string>, rt: Runtime): Items
    decreases |keys|
  {
    if keys == [] then items
    else EmitAttrs(EmitAttr(items, t, keys[0], rt), t, keys[1..], rt)
  }

  /** A resource's block appended to `items`. */
  function EmitTree(items: Items, t: Tree, rt: Runtime): Items
    decreases t, 2
  {
    var (typ, labels) := Header(t);
    Separated(items) + [HclWrite.Block(typ, labels, BodyOf(t, rt))]
  }

  /** The new block's body: the stored attributes, then the stored nested blocks. */
  function BodyOf(t: Tree, rt: Runtime): Items
    decreases t, 1
  {
    var attrs := EmitAttrs([], t, rt.order(t.block.attributes.Keys), rt);
    EmitNested(attrs, t, rt.order(t.block.blockTypes.Keys), rt)
  }

  /** The nested-block loop from key `keys[0]` on. */
  function EmitNested(items: Items, t: Tree, keys: seq<string>, rt: Runtime): Items
    decreases t, 0, |keys|
  {
    if keys == [] then items
    else
      var items1 := if keys[0] in t.values then EmitEntry(items, t.values[keys[0]], rt) else items;
      EmitNested(items1, t, keys[1..], rt)
  }

  function EmitEntry(items: Items, e: Entry, rt: Runtime): Items
    decreases e, 3
  {
    match e
    case Plain(_) => items
    case One(c) => EmitTree(items, c, rt)
    case Many(vs) => EmitTrees(items, vs, rt)
  }

  /** The trees `vs` one after the other, in index order. */
  function EmitTrees(items: Items, vs: seq<Tree>, rt: Runtime): Items
    decreases vs, 3
  {
    if vs == [] then items else EmitTree(EmitTrees(items, vs[..|vs| - 1], rt), vs[|vs| - 1], rt)
  }

  // ---------------------------------------------------------------------
  // Properties of the serialisation

  /** The top-level blocks of a body, by header. */
  function Headers(items: Items): seq<(string, seq<string>)>
  {
    if items == [] then []
    else
      var last := items[|items| - 1];
      Headers(items[..|items| - 1]) + if last.Block? then [(last.typ, last.labels)] else []
  }

  lemma HeadersAppend(a: Items, b: Items)
    ensures Headers(a + b) == Headers(a) + Headers(b)
  {
    if b != [] {
      assert (a + b)[..|a + b| - 1] == a + b[..|b| - 1];
      HeadersAppend(a, b[..|b| - 1]);
    } else {
      assert a + b == a;
    }
  }

  /** A resource adds exactly one top-level block, with its header, after the
      existing items and at most one blank line; the blank line is there
      exactly when the body already holds an attribute or a block. */
  lemma EmitTreeShape(items: Items, t: Tree, rt: Runtime)
    ensures var r := EmitTree(items, t, rt);
      && r[..|items|] == items
      && |r| == |items| + (if HclWrite.HasContent(items) then 2 else 1)
      && (HclWrite.HasContent(items) <==> r[|items|] == HclWrite.Newline)
      && r[|r| - 1] == HclWrite.Block(Header(t).0, Header(t).1, BodyOf(t, rt))
  {
  }

  /** ... and so adds exactly its own header to the body's top-level blocks. */
  lemma EmitTreeHeaders(items: Items, t: Tree, rt: Runtime)
    ensures Headers(EmitTree(items, t, rt)) == Headers(items) + [Header(t)]
  {
    var blk := HclWrite.Block(Header(t).0, Header(t).1, BodyOf(t, rt));
    assert EmitTree(items, t, rt) == Separated(items) + [blk];
    assert Headers(Separated(items)) == Headers(items) by {
      if HclWrite.HasContent(items) {
        HeadersAppend(items, [HclWrite.Newline]);
        assert Headers([HclWrite.Newline]) == [] by {
          assert [HclWrite.Newline][..0] == [];
        }
      }
    }
    HeadersAppend(Separated(items), [blk]);
    assert Headers([blk]) == [Header(t)] by {
      assert [blk][..0] == [];
    }
  }

  /** A fresh file receives no blank line: `to_hcl` on a resource yields one block. */
  lemma EmitIntoEmpty(t: Tree, rt: Runtime)
    ensures EmitTree([], t, rt) == [HclWrite.Block(Header(t).0, Header(t).1, BodyOf(t, rt))]
  {
    assert !HclWrite.HasContent([]);
  }

  /** The headers a sequence of trees contributes, in order. */
  function HeadersOf(vs: seq<Tree>): seq<(string, seq<string>)>
  {
    if vs == [] then [] else HeadersOf(vs[..|vs| - 1]) + [Header(vs[|vs| - 1])]
  }

  /** A collection contributes one top-level block per element, in index order. */
  lemma {:induction false} EmitTreesHeaders(items: Items, vs: seq<Tree>, rt: Runtime)
    ensures Headers(EmitTrees(items, vs, rt)) == Headers(items) + HeadersOf(vs)
  {
    if vs != [] {
      var init := EmitTrees(items, vs[..|vs| - 1], rt);
      var last := vs[|vs| - 1];
      EmitTreesHeaders(items, vs[..|vs| - 1], rt);
      EmitTreeHeaders(init, last, rt);
      assert EmitTrees(items, vs, rt) == EmitTree(init, last, rt);
      assert HeadersOf(vs) == HeadersOf(vs[..|vs| - 1]) + [Header(last)];
      assert Headers(EmitTrees(items, vs, rt)) == Headers(items) + HeadersOf(vs[..|vs| - 1]) + [Header(last)];
    }
  }

  lemma {:induction false} HeadersOfAppend(a: seq<Tree>, b: seq<Tree>)
    ensures HeadersOf(a + b) == HeadersOf(a) + HeadersOf(b)
  {
    if b == [] {
      assert a + b == a;
    } else {
      assert (a + b)[..|a + b| - 1] == a + b[..|b| - 1];
      HeadersOfAppend(a, b[..|b| - 1]);
    }
  }

  /** Serialising `a + b` is serialising `a`, then `b`. */
  lemma {:induction false} EmitTreesAppend(items: Items, a: seq<Tree>, b: seq<Tree>, rt: Runtime)
    ensures EmitTrees(items, a + b, rt) == EmitTrees(EmitTrees(items, a, rt), b, rt)
  {
    if b == [] {
      assert a + b == a;
    } else {
      assert (a + b)[..|a + b| - 1] == a + b[..|b| - 1];
      EmitTreesAppend(items, a, b[..|b| - 1], rt);
    }
  }

  /** The attribute items a body receives: one per stored attribute, in
      the order of `keys`. */
  function AttrItems(t: Tree, keys: seq<string>, rt: Runtime): (r: Items)
    ensures forall i | 0 <= i < |r| :: r[i].Attribute?
  {
    if keys == [] then []
    else
      var rest := AttrItems(t, keys[1..], rt);
      match Stored(t, keys[0])
      case None => rest
      case Some(v) => [HclWrite.Attribute(keys[0], AttrExpr(v, rt))] + rest
  }

  lemma DistinctTail(keys: seq<string>)
    requires keys != [] && forall i, j | 0 <= i < j < |keys| :: keys[i] != keys[j]
    ensures keys[0] !in keys[1..]
    ensures forall i, j | 0 <= i < j < |keys[1..]| :: keys[1..][i] != keys[1..][j]
  {
    forall j | 0 <= j < |keys| - 1 ensures keys[1..][j] != keys[0] {
      assert keys[1..][j] == keys[j + 1];
    }
  }

  /** With distinct keys, the attribute loop only ever appends. */
  lemma {:induction false} EmitAttrsAppends(items: Items, t: Tree, keys: seq<string>, rt: Runtime)
    requires forall i, j | 0 <= i < j < |keys| :: keys[i] != keys[j]
    requires forall i | 0 <= i < |items| :: items[i].Attribute? ==> items[i].name !in keys
    ensures EmitAttrs(items, t, keys, rt) == items + AttrItems(t, keys, rt)
    decreases |keys|
  {
    if keys != [] {
      var k := keys[0];
      DistinctTail(keys);
      assert forall k' | k' in keys[1..] :: k' in keys;
      match Stored(t, k)
      case None =>
        EmitAttrsAppends(items, t, keys[1..], rt);
      case Some(v) =>
        var a := HclWrite.Attribute(k, AttrExpr(v, rt));
        var items1 := items + [a];
        assert EmitAttrs(items, t, keys, rt) == EmitAttrs(items1, t, keys[1..], rt) by {
          assert !HclWrite.HasAttribute(items, k);
          assert HclWrite.SetAttr(items, k, AttrExpr(v, rt)) == items1;
        }
        assert forall i | 0 <= i < |items1| :: items1[i].Attribute? ==> items1[i].name !in keys[1..] by {
          forall i | 0 <= i < |items1| && items1[i].Attribute? ensures items1[i].name !in keys[1..] {
            if i < |items| {
              assert items1[i] == items[i];
            }
          }
        }
        EmitAttrsAppends(items1, t, keys[1..], rt);
        assert AttrItems(t, keys, rt) == [a] + AttrItems(t, keys[1..], rt);
    }
  }

  /** `it` is the attribute written for a stored key of `keys`, carrying
      the expression of that key's value. */
  ghost predicate WrittenFor(t: Tree, keys: seq<string>, rt: Runtime, it: HclWrite.Item)
  {
    && it.Attribute?
    && it.name in keys
    && Stored(t, it.name).Some?
    && it.expr == AttrExpr(Stored(t, it.name).value, rt)
  }

  /** Every item of `AttrItems` is written for a stored key of `keys` and
      carries the expression of its value. */
  lemma {:induction false} AttrItemsSound(t: Tree, keys: seq<string>, rt: Runtime)
    ensures forall i | 0 <= i < |AttrItems(t, keys, rt)| :: WrittenFor(t, keys, rt, AttrItems(t, keys, rt)[i])
  {
    if keys != [] {
      AttrItemsSound(t, keys[1..], rt);
      var rest := AttrItems(t, keys[1..], rt);
      var r := AttrItems(t, keys, rt);
      assert forall k | k in keys[1..] :: k in keys;
      match Stored(t, keys[0])
      case None =>
        assert r == rest;
        forall i | 0 <= i < |r| ensures WrittenFor(t, keys, rt, r[i]) {
          assert WrittenFor(t, keys[1..], rt, rest[i]);
        }
      case Some(v) =>
        assert r == [HclWrite.Attribute(keys[0], AttrExpr(v, rt))] + rest;
        forall i | 0 <= i < |r| ensures WrittenFor(t, keys, rt, r[i]) {
          if i > 0 {
            assert r[i] == rest[i - 1];
            assert WrittenFor(t, keys[1..], rt, rest[i - 1]);
          }
        }
    }
  }

  /** With distinct keys, no name is written twice. */
  lemma {:induction false} AttrItemsDistinct(t: Tree, keys: seq<string>, rt: Runtime)
    requires forall i, j | 0 <= i < j < |keys| :: keys[i] != keys[j]
    ensures forall i, j | 0 <= i < j < |AttrItems(t, keys, rt)| ::
      AttrItems(t, keys, rt)[i].name != AttrItems(t, keys, rt)[j].name
  {
    if keys != [] {
      DistinctTail(keys);
      AttrItemsDistinct(t, keys[1..], rt);
      AttrItemsSound(t, keys[1..], rt);
      var rest := AttrItems(t, keys[1..], rt);
      var r := AttrItems(t, keys, rt);
      var h := |r| - |rest|;
      assert r[h..] == rest by {
        match Stored(t, keys[0])
        case None =>
        case Some(v) =>
      }
      forall i, j | 0 <= i < j < |r| ensures r[i].name != r[j].name {
        assert r[j] == rest[j - h];
        if i >= h {
          assert r[i] == rest[i - h];
        } else {
          assert r[i].name == keys[0];
          assert WrittenFor(t, keys[1..], rt, rest[j - h]);
        }
      }
    }
  }

  /** Every stored key of `keys` is written. */
  lemma {:induction false} AttrItemsComplete(t: Tree, keys: seq<string>, rt: Runtime)
    ensures forall k | k in keys && Stored(t, k).Some? :: HclWrite.HasAttribute(AttrItems(t, keys, rt), k)
  {
    if keys != [] {
      AttrItemsComplete(t, keys[1..], rt);
      var rest := AttrItems(t, keys[1..], rt);
      var r := AttrItems(t, keys, rt);
      var h := |r| - |rest|;
      forall k | k in keys && Stored(t, k).Some? ensures HclWrite.HasAttribute(r, k) {
        if k == keys[0] {
          assert r[0].Attribute? && r[0].name == k;
        } else {
          assert k in keys[1..];
          var i :| 0 <= i < |rest| && rest[i].Attribute? && rest[i].name == k;
          assert r[i + h] == rest[i];
        }
      }
    }
  }

  /** The attribute part of a block body: exactly one attribute for each
      declared attribute that holds a value, none for unset ones, computed
      references as traversals and other values as literals. */
  lemma AttributesOfBody(t: Tree, rt: Runtime)
    requires rt.Valid()
    ensures var r := EmitAttrs([], t, rt.order(t.block.attributes.Keys), rt);
      && (forall i | 0 <= i < |r| :: r[i].Attribute? && r[i].name in t.block.attributes && Stored(t, r[i].name).Some?)
      && (forall i, j | 0 <= i < j < |r| :: r[i].name != r[j].name)
      && (forall k | k in t.block.attributes :: HclWrite.HasAttribute(r, k) <==> Stored(t, k).Some?)
      && (forall i | 0 <= i < |r| :: r[i].expr.Traversal? <==> Stored(t, r[i].name).value.Computed?)
  {
    var keys := rt.order(t.block.attributes.Keys);
    EmitAttrsAppends([], t, keys, rt);
    var r := AttrItems(t, keys, rt);
    assert EmitAttrs([], t, keys, rt) == r;
    AttrItemsSound(t, keys, rt);
    AttrItemsDistinct(t, keys, rt);
    AttrItemsComplete(t, keys, rt);
    forall k | k in t.block.attributes && HclWrite.HasAttribute(r, k) ensures Stored(t, k).Some? {
      var i :| 0 <= i < |r| && r[i].Attribute? && r[i].name == k;
    }
  }

  /** Nested blocks with no stored value contribute nothing. */
  lemma {:induction false} UnsetNestedSkipped(items: Items, t: Tree, keys: seq<string>, rt: Runtime)
    requires forall k | k in keys :: k !in t.values
    ensures EmitNested(items, t, keys, rt) == items
  {
    if keys != [] {
      UnsetNestedSkipped(items, t, keys[1..], rt);
    }
  }

  // ---------------------------------------------------------------------
  // The serialiser

  /** A stored nested block's entry in the resource's tree. */
  lemma NestedEntry(r: Resource, k: string)
    requires r.Valid() && k in r.values && k in r.block.blockTypes
    ensures r.Holds(r.values[k])
    ensures r.View().values[k] == SubtreeOf(r.values[k])
  {
    assert r.View().values[k] == r.EntryOf(k);
  }

  lemma ViewKeys(r: Resource)
    requires r.Valid()
    ensures r.View().values.Keys == r.values.Keys
  {
  }

  /** A stored attribute's entry in the resource's tree. */
  lemma PlainEntry(r: Resource, k: string)
    requires r.Valid() && k in r.values && k !in r.block.blockTypes
    ensures r.View().values[k] == Plain(r.values[k])
  {
    assert r.View().values[k] == r.EntryOf(k);
  }

  /** Writing to bodies outside a resource leaves its tree alone. */
  twostate lemma ViewKept(r: Resource)
    requires old(r.Valid()) && unchanged(old(r.Repr))
    ensures r.Valid() && r.View() == old(r.View())
  {
  }

  /** `Resource.ToHCL`. The block's body is filled before the block is
      appended; nothing else writes to `b` meanwhile, so the result is the
      same as appending first. */
  method ResourceToHcl(r: Resource, b: HclWrite.Body, rt: Runtime)
    requires r.Valid() && rt.Valid() && b !in r.Repr
    modifies b
    ensures b.items == EmitTree(old(b.items), r.View(), rt)
    decreases r.Repr, 2
  {
    ghost var t := r.View();
    ghost var before := b.items;
    if HclWrite.HasContent(b.items) {
      b.AppendNewline();
    }
    assert b.items == Separated(before);
    var body := new HclWrite.Body();
    WriteAttributes(r, body, rt);
    ViewKept(r);
    ghost var attrs := body.items;
    WriteNestedBlocks(r, body, rt);
    ViewKept(r);
    assert body.items == EmitNested(attrs, t, rt.order(t.block.blockTypes.Keys), rt);
    assert body.items == BodyOf(t, rt);
    if r.kind != NestedK {
      b.AppendBlock(KindName(r.kind), [r.typ, r.name], body.items);
    } else {
      b.AppendBlock(r.typ, [], body.items);
    }
    assert Header(t) == if r.kind != NestedK then (KindName(r.kind), [r.typ, r.name]) else (r.typ, []);
    ViewKept(r);
    EmitTreeShape(before, t, rt);
  }

  /** The attributes a resource's tree stores are exactly its stored values. */
  lemma StoredAttributes(r: Resource)
    requires r.Valid()
    ensures forall k | k in r.block.attributes ::
      Stored(r.View(), k) == if k in r.values then Some(r.values[k]) else None
  {
    ViewKeys(r);
    forall k | k in r.block.attributes && k in r.values
      ensures Stored(r.View(), k) == Some(r.values[k])
    {
      PlainEntry(r, k);
    }
  }

  /** The attribute loop of `Resource.ToHCL`: each declared attribute that
      holds a value, in map order. */
  method WriteAttributes(r: Resource, body: HclWrite.Body, rt: Runtime)
    requires r.Valid() && rt.Valid() && body !in r.Repr && body.items == []
    modifies body
    ensures body.items == EmitAttrs([], r.View(), rt.order(r.block.attributes.Keys), rt)
  {
    ghost var t := r.View();
    var attrs := rt.order(r.block.attributes.Keys);
    assert forall k | k in attrs :: Stored(t, k) == if k in r.values then Some(r.values[k]) else None by {
      assert Enumerates(attrs, r.block.attributes.Keys);
      StoredAttributes(r);
    }
    WriteValues(r.values, attrs, body, t, rt);
    ViewKept(r);
  }

  /** The body of that loop, over the values the resource holds: `t` is the
      resource's tree, whose stored attributes are exactly `values` on the
      names in `attrs`. */
  method WriteValues(values: map<string, Value>, attrs: seq<string>, body: HclWrite.Body, ghost t: Tree, rt: Runtime)
    requires forall k | k in attrs :: Stored(t, k) == if k in values then Some(values[k]) else None
    modifies body
    ensures body.items == EmitAttrs(old(body.items), t, attrs, rt)
  {
    var i := 0;
    while i < |attrs|
      invariant i <= |attrs|
      invariant EmitAttrs(body.items, t, attrs[i..], rt) == EmitAttrs(old(body.items), t, attrs, rt)
    {
      var k := attrs[i];
      ghost var before := body.items;
      if k in values {
        var v := values[k];
        assert Stored(t, k) == Some(v);
        if v.Computed? {
          body.SetAttribute(k, HclWrite.Traversal(rt.computedName(v.origin, v.attr)));
        } else {
          body.SetAttribute(k, HclWrite.Literal(rt.cty(v)));
        }
      } else {
        assert Stored(t, k) == None;
      }
      assert body.items == EmitAttr(before, t, k, rt);
      assert EmitAttrs(before, t, attrs[i..], rt) == EmitAttrs(body.items, t, attrs[i + 1..], rt) by {
        assert attrs[i..][0] == k && attrs[i..][1..] == attrs[i + 1..];
      }
      i := i + 1;
    }
  }

  /** The nested-block loop of `Resource.ToHCL`: each declared nested block
      that holds a value, in map order, serialised into the same body. */
  method WriteNestedBlocks(r: Resource, body: HclWrite.Body, rt: Runtime)
    requires r.Valid() && rt.Valid() && body !in r.Repr
    modifies body
    ensures body.items == EmitNested(old(body.items), r.View(), rt.order(r.block.blockTypes.Keys), rt)
    decreases r.Repr, 1
  {
    ghost var t := r.View();
    ghost var goal := EmitNested(old(body.items), t, rt.order(r.block.blockTypes.Keys), rt);
    var blocks := rt.order(r.block.blockTypes.Keys);
    assert forall k | k in blocks :: k in r.block.blockTypes by {
      assert Enumerates(blocks, r.block.blockTypes.Keys);
    }
    var i := 0;
    while i < |blocks|
      invariant i <= |blocks| && r.Valid() && r.View() == t
      invariant EmitNested(body.items, t, blocks[i..], rt) == goal
    {
      var k := blocks[i];
      ghost var before := body.items;
      WriteNestedBlock(r, k, body, rt);
      assert EmitNested(before, t, blocks[i..], rt) == EmitNested(body.items, t, blocks[i + 1..], rt) by {
        assert blocks[i..][0] == k && blocks[i..][1..] == blocks[i + 1..];
      }
      assert EmitNested(body.items, t, blocks[i + 1..], rt) == goal;
      i := i + 1;
    }
  }

  /** One turn of that loop: the nested block stored under `k`, if any. */
  method WriteNestedBlock(r: Resource, k: string, body: HclWrite.Body, rt: Runtime)
    requires r.Valid() && rt.Valid() && body !in r.Repr && k in r.block.blockTypes
    modifies body
    ensures r.Valid() && r.View() == old(r.View())
    ensures k !in r.View().values ==> body.items == old(body.items)
    ensures k in r.View().values ==> body.items == EmitEntry(old(body.items), r.View().values[k], rt)
    decreases r.Repr, 0
  {
    ViewKeys(r);
    if k in r.values {
      NestedEntry(r, k);
      match r.values[k]
      case Nested(c) =>
        ResourceToHcl(c, body, rt);
      case Collection(col) =>
        CollectionToHcl(col, body, rt);
    }
    ViewKept(r);
  }

  /** Emitting one more tree of `vs` appends its block. */
  lemma EmitTreesStep(items: Items, vs: seq<Tree>, i: nat, rt: Runtime)
    requires i < |vs|
    ensures EmitTrees(items, vs[..i + 1], rt) == EmitTree(EmitTrees(items, vs[..i], rt), vs[i], rt)
  {
    assert vs[..i + 1][..i] == vs[..i];
  }

  /** The `j`-th tree of a collection is the tree of its `j`-th element. */
  lemma {:induction false} ViewsOfElements(col: ResourceCollection, n: nat)
    requires col.Valid() && n <= |col.elems|
    ensures forall j | 0 <= j < n :: col.ViewsUpTo(n)[j] == col.elems[j].View()
  {
    if n > 0 {
      ViewsOfElements(col, n - 1);
      assert col.ViewsUpTo(n) == col.ViewsUpTo(n - 1) + [col.elems[n - 1].View()];
    }
  }

  /** `ResourceCollection.ToHCL`: each element in index order. */
  method CollectionToHcl(col: ResourceCollection, b: HclWrite.Body, rt: Runtime)
    requires col.Valid() && rt.Valid() && b !in col.Repr
    modifies b
    ensures b.items == EmitTrees(old(b.items), col.Views(), rt)
    ensures col.Valid() && col.Views() == old(col.Views())
    decreases col.Repr, 1
  {
    ghost var vs := col.Views();
    var i := 0;
    while i < |col.elems|
      invariant i <= |col.elems| && col.Valid() && col.Views() == vs
      invariant b.items == EmitTrees(old(b.items), vs[..i], rt)
    {
      ViewsOfElements(col, |col.elems|);
      assert vs[i] == col.elems[i].View();
      EmitTreesStep(old(b.items), vs, i, rt);
      ResourceToHcl(col.elems[i], b, rt);
      CollectionKept(col);
      i := i + 1;
    }
    assert vs[..i] == vs;
  }

  /** The trees of a registry's collections, visiting the cache in `keys` order. */
  ghost function RegistryViews(m: Registry.MapSchema, keys: seq<string>): seq<Tree>
    reads m, m.Repr
    requires m.Valid() && forall k | k in keys :: k in m.collections
  {
    if keys == [] then []
    else RegistryViews(m, keys[..|keys| - 1]) + m.collections[keys[|keys| - 1]].Views()
  }

  /** Writing to bodies outside a collection leaves its trees alone. */
  twostate lemma CollectionKept(col: ResourceCollection)
    requires old(col.Valid()) && unchanged(old(col.Repr))
    ensures col.Valid() && col.Views() == old(col.Views())
  {
  }


  /** One turn of the `MapSchema.ToHCL` loop: serialise the collection
      cached under `keys[i]`. */
  method CachedToHcl(m: Registry.MapSchema, keys: seq<string>, i: nat, b: HclWrite.Body, rt: Runtime)
    requires m.Valid() && rt.Valid() && b !in m.Repr
    requires i < |keys| && forall k | k in keys :: k in m.collections
    modifies b
    ensures m.Valid() && RegistryViews(m, keys[..i + 1]) == old(RegistryViews(m, keys[..i + 1]))
    ensures b.items == EmitTrees(old(b.items), old(m.collections[keys[i]].Views()), rt)
  {
    var col := m.collections[keys[i]];
    CollectionToHcl(col, b, rt);
  }

  /** `MapSchema.ToHCL`: every cached collection, in map order. */
  method RegistryToHcl(m: Registry.MapSchema, b: HclWrite.Body, rt: Runtime)
    requires m.Valid() && rt.Valid() && b !in m.Repr
    modifies b
    ensures b.items == EmitTrees(old(b.items), RegistryViews(m, rt.order(m.collections.Keys)), rt)
  {
    var keys := rt.order(m.collections.Keys);
    assert forall k | k in keys :: k in m.collections by {
      assert Enumerates(keys, m.collections.Keys);
    }
    var i := 0;
    ghost var done: seq<Tree> := [];
    while i < |keys|
      invariant i <= |keys| && m.Valid()
      invariant done == RegistryViews(m, keys[..i])
      invariant b.items == EmitTrees(old(b.items), done, rt)
    {
      assert keys[..i + 1][..i] == keys[..i];
      ghost var views := m.collections[keys[i]].Views();
      assert RegistryViews(m, keys[..i + 1]) == done + views;
      CachedToHcl(m, keys, i, b, rt);
      EmitTreesAppend(old(b.items), done, views, rt);
      assert RegistryViews(m, keys[..i + 1]) == done + views;
      done := done + views;
      i := i + 1;
    }
    assert keys[..i] == keys;
  }

  /** `Provider.ToHCL`: data sources, then resources. */
  method ProviderToHcl(p: Registry.Provider, b: HclWrite.Body, rt: Runtime)
    requires p.dataSources.Valid() && p.resources.Valid() && rt.Valid()
    requires b !in p.dataSources.Repr && b !in p.resources.Repr
    modifies b
    ensures b.items == EmitTrees(EmitTrees(old(b.items), RegistryViews(p.dataSources, rt.order(p.dataSources.collections.Keys)), rt),
                                 RegistryViews(p.resources, rt.order(p.resources.collections.Keys)), rt)
  {
    RegistryToHcl(p.dataSources, b, rt);
    RegistryToHcl(p.resources, b, rt);
  }

  /** What `Provider.ToHCL` appends: every data-source block before every
      resource block, each group in its collections' order. */
  lemma DataBeforeResources(items: Items, data: seq<Tree>, res: seq<Tree>, rt: Runtime)
    ensures Headers(EmitTrees(EmitTrees(items, data, rt), res, rt)) == Headers(items) + HeadersOf(data) + HeadersOf(res)
  {
    EmitTreesHeaders(items, data, rt);
    EmitTreesHeaders(EmitTrees(items, data, rt), res, rt);
  }

  /** The builtin `to_hcl` bound to a resource and a file: serialise into the
      file's body, then return the file's bytes. */
  method InvokeToHcl(r: Resource, f: HclWrite.Body, rt: Runtime) returns (s: string)
    requires r.Valid() && rt.Valid() && f !in r.Repr
    modifies f
    ensures f.items == EmitTree(old(f.items), r.View(), rt)
    ensures s == rt.bytes(f.items)
  {
    ResourceToHcl(r, f, rt);
    s := rt.bytes(f.items);
  }
}
