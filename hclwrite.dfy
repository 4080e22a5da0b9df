/** The part of `hclwrite` the serialiser drives: a body is a sequence of
    newlines, attributes and blocks, each block holding a body of its own.
    Byte formatting is not part of this model. */
module HclWrite {
  import Schema

  /** An attribute's right-hand side: a raw traversal (`aws_instance.web.id`)
      or a literal cty value. */
  datatype Expr = Traversal(root: string) | Literal(value: Schema.CtyValue)

  datatype Item =
    | Newline
    | Attribute(name: string, expr: Expr)
    | Block(typ: string, labels: seq<string>, body: seq<Item>)

  /** `len(b.Blocks()) != 0 || len(b.Attributes()) != 0`: newlines do not count. */
  predicate HasContent(items: seq<Item>)
  {
    exists i | 0 <= i < |items| :: !items[i].Newline?
  }

  predicate HasAttribute(items: seq<Item>, name: string)
  {
    exists i | 0 <= i < |items| :: items[i].Attribute? && items[i].name == name
  }

  /** `GetAttribute`: the position of the first attribute called `name`. */
  function AttrIndex(items: seq<Item>, name: string): (i: nat)
    requires HasAttribute(items, name)
    ensures i < |items| && items[i].Attribute? && items[i].name == name
    ensures forall j | 0 <= j < i :: !(items[j].Attribute? && items[j].name == name)
  {
    if items[0].Attribute? && items[0].name == name then 0
    else
      assert HasAttribute(items[1..], name) by {
        var i :| 0 <= i < |items| && items[i].Attribute? && items[i].name == name;
        assert items[1..][i - 1] == items[i];
      }
      var i := 1 + AttrIndex(items[1..], name);
      assert forall j | 1 <= j < i :: items[j] == items[1..][j - 1];
      i
  }

  /** `SetAttributeValue` / `SetAttributeTraversal`: replace the expression of
      the attribute called `name` if the body has one, otherwise append it. */
  function SetAttr(items: seq<Item>, name: string, e: Expr): (r: seq<Item>)
    ensures HasAttribute(r, name)
    ensures !HasAttribute(items, name) ==> r == items + [Attribute(name, e)]
    ensures HasAttribute(items, name) ==> |r| == |items|
  {
    if items == [] then
      var r := [Attribute(name, e)];
      assert r[0].Attribute? && r[0].name == name;
      r
    else if items[0].Attribute? && items[0].name == name then
      var r := [Attribute(name, e)] + items[1..];
      assert r[0].Attribute? && r[0].name == name;
      r
    else
      var rest := SetAttr(items[1..], name, e);
      assert HasAttribute(items, name) <==> HasAttribute(items[1..], name) by {
        if HasAttribute(items, name) {
          var i :| 0 <= i < |items| && items[i].Attribute? && items[i].name == name;
          assert items[1..][i - 1] == items[i];
        }
        if HasAttribute(items[1..], name) {
          var i :| 0 <= i < |items[1..]| && items[1..][i].Attribute? && items[1..][i].name == name;
          assert items[i + 1] == items[1..][i];
        }
      }
      var r := [items[0]] + rest;
      assert HasAttribute(r, name) by {
        var i :| 0 <= i < |rest| && rest[i].Attribute? && rest[i].name == name;
        assert r[i + 1] == rest[i];
      }
      r
  }

  /** Setting an attribute the body already has replaces the first one of
      that name in place; every other item stays where it was. */
  lemma {:induction false} SetAttrReplaces(items: seq<Item>, name: string, e: Expr)
    requires HasAttribute(items, name)
    ensures SetAttr(items, name, e) == items[AttrIndex(items, name) := Attribute(name, e)]
  {
    if !(items[0].Attribute? && items[0].name == name) {
      var rest := items[1..];
      assert HasAttribute(rest, name) by {
        var i :| 0 <= i < |items| && items[i].Attribute? && items[i].name == name;
        assert rest[i - 1] == items[i];
      }
      SetAttrReplaces(rest, name, e);
      assert SetAttr(items, name, e) == [items[0]] + SetAttr(rest, name, e);
      var j := AttrIndex(rest, name);
      assert AttrIndex(items, name) == j + 1;
      var lhs, rhs := [items[0]] + rest[j := Attribute(name, e)], items[j + 1 := Attribute(name, e)];
      assert |lhs| == |rhs|;
      forall m | 1 <= m < |lhs| ensures lhs[m] == rhs[m] {
        assert lhs[m] == rest[j := Attribute(name, e)][m - 1];
        assert items[m] == rest[m - 1];
      }
    }
  }

  /** An `hclwrite.Body` (a file's root body, or a block's body being filled). */
  class Body {
    var items: seq<Item>

    /** `hclwrite.NewEmptyFile().Body()`. */
    constructor ()
      ensures items == []
    {
      items := [];
    }

    method AppendNewline()
      modifies this
      ensures items == old(items) + [Newline]
    {
      items := items + [Newline];
    }

    /** `AppendNewBlock(typ, labels)` once its body has been filled. */
    method AppendBlock(typ: string, labels: seq<string>, body: seq<Item>)
      modifies this
      ensures items == old(items) + [Block(typ, labels, body)]
    {
      items := items + [Block(typ, labels, body)];
    }

    method SetAttribute(name: string, e: Expr)
      modifies this
      ensures items == SetAttr(old(items), name, e)
    {
      items := SetAttr(items, name, e);
    }
  }
}
