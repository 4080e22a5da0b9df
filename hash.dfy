/** `Resource.Hash`: the loop as written, the way its result depends on the
    order in which Go visits the map, and an order-free variant. */
module ResourceHash {
  import opened Base
  import opened Schema
  import opened Resources

  /** The hash fails exactly when one of the stored values cannot be hashed. */
  lemma {:induction false} HashFailsIff(values: map<string, Value>, order: seq<string>, rt: Runtime, x: bv32, m: bv32)
    requires forall k | k in order :: k in values
    ensures HashFrom(values, order, rt, x, m).Err? <==>
              exists n | 0 <= n < |order| :: rt.valueHash(values[order[n]]).Err?
  {
    if order != [] {
      var x1 := MixName(x, rt.stringHash(order[0]));
      match rt.valueHash(values[order[0]])
      case Err(_) =>
      case Ok(y) =>
        HashFailsIff(values, order[1..], rt, MixValue(x1, y, m), m + 7349);
        if exists n | 0 <= n < |order| :: rt.valueHash(values[order[n]]).Err? {
          var n :| 0 <= n < |order| && rt.valueHash(values[order[n]]).Err?;
          assert order[1..][n - 1] == order[n];
        }
        if exists n | 0 <= n < |order[1..]| :: rt.valueHash(values[order[1..][n]]).Err? {
          var n :| 0 <= n < |order[1..]| && rt.valueHash(values[order[1..][n]]).Err?;
          assert order[n + 1] == order[1..][n];
        }
    }
  }

  /** A resource with no values hashes to the initial state. */
  lemma HashOfNothing(rt: Runtime)
    ensures HashFrom(map[], [], rt, 8731, 9839) == Ok(8731)
  {
  }

  /** A runtime where only the string "a" has a non-zero hash. */
  function WitnessRuntime(): Runtime
  {
    Runtime(
      (t: CtyType, v: Value) => None,
      (s: string) => 0,
      (v: Value) => if v == Str("a") then Ok(1) else Ok(0),
      (v: Value) => CtyValue(0),
      (r: Resource, a: string) => "",
      (items: seq<HclWrite.Item>) => "",
      (keys: set<string>) => [])
  }

  /** The same two values, visited in the two orders a Go map allows, give two
      different hashes: the multiplier a value is mixed with depends on its
      position in the iteration. */
  lemma HashDependsOnOrder()
    ensures var values := map["p" := Str("a"), "q" := Str("b")];
      && Enumerates(["p", "q"], values.Keys) && Enumerates(["q", "p"], values.Keys)
      && HashFrom(values, ["p", "q"], WitnessRuntime(), 8731, 9839) == Ok(8731 ^ 9839)
      && HashFrom(values, ["q", "p"], WitnessRuntime(), 8731, 9839) == Ok(8731 ^ 17188)
      && HashFrom(values, ["p", "q"], WitnessRuntime(), 8731, 9839) != HashFrom(values, ["q", "p"], WitnessRuntime(), 8731, 9839)
  {
    var values := map["p" := Str("a"), "q" := Str("b")];
    var rt := WitnessRuntime();
    assert rt.valueHash(Str("a")) == Ok(1);
    assert rt.valueHash(Str("b")) == Ok(0);
    assert ["p", "q"][1..] == ["q"] && ["q", "p"][1..] == ["p"];
    assert (8731 as bv32) ^ 9839 != (8731 as bv32) ^ 17188;
  }

  /** The contribution of one key and its value, independent of position. */
  function EntryHash(values: map<string, Value>, k: string, rt: Runtime): bv32
    requires k in values
  {
    match rt.valueHash(values[k])
    case Ok(y) => MixName(MixValue(0, y, 9839), rt.stringHash(k))
    case Err(_) => 0
  }

  function XorOf(values: map<string, Value>, order: seq<string>, rt: Runtime): bv32
    requires forall k | k in order :: k in values
  {
    if order == [] then 0 else EntryHash(values, order[0], rt) ^ XorOf(values, order[1..], rt)
  }

  function FirstError(values: map<string, Value>, order: seq<string>, rt: Runtime): Option<string>
    requires forall k | k in order :: k in values
  {
    if order == [] then None
    else if rt.valueHash(values[order[0]]).Err? then Some(rt.valueHash(values[order[0]]).error)
    else FirstError(values, order[1..], rt)
  }

  /** `Hash` with entries combined by exclusive or, so that the iteration
      order cannot matter. */
  function CorrectedHash(values: map<string, Value>, order: seq<string>, rt: Runtime): Result<bv32, string>
    requires forall k | k in order :: k in values
  {
    match FirstError(values, order, rt)
    case Some(e) => Err(e)
    case None => Ok(8731 ^ XorOf(values, order, rt))
  }

  lemma {:induction false} FirstErrorIff(values: map<string, Value>, order: seq<string>, rt: Runtime)
    requires forall k | k in order :: k in values
    ensures FirstError(values, order, rt).None? <==> forall k | k in order :: rt.valueHash(values[k]).Ok?
  {
    if order != [] {
      FirstErrorIff(values, order[1..], rt);
      assert forall k | k in order :: k == order[0] || k in order[1..];
    }
  }

  /** Over a whole enumeration, the corrected hash fails exactly when some
      stored value cannot be hashed. */
  lemma CorrectedHashOkIff(values: map<string, Value>, order: seq<string>, rt: Runtime)
    requires Enumerates(order, values.Keys)
    ensures CorrectedHash(values, order, rt).Ok? <==> forall k | k in values :: rt.valueHash(values[k]).Ok?
    ensures CorrectedHash(values, order, rt).Ok? ==> CorrectedHash(values, order, rt).value == 8731 ^ XorOf(values, order, rt)
  {
    FirstErrorIff(values, order, rt);
  }

  /** Taking one key out of the middle of the order. */
  lemma {:induction false} XorOfRemove(values: map<string, Value>, a: seq<string>, k: string, b: seq<string>, rt: Runtime)
    requires forall j | j in a + [k] + b :: j in values
    ensures XorOf(values, a + [k] + b, rt) == EntryHash(values, k, rt) ^ XorOf(values, a + b, rt)
    decreases |a|
  {
    if a == [] {
      assert a + [k] + b == [k] + b && a + b == b;
      assert ([k] + b)[1..] == b;
    } else {
      assert (a + [k] + b)[1..] == a[1..] + [k] + b;
      assert (a + b)[1..] == a[1..] + b;
      XorOfRemove(values, a[1..], k, b, rt);
    }
  }

  /** Dropping the first key of an enumeration enumerates the other keys. */
  lemma EnumeratesTail(o: seq<string>, keys: set<string>)
    requires o != [] && Enumerates(o, keys)
    ensures Enumerates(o[1..], keys - {o[0]})
  {
    var rest := o[1..];
    forall y ensures y in rest <==> y in keys - {o[0]} {
      if y in rest {
        var i :| 0 <= i < |rest| && rest[i] == y;
        assert o[i + 1] == y;
      }
      if y in o && y != o[0] {
        var i :| 0 <= i < |o| && o[i] == y;
        assert rest[i - 1] == y;
      }
    }
  }

  /** Dropping the key at position `n` of an enumeration enumerates the others. */
  lemma EnumeratesRemove(o: seq<string>, n: nat, keys: set<string>)
    requires n < |o| && Enumerates(o, keys)
    ensures Enumerates(o[..n] + o[n + 1..], keys - {o[n]})
  {
    var s := o[..n] + o[n + 1..];
    assert forall i | 0 <= i < n :: s[i] == o[i];
    assert forall i | n <= i < |s| :: s[i] == o[i + 1];
    forall i, j | 0 <= i < j < |s| ensures s[i] != s[j] {
      var i' := if i < n then i else i + 1;
      var j' := if j < n then j else j + 1;
      assert s[i] == o[i'] && s[j] == o[j'];
    }
    forall y ensures y in s <==> y in keys - {o[n]} {
      if y in s {
        var i :| 0 <= i < |s| && s[i] == y;
        var i' := if i < n then i else i + 1;
        assert o[i'] == y && i' != n;
      }
      if y in o && y != o[n] {
        var i :| 0 <= i < |o| && o[i] == y;
        assert i != n;
        if i < n { assert s[i] == y; } else { assert s[i - 1] == y; }
      }
    }
  }

  /** Any two enumerations of the same keys give the same exclusive or. */
  lemma {:induction false} XorOfOrderFree(values: map<string, Value>, o1: seq<string>, o2: seq<string>, keys: set<string>, rt: Runtime)
    requires keys <= values.Keys && Enumerates(o1, keys) && Enumerates(o2, keys)
    ensures XorOf(values, o1, rt) == XorOf(values, o2, rt)
    decreases |o1|
  {
    if o1 == [] {
      EnumerationLength(o1, keys);
      EnumerationLength(o2, keys);
    } else {
      var k := o1[0];
      assert k in o2;
      var n :| 0 <= n < |o2| && o2[n] == k;
      var a, b := o2[..n], o2[n + 1..];
      assert o2 == a + [k] + b;
      XorOfRemove(values, a, k, b, rt);
      EnumeratesTail(o1, keys);
      EnumeratesRemove(o2, n, keys);
      XorOfOrderFree(values, o1[1..], a + b, keys - {k}, rt);
    }
  }

  /** The corrected hash does not depend on the iteration order: two
      enumerations of the stored keys either both fail or agree. */
  lemma CorrectedHashOrderFree(values: map<string, Value>, o1: seq<string>, o2: seq<string>, rt: Runtime)
    requires Enumerates(o1, values.Keys) && Enumerates(o2, values.Keys)
    ensures CorrectedHash(values, o1, rt).Ok? <==> CorrectedHash(values, o2, rt).Ok?
    ensures CorrectedHash(values, o1, rt).Ok? ==> CorrectedHash(values, o1, rt) == CorrectedHash(values, o2, rt)
  {
    CorrectedHashOkIff(values, o1, rt);
    CorrectedHashOkIff(values, o2, rt);
    if CorrectedHash(values, o1, rt).Ok? {
      XorOfOrderFree(values, o1, o2, values.Keys, rt);
    }
  }

  /** Both hashes fail on exactly the same maps. */
  lemma CorrectedHashFailsLikeHash(values: map<string, Value>, order: seq<string>, rt: Runtime)
    requires Enumerates(order, values.Keys)
    ensures CorrectedHash(values, order, rt).Err? <==> HashFrom(values, order, rt, 8731, 9839).Err?
  {
    HashFailsIff(values, order, rt, 8731, 9839);
    FirstErrorIff(values, order, rt);
    if CorrectedHash(values, order, rt).Err? {
      var k :| k in order && rt.valueHash(values[k]).Err?;
      var n :| 0 <= n < |order| && order[n] == k;
    }
  }
}
