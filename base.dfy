/** Small shared vocabulary: optional values, results, and what it means for a
    sequence to enumerate the keys of a Go map (each key exactly once, in some
    order the runtime chooses). */
module Base {

  datatype Option<+T> = None | Some(value: T)

  datatype Result<+T, +E> = Ok(value: T) | Err(error: E)

  /** `s` lists every element of `keys` exactly once: how a Go `for k := range m`
      loop visits the keys of `m`. */
  ghost predicate Enumerates<K(!new)>(s: seq<K>, keys: set<K>)
  {
    && (forall i, j | 0 <= i < j < |s| :: s[i] != s[j])
    && (forall x :: x in s <==> x in keys)
  }

  /** An enumeration of a set is exactly as long as the set is large. */
  lemma {:induction false} EnumerationLength<K(!new)>(s: seq<K>, keys: set<K>)
    requires Enumerates(s, keys)
    ensures |s| == |keys|
  {
    if s != [] {
      var x := s[|s| - 1];
      var rest := s[..|s| - 1];
      assert Enumerates(rest, keys - {x}) by {
        forall y ensures y in rest <==> y in keys - {x} {
          if y in rest {
            var i :| 0 <= i < |rest| && rest[i] == y;
            assert s[i] == y;
          }
          if y in s && y != x {
            var i :| 0 <= i < |s| && s[i] == y;
            assert i < |s| - 1 && rest[i] == y;
          }
        }
      }
      EnumerationLength(rest, keys - {x});
    } else {
      assert forall y :: y !in keys;
      assert keys == {};
    }
  }

  /** Enumerations of two disjoint sets, one after the other, enumerate their union. */
  lemma ConcatEnumerates<K(!new)>(a: seq<K>, b: seq<K>, keysA: set<K>, keysB: set<K>)
    requires Enumerates(a, keysA) && Enumerates(b, keysB) && keysA !! keysB
    ensures Enumerates(a + b, keysA + keysB)
  {
    forall i, j | 0 <= i < j < |a + b| ensures (a + b)[i] != (a + b)[j] {
      if i < |a| && |a| <= j {
        assert (a + b)[i] in a && (a + b)[j] == b[j - |a|];
      } else if |a| <= i {
        assert (a + b)[i] == b[i - |a|] && (a + b)[j] == b[j - |a|];
      }
    }
  }
}
