/** The parts of Rust's `BTreeMap<String, _>` the decoder uses: building it
    from a list of pairs (`collect`) and taking out its least key (`pop_first`).
    Keys are ordered as `str` orders them: lexicographically, character by
    character. (Comparing UTF-8 bytes, as `str` does, gives the same order,
    since UTF-8 preserves the order of code points.) */
module OrderedMap {
  import opened Results

  /** `a <= b` in the lexicographic order of strings. */
  predicate Below(a: string, b: string) {
    a == [] || (b != [] && (a[0] < b[0] || (a[0] == b[0] && Below(a[1..], b[1..]))))
  }

  lemma {:induction false} BelowReflexive(a: string)
    ensures Below(a, a)
  {
    if a != [] {
      BelowReflexive(a[1..]);
    }
  }

  lemma {:induction false} BelowAntisymmetric(a: string, b: string)
    requires Below(a, b) && Below(b, a)
    ensures a == b
  {
    if a != [] {
      BelowAntisymmetric(a[1..], b[1..]);
      assert a == [a[0]] + a[1..] && b == [b[0]] + b[1..];
    }
  }

  lemma {:induction false} BelowTransitive(a: string, b: string, c: string)
    requires Below(a, b) && Below(b, c)
    ensures Below(a, c)
  {
    if a != [] && a[0] == b[0] && b[0] == c[0] {
      BelowTransitive(a[1..], b[1..], c[1..]);
    }
  }

  lemma {:induction false} BelowTotal(a: string, b: string)
    ensures Below(a, b) || Below(b, a)
  {
    if a != [] && b != [] && a[0] == b[0] {
      BelowTotal(a[1..], b[1..]);
    }
  }

  /** `k` is the least element of `keys`. */
  predicate IsLeast(k: string, keys: set<string>) {
    k in keys && forall j :: j in keys ==> Below(k, j)
  }

  /** Every non-empty finite set of keys has a least element. */
  lemma {:induction false} LeastExists(keys: set<string>)
    requires keys != {}
    ensures exists k :: IsLeast(k, keys)
    decreases |keys|
  {
    var x :| x in keys;
    if keys == {x} {
      BelowReflexive(x);
      assert IsLeast(x, keys);
    } else {
      var others := keys - {x};
      LeastExists(others);
      var m :| IsLeast(m, others);
      BelowTotal(x, m);
      if Below(x, m) {
        forall j | j in keys ensures Below(x, j) {
          if j == x { BelowReflexive(x); } else { BelowTransitive(x, m, j); }
        }
        assert IsLeast(x, keys);
      } else {
        forall j | j in keys ensures Below(m, j) {
          if j == x { BelowTotal(m, x); }
        }
        assert IsLeast(m, keys);
      }
    }
  }

  /** Two least elements are the same element. */
  lemma LeastUnique(keys: set<string>)
    ensures forall a, b :: IsLeast(a, keys) && IsLeast(b, keys) ==> a == b
  {
    forall a, b | IsLeast(a, keys) && IsLeast(b, keys) ensures a == b {
      BelowAntisymmetric(a, b);
    }
  }

  /** The least key of a non-empty set. */
  function Least(keys: set<string>): (k: string)
    requires keys != {}
    ensures IsLeast(k, keys)
  {
    LeastExists(keys);
    LeastUnique(keys);
    var k :| IsLeast(k, keys);
    k
  }

  /** `BTreeMap::pop_first`: the entry with the least key and the map without
      it, or None for an empty map. */
  function PopFirst<V>(m: map<string, V>): (r: Option<(string, V, map<string, V>)>)
    ensures r.None? <==> m == map[]
    ensures r.Some? ==> var (k, v, rest) := r.value;
      && k in m && v == m[k] && rest == m - {k}
      && forall j :: j in m ==> Below(k, j)
  {
    if m == map[] then None
    else
      assert m.Keys != {} by { var j :| j in m; }
      var k := Least(m.Keys);
      Some((k, m[k], m - {k}))
  }

  /** `collect::<BTreeMap<_, _>>()`: the pairs inserted in order, so a key
      given more than once keeps its last value. */
  function FromPairs<V>(pairs: seq<(string, V)>): (m: map<string, V>)
    ensures m.Keys == set i | 0 <= i < |pairs| :: pairs[i].0
  {
    if pairs == [] then map[]
    else
      var init, last := pairs[..|pairs| - 1], pairs[|pairs| - 1];
      assert (set i | 0 <= i < |pairs| :: pairs[i].0)
          == (set i | 0 <= i < |init| :: init[i].0) + {last.0} by {
        forall i | 0 <= i < |init| ensures init[i] == pairs[i] { }
      }
      FromPairs(init)[last.0 := last.1]
  }

  /** The map holds exactly the keys of the pairs, each with the value of its
      last occurrence. */
  lemma {:induction false} FromPairsContents<V>(pairs: seq<(string, V)>)
    ensures forall k :: k in FromPairs(pairs) <==> exists i :: 0 <= i < |pairs| && pairs[i].0 == k
    ensures forall i :: 0 <= i < |pairs| && (forall j :: i < j < |pairs| ==> pairs[j].0 != pairs[i].0)
                        ==> pairs[i].0 in FromPairs(pairs) && FromPairs(pairs)[pairs[i].0] == pairs[i].1
  {
    if pairs != [] {
      var init := pairs[..|pairs| - 1];
      FromPairsContents(init);
      var m := FromPairs(pairs);
      forall i | 0 <= i < |pairs| && (forall j :: i < j < |pairs| ==> pairs[j].0 != pairs[i].0)
        ensures pairs[i].0 in m && m[pairs[i].0] == pairs[i].1
      {
        if i < |init| {
          assert init[i] == pairs[i];
          assert forall j :: i < j < |init| ==> init[j].0 != init[i].0 by {
            forall j | i < j < |init| ensures init[j].0 != init[i].0 {
              assert init[j] == pairs[j];
            }
          }
        }
      }
    }
  }

  /** The loop `collect` performs: each pair is inserted, overwriting any
      earlier value for its key. */
  method Collect<V>(pairs: seq<(string, V)>) returns (m: map<string, V>)
    ensures m == FromPairs(pairs)
  {
    m := map[];
    for i := 0 to |pairs|
      invariant m == FromPairs(pairs[..i])
    {
      assert pairs[..i + 1][..i] == pairs[..i];
      m := m[pairs[i].0 := pairs[i].1];
    }
    assert pairs[..|pairs|] == pairs;
  }
}
