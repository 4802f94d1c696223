/**
 * "Keep the first occurrence of each key, among the keys that pass a filter":
 * the shape shared by the candidate de-duplication of `generate_candidates`
 * and the URL de-duplication of the app's batch loop.
 *
 * `Collect` is the loop as the program writes it, carrying a `seen` set
 * forward. `KeepFirst` is an independent reference definition, by the last
 * element: an element survives when its key passes and no earlier element
 * had that key. `CollectIsKeepFirst` connects the two; the remaining lemmas
 * characterise `KeepFirst`.
 */
module FirstOccurrence {

  /** What the loop leaves behind: the kept elements and the final `seen` set. */
  datatype Scan<T, K> = Scan(kept: seq<T>, taken: set<K>)

  function KeysOf<T, K(==)>(xs: seq<T>, key: T -> K): set<K> {
    set i | 0 <= i < |xs| :: key(xs[i])
  }

  /** The keys of `xs` that pass `keep`. */
  function PassingKeys<T, K(==)>(xs: seq<T>, key: T -> K, keep: K -> bool): set<K> {
    set i | 0 <= i < |xs| && keep(key(xs[i])) :: key(xs[i])
  }

  /** The program's loop: an element is taken when its key passes and is not yet in `seen`. */
  function Collect<T, K(==)>(xs: seq<T>, key: T -> K, keep: K -> bool, seen: set<K>): Scan<T, K>
    decreases |xs|
  {
    if xs == [] then Scan([], seen)
    else
      var k := key(xs[0]);
      if keep(k) && k !in seen then
        var rest := Collect(xs[1..], key, keep, seen + {k});
        Scan([xs[0]] + rest.kept, rest.taken)
      else
        Collect(xs[1..], key, keep, seen)
  }

  /** Reference definition: `xs` filtered to the first occurrence of each passing key. */
  function KeepFirst<T, K(==)>(xs: seq<T>, key: T -> K, keep: K -> bool): seq<T>
    decreases |xs|
  {
    if xs == [] then []
    else
      var init := xs[..|xs| - 1];
      var x := xs[|xs| - 1];
      KeepFirst(init, key, keep)
        + (if keep(key(x)) && key(x) !in KeysOf(init, key) then [x] else [])
  }

  /** `r` is `xs` with some elements left out, the rest in their original order. */
  predicate IsSubsequence<T(==)>(r: seq<T>, xs: seq<T>)
    decreases |xs|
  {
    if r == [] then true
    else if xs == [] then false
    else
      IsSubsequence(r, xs[..|xs| - 1])
      || (r[|r| - 1] == xs[|xs| - 1] && IsSubsequence(r[..|r| - 1], xs[..|xs| - 1]))
  }

  lemma KeepFirstSnoc<T, K>(xs: seq<T>, x: T, key: T -> K, keep: K -> bool)
    ensures KeepFirst(xs + [x], key, keep)
         == KeepFirst(xs, key, keep) + (if keep(key(x)) && key(x) !in KeysOf(xs, key) then [x] else [])
  {
    assert (xs + [x])[..|xs|] == xs;
  }

  lemma KeysSnoc<T, K>(xs: seq<T>, x: T, key: T -> K, keep: K -> bool)
    ensures KeysOf(xs + [x], key) == KeysOf(xs, key) + {key(x)}
    ensures PassingKeys(xs + [x], key, keep)
         == PassingKeys(xs, key, keep) + (if keep(key(x)) then {key(x)} else {})
  {
    var ys := xs + [x];
    assert ys[|xs|] == x;
    forall k | k in KeysOf(xs, key) ensures k in KeysOf(ys, key) {
      var i :| 0 <= i < |xs| && key(xs[i]) == k;
      assert ys[i] == xs[i];
    }
    forall k | k in PassingKeys(xs, key, keep) ensures k in PassingKeys(ys, key, keep) {
      var i :| 0 <= i < |xs| && keep(key(xs[i])) && key(xs[i]) == k;
      assert ys[i] == xs[i];
    }
  }

  /** The kept elements carry exactly the passing keys of the input. */
  lemma {:induction false} KeepFirstKeys<T, K>(xs: seq<T>, key: T -> K, keep: K -> bool)
    ensures KeysOf(KeepFirst(xs, key, keep), key) == PassingKeys(xs, key, keep)
    decreases |xs|
  {
    if xs != [] {
      var init, x := xs[..|xs| - 1], xs[|xs| - 1];
      assert xs == init + [x];
      KeepFirstKeys(init, key, keep);
      KeepFirstSnoc(init, x, key, keep);
      KeysSnoc(init, x, key, keep);
      var r := KeepFirst(init, key, keep);
      if keep(key(x)) && key(x) !in KeysOf(init, key) {
        KeysSnoc(r, x, key, keep);
      } else {
        assert KeepFirst(xs, key, keep) == r;
        assert keep(key(x)) ==> key(x) in PassingKeys(init, key, keep) by {
          if keep(key(x)) {
            var i :| 0 <= i < |init| && key(init[i]) == key(x);
          }
        }
      }
    }
  }

  /** The loop computes the reference definition, and its `seen` set ends as
      the starting set plus the passing keys. Stated for the loop resumed after
      a prefix `p`, with `seen` holding the passing keys of `p`. */
  lemma {:induction false} CollectResumes<T, K>(p: seq<T>, xs: seq<T>, key: T -> K, keep: K -> bool)
    ensures var s := Collect(xs, key, keep, PassingKeys(p, key, keep));
      KeepFirst(p, key, keep) + s.kept == KeepFirst(p + xs, key, keep)
      && s.taken == PassingKeys(p + xs, key, keep)
    decreases |xs|
  {
    if xs == [] {
      assert p + xs == p;
    } else {
      var x, rest := xs[0], xs[1..];
      var k := key(x);
      var p' := p + [x];
      assert p' + rest == p + xs;
      KeepFirstSnoc(p, x, key, keep);
      KeysSnoc(p, x, key, keep);
      CollectResumes(p', rest, key, keep);
      var seen := PassingKeys(p, key, keep);
      assert keep(k) ==> (k in seen <==> k in KeysOf(p, key)) by {
        if keep(k) && k in KeysOf(p, key) {
          var i :| 0 <= i < |p| && key(p[i]) == k;
        }
      }
      if keep(k) && k !in seen {
        assert seen + {k} == PassingKeys(p', key, keep);
        var s' := Collect(rest, key, keep, seen + {k});
        assert Collect(xs, key, keep, seen) == Scan([x] + s'.kept, s'.taken);
        assert KeepFirst(p', key, keep) == KeepFirst(p, key, keep) + [x];
      } else {
        assert seen == PassingKeys(p', key, keep);
        assert Collect(xs, key, keep, seen) == Collect(rest, key, keep, seen);
        assert KeepFirst(p', key, keep) == KeepFirst(p, key, keep);
      }
    }
  }

  /** The program's loop, started with an empty `seen` set, computes `KeepFirst`. */
  lemma CollectIsKeepFirst<T, K>(xs: seq<T>, key: T -> K, keep: K -> bool)
    ensures Collect(xs, key, keep, {}).kept == KeepFirst(xs, key, keep)
    ensures Collect(xs, key, keep, {}).taken == PassingKeys(xs, key, keep)
  {
    var e: seq<T> := [];
    assert PassingKeys(e, key, keep) == {};
    assert e + xs == xs;
    CollectResumes(e, xs, key, keep);
  }

  /** What `KeepFirst` keeps: an order-preserving selection of the input,
      each element the first of its key, the keys distinct, passing, and
      covering every passing key of the input. */
  lemma KeepFirstSpec<T, K>(xs: seq<T>, key: T -> K, keep: K -> bool)
    ensures var r := KeepFirst(xs, key, keep);
      && IsSubsequence(r, xs)
      && (forall a, b :: 0 <= a < b < |r| ==> key(r[a]) != key(r[b]))
      && (forall a :: 0 <= a < |r| ==> keep(key(r[a])))
      && (forall a :: 0 <= a < |r| ==>
            exists i :: 0 <= i < |xs| && xs[i] == r[a] && key(r[a]) !in KeysOf(xs[..i], key))
      && KeysOf(r, key) == PassingKeys(xs, key, keep)
  {
    KeepFirstSubsequence(xs, key, keep);
    KeepFirstDistinct(xs, key, keep);
    KeepFirstFirstOccurrence(xs, key, keep);
    KeepFirstKeys(xs, key, keep);
    var r := KeepFirst(xs, key, keep);
    assert forall a :: 0 <= a < |r| ==> FirstOfKey(xs, key, r[a]);
  }

  lemma {:induction false} KeepFirstSubsequence<T, K>(xs: seq<T>, key: T -> K, keep: K -> bool)
    ensures IsSubsequence(KeepFirst(xs, key, keep), xs)
    decreases |xs|
  {
    if xs != [] {
      var init, x := xs[..|xs| - 1], xs[|xs| - 1];
      KeepFirstSubsequence(init, key, keep);
      var r0 := KeepFirst(init, key, keep);
      var r := KeepFirst(xs, key, keep);
      if keep(key(x)) && key(x) !in KeysOf(init, key) {
        assert r == r0 + [x];
        assert r[..|r| - 1] == r0;
      } else {
        assert r == r0;
      }
    }
  }

  lemma {:induction false} KeepFirstDistinct<T, K>(xs: seq<T>, key: T -> K, keep: K -> bool)
    ensures var r := KeepFirst(xs, key, keep);
      && (forall a, b :: 0 <= a < b < |r| ==> key(r[a]) != key(r[b]))
      && (forall a :: 0 <= a < |r| ==> keep(key(r[a])))
    decreases |xs|
  {
    if xs != [] {
      var init, x := xs[..|xs| - 1], xs[|xs| - 1];
      KeepFirstDistinct(init, key, keep);
      KeepFirstKeys(init, key, keep);
      var r0 := KeepFirst(init, key, keep);
      if keep(key(x)) && key(x) !in KeysOf(init, key) {
        forall a | 0 <= a < |r0| ensures key(r0[a]) != key(x) {
          assert key(r0[a]) in KeysOf(r0, key);
          var i :| 0 <= i < |init| && keep(key(init[i])) && key(init[i]) == key(r0[a]);
        }
        assert KeepFirst(xs, key, keep) == r0 + [x];
      }
    }
  }

  /** `x` occurs in `xs` at a position before which its key does not. */
  predicate FirstOfKey<T(==), K(==)>(xs: seq<T>, key: T -> K, x: T) {
    exists i :: 0 <= i < |xs| && xs[i] == x && key(x) !in KeysOf(xs[..i], key)
  }

  lemma {:induction false} KeepFirstFirstOccurrence<T, K>(xs: seq<T>, key: T -> K, keep: K -> bool)
    ensures forall a :: 0 <= a < |KeepFirst(xs, key, keep)| ==> FirstOfKey(xs, key, KeepFirst(xs, key, keep)[a])
    decreases |xs|
  {
    if xs != [] {
      var init, x := xs[..|xs| - 1], xs[|xs| - 1];
      KeepFirstFirstOccurrence(init, key, keep);
      var r0 := KeepFirst(init, key, keep);
      var r := KeepFirst(xs, key, keep);
      assert r == r0 || r == r0 + [x];
      forall a | 0 <= a < |r0| ensures FirstOfKey(xs, key, r[a]) {
        assert r[a] == r0[a];
        FirstOfKeyExtends(init, x, key, r0[a]);
        assert init + [x] == xs;
      }
      if keep(key(x)) && key(x) !in KeysOf(init, key) {
        assert r == r0 + [x];
        assert xs[|xs| - 1] == r[|r0|] && xs[..|xs| - 1] == init;
      }
    }
  }

  lemma FirstOfKeyExtends<T, K>(xs: seq<T>, y: T, key: T -> K, x: T)
    requires FirstOfKey(xs, key, x)
    ensures FirstOfKey(xs + [y], key, x)
  {
    var i :| 0 <= i < |xs| && xs[i] == x && key(x) !in KeysOf(xs[..i], key);
    assert (xs + [y])[i] == x && (xs + [y])[..i] == xs[..i];
  }

  /** An element whose key already occurred contributes nothing. */
  lemma KeepFirstRepeat<T, K>(xs: seq<T>, x: T, key: T -> K, keep: K -> bool)
    requires exists i :: 0 <= i < |xs| && key(xs[i]) == key(x)
    ensures KeepFirst(xs + [x], key, keep) == KeepFirst(xs, key, keep)
  {
    KeepFirstSnoc(xs, x, key, keep);
  }

  /** An input that starts with a passing element keeps it first. */
  lemma {:induction false} KeepFirstHead<T, K>(xs: seq<T>, key: T -> K, keep: K -> bool)
    requires xs != [] && keep(key(xs[0]))
    ensures KeepFirst(xs, key, keep) != [] && KeepFirst(xs, key, keep)[0] == xs[0]
    decreases |xs|
  {
    var init := xs[..|xs| - 1];
    if |xs| == 1 {
      assert KeysOf(init, key) == {};
    } else {
      assert init[0] == xs[0];
      KeepFirstHead(init, key, keep);
    }
  }

  /** Leaving out an element whose key occurred earlier changes nothing. */
  lemma {:induction false} KeepFirstDropRepeat<T, K>(a: seq<T>, x: T, b: seq<T>, key: T -> K, keep: K -> bool)
    requires key(x) in KeysOf(a, key)
    ensures KeepFirst(a + [x] + b, key, keep) == KeepFirst(a + b, key, keep)
    decreases |b|
  {
    if b == [] {
      assert a + [x] + b == a + [x] && a + b == a;
      KeepFirstSnoc(a, x, key, keep);
    } else {
      var b', y := b[..|b| - 1], b[|b| - 1];
      assert a + [x] + b == (a + [x] + b') + [y];
      assert a + b == (a + b') + [y];
      KeepFirstDropRepeat(a, x, b', key, keep);
      KeepFirstSnoc(a + [x] + b', y, key, keep);
      KeepFirstSnoc(a + b', y, key, keep);
      KeysSnoc(a, x, key, keep);
      assert KeysOf(a + [x] + b', key) == KeysOf(a + b', key) by {
        KeysAppend(a + [x], b', key);
        KeysAppend(a, b', key);
      }
    }
  }

  lemma KeysAppend<T, K>(a: seq<T>, b: seq<T>, key: T -> K)
    ensures KeysOf(a + b, key) == KeysOf(a, key) + KeysOf(b, key)
  {
    var ab := a + b;
    forall k | k in KeysOf(a, key) ensures k in KeysOf(ab, key) {
      var i :| 0 <= i < |a| && key(a[i]) == k;
      assert ab[i] == a[i];
    }
    forall k | k in KeysOf(b, key) ensures k in KeysOf(ab, key) {
      var i :| 0 <= i < |b| && key(b[i]) == k;
      assert ab[|a| + i] == b[i];
    }
    forall k | k in KeysOf(ab, key) ensures k in KeysOf(a, key) + KeysOf(b, key) {
      var i :| 0 <= i < |ab| && key(ab[i]) == k;
      if i < |a| {
        assert ab[i] == a[i];
      } else {
        assert ab[i] == b[i - |a|];
      }
    }
  }

  /** Nothing is kept twice, so the result is never longer than the input. */
  lemma {:induction false} KeepFirstLength<T, K>(xs: seq<T>, key: T -> K, keep: K -> bool)
    ensures |KeepFirst(xs, key, keep)| <= |xs|
    decreases |xs|
  {
    if xs != [] {
      KeepFirstLength(xs[..|xs| - 1], key, keep);
    }
  }

  lemma KeysOfEmpty<T, K>(xs: seq<T>, key: T -> K)
    ensures KeysOf(xs, key) == {} <==> xs == []
  {
    if xs != [] {
      assert key(xs[0]) in KeysOf(xs, key);
    }
  }

  /** What the loop maintains: the final `seen` set is the initial one plus
      the keys of the kept elements, and every kept element's key passes and
      was not in the initial `seen` set. */
  lemma {:induction false} CollectTakes<T, K>(xs: seq<T>, key: T -> K, keep: K -> bool, seen: set<K>)
    ensures var r := Collect(xs, key, keep, seen);
      && r.taken == seen + KeysOf(r.kept, key)
      && forall i :: 0 <= i < |r.kept| ==> keep(key(r.kept[i])) && key(r.kept[i]) !in seen
    decreases |xs|
  {
    if xs != [] {
      var k := key(xs[0]);
      if keep(k) && k !in seen {
        CollectTakes(xs[1..], key, keep, seen + {k});
        var rest := Collect(xs[1..], key, keep, seen + {k});
        KeysAppend([xs[0]], rest.kept, key);
        assert KeysOf([xs[0]], key) == {k} by {
          assert [xs[0]][0] == xs[0];
        }
        var kept := [xs[0]] + rest.kept;
        forall i | 0 <= i < |kept| ensures keep(key(kept[i])) && key(kept[i]) !in seen {
          if i > 0 {
            assert kept[i] == rest.kept[i - 1];
          }
        }
      } else {
        CollectTakes(xs[1..], key, keep, seen);
      }
    }
  }
}
