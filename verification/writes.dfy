/**
 A Python dict filled by a loop of `d[key] = value` statements, modelled as the
 sequence of (key, value) writes folded into a map in program order.
 */
module Writes {

  /** Some write in `ws` is to `key`. */
  predicate Touches<K(==, !new), V>(ws: seq<(K, V)>, key: K)
    decreases |ws|
  {
    ws != [] && (ws[0].0 == key || Touches(ws[1..], key))
  }

  lemma {:induction false} TouchesAppend<K(!new), V>(a: seq<(K, V)>, b: seq<(K, V)>, key: K)
    ensures Touches(a + b, key) <==> Touches(a, key) || Touches(b, key)
    decreases |a|
  {
    if a != [] {
      assert (a + b)[0] == a[0];
      assert (a + b)[1..] == a[1..] + b;
      TouchesAppend(a[1..], b, key);
    } else {
      assert a + b == b;
    }
  }

  /** `Touches` as an index search. */
  lemma {:induction false} TouchesIndex<K(!new), V>(ws: seq<(K, V)>, key: K)
    ensures Touches(ws, key) <==> exists k | 0 <= k < |ws| :: ws[k].0 == key
    decreases |ws|
  {
    if ws != [] {
      TouchesIndex(ws[1..], key);
      if exists k | 0 <= k < |ws| :: ws[k].0 == key {
        var k :| 0 <= k < |ws| && ws[k].0 == key;
        if k > 0 {
          assert ws[1..][k - 1].0 == key;
        }
      }
      if exists k | 0 <= k < |ws[1..]| :: ws[1..][k].0 == key {
        var k :| 0 <= k < |ws[1..]| && ws[1..][k].0 == key;
        assert ws[k + 1].0 == key;
      }
    }
  }

  lemma TouchesSingle<K(!new), V>(w: (K, V), key: K)
    ensures Touches([w], key) <==> w.0 == key
  {
    assert [w][1..] == [];
  }

  /** Performs the writes `ws` on `m`, first to last: the keys afterwards are
      the keys before plus every key written. */
  function Apply<K(==, !new), V>(m: map<K, V>, ws: seq<(K, V)>): (r: map<K, V>)
    ensures forall key :: key in r <==> key in m || Touches(ws, key)
    decreases |ws|
  {
    if ws == [] then m
    else Apply(m[ws[0].0 := ws[0].1], ws[1..])
  }

  /** Writes to other keys leave a key's value alone. */
  lemma {:induction false} ApplyUntouched<K(!new), V>(m: map<K, V>, ws: seq<(K, V)>, key: K)
    requires key in m
    requires !Touches(ws, key)
    ensures Apply(m, ws)[key] == m[key]
    decreases |ws|
  {
    if ws != [] {
      ApplyUntouched(m[ws[0].0 := ws[0].1], ws[1..], key);
    }
  }

  /** The last write to a key decides its value: in `prefix + [w] + rest`,
      `w` wins when `rest` never writes its key. */
  lemma {:induction false} ApplyLastWins<K(!new), V>(m: map<K, V>, prefix: seq<(K, V)>, w: (K, V), rest: seq<(K, V)>)
    requires !Touches(rest, w.0)
    ensures w.0 in Apply(m, prefix + [w] + rest) && Apply(m, prefix + [w] + rest)[w.0] == w.1
    decreases |prefix|
  {
    var ws := prefix + [w] + rest;
    TouchesAppend(prefix, [w] + rest, w.0);
    assert ws == prefix + ([w] + rest);
    if prefix == [] {
      assert ws[0] == w && ws[1..] == rest;
      ApplyUntouched(m[w.0 := w.1], rest, w.0);
    } else {
      assert ws[0] == prefix[0];
      assert ws[1..] == prefix[1..] + [w] + rest;
      ApplyLastWins(m[prefix[0].0 := prefix[0].1], prefix[1..], w, rest);
    }
  }

  /** Writing `a` and then `b` is writing `a + b`. */
  lemma {:induction false} ApplyAppend<K(!new), V>(m: map<K, V>, a: seq<(K, V)>, b: seq<(K, V)>)
    ensures Apply(m, a + b) == Apply(Apply(m, a), b)
    decreases |a|
  {
    if a != [] {
      assert (a + b)[0] == a[0];
      assert (a + b)[1..] == a[1..] + b;
      ApplyAppend(m[a[0].0 := a[0].1], a[1..], b);
    } else {
      assert a + b == b;
    }
  }
}
