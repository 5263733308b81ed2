/** `Array.prototype.filter` and `Array.prototype.map` over sequences. */
module Seqs {

  /** `s.filter(p)`: the elements satisfying `p`, in their original order. */
  function Filter<T>(s: seq<T>, p: T -> bool): (r: seq<T>)
    ensures |r| <= |s|
    ensures forall i | 0 <= i < |r| :: r[i] in s && p(r[i])
    ensures forall i | 0 <= i < |s| && p(s[i]) :: s[i] in r
  {
    if s == [] then []
    else (if p(s[0]) then [s[0]] else []) + Filter(s[1..], p)
  }

  /** Filtering distributes over concatenation, so relative order is kept. */
  lemma {:induction false} FilterAppend<T>(a: seq<T>, b: seq<T>, p: T -> bool)
    ensures Filter(a + b, p) == Filter(a, p) + Filter(b, p)
  {
    if a == [] {
      assert a + b == b;
    } else {
      assert (a + b)[1..] == a[1..] + b;
      FilterAppend(a[1..], b, p);
    }
  }

  /** Every element of `s` survives the filter exactly when it satisfies `p`. */
  lemma {:induction false} FilterAll<T>(s: seq<T>, p: T -> bool)
    ensures (forall i | 0 <= i < |s| :: p(s[i])) <==> Filter(s, p) == s
  {
    if s != [] {
      FilterAll(s[1..], p);
      if Filter(s, p) == s {
        assert forall i | 0 <= i < |s| :: p(s[i]) by {
          assert p(s[0]) || |Filter(s, p)| <= |s| - 1;
        }
      }
    }
  }

  /** `s.map(f)`. */
  function Map<T, U>(s: seq<T>, f: T -> U): (r: seq<U>)
    ensures |r| == |s|
    ensures forall i | 0 <= i < |s| :: r[i] == f(s[i])
  {
    seq(|s|, i requires 0 <= i < |s| => f(s[i]))
  }

  /** Mapping distributes over concatenation. */
  lemma MapAppend<T, U>(a: seq<T>, b: seq<T>, f: T -> U)
    ensures Map(a + b, f) == Map(a, f) + Map(b, f)
  {
    forall i | 0 <= i < |a| + |b| ensures Map(a + b, f)[i] == (Map(a, f) + Map(b, f))[i] {
      if i < |a| { assert (a + b)[i] == a[i]; } else { assert (a + b)[i] == b[i - |a|]; }
    }
  }

  /** The dictionary built by assigning `m[k] := v` for each entry in turn:
      a later entry with the same key overwrites an earlier one. */
  function Assoc<K, V>(entries: seq<(K, V)>): map<K, V>
  {
    if entries == [] then map[]
    else Assoc(entries[..|entries| - 1])[entries[|entries| - 1].0 := entries[|entries| - 1].1]
  }

  /** The keys of the dictionary are exactly the keys of the entries. */
  lemma {:induction false} AssocKeys<K, V>(entries: seq<(K, V)>)
    ensures Assoc(entries).Keys == set i | 0 <= i < |entries| :: entries[i].0
  {
    if entries != [] {
      var last := |entries| - 1;
      var init := entries[..last];
      AssocKeys(init);
      assert (set i | 0 <= i < |entries| :: entries[i].0)
          == (set i | 0 <= i < |init| :: init[i].0) + {entries[last].0} by {
        forall i | 0 <= i < |init| ensures init[i] == entries[i] { }
      }
    }
  }

  /** An entry whose key no later entry repeats supplies the stored value. */
  lemma {:induction false} AssocLastWins<K, V>(entries: seq<(K, V)>, i: int)
    requires 0 <= i < |entries|
    requires forall j | i < j < |entries| :: entries[j].0 != entries[i].0
    ensures entries[i].0 in Assoc(entries) && Assoc(entries)[entries[i].0] == entries[i].1
  {
    var last := |entries| - 1;
    if i < last {
      var init := entries[..last];
      assert init[i] == entries[i];
      assert forall j | i < j < |init| :: init[j].0 != init[i].0 by {
        forall j | i < j < |init| ensures init[j] == entries[j] { }
      }
      AssocLastWins(init, i);
    }
  }

  /** Appending one entry performs one more assignment. */
  lemma AssocSnoc<K, V>(entries: seq<(K, V)>, e: (K, V))
    ensures Assoc(entries + [e]) == Assoc(entries)[e.0 := e.1]
  {
    assert (entries + [e])[..|entries|] == entries;
  }
}
