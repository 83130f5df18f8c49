/** Counting occurrences per key in one pass, as the dashboard and the support statistics
    do with a dictionary: each key seen either bumps its counter or enters the dictionary
    with count 1. `order` is the order in which keys entered the dictionary (the order a
    JavaScript `Map` iterates in). */
module Grouping {

  ghost predicate NoDuplicates(s: seq<string>)
  {
    forall i, j :: 0 <= i < j < |s| ==> s[i] != s[j]
  }

  /** The sum of the counters of the keys in `order`. */
  function Sum(order: seq<string>, m: map<string, nat>): nat
    requires forall k :: k in order ==> k in m
  {
    if order == [] then 0 else Sum(order[..|order| - 1], m) + m[order[|order| - 1]]
  }

  /** The dictionary after seeing `k`: its counter goes up by one, or it enters with 1. */
  function Bump(counts: map<string, nat>, k: string): (r: map<string, nat>)
    ensures k in r && r[k] >= 1
  {
    counts[k := (if k in counts then counts[k] else 0) + 1]
  }

  /** The dictionary's key order after seeing `k`. */
  function Extend(order: seq<string>, counts: map<string, nat>, k: string): seq<string>
  {
    if k in counts then order else order + [k]
  }

  /** After seeing `keys`: every key seen is in the dictionary, each counter is the number
      of times its key was seen, `order` lists the dictionary's keys once each, and the
      counters add up to the number of keys seen. */
  ghost predicate Tallied(order: seq<string>, counts: map<string, nat>, keys: seq<string>)
  {
    && NoDuplicates(order)
    && (forall k :: k in order <==> k in counts)
    && (forall k :: k in counts ==> counts[k] == multiset(keys)[k])
    && (forall k :: k in keys ==> k in counts)
    && Sum(order, counts) == |keys|
  }

  lemma {:induction false} SumZeros(order: seq<string>, m: map<string, nat>)
    requires forall k :: k in order ==> k in m && m[k] == 0
    ensures Sum(order, m) == 0
  {
    if order != [] {
      SumZeros(order[..|order| - 1], m);
    }
  }

  /** A dictionary whose keys all start at 0 has seen nothing yet. */
  lemma TalliedStart(order: seq<string>, counts: map<string, nat>)
    requires NoDuplicates(order)
    requires forall k :: k in order <==> k in counts
    requires forall k :: k in counts ==> counts[k] == 0
    ensures Tallied(order, counts, [])
  {
    SumZeros(order, counts);
  }

  /** Changing the counter of a key that `order` does not list leaves the sum alone. */
  lemma {:induction false} SumOtherKey(order: seq<string>, m: map<string, nat>, k: string, v: nat)
    requires forall x :: x in order ==> x in m
    requires k !in order
    ensures Sum(order, m[k := v]) == Sum(order, m)
  {
    if order != [] {
      SumOtherKey(order[..|order| - 1], m, k, v);
    }
  }

  /** Bumping a listed key's counter adds one to the sum. */
  lemma {:induction false} SumBump(order: seq<string>, m: map<string, nat>, k: string)
    requires forall x :: x in order ==> x in m
    requires NoDuplicates(order) && k in order
    ensures Sum(order, m[k := m[k] + 1]) == Sum(order, m) + 1
  {
    var prefix, last := order[..|order| - 1], order[|order| - 1];
    assert order == prefix + [last];
    if last == k {
      assert k !in prefix;
      SumOtherKey(prefix, m, k, m[k] + 1);
    } else {
      SumBump(prefix, m, k);
    }
  }

  /** Appending a key to `order` adds its counter to the sum. */
  lemma SumAppend(order: seq<string>, m: map<string, nat>, k: string)
    requires forall x :: x in order ==> x in m
    requires k in m
    ensures Sum(order + [k], m) == Sum(order, m) + m[k]
  {
    assert (order + [k])[..|order|] == order;
  }

  /** A step keeps every counter equal to the number of times its key was seen. */
  lemma StepCounts(counts: map<string, nat>, keys: seq<string>, k: string)
    requires forall x :: x in counts ==> counts[x] == multiset(keys)[x]
    requires forall x :: x in keys ==> x in counts
    ensures forall x :: x in Bump(counts, k) ==> Bump(counts, k)[x] == multiset(keys + [k])[x]
    ensures forall x :: x in keys + [k] ==> x in Bump(counts, k)
  {
    assert multiset(keys + [k]) == multiset(keys) + multiset{k};
    assert forall x :: x in keys + [k] ==> x in keys || x == k;
  }

  /** Seeing a key already in the dictionary keeps the order and adds one to the sum. */
  lemma StepKnown(order: seq<string>, counts: map<string, nat>, k: string)
    requires NoDuplicates(order) && (forall x :: x in order <==> x in counts)
    requires k in counts
    ensures forall x :: x in order <==> x in Bump(counts, k)
    ensures Sum(order, Bump(counts, k)) == Sum(order, counts) + 1
  {
    SumBump(order, counts, k);
  }

  /** Seeing a new key appends it to the order, once, and adds one to the sum. */
  lemma StepNew(order: seq<string>, counts: map<string, nat>, k: string)
    requires NoDuplicates(order) && (forall x :: x in order <==> x in counts)
    requires k !in counts
    ensures NoDuplicates(order + [k])
    ensures forall x :: x in order + [k] <==> x in Bump(counts, k)
    ensures Sum(order + [k], Bump(counts, k)) == Sum(order, counts) + 1
  {
    var order' := order + [k];
    forall i, j | 0 <= i < j < |order'|
      ensures order'[i] != order'[j]
    {
      if j == |order| {
        assert order'[i] in order;
      }
    }
    SumOtherKey(order, counts, k, 1);
    SumAppend(order, Bump(counts, k), k);
  }

  /** One step of the counting loop keeps the tally exact. */
  lemma TallyStep(order: seq<string>, counts: map<string, nat>, keys: seq<string>, k: string)
    requires Tallied(order, counts, keys)
    ensures Tallied(Extend(order, counts, k), Bump(counts, k), keys + [k])
  {
    StepCounts(counts, keys, k);
    if k in counts {
      StepKnown(order, counts, k);
    } else {
      StepNew(order, counts, k);
    }
  }

  /** The keys of `keys` not in `seen`, each once, in the order they first occur: the order
      in which they enter the dictionary. */
  function NewKeys(keys: seq<string>, seen: set<string>): (r: seq<string>)
    ensures forall x :: x in r ==> x in keys && x !in seen
  {
    if keys == [] then []
    else if keys[0] in seen then NewKeys(keys[1..], seen)
    else [keys[0]] + NewKeys(keys[1..], seen + {keys[0]})
  }

  /** Seeing one more key appends it to the new keys exactly when it is neither seen before
      nor already among them. */
  lemma {:induction false} NewKeysSnoc(keys: seq<string>, seen: set<string>, k: string)
    ensures NewKeys(keys + [k], seen) ==
      NewKeys(keys, seen) + (if k in seen || k in keys then [] else [k])
  {
    if keys == [] {
      assert NewKeys([k], seen) == if k in seen then [] else [k] + NewKeys([], seen + {k});
    } else {
      var a, t := keys[0], keys[1..];
      assert (keys + [k])[0] == a && (keys + [k])[1..] == t + [k];
      assert k in keys <==> k == a || k in t by {
        assert keys == [a] + t;
      }
      if a in seen {
        NewKeysSnoc(t, seen, k);
      } else {
        NewKeysSnoc(t, seen + {a}, k);
      }
    }
  }

  /** One step of the counting loop appends the key to the order exactly when it is new. */
  lemma OrderStep(order0: seq<string>, counts0: map<string, nat>, order: seq<string>,
                  counts: map<string, nat>, keys: seq<string>, k: string)
    requires Tallied(order0, counts0, []) && Tallied(order, counts, keys)
    requires order == order0 + NewKeys(keys, counts0.Keys)
    ensures Extend(order, counts, k) == order0 + NewKeys(keys + [k], counts0.Keys)
  {
    NewKeysSnoc(keys, counts0.Keys, k);
    assert k in counts <==> k in order;
    assert k in order <==> k in order0 || k in NewKeys(keys, counts0.Keys);
    if k in keys {
      assert k in counts;
    }
  }

  /** One turn of the counting loop keeps everything the loop promises about the keys seen
      so far. */
  lemma LoopStep(keys: seq<string>, i: nat, order0: seq<string>, counts0: map<string, nat>,
                 order: seq<string>, counts: map<string, nat>)
    requires i < |keys|
    requires Tallied(order0, counts0, []) && Tallied(order, counts, keys[..i])
    requires order == order0 + NewKeys(keys[..i], counts0.Keys)
    requires forall k :: k in counts0 ==> k in counts
    ensures Tallied(Extend(order, counts, keys[i]), Bump(counts, keys[i]), keys[..i + 1])
    ensures Extend(order, counts, keys[i]) == order0 + NewKeys(keys[..i + 1], counts0.Keys)
    ensures forall k :: k in counts0 ==> k in Bump(counts, keys[i])
  {
    assert keys[..i + 1] == keys[..i] + [keys[i]];
    TallyStep(order, counts, keys[..i], keys[i]);
    OrderStep(order0, counts0, order, counts, keys[..i], keys[i]);
  }

  /** The counting `forEach`: starting from a dictionary that has seen nothing (possibly
      with keys set to 0 beforehand), each key bumps its counter or enters with count 1. */
  method Tally(keys: seq<string>, order0: seq<string>, counts0: map<string, nat>)
    returns (order: seq<string>, counts: map<string, nat>)
    requires Tallied(order0, counts0, [])
    ensures Tallied(order, counts, keys)
    ensures order == order0 + NewKeys(keys, counts0.Keys)
    ensures keys == [] ==> order == order0 && counts == counts0
    ensures forall k :: k in counts0 ==> k in counts
  {
    order, counts := order0, counts0;
    assert keys[..0] == [];
    var i := 0;
    while i < |keys|
      invariant 0 <= i <= |keys|
      invariant Tallied(order, counts, keys[..i])
      invariant order == order0 + NewKeys(keys[..i], counts0.Keys)
      invariant i == 0 ==> order == order0 && counts == counts0
      invariant forall k :: k in counts0 ==> k in counts
    {
      var key := keys[i];
      LoopStep(keys, i, order0, counts0, order, counts);
      order, counts := Extend(order, counts, key), Bump(counts, key);
      i := i + 1;
    }
    assert keys[..i] == keys;
  }

  /** Three different keys are seen at most as often as there are keys. */
  lemma {:induction false} ThreeKeysBound(keys: seq<string>, a: string, b: string, c: string)
    requires a != b && b != c && a != c
    ensures multiset(keys)[a] + multiset(keys)[b] + multiset(keys)[c] <= |keys|
  {
    if keys != [] {
      assert keys == [keys[0]] + keys[1..];
      assert multiset(keys) == multiset{keys[0]} + multiset(keys[1..]);
      ThreeKeysBound(keys[1..], a, b, c);
    }
  }
}
