/** Sorted, duplicate-free keys: subset selectors (pkg/types/upstream.go) and route metadata criteria
    (pkg/router/configutility.go) are both brought into this form, which is what lets a walk along the criteria
    follow the trie that was built along the selectors. */
module SortedKeys {

  // Go's order on strings.
  predicate Below(a: string, b: string) {
    b != [] && (a == [] || a[0] < b[0] || (a[0] == b[0] && Below(a[1..], b[1..])))
  }

  lemma BelowTransitive(a: string, b: string, c: string)
    requires Below(a, b) && Below(b, c)
    ensures Below(a, c)
  {
  }

  lemma BelowTotal(a: string, b: string)
    ensures !Below(a, a)
    ensures Below(a, b) || a == b || Below(b, a)
  {
    if a != [] && b != [] && a[0] == b[0] {
      BelowTotal(a[1..], b[1..]);
      assert a == [a[0]] + a[1..] && b == [b[0]] + b[1..];
    }
  }

  // A proper prefix comes first; otherwise the first difference decides.
  lemma {:induction false} BelowIff(a: string, b: string)
    ensures Below(a, b) <==> (a < b || exists i :: 0 <= i < |a| && i < |b| && a[..i] == b[..i] && a[i] < b[i])
  {
    if a != [] && b != [] {
      if a[0] == b[0] {
        BelowIff(a[1..], b[1..]);
        assert a == [a[0]] + a[1..] && b == [b[0]] + b[1..];
        Shifted(a, b);
      } else {
        assert a[..0] == b[..0];
      }
    }
  }

  lemma Shifted(a: string, b: string)
    requires a != [] && b != [] && a[0] == b[0]
    ensures a < b <==> a[1..] < b[1..]
    ensures (exists i :: 0 <= i < |a| && i < |b| && a[..i] == b[..i] && a[i] < b[i])
       <==> (exists i :: 0 <= i < |a| - 1 && i < |b| - 1 && a[1..][..i] == b[1..][..i] && a[1..][i] < b[1..][i])
  {
    forall i | 0 < i < |a| && i < |b| ensures a[..i] == b[..i] <==> a[1..][..i - 1] == b[1..][..i - 1] {
      assert a[..i] == [a[0]] + a[1..][..i - 1] && b[..i] == [b[0]] + b[1..][..i - 1];
    }
    if i :| 0 <= i < |a| - 1 && i < |b| - 1 && a[1..][..i] == b[1..][..i] && a[1..][i] < b[1..][i] {
      assert a[..i + 1] == b[..i + 1] && a[i + 1] < b[i + 1];
    }
    if i :| 0 <= i < |a| && i < |b| && a[..i] == b[..i] && a[i] < b[i] {
      assert a[1..][i - 1] < b[1..][i - 1];
    }
  }

  predicate StrictlySorted(keys: seq<string>) {
    forall i, j :: 0 <= i < j < |keys| ==> Below(keys[i], keys[j])
  }

  predicate Distinct<T(==)>(xs: seq<T>) {
    forall i, j :: 0 <= i < j < |xs| ==> xs[i] != xs[j]
  }

  predicate Ordered(keys: seq<string>) {
    forall i, j :: 0 <= i < j < |keys| ==> !Below(keys[j], keys[i])
  }

  lemma OrderedDistinctIsStrict(keys: seq<string>)
    requires Ordered(keys) && Distinct(keys)
    ensures StrictlySorted(keys)
  {
    forall i, j | 0 <= i < j < |keys| ensures Below(keys[i], keys[j]) {
      BelowTotal(keys[i], keys[j]);
    }
  }

  // A set of keys has one strictly sorted form.
  lemma {:induction false} SortedUnique(xs: seq<string>, ys: seq<string>)
    requires StrictlySorted(xs) && StrictlySorted(ys)
    requires forall k :: k in xs <==> k in ys
    ensures xs == ys
  {
    assert xs != [] ==> xs[0] in ys;
    assert ys != [] ==> ys[0] in xs;
    if xs != [] {
      FirstIsLeast(xs, ys[0]);
      FirstIsLeast(ys, xs[0]);
      if Below(xs[0], ys[0]) && Below(ys[0], xs[0]) {
        BelowTransitive(xs[0], ys[0], xs[0]);
        BelowTotal(xs[0], xs[0]);
      }
      forall k ensures k in xs[1..] <==> k in ys[1..] {
        BelowTotal(k, k);
        assert k in xs <==> k == xs[0] || k in xs[1..];
        assert k in ys <==> k == ys[0] || k in ys[1..];
      }
      SortedUnique(xs[1..], ys[1..]);
      assert xs == [xs[0]] + xs[1..] && ys == [ys[0]] + ys[1..];
    }
  }

  lemma FirstIsLeast(xs: seq<string>, k: string)
    requires StrictlySorted(xs) && k in xs
    ensures k == xs[0] || Below(xs[0], k)
  {
  }

  function Images<T>(xs: seq<T>, key: T -> string): (r: seq<string>)
    ensures |r| == |xs| && forall i :: 0 <= i < |r| ==> r[i] == key(xs[i])
  {
    seq(|xs|, i requires 0 <= i < |xs| => key(xs[i]))
  }

  lemma EmptyOrdered(keys: seq<string>)
    requires keys == []
    ensures Ordered(keys)
  {
  }

  // sort.Sort: some permutation in which no element is below an earlier one.
  method SortBy<T>(xs: seq<T>, key: T -> string) returns (r: seq<T>)
    ensures multiset(r) == multiset(xs)
    ensures Ordered(Images(r, key))
  {
    hide Below, Ordered;
    r := [];
    EmptyOrdered(Images(r, key));
    for k := 0 to |xs|
      invariant multiset(r) == multiset(xs[..k])
      invariant Ordered(Images(r, key))
    {
      r := InsertBy(r, xs[k], key);
      assert xs[..k + 1] == xs[..k] + [xs[k]];
    }
    assert xs[..|xs|] == xs;
  }

  method InsertBy<T>(xs: seq<T>, x: T, key: T -> string) returns (r: seq<T>)
    requires Ordered(Images(xs, key))
    ensures multiset(r) == multiset(xs) + multiset{x}
    ensures Ordered(Images(r, key))
  {
    hide Below, Ordered;
    var i := 0;
    while i < |xs| && !Below(key(x), key(xs[i]))
      invariant i <= |xs| && forall m :: 0 <= m < i ==> !Below(key(x), key(xs[m]))
    {
      i := i + 1;
    }
    r := xs[..i] + [x] + xs[i..];
    OrderedInsert(Images(xs, key), i, key(x));
    assert Images(r, key) == Images(xs, key)[..i] + [key(x)] + Images(xs, key)[i..];
    assert xs == xs[..i] + xs[i..];
  }

  lemma OrderedInsert(keys: seq<string>, i: nat, x: string)
    requires Ordered(keys) && i <= |keys|
    requires forall m :: 0 <= m < i ==> !Below(x, keys[m])
    requires i < |keys| ==> Below(x, keys[i])
    ensures Ordered(keys[..i] + [x] + keys[i..])
  {
    forall m | i <= m < |keys| ensures !Below(keys[m], x) {
      if Below(keys[m], x) {
        BelowTransitive(keys[m], x, keys[i]);
        if m == i { BelowTotal(x, keys[i]); BelowTotal(keys[i], keys[i]); }
        assert false;
      }
    }
  }

  /** InitSet: drop repeated keys, then sort. */
  method InitSet(input: seq<string>) returns (keys: seq<string>)
    ensures StrictlySorted(keys)
    ensures forall k :: k in keys <==> k in input
  {
    var kept := [];
    for i := 0 to |input|
      invariant Distinct(kept)
      invariant forall k :: k in kept <==> k in input[..i]
    {
      var exist := false;
      for j := 0 to |kept|
        invariant exist <==> input[i] in kept[..j]
      {
        if kept[j] == input[i] {
          exist := true;
          break;
        }
      }
      assert kept[..|kept|] == kept;
      assert input[..i + 1] == input[..i] + [input[i]];
      if !exist {
        kept := kept + [input[i]];
      }
    }
    assert input[..|input|] == input;
    keys := SortBy(kept, k => k);
    assert Images(keys, k => k) == keys;
    PermutationDistinct(kept, keys);
    OrderedDistinctIsStrict(keys);
    forall k ensures k in keys <==> k in kept { assert k in multiset(keys) <==> k in multiset(kept); }
  }

  lemma {:induction false} DistinctCounts<T>(xs: seq<T>)
    ensures Distinct(xs) <==> forall x :: x in multiset(xs) ==> multiset(xs)[x] == 1
  {
    if xs != [] {
      var last := |xs| - 1;
      var front := xs[..last];
      assert xs == front + [xs[last]];
      DistinctCounts(front);
      assert multiset(xs) == multiset(front) + multiset{xs[last]};
      if Distinct(xs) {
        assert xs[last] !in front;
      } else if Distinct(front) {
        assert xs[last] in front;
        assert multiset(xs)[xs[last]] > 1;
      } else {
        var x :| x in multiset(front) && multiset(front)[x] != 1;
        assert multiset(xs)[x] > 1;
      }
    }
  }

  lemma PermutationDistinct<T>(xs: seq<T>, ys: seq<T>)
    requires multiset(xs) == multiset(ys) && Distinct(xs)
    ensures Distinct(ys)
  {
    DistinctCounts(xs);
    DistinctCounts(ys);
  }

  // The same set of keys, whatever the order and repetitions.
  ghost predicate SameKeys(xs: seq<string>, ys: seq<string>) {
    forall k :: k in xs <==> k in ys
  }

  ghost predicate Listed(r: seq<seq<string>>, keys: seq<string>) {
    exists s :: s in r && SameKeys(keys, s)
  }

  lemma ListedSnoc(r: seq<seq<string>>, s: seq<string>)
    ensures forall keys :: Listed(r + [s], keys) <==> Listed(r, keys) || SameKeys(keys, s)
  {
    forall keys ensures Listed(r + [s], keys) <==> Listed(r, keys) || SameKeys(keys, s) {
      if t :| t in r && SameKeys(keys, t) { assert t in r + [s]; }
      if SameKeys(keys, s) { assert s in r + [s]; }
    }
  }

  /** GenerateSubsetKeys: every configured selector in sorted form, each once. */
  method GenerateSubsetKeys(keysArray: seq<seq<string>>) returns (r: seq<seq<string>>)
    ensures Distinct(r) && forall s :: s in r ==> StrictlySorted(s)
    ensures forall keys :: Listed(r, keys) <==> Listed(keysArray, keys)
  {
    hide StrictlySorted, Listed;
    r := [];
    assert keysArray[..0] == r;
    for i := 0 to |keysArray|
      invariant Distinct(r) && forall s :: s in r ==> StrictlySorted(s)
      invariant forall keys :: Listed(r, keys) <==> Listed(keysArray[..i], keys)
    {
      var sorted := InitSet(keysArray[i]);
      assert forall keys :: SameKeys(keys, sorted) <==> SameKeys(keys, keysArray[i]);
      var found := false;
      for j := 0 to |r|
        invariant found <==> sorted in r[..j]
      {
        if sorted == r[j] {
          found := true;
          break;
        }
      }
      assert r[..|r|] == r;
      assert keysArray[..i + 1] == keysArray[..i] + [keysArray[i]];
      ListedSnoc(keysArray[..i], keysArray[i]);
      ListedSnoc(r, sorted);
      if found {
        ListedMember(r, sorted);
      } else {
        r := r + [sorted];
      }
    }
    assert keysArray[..|keysArray|] == keysArray;
  }

  lemma ListedMember(r: seq<seq<string>>, s: seq<string>)
    requires s in r
    ensures forall keys :: SameKeys(keys, s) ==> Listed(r, keys)
  {
  }

  // Metadata in a route or host configuration: only text values are used.
  datatype Value = Text(text: string) | Other

  /** extractMetadataMatchCriteria without a parent: the text entries in any order, then sorted by key. */
  method ExtractMatchCriteria(metadataMatches: map<string, Value>) returns (r: seq<(string, string)>)
    ensures StrictlySorted(Images(r, (p: (string, string)) => p.0))
    ensures forall k, v :: (k, v) in r <==> k in metadataMatches && metadataMatches[k] == Text(v)
  {
    var criteria: seq<(string, string)> := [];
    var rest := metadataMatches.Keys;
    while rest != {}
      invariant rest <= metadataMatches.Keys
      invariant forall k, v :: (k, v) in criteria <==> k in metadataMatches && k !in rest && metadataMatches[k] == Text(v)
      invariant forall i, j :: 0 <= i < j < |criteria| ==> criteria[i].0 != criteria[j].0
      decreases rest
    {
      var k :| k in rest;
      rest := rest - {k};
      if metadataMatches[k].Text? {
        assert forall i :: 0 <= i < |criteria| ==> (criteria[i].0, criteria[i].1) in criteria;
        criteria := criteria + [(k, metadataMatches[k].text)];
      }
    }
    r := SortBy(criteria, (p: (string, string)) => p.0);
    forall p ensures p in r <==> p in criteria { assert p in multiset(r) <==> p in multiset(criteria); }
    PermutationDistinct(criteria, r);
    var keys := Images(r, (p: (string, string)) => p.0);
    forall i, j | 0 <= i < j < |r| ensures keys[i] != keys[j] {
      assert r[i] in criteria && r[j] in criteria && r[i] != r[j];
    }
    OrderedDistinctIsStrict(keys);
  }
}
