/** The trie of subset entries: metadata key, then value, then entry (pkg/upstream/cluster/subsetlbimpl.go). */
module SubsetTrie {
  import opened Options
  import opened Subsets

  type Pair = (string, string)

  class Entry {
    var children: map<string, map<string, Entry>>
    var prioritySubset: PrioritySubset?

    constructor ()
      ensures prioritySubset == null && forall k, v :: Child(k, v) == None
    {
      children, prioritySubset := map[], null;
    }

    function Child(k: string, v: string): Option<Entry>
      reads this`children
    {
      if k in children && v in children[k] then Some(children[k][v]) else None
    }

    // A new entry, in the value map of its key when there is one and in a value map of its own otherwise.
    method AddChild(kv: Pair) returns (entry: Entry)
      requires Child(kv.0, kv.1) == None
      modifies this`children
      ensures fresh(entry) && entry.prioritySubset == null && forall k, v :: entry.Child(k, v) == None
      ensures forall k, v :: Child(k, v) == if (k, v) == kv then Some(entry) else old(Child(k, v))
    {
      entry := new Entry();
      if kv.0 in children {
        children := children[kv.0 := children[kv.0][kv.1 := entry]];
      } else {
        children := children[kv.0 := map[kv.1 := entry]];
      }
    }
  }

  function Step(path: Pairs, kv: Pair): (r: Pairs)
    ensures r != [] && Parent(r) == path && Last(r) == kv
  {
    path + [kv]
  }

  function Parent(path: Pairs): Pairs
    requires path != []
  {
    path[..|path| - 1]
  }

  function Last(path: Pairs): Pair
    requires path != []
  {
    path[|path| - 1]
  }

  // root.children is the balancer's subSets map; index names every entry by the path that leads to it.
  class Trie {
    const root: Entry
    ghost var index: map<Pairs, Entry>

    ghost predicate Valid()
      reads this`index, index.Values`children
    {
      && [] in index && index[[]] == root
      && PrefixClosed(index)
      && Injective(index)
      && Linked()
    }

    // Following a key and a value from the entry of a path gives the entry of the longer path.
    ghost predicate Linked()
      reads this`index, index.Values`children
    {
      forall p, kv: Pair {:trigger Step(p, kv)} ::
        p in index ==> index[p].Child(kv.0, kv.1) == if Step(p, kv) in index then Some(index[Step(p, kv)]) else None
    }

    constructor ()
      ensures Valid() && index.Keys == {[]} && fresh(root) && root.prioritySubset == null
    {
      root := new Entry();
      new;
      index := map[[] := root];
    }

    /** FindSubset: walk the criteria in order.  An empty criteria list finds nothing. */
    method FindSubset(criteria: Pairs) returns (entry: Entry?)
      requires Valid()
      ensures entry != null <==> criteria != [] && criteria in index
      ensures entry != null ==> entry == index[criteria]
    {
      var at := root;
      for i := 0 to |criteria|
        invariant criteria[..i] in index && at == index[criteria[..i]]
        invariant i == |criteria| ==> criteria == []
      {
        var kv := criteria[i];
        assert criteria[..i + 1] == Step(criteria[..i], kv);
        if kv.0 in at.children {
          if kv.1 in at.children[kv.0] {
            var vsEntry := at.children[kv.0][kv.1];
            if i + 1 == |criteria| {
              assert criteria[..i + 1] == criteria;
              return vsEntry;
            }
            at := vsEntry;
          } else {
            if criteria in index { Prefix(index, criteria, i + 1); }
            break;
          }
        } else {
          if criteria in index { Prefix(index, criteria, i + 1); }
          break;
        }
      }
      return null;
    }

    /** FindOrCreateSubset on the children map of at, the entry that the first idx pairs lead to. */
    method FindOrCreateSubset(at: Entry, kvs: Pairs, idx: nat) returns (entry: Entry)
      requires Valid() && idx < |kvs|
      requires kvs[..idx] in index && index[kvs[..idx]] == at
      modifies this`index, index.Values`children
      ensures Valid()
      ensures kvs in index && index[kvs] == entry
      ensures Grown(old(index), index, kvs)
      ensures forall p :: p in index && p !in old(index) ==> fresh(index[p]) && index[p].prioritySubset == null
      decreases |kvs| - idx
    {
      hide Step, Parent, Last;
      var kv := kvs[idx];
      StepTo(kvs, idx);
      if kv.0 in at.children && kv.1 in at.children[kv.0] {
        entry := at.children[kv.0][kv.1];
      } else {
        entry := Extend(at, kvs[..idx], kv);
      }
      if idx + 1 == |kvs| {
        assert kvs[..idx + 1] == kvs;
      } else {
        entry := FindOrCreateSubset(entry, kvs, idx + 1);
      }
    }

    method Extend(at: Entry, ghost path: Pairs, kv: Pair) returns (entry: Entry)
      requires Valid() && path in index && index[path] == at && at.Child(kv.0, kv.1) == None
      modifies this`index, at`children
      ensures Valid() && Step(path, kv) !in old(index) && index == old(index)[Step(path, kv) := entry]
      ensures fresh(entry) && entry.prioritySubset == null
    {
      hide Step, Parent, Last, Entry.Child;
      assert Step(path, kv) !in index;
      entry := at.AddChild(kv);
      index := index[Step(path, kv) := entry];
      assert Linked() by {
        forall p, q: Pair {:trigger Step(p, q)} | p in index
          ensures index[p].Child(q.0, q.1) == if Step(p, q) in index then Some(index[Step(p, q)]) else None
        {
          assert Parent(Step(p, q)) == p && Last(Step(p, q)) == q;
        }
      }
    }
  }

  ghost predicate PrefixClosed(index: map<Pairs, Entry>) {
    forall p {:trigger Parent(p)} :: p in index && p != [] ==> Parent(p) in index
  }

  ghost predicate Injective(index: map<Pairs, Entry>) {
    forall p, q :: p in index && q in index && index[p] == index[q] ==> p == q
  }

  // after holds every entry of before, and besides only prefixes of kvs.
  ghost predicate Grown(before: map<Pairs, Entry>, after: map<Pairs, Entry>, kvs: Pairs) {
    && (forall p :: p in before ==> p in after && after[p] == before[p])
    && (forall p :: p in after && p !in before ==> p != [] && p <= kvs)
  }

  lemma StepTo(kvs: Pairs, idx: nat)
    requires idx < |kvs|
    ensures kvs[..idx + 1] == Step(kvs[..idx], kvs[idx])
  {
  }

  lemma {:induction false} Prefix(index: map<Pairs, Entry>, path: Pairs, n: nat)
    requires PrefixClosed(index) && path in index && n <= |path|
    ensures path[..n] in index
    decreases |path| - n
  {
    if n < |path| {
      Prefix(index, path, n + 1);
      assert Parent(path[..n + 1]) == path[..n];
    } else {
      assert path[..n] == path;
    }
  }
}
