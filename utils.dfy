/** The map helpers of bumpv/client/utils.py and bumpversion/utils.py: merging dicts,
    the "$"-prefixed environment, the verbosity table, and `kv_string`. */
module Utils {
  import opened Strings

  // ---------------------------------------------------------------------------
  // merge_dicts

  /** The dict `merge_dicts(*dicts)` returns: each dict's entries laid over those of
      the dicts before it. */
  function MergeSpec<K, V>(dicts: seq<map<K, V>>): map<K, V>
    decreases |dicts|
  {
    if dicts == [] then map[] else MergeSpec(dicts[..|dicts| - 1]) + dicts[|dicts| - 1]
  }

  /** `merged = {}; for d in dicts: merged.update(d)`. */
  method MergeDicts<K, V>(dicts: seq<map<K, V>>) returns (merged: map<K, V>)
    ensures merged == MergeSpec(dicts)
  {
    merged := map[];
    for i := 0 to |dicts|
      invariant merged == MergeSpec(dicts[..i])
    {
      assert dicts[..i + 1][..i] == dicts[..i];
      merged := merged + dicts[i];
    }
    assert dicts[..|dicts|] == dicts;
  }

  /** The merged keys are those of all the inputs, and none for no inputs; each key
      carries the value of the last input that has it. */
  lemma {:induction false} MergeLastWins<K, V>(dicts: seq<map<K, V>>, k: K)
    ensures k in MergeSpec(dicts) <==> exists i :: 0 <= i < |dicts| && k in dicts[i]
    ensures k in MergeSpec(dicts) ==>
      exists i :: 0 <= i < |dicts| && k in dicts[i] && MergeSpec(dicts)[k] == dicts[i][k]
        && forall j :: i < j < |dicts| ==> k !in dicts[j]
    decreases |dicts|
  {
    if dicts != [] {
      var init := dicts[..|dicts| - 1];
      var last := |dicts| - 1;
      MergeLastWins(init, k);
      if k in dicts[last] {
        assert MergeSpec(dicts)[k] == dicts[last][k];
      } else {
        if k in MergeSpec(dicts) {
          var i :| 0 <= i < |init| && k in init[i] && MergeSpec(init)[k] == init[i][k]
            && forall j :: i < j < |init| ==> k !in init[j];
          assert dicts[i] == init[i];
          assert forall j :: i < j < |dicts| ==> k !in dicts[j] by {
            forall j | i < j < |dicts| ensures k !in dicts[j] {
              if j < last {
                assert dicts[j] == init[j];
              }
            }
          }
        }
        if exists i :: 0 <= i < |dicts| && k in dicts[i] {
          var i :| 0 <= i < |dicts| && k in dicts[i];
          assert i < last && init[i] == dicts[i];
        }
      }
    }
  }

  // ---------------------------------------------------------------------------
  // prefixed_environ

  /** The key `prefixed_environ` gives variable `name`. */
  function Prefixed(name: string): (key: string)
    ensures |key| == |name| + 1 && key[0] == '$' && key[1..] == name
  {
    "$" + name
  }

  lemma PrefixedInjective()
    ensures forall a, b :: Prefixed(a) == Prefixed(b) ==> a == b
  {
    forall a, b | Prefixed(a) == Prefixed(b) ensures a == b {
      assert a == Prefixed(a)[1..];
    }
  }

  /** `prefixed_environ()` given the environment: `$NAME` for each variable `NAME`. */
  function PrefixedEnviron(env: map<string, string>): (r: map<string, string>)
    ensures forall k :: k in env ==> Prefixed(k) in r && r[Prefixed(k)] == env[k]
    ensures forall key :: key in r ==> exists k :: k in env && key == Prefixed(k)
  {
    PrefixedInjective();
    map k | k in env :: Prefixed(k) := env[k]
  }

  /** Dropping one variable drops exactly its key. */
  lemma PrefixedEnvironWithout(env: map<string, string>, k: string)
    requires k in env
    ensures Prefixed(k) !in PrefixedEnviron(env - {k})
    ensures PrefixedEnviron(env).Keys == PrefixedEnviron(env - {k}).Keys + {Prefixed(k)}
  {
    var rest := env - {k};
    var p := PrefixedEnviron(env);
    var q := PrefixedEnviron(rest);
    forall key | key in p ensures key in q.Keys + {Prefixed(k)} {
      var k' :| k' in env && key == Prefixed(k');
      if k' != k {
        assert k' in rest;
      }
    }
  }

  lemma PrefixedEnvironStep(env: map<string, string>, k: string)
    requires k in env
    ensures |PrefixedEnviron(env)| == |PrefixedEnviron(env - {k})| + 1
  {
    var p := PrefixedEnviron(env);
    var q := PrefixedEnviron(env - {k});
    PrefixedEnvironWithout(env, k);
    AddOneCount(p.Keys, q.Keys, Prefixed(k));
  }

  lemma AddOneCount(a: set<string>, b: set<string>, x: string)
    requires x !in b && a == b + {x}
    ensures |a| == |b| + 1
  {
  }

  lemma RemoveCount(env: map<string, string>, k: string)
    requires k in env
    ensures |env - {k}| == |env| - 1
  {
    assert (env - {k}).Keys == env.Keys - {k};
  }

  /** No two variables land on the same key, so no entry is lost. */
  lemma {:induction false} PrefixedEnvironCount(env: map<string, string>)
    ensures |PrefixedEnviron(env)| == |env|
    decreases |env|
  {
    if env != map[] {
      var k :| k in env;
      RemoveCount(env, k);
      PrefixedEnvironCount(env - {k});
      PrefixedEnvironStep(env, k);
    }
  }

  // ---------------------------------------------------------------------------
  // The verbosity table of get_logger

  /** The levels of Python's `logging`. */
  const Debug := 10
  const Info := 20
  const Warning := 30

  /** `{0: WARNING, 1: INFO, 2: DEBUG}.get(verbose, DEBUG)`. */
  function LogLevel(verbose: int): (level: int)
    ensures level == Debug || level == Info || level == Warning
    ensures level == Warning <==> verbose == 0
    ensures level == Info <==> verbose == 1
  {
    if verbose == 0 then Warning
    else if verbose == 1 then Info
    else Debug
  }

  /** More verbosity never raises the level, so it never hides a message that less
      verbosity shows. */
  lemma LogLevelMonotone(a: int, b: int)
    requires 0 <= a <= b
    ensures LogLevel(b) <= LogLevel(a)
  {
  }

  // ---------------------------------------------------------------------------
  // kv_string

  /** A dict's items in insertion order; a dict never holds a key twice. */
  type Item = (string, string)

  predicate DistinctKeys(items: seq<Item>) {
    forall i, j :: 0 <= i < j < |items| ==> items[i].0 != items[j].0
  }

  /** Ascending by key, as `sorted(d.items())` orders items with distinct keys. */
  predicate Sorted(items: seq<Item>) {
    forall i, j :: 0 <= i < j < |items| ==> Less(items[i].0, items[j].0)
  }

  function Insert(x: Item, items: seq<Item>): (r: seq<Item>)
    ensures multiset(r) == multiset(items) + multiset{x}
    decreases |items|
  {
    if items == [] then [x]
    else if Less(items[0].0, x.0) then
      assert items == [items[0]] + items[1..];
      [items[0]] + Insert(x, items[1..])
    else [x] + items
  }

  lemma {:induction false} InsertSorted(x: Item, items: seq<Item>)
    requires Sorted(items)
    requires forall i :: 0 <= i < |items| ==> items[i].0 != x.0
    ensures Sorted(Insert(x, items))
    decreases |items|
  {
    if items != [] {
      if Less(items[0].0, x.0) {
        var tail := items[1..];
        InsertSorted(x, tail);
        assert forall i :: 0 <= i < |tail| ==> Less(items[0].0, tail[i].0) by {
          forall i | 0 <= i < |tail| ensures Less(items[0].0, tail[i].0) {
            assert tail[i] == items[i + 1];
          }
        }
        InsertBounded(x, tail, items[0].0);
        assert Insert(x, items) == [items[0]] + Insert(x, tail);
      } else {
        LessTotal(x.0, items[0].0);
        forall j | 1 <= j < |items| ensures Less(x.0, items[j].0) {
          LessTransitive(x.0, items[0].0, items[j].0);
        }
        var r := Insert(x, items);
        assert forall j :: 1 <= j < |r| ==> r[j] == items[j - 1];
      }
    }
  }

  /** Every key of `Insert(x, items)` is the key of `x` or of an item, so a bound on those
      bounds it. */
  lemma InsertBounded(x: Item, items: seq<Item>, lo: string)
    requires Less(lo, x.0)
    requires forall i :: 0 <= i < |items| ==> Less(lo, items[i].0)
    ensures forall j :: 0 <= j < |Insert(x, items)| ==> Less(lo, Insert(x, items)[j].0)
  {
    var r := Insert(x, items);
    forall j | 0 <= j < |r| ensures Less(lo, r[j].0) {
      assert r[j] in multiset(r);
      if r[j] != x {
        assert r[j] in multiset(items);
        var m :| 0 <= m < |items| && items[m] == r[j];
      }
    }
  }

  /** `sorted(d.items())`. */
  function SortItems(items: seq<Item>): (r: seq<Item>)
    ensures multiset(r) == multiset(items)
    decreases |items|
  {
    if items == [] then []
    else
      assert items == [items[0]] + items[1..];
      Insert(items[0], SortItems(items[1..]))
  }

  /** The items come out ascending by key. */
  lemma {:induction false} SortItemsSorted(items: seq<Item>)
    requires DistinctKeys(items)
    ensures Sorted(SortItems(items))
    decreases |items|
  {
    if items != [] {
      var tail := items[1..];
      SortItemsSorted(tail);
      var s := SortItems(tail);
      forall i | 0 <= i < |s| ensures s[i].0 != items[0].0 {
        assert s[i] in multiset(tail);
        var m :| 0 <= m < |tail| && tail[m] == s[i];
        assert items[m + 1] == s[i];
      }
      InsertSorted(items[0], s);
    }
  }

  lemma SortedTail(a: seq<Item>)
    requires Sorted(a) && a != []
    ensures Sorted(a[1..])
  {
    forall i, j | 0 <= i < j < |a[1..]| ensures Less(a[1..][i].0, a[1..][j].0) {
      assert a[1..][i] == a[i + 1] && a[1..][j] == a[j + 1];
    }
  }

  /** The least key comes first. */
  lemma SortedHeads(a: seq<Item>, b: seq<Item>)
    requires Sorted(a) && Sorted(b) && multiset(a) == multiset(b) && a != []
    ensures b != [] && a[0] == b[0]
  {
    assert a[0] in multiset(b);
    var j :| 0 <= j < |b| && b[j] == a[0];
    assert b[0] in multiset(a);
    var i :| 0 <= i < |a| && a[i] == b[0];
    if j > 0 {
      assert Less(b[0].0, b[j].0);
      if i > 0 {
        LessAsymmetric(a[0].0, a[i].0);
      } else {
        LessIrreflexive(b[0].0);
      }
    }
  }

  lemma MultisetTails(a: seq<Item>, b: seq<Item>)
    requires multiset(a) == multiset(b) && a != [] && b != [] && a[0] == b[0]
    ensures multiset(a[1..]) == multiset(b[1..])
  {
    assert a == [a[0]] + a[1..] && b == [b[0]] + b[1..];
    assert multiset(a[1..]) == multiset(a) - multiset{a[0]};
    assert multiset(b[1..]) == multiset(b) - multiset{b[0]};
  }

  /** Two sequences ascending by key that hold the same items are the same. */
  lemma {:induction false} SortedUnique(a: seq<Item>, b: seq<Item>)
    requires Sorted(a) && Sorted(b) && multiset(a) == multiset(b)
    ensures a == b
    decreases |a|
  {
    if a != [] {
      SortedHeads(a, b);
      MultisetTails(a, b);
      SortedTail(a);
      SortedTail(b);
      SortedUnique(a[1..], b[1..]);
      assert a == [a[0]] + a[1..] && b == [b[0]] + b[1..];
    }
  }

  /** `"{}={}".format(k, v)` for each item. */
  function Entries(items: seq<Item>): (r: seq<string>)
    ensures |r| == |items|
    ensures forall i :: 0 <= i < |items| ==> r[i] == items[i].0 + "=" + items[i].1
    decreases |items|
  {
    if items == [] then [] else [items[0].0 + "=" + items[0].1] + Entries(items[1..])
  }

  /** `kv_string(d)`: the items, ascending by key, as `key=value` joined by ", ". */
  function KvString(items: seq<Item>): string {
    Join(Entries(SortItems(items)), ", ")
  }

  /** The text is the entries of a sequence that holds exactly the dict's items,
      ascending by key; so it does not depend on the order the dict was filled in. */
  lemma KvStringSorted(items: seq<Item>)
    requires DistinctKeys(items)
    ensures exists s :: Sorted(s) && multiset(s) == multiset(items) && KvString(items) == Join(Entries(s), ", ")
    ensures items == [] ==> KvString(items) == ""
  {
    SortItemsSorted(items);
  }

  lemma KvStringOrderFree(a: seq<Item>, b: seq<Item>)
    requires DistinctKeys(a) && DistinctKeys(b) && multiset(a) == multiset(b)
    ensures KvString(a) == KvString(b)
  {
    SortItemsSorted(a);
    SortItemsSorted(b);
    SortedUnique(SortItems(a), SortItems(b));
  }
}
