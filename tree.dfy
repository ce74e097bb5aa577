/** The configuration tree of confmgr/core.py: entries, the ordered
    dictionaries that hold them, and the class paths that name constructors. */
module Tree {
  import opened Wrappers

  /** The literal values a leaf can hold: None, bool, int, str and list. */
  datatype Value =
    | NoneV
    | BoolV(b: bool)
    | IntV(i: int)
    | StrV(s: string)
    | ListV(elems: seq<Value>)

  /** A Python class, identified by its `__module__` and `__name__`. */
  datatype Ctor = Ctor(mod: string, name: string)

  /** A value stored in a `ConfDict`: a literal, a `Config` (constructor,
      positional arguments and keyword arguments), or a nested `ConfMgr`
      (what `_drop` leaves where it descended into a `Config`). */
  datatype Entry =
    | Scalar(v: Value)
    | Node(ctor: Ctor, args: seq<Entry>, kwargs: seq<Item>)
    | Dict(items: seq<Item>)

  /** One key/value pair of a `ConfDict`; a `ConfDict` is a sequence of them
      in insertion order. */
  datatype Item = Item(key: string, val: Entry)

  /** `_class_path`: `<module>.<class>`. */
  function ClassPath(c: Ctor): (p: string)
    ensures |p| == |c.mod| + 1 + |c.name|
    ensures p[..|c.mod|] == c.mod && p[|c.mod|] == '.' && p[|c.mod| + 1..] == c.name
  {
    c.mod + "." + c.name
  }

  /** The module of confmgr/core.py itself. */
  const CoreModule := "confmgr.core"

  /** `_class_path(value.__class__)` for a value that is not a `Config`. */
  function TypePath(e: Entry): string
  {
    match e
    case Scalar(NoneV) => "builtins.NoneType"
    case Scalar(BoolV(_)) => "builtins.bool"
    case Scalar(IntV(_)) => "builtins.int"
    case Scalar(StrV(_)) => "builtins.str"
    case Scalar(ListV(_)) => "builtins.list"
    case Dict(_) => ClassPath(Ctor(CoreModule, "ConfMgr"))
    case Node(c, _, _) => ClassPath(c)
  }

  // ---------------------------------------------------------------------
  // Dictionaries as insertion-ordered sequences of items

  function Keys(d: seq<Item>): set<string>
  {
    set it | it in d :: it.key
  }

  predicate UniqueKeys(d: seq<Item>)
  {
    forall i, j | 0 <= i < j < |d| :: d[i].key != d[j].key
  }

  /** `d[k]` when `k in d`. */
  function Get(d: seq<Item>, k: string): (r: Option<Entry>)
    ensures r.Some? <==> k in Keys(d)
    ensures r.Some? ==> Item(k, r.value) in d
  {
    if d == [] then None
    else if d[0].key == k then Some(d[0].val)
    else Get(d[1..], k)
  }

  /** `list(d)`: the keys in insertion order. */
  function KeyOrder(d: seq<Item>): (ks: seq<string>)
    ensures |ks| == |d| && forall i | 0 <= i < |d| :: ks[i] == d[i].key
  {
    seq(|d|, i requires 0 <= i < |d| => d[i].key)
  }

  /** `d[k] = v`: replaces the value in place, or appends a new key. */
  function Set(d: seq<Item>, k: string, v: Entry): (r: seq<Item>)
    ensures Keys(r) == Keys(d) + {k}
  {
    if d == [] then [Item(k, v)]
    else if d[0].key == k then [Item(k, v)] + d[1..]
    else
      var rest := Set(d[1..], k, v);
      KeysCons(d);
      KeysCons([d[0]] + rest);
      assert ([d[0]] + rest)[1..] == rest;
      [d[0]] + rest
  }

  /** `d.pop(k)`: the key is gone and every other key keeps its value. */
  function Remove(d: seq<Item>, k: string): (r: seq<Item>)
    ensures Keys(r) == Keys(d) - {k}
  {
    if d == [] then []
    else
      KeysCons(d);
      if d[0].key == k then Remove(d[1..], k)
      else
        var rest := Remove(d[1..], k);
        KeysCons([d[0]] + rest);
        assert ([d[0]] + rest)[1..] == rest;
        [d[0]] + rest
  }

  /** The value the last pair with key `k` carries: what `dict(pairs)[k]`
      holds. */
  function LastValue(ps: seq<Item>, k: string): Option<Entry>
    decreases |ps|
  {
    if ps == [] then None
    else if ps[|ps| - 1].key == k then Some(ps[|ps| - 1].val)
    else LastValue(ps[..|ps| - 1], k)
  }

  /** The keys with every repetition after the first dropped. */
  function FirstOccurrences(ks: seq<string>): seq<string>
    decreases |ks|
  {
    if ks == [] then []
    else
      var init := FirstOccurrences(ks[..|ks| - 1]);
      if ks[|ks| - 1] in init then init else init + [ks[|ks| - 1]]
  }

  /** `dict(pairs)`: inserts the pairs in order, a later duplicate key
      overwriting the value of the earlier one in its original position. */
  function FromPairs(ps: seq<Item>): (r: seq<Item>)
    ensures Keys(r) == Keys(ps)
    ensures UniqueKeys(r)
    decreases |ps|
  {
    if ps == [] then []
    else
      var n := |ps| - 1;
      var last := ps[n];
      assert Keys(ps) == Keys(ps[..n]) + {last.key} by {
        assert ps == ps[..n] + [last];
      }
      SetUnique(FromPairs(ps[..n]), last.key, last.val);
      Set(FromPairs(ps[..n]), last.key, last.val)
  }

  /** Every dictionary in the entry, at any depth, has unique keys: the
      invariant of a Python dict. */
  predicate WellFormed(e: Entry)
  {
    match e
    case Scalar(_) => true
    case Node(_, args, kw) => (forall i | 0 <= i < |args| :: WellFormed(args[i])) && WellFormedDict(kw)
    case Dict(d) => WellFormedDict(d)
  }

  predicate WellFormedDict(d: seq<Item>)
  {
    UniqueKeys(d) && forall i | 0 <= i < |d| :: WellFormed(d[i].val)
  }

  // ---------------------------------------------------------------------
  // Lemmas about the dictionary operations

  lemma KeysCons(d: seq<Item>)
    requires d != []
    ensures Keys(d) == {d[0].key} + Keys(d[1..])
  {
    assert forall it | it in d :: it == d[0] || it in d[1..];
  }

  lemma KeyOrderCons(x: Item, d: seq<Item>)
    ensures KeyOrder([x] + d) == [x.key] + KeyOrder(d)
  {
  }

  lemma KeyOrderKeys(d: seq<Item>)
    ensures forall k :: k in KeyOrder(d) <==> k in Keys(d)
  {
    forall k | k in Keys(d) ensures k in KeyOrder(d) {
      var i :| 0 <= i < |d| && d[i].key == k;
      assert KeyOrder(d)[i] == k;
    }
  }

  lemma UniqueCons(x: Item, d: seq<Item>)
    requires UniqueKeys(d) && x.key !in Keys(d)
    ensures UniqueKeys([x] + d)
  {
    forall i, j | 0 <= i < j < |[x] + d| ensures ([x] + d)[i].key != ([x] + d)[j].key {
      if i == 0 {
        assert ([x] + d)[j] == d[j - 1] && d[j - 1] in d;
      } else {
        assert ([x] + d)[i] == d[i - 1] && ([x] + d)[j] == d[j - 1];
      }
    }
  }

  /** After `d[k] = v`, `d[k]` is `v` and every other key keeps its value. */
  lemma {:induction false} SetGet(d: seq<Item>, k: string, v: Entry)
    ensures Get(Set(d, k, v), k) == Some(v)
    ensures forall k' | k' != k :: Get(Set(d, k, v), k') == Get(d, k')
  {
    if d != [] && d[0].key != k {
      SetGet(d[1..], k, v);
      assert Set(d, k, v)[1..] == Set(d[1..], k, v);
    }
  }

  /** After `d.pop(k)`, `k` is absent and every other key keeps its value. */
  lemma {:induction false} RemoveGet(d: seq<Item>, k: string)
    ensures Get(Remove(d, k), k) == None
    ensures forall k' | k' != k :: Get(Remove(d, k), k') == Get(d, k')
  {
    if d != [] {
      RemoveGet(d[1..], k);
      if d[0].key != k {
        assert Remove(d, k)[1..] == Remove(d[1..], k);
      }
    }
  }

  /** Assigning a key keeps the order of the keys; a new key goes last. */
  lemma {:induction false} SetOrder(d: seq<Item>, k: string, v: Entry)
    ensures KeyOrder(Set(d, k, v)) == if k in Keys(d) then KeyOrder(d) else KeyOrder(d) + [k]
  {
    if d != [] {
      KeysCons(d);
      KeyOrderCons(d[0], d[1..]);
      assert [d[0]] + d[1..] == d;
      if d[0].key == k {
        KeyOrderCons(Item(k, v), d[1..]);
      } else {
        var rest := Set(d[1..], k, v);
        assert Set(d, k, v) == [d[0]] + rest;
        SetOrder(d[1..], k, v);
        KeyOrderCons(d[0], rest);
        if k !in Keys(d[1..]) {
          assert KeyOrder(rest) == KeyOrder(d[1..]) + [k];
          assert [d[0].key] + (KeyOrder(d[1..]) + [k]) == ([d[0].key] + KeyOrder(d[1..])) + [k];
        }
      }
    }
  }

  /** Removing a key keeps the keys unique. */
  lemma {:induction false} RemoveUnique(d: seq<Item>, k: string)
    requires UniqueKeys(d)
    ensures UniqueKeys(Remove(d, k))
  {
    if d != [] {
      KeysCons(d);
      assert UniqueKeys(d[1..]);
      RemoveUnique(d[1..], k);
      if d[0].key != k {
        UniqueCons(d[0], Remove(d[1..], k));
      }
    }
  }

  /** Assigning a key keeps the keys unique. */
  lemma SetUnique(d: seq<Item>, k: string, v: Entry)
    requires UniqueKeys(d)
    ensures UniqueKeys(Set(d, k, v))
  {
    var r := Set(d, k, v);
    SetOrder(d, k, v);
    KeyOrderKeys(d);
    if k in Keys(d) {
      assert forall i | 0 <= i < |r| :: r[i].key == KeyOrder(d)[i];
    } else {
      assert forall i | 0 <= i < |d| :: r[i].key == KeyOrder(d)[i];
      assert KeyOrder(r)[|d|] == k;
    }
  }

  lemma {:induction false} GetUnique(d: seq<Item>, i: nat)
    requires UniqueKeys(d) && i < |d|
    ensures Get(d, d[i].key) == Some(d[i].val)
  {
    if i > 0 {
      assert d[0].key != d[i].key;
      assert d[1..][i - 1] == d[i];
      GetUnique(d[1..], i - 1);
    }
  }

  lemma {:induction false} GetIn(d: seq<Item>, it: Item)
    requires UniqueKeys(d) && it in d
    ensures Get(d, it.key) == Some(it.val)
  {
    var i :| 0 <= i < |d| && d[i] == it;
    GetUnique(d, i);
  }

  lemma {:induction false} SetAbsent(d: seq<Item>, k: string, v: Entry)
    requires k !in Keys(d)
    ensures Set(d, k, v) == d + [Item(k, v)]
  {
    if d != [] {
      KeysCons(d);
      SetAbsent(d[1..], k, v);
      assert [d[0]] + (d[1..] + [Item(k, v)]) == d + [Item(k, v)];
    }
  }

  /** `dict(pairs)[k]` is the value of the last pair with key `k`. */
  lemma {:induction false} FromPairsGet(ps: seq<Item>)
    ensures forall k :: Get(FromPairs(ps), k) == LastValue(ps, k)
    decreases |ps|
  {
    if ps != [] {
      var n := |ps| - 1;
      FromPairsGet(ps[..n]);
      SetGet(FromPairs(ps[..n]), ps[n].key, ps[n].val);
    }
  }

  /** The keys of `dict(pairs)` come in the order of their first occurrence. */
  lemma {:induction false} FromPairsOrder(ps: seq<Item>)
    ensures KeyOrder(FromPairs(ps)) == FirstOccurrences(KeyOrder(ps))
    decreases |ps|
  {
    if ps != [] {
      var n := |ps| - 1;
      var last := ps[n];
      var init := FromPairs(ps[..n]);
      FromPairsOrder(ps[..n]);
      assert FromPairs(ps) == Set(init, last.key, last.val);
      SetOrder(init, last.key, last.val);
      KeyOrderSnoc(ps);
      KeyOrderKeys(init);
      FirstOccurrencesSnoc(KeyOrder(ps[..n]), last.key);
    }
  }

  lemma KeyOrderSnoc(ps: seq<Item>)
    requires ps != []
    ensures KeyOrder(ps) == KeyOrder(ps[..|ps| - 1]) + [ps[|ps| - 1].key]
  {
  }

  lemma FirstOccurrencesSnoc(ks: seq<string>, x: string)
    ensures FirstOccurrences(ks + [x])
         == if x in FirstOccurrences(ks) then FirstOccurrences(ks) else FirstOccurrences(ks) + [x]
  {
    assert (ks + [x])[..|ks|] == ks;
  }

  /** `dict(pairs)` has at most as many items as there are pairs. */
  lemma {:induction false} FromPairsLength(ps: seq<Item>)
    ensures |FromPairs(ps)| <= |ps|
    decreases |ps|
  {
    if ps != [] {
      var n := |ps| - 1;
      FromPairsLength(ps[..n]);
      SetOrder(FromPairs(ps[..n]), ps[n].key, ps[n].val);
    }
  }

  lemma {:induction false} FromPairsUnique(ps: seq<Item>)
    requires UniqueKeys(ps)
    ensures FromPairs(ps) == ps
    decreases |ps|
  {
    if ps != [] {
      var n := |ps| - 1;
      var init := ps[..n];
      assert UniqueKeys(init);
      FromPairsUnique(init);
      assert ps[n].key !in Keys(init);
      SetAbsent(init, ps[n].key, ps[n].val);
      assert init + [ps[n]] == ps;
    }
  }
}
