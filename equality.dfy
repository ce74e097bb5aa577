/** Python's `==` on configuration entries: `ConfDict.__eq__`, `__ne__` and
    `Config.__eq__` of confmgr/core.py, with the dispatch Python performs
    between the two operands, including the exceptions it raises. */
module Equality {
  import opened Wrappers
  import opened Tree

  /** Python 3 can put the value in a set: `Config` defines `__eq__`
      without `__hash__`, and lists and dicts are unhashable. */
  predicate Hashable(e: Entry)
  {
    e.Scalar? && !e.v.ListV?
  }

  /** `set(args)`, for hashable arguments. */
  function ArgSet(args: seq<Entry>): set<Entry>
  {
    set a | a in args
  }

  /** `x == y`. A `Config` on the left calls `Config.__eq__`, a `ConfDict` on
      the left calls `ConfDict.__eq__`; a literal on the left returns
      NotImplemented against either, and Python then tries the reflected
      call on the right operand. */
  function Eq(x: Entry, y: Entry): (r: Result<bool>)
    ensures x.Node? && !y.Node? ==> r == Err(AttributeError)
    ensures x.Scalar? && y.Node? ==> r == Err(AttributeError)
    ensures x.Dict? && y.Node? ==> r == Err(TypeError)
    ensures x.Scalar? && y.Scalar? ==> r == Ok(x.v == y.v)
    ensures x.Dict? && y.Dict? && |x.items| != |y.items| ==> r == Ok(false)
    decreases x, 1
  {
    match x
    case Node(_, _, _) => ConfigEq(x, y)
    case Dict(d) => DictEq(d, y)
    case Scalar(v) =>
      match y
      case Scalar(w) => Ok(v == w)
      case Node(_, _, _) => Err(AttributeError)
      case Dict(b) => DictEqScalar(b, v)
  }

  /** `Config.__eq__(x, y)`: constructors, then the sets of positional
      arguments, then the keyword arguments as `ConfDict`s. */
  function ConfigEq(x: Entry, y: Entry): (r: Result<bool>)
    requires x.Node?
    ensures !y.Node? ==> r == Err(AttributeError)
    ensures y.Node? && x.ctor != y.ctor ==> r == Ok(false)
    ensures r == Ok(true) ==>
      y.Node? && x.ctor == y.ctor && ArgSet(x.args) == ArgSet(y.args) && |x.kwargs| == |y.kwargs|
    decreases x, 0
  {
    if !y.Node? then Err(AttributeError)  // other._const
    else if x.ctor != y.ctor then Ok(false)
    else if exists a | a in x.args :: !Hashable(a) then Err(TypeError)
    else if exists a | a in y.args :: !Hashable(a) then Err(TypeError)
    else if ArgSet(x.args) != ArgSet(y.args) then Ok(false)
    else DictEq(x.kwargs, Dict(y.kwargs))
  }

  /** `ConfDict.__eq__(a, y)`. */
  function DictEq(a: seq<Item>, y: Entry): (r: Result<bool>)
    ensures y.Node? ==> r == Err(TypeError)
    ensures y.Dict? && |a| != |y.items| ==> r == Ok(false)
    ensures y.Dict? && r == Ok(true) ==> |a| == |y.items| && Keys(a) <= Keys(y.items)
    decreases a, 2
  {
    match y
    case Dict(b) => if |a| != |b| then Ok(false) else ItemsEq(a, b)
    case Node(_, _, _) => Err(TypeError)  // len() of a Config
    case Scalar(v) => DictEqScalar(a, v)
  }

  /** The loop of `ConfDict.__eq__` over the items of `a`, once the lengths
      agree: stops at the first key missing from `b` or the first unequal
      value, and lets an exception of the value comparison escape. */
  function ItemsEq(a: seq<Item>, b: seq<Item>): (r: Result<bool>)
    ensures r == Ok(true) ==> Keys(a) <= Keys(b)
    decreases a, 1
  {
    if a == [] then Ok(true)
    else
      KeysCons(a);
      match Get(b, a[0].key)
      case None => Ok(false)
      case Some(w) =>
        match Eq(a[0].val, w)
        case Err(e) => Err(e)
        case Ok(same) => if same then ItemsEq(a[1..], b) else Ok(false)
  }

  /** `len(v)` for a literal that has one. */
  function Len(v: Value): Option<nat>
  {
    match v
    case StrV(s) => Some(|s|)
    case ListV(xs) => Some(|xs|)
    case _ => None
  }

  predicate IsPrefix(k: string, s: string)
  {
    |k| <= |s| && s[..|k|] == k
  }

  /** `k in s` for two strings: `k` occurs in `s`. */
  predicate IsSubstring(k: string, s: string)
  {
    IsPrefix(k, s) || (s != [] && IsSubstring(k, s[1..]))
  }

  /** `k in v` for a literal with a length. */
  predicate ContainsKey(v: Value, k: string)
  {
    match v
    case StrV(s) => IsSubstring(k, s)
    case ListV(xs) => StrV(k) in xs
    case _ => false
  }

  /** `ConfDict.__eq__(a, v)` against a literal: `len(v)` fails unless `v`
      is a string or a list; with equal lengths the first key is looked up,
      and if `k in v` holds, `v[k]` raises (a str or list index must be an
      integer). */
  function DictEqScalar(a: seq<Item>, v: Value): Result<bool>
  {
    match Len(v)
    case None => Err(TypeError)
    case Some(n) =>
      if |a| != n then Ok(false)
      else if a == [] then Ok(true)
      else if ContainsKey(v, a[0].key) then Err(TypeError)
      else Ok(false)
  }

  /** `not r`, letting an exception through. */
  function Negate(r: Result<bool>): Result<bool>
  {
    match r
    case Ok(b) => Ok(!b)
    case Err(e) => Err(e)
  }

  /** `ConfDict.__ne__`: `not self.__eq__(other)`. */
  function DictNe(a: seq<Item>, y: Entry): (r: Result<bool>)
    ensures r.Ok? <==> DictEq(a, y).Ok?
    ensures r.Ok? ==> r.value == !DictEq(a, y).value
    ensures r.Err? ==> r.error == DictEq(a, y).error
  {
    Negate(DictEq(a, y))
  }

  /** `x != y`. `Config` defines no `__ne__`; Python 3's default inverts
      the result of `__eq__`. */
  function Ne(x: Entry, y: Entry): (r: Result<bool>)
    ensures r.Ok? <==> Eq(x, y).Ok?
    ensures r.Ok? ==> r.value == !Eq(x, y).value
  {
    Negate(Eq(x, y))
  }

  // ---------------------------------------------------------------------
  // `ConfDict.__eq__` as the source writes it: a loop with early returns

  /** `len(y)`. */
  function LenOf(y: Entry): Result<nat>
  {
    match y
    case Dict(b) => Ok(|b|)
    case Node(_, _, _) => Err(TypeError)
    case Scalar(v) => if Len(v).Some? then Ok(Len(v).value) else Err(TypeError)
  }

  /** `k in y`. */
  function Contains(y: Entry, k: string): Result<bool>
  {
    match y
    case Dict(b) => Ok(k in Keys(b))
    case Node(_, _, _) => Err(TypeError)
    case Scalar(v) => if Len(v).Some? then Ok(ContainsKey(v, k)) else Err(TypeError)
  }

  /** `y[k]`. */
  function Index(y: Entry, k: string): Result<Entry>
  {
    match y
    case Dict(b) => if Get(b, k).Some? then Ok(Get(b, k).value) else Err(KeyError)
    case _ => Err(TypeError)
  }

  method DictEquals(a: seq<Item>, other: Entry) returns (r: Result<bool>)
    ensures r == DictEq(a, other)
  {
    var n :- LenOf(other);
    if |a| != n {
      return Ok(false);
    }
    var i := 0;
    while i < |a|
      invariant 0 <= i <= |a|
      invariant other.Dict? ==> DictEq(a, other) == ItemsEq(a[i..], other.items)
      invariant !other.Dict? ==> i == 0
    {
      var k, v := a[i].key, a[i].val;
      assert a[i..][0] == a[i] && a[i..][1..] == a[i + 1..];
      // `k in other` cannot raise once `len(other)` has succeeded
      var found := Contains(other, k).value;
      if found {
        var w :- Index(other, k);
        var same :- Eq(v, w);
        if same {
          i := i + 1;
          continue;
        }
      }
      return Ok(false);
    }
    return Ok(true);
  }

  // ---------------------------------------------------------------------
  // What the comparison means

  /** Item `it` of one dictionary is found in `b` with an equal value. */
  predicate Matches(it: Item, b: seq<Item>)
  {
    Get(b, it.key).Some? && Eq(it.val, Get(b, it.key).value) == Ok(true)
  }

  lemma {:induction false} ItemsEqTrue(a: seq<Item>, b: seq<Item>)
    ensures ItemsEq(a, b) == Ok(true) <==> forall i | 0 <= i < |a| :: Matches(a[i], b)
  {
    if a != [] {
      ItemsEqTrue(a[1..], b);
      assert forall i | 1 <= i < |a| :: a[1..][i - 1] == a[i];
    }
  }

  /** Comparing the value of item `it` with its counterpart in `b` raises. */
  predicate Raises(it: Item, b: seq<Item>)
  {
    Get(b, it.key).Some? && Eq(it.val, Get(b, it.key).value).Err?
  }

  /** Item `i` of `a` is the first whose comparison is reached and raises. */
  predicate FirstRaise(a: seq<Item>, b: seq<Item>, i: int)
  {
    0 <= i < |a| && (forall j | 0 <= j < i :: Matches(a[j], b)) && Raises(a[i], b)
  }

  lemma FirstRaiseTail(a: seq<Item>, b: seq<Item>, i: int)
    requires a != [] && Matches(a[0], b)
    ensures FirstRaise(a, b, i + 1) <==> FirstRaise(a[1..], b, i)
  {
    assert forall j | 0 <= j < |a| - 1 :: a[1..][j] == a[j + 1];
    if FirstRaise(a[1..], b, i) {
      forall j | 0 <= j < i + 1 ensures Matches(a[j], b) {
        if j > 0 { assert a[1..][j - 1] == a[j]; }
      }
    }
  }

  /** An exception escapes exactly when some value comparison raises before
      any key has failed to match. */
  lemma {:induction false} ItemsEqRaises(a: seq<Item>, b: seq<Item>)
    ensures ItemsEq(a, b).Err? <==> exists i :: FirstRaise(a, b, i)
  {
    if a != [] {
      ItemsEqRaises(a[1..], b);
      if Matches(a[0], b) {
        assert ItemsEq(a, b) == ItemsEq(a[1..], b);
        forall i ensures FirstRaise(a, b, i + 1) <==> FirstRaise(a[1..], b, i) {
          FirstRaiseTail(a, b, i);
        }
        assert !FirstRaise(a, b, 0);
        if ItemsEq(a, b).Err? {
          var i :| FirstRaise(a[1..], b, i);
          assert FirstRaise(a, b, i + 1);
        }
        if exists i :: FirstRaise(a, b, i) {
          var i :| FirstRaise(a, b, i);
          assert FirstRaise(a[1..], b, i - 1);
        }
      } else if Raises(a[0], b) {
        assert FirstRaise(a, b, 0);
      } else {
        assert forall i :: !FirstRaise(a, b, i);
      }
    }
  }

  /** `ConfDict.__eq__` between two dictionaries holds iff they have the
      same length and every item of the left one is found in the right one
      with an equal value. */
  lemma DictEqTrue(a: seq<Item>, b: seq<Item>)
    ensures DictEq(a, Dict(b)) == Ok(true) <==>
      |a| == |b| && forall it | it in a :: Matches(it, b)
  {
    ItemsEqTrue(a, b);
  }

  lemma GetPermutationFound(b: seq<Item>, b': seq<Item>, k: string)
    requires UniqueKeys(b') && multiset(b) == multiset(b')
    requires Get(b, k).Some?
    ensures Get(b', k) == Get(b, k)
  {
    var it := Item(k, Get(b, k).value);
    assert it in multiset(b');
    GetIn(b', it);
  }

  lemma GetPermutation(b: seq<Item>, b': seq<Item>, k: string)
    requires UniqueKeys(b) && UniqueKeys(b') && multiset(b) == multiset(b')
    ensures Get(b, k) == Get(b', k)
  {
    if Get(b, k).Some? {
      GetPermutationFound(b, b', k);
    } else if Get(b', k).Some? {
      GetPermutationFound(b', b, k);
    }
  }

  /** Insertion order does not matter: permuting the items of either
      dictionary (a Python dict has unique keys) leaves equality unchanged. */
  lemma DictEqOrderFree(a: seq<Item>, a': seq<Item>, b: seq<Item>, b': seq<Item>)
    requires multiset(a) == multiset(a')
    requires UniqueKeys(b) && UniqueKeys(b') && multiset(b) == multiset(b')
    ensures DictEq(a, Dict(b)) == Ok(true) <==> DictEq(a', Dict(b')) == Ok(true)
  {
    DictEqTrue(a, b);
    DictEqTrue(a', b');
    assert |a| == |multiset(a)| == |multiset(a')| == |a'|;
    assert |b| == |multiset(b)| == |multiset(b')| == |b'|;
    forall k { GetPermutation(b, b', k); }
    assert forall it :: it in a <==> it in multiset(a);
    assert forall it :: it in a' <==> it in multiset(a');
  }

  /** Positional arguments are compared as sets: two `Config`s whose
      arguments hold the same elements compare the same way against
      anything. */
  lemma ArgsAsSet(c: Ctor, args: seq<Entry>, args': seq<Entry>, kw: seq<Item>, y: Entry)
    requires ArgSet(args) == ArgSet(args')
    ensures Eq(Node(c, args, kw), y) == Eq(Node(c, args', kw), y)
  {
    assert forall a :: a in args <==> a in ArgSet(args);
    assert forall a :: a in args' <==> a in ArgSet(args');
  }

  /** `Config.__eq__` holds iff the constructors are equal, every positional
      argument is hashable, the sets of positional arguments are equal and
      the keyword arguments are equal as dictionaries. */
  lemma ConfigEqTrue(c: Ctor, args: seq<Entry>, kw: seq<Item>, c': Ctor, args': seq<Entry>, kw': seq<Item>)
    ensures Eq(Node(c, args, kw), Node(c', args', kw')) == Ok(true) <==>
      && c == c'
      && (forall a | a in args + args' :: Hashable(a))
      && ArgSet(args) == ArgSet(args')
      && |kw| == |kw'| && forall it | it in kw :: Matches(it, kw')
  {
    DictEqTrue(kw, kw');
    assert forall a :: a in args + args' <==> a in args || a in args';
  }

  /** Mixing positional and keyword arguments breaks equality:
      `Config(dummy, 1, 0) != Config(dummy, 1, b = 0)`. */
  lemma ArgumentKindMatters(dummy: Ctor)
    ensures Ne(Node(dummy, [Scalar(IntV(1)), Scalar(IntV(0))], []),
               Node(dummy, [Scalar(IntV(1))], [Item("b", Scalar(IntV(0)))])) == Ok(true)
  {
    var args := [Scalar(IntV(1)), Scalar(IntV(0))];
    var args' := [Scalar(IntV(1))];
    assert forall a | a in args :: Hashable(a);
    assert forall a | a in args' :: Hashable(a);
    assert Scalar(IntV(0)) in ArgSet(args);
    assert Scalar(IntV(0)) !in ArgSet(args');
    var x := Node(dummy, args, []);
    var y := Node(dummy, args', [Item("b", Scalar(IntV(0)))]);
    assert !(exists a | a in x.args :: !Hashable(a));
    assert !(exists a | a in y.args :: !Hashable(a));
    assert ConfigEq(x, y) == Ok(false);
  }

  // ---------------------------------------------------------------------
  // Reflexivity

  /** Every `Config` in the entry, at any depth, has only hashable
      positional arguments, and every dictionary has unique keys. */
  predicate Comparable(e: Entry)
  {
    match e
    case Scalar(_) => true
    case Node(_, args, kw) => (forall a | a in args :: Hashable(a)) && ComparableDict(kw)
    case Dict(d) => ComparableDict(d)
  }

  predicate ComparableDict(d: seq<Item>)
  {
    UniqueKeys(d) && forall i | 0 <= i < |d| :: Comparable(d[i].val)
  }

  /** A comparable entry equals itself. Without the condition it need not:
      `c == c` raises for a `Config` with a list argument. */
  lemma {:induction false} EqReflexive(e: Entry)
    requires Comparable(e)
    ensures Eq(e, e) == Ok(true)
    decreases e, 1
  {
    match e
    case Scalar(_) =>
    case Node(_, _, kw) => DictEqReflexive(kw);
    case Dict(d) => DictEqReflexive(d);
  }

  lemma {:induction false} DictEqReflexive(d: seq<Item>)
    requires ComparableDict(d)
    ensures DictEq(d, Dict(d)) == Ok(true)
    decreases d, 0
  {
    forall i | 0 <= i < |d| ensures Matches(d[i], d) {
      GetUnique(d, i);
      EqReflexive(d[i].val);
    }
    ItemsEqTrue(d, d);
  }
}
