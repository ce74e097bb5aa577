/** `_drop` and `check_configurations` of confmgr/funcs.py: comparing
    configurations while ignoring the parts a skip specification names. */
module Funcs {
  import opened Wrappers
  import opened Tree
  import opened Equality
  import opened Xml

  /** A skip specification: each key names either the whole entry under it
      (`None`) or a nested specification for that entry's keyword
      arguments. */
  datatype Skip = Skip(paths: map<string, Option<Skip>>)

  type Paths = map<string, Option<Skip>>

  /** `drop or {}`. */
  function PathsOf(s: Option<Skip>): Paths
  {
    if s.None? then map[] else s.value.paths
  }

  /** `v.kwargs()`: the keyword arguments of a `Config`, or the dictionary
      itself; a literal has no such method. */
  function KwargsOf(e: Entry): (r: Result<seq<Item>>)
    ensures r.Err? <==> e.Scalar?
    ensures r.Err? ==> r.error == AttributeError
  {
    match e
    case Node(_, _, kw) => Ok(kw)
    case Dict(d) => Ok(d)
    case Scalar(_) => Err(AttributeError)
  }

  // ---------------------------------------------------------------------
  // What `_drop` computes

  /** `_drop(v.kwargs(), sub)`, stored back as a dictionary. */
  function DropValue(v: Entry, sub: Skip): (r: Result<Entry>)
    ensures r.Err? ==> r.error == AttributeError
    ensures r.Ok? ==> r.value.Dict?
    decreases v
  {
    var kw :- KwargsOf(v);
    var nd :- DropItems(kw, sub.paths);
    Ok(Dict(nd))
  }

  /** One entry of the copy after dropping: kept when its key is not in
      the specification, removed when mapped to `None`, otherwise replaced
      by its own dropped keyword arguments. */
  function DropEntry(it: Item, paths: Paths): (r: Result<Option<Item>>)
    ensures r.Err? ==> r.error == AttributeError
    ensures r.Ok? && r.value.Some? ==> r.value.value.key == it.key
    decreases it
  {
    if it.key !in paths then Ok(Some(it))
    else if paths[it.key].None? then Ok(None)
    else
      var v :- DropValue(it.val, paths[it.key].value);
      Ok(Some(Item(it.key, v)))
  }

  /** The dictionary `_drop` returns, in the order of the copy it starts
      from. Any failure is an `AttributeError`, so it does not matter in
      which order the source visits the keys. */
  function DropItems(d: seq<Item>, paths: Paths): (r: Result<seq<Item>>)
    ensures r.Err? ==> r.error == AttributeError
    decreases d
  {
    if d == [] then Ok([])
    else
      var h :- DropEntry(d[0], paths);
      var rest :- DropItems(d[1..], paths);
      Ok(if h.Some? then [h.value] + rest else rest)
  }

  /** `_drop(dct, drop)`: with no specification the dictionary comes back
      unchanged; any failure is an `AttributeError`. */
  function Dropped(d: seq<Item>, s: Option<Skip>): (r: Result<seq<Item>>)
    ensures s.None? ==> r == Ok(d)
    ensures r.Err? ==> r.error == AttributeError
  {
    DropNothing(d);
    DropItems(d, PathsOf(s))
  }

  /** The part of `paths` already handled when `todo` is left to do. */
  function Done(paths: Paths, todo: set<string>): Paths
  {
    map k | k in paths && k !in todo :: paths[k]
  }

  /** `_drop`: copies `dct`, then for each key it shares with the
      specification either replaces the entry or pops it. Python visits the
      shared keys in an unspecified order; the loop picks any. */
  method Drop(dct: seq<Item>, drop: Option<Skip>) returns (r: Result<seq<Item>>)
    requires WellFormedDict(dct)
    ensures r == Dropped(dct, drop)
    decreases dct
  {
    var paths := PathsOf(drop);
    var out := dct;
    var todo := Keys(dct) * paths.Keys;
    DropOutside(dct, Done(paths, todo));
    while todo != {}
      invariant todo <= Keys(dct) * paths.Keys
      invariant DropItems(dct, Done(paths, todo)) == Ok(out)
      decreases |todo|
    {
      var c :| c in todo;
      var obj := paths[c];
      ghost var done := Done(paths, todo);
      DoneStep(paths, todo, c);
      if obj.Some? {
        DropUntouched(dct, done, c);
        var v := Get(out, c).value;
        var i :| 0 <= i < |dct| && dct[i] == Item(c, v);
        var kw := KwargsOf(v);
        StepReplace(dct, done, c, obj.value);
        if kw.Err? {
          DropMonotone(dct, done[c := obj], paths);
          return Err(kw.error);
        }
        assert WellFormed(dct[i].val);
        assert WellFormedDict(kw.value);
        assert dct[i] in dct;
        assert v < dct[i];
        assert v.Node? ==> kw.value == v.kwargs;
        assert v.Dict? ==> kw.value == v.items;
        var sub := Drop(kw.value, obj);
        if sub.Err? {
          DropMonotone(dct, done[c := obj], paths);
          return Err(sub.error);
        }
        out := Set(out, c, Dict(sub.value));
      } else {
        StepRemove(dct, done, c);
        out := Remove(out, c);
      }
      todo := todo - {c};
    }
    DoneStep(paths, {}, "");
    return Ok(out);
  }

  // ---------------------------------------------------------------------
  // Steps of the loop

  lemma DoneStep(paths: Paths, todo: set<string>, c: string)
    ensures c in todo && c in paths ==> Done(paths, todo - {c}) == Done(paths, todo)[c := paths[c]]
    ensures todo == {} ==> Done(paths, todo) == paths
  {
  }

  /** Dropping depends only on the specification's entries for the
      dictionary's own keys. */
  lemma {:induction false} DropAgree(d: seq<Item>, p: Paths, q: Paths)
    requires forall k | k in Keys(d) :: (k in p <==> k in q) && (k in p ==> p[k] == q[k])
    ensures DropItems(d, p) == DropItems(d, q)
  {
    if d != [] {
      KeysCons(d);
      DropAgree(d[1..], p, q);
    }
  }

  lemma {:induction false} DropNothing(d: seq<Item>)
    ensures DropItems(d, map[]) == Ok(d)
  {
    if d != [] {
      DropNothing(d[1..]);
      assert [d[0]] + d[1..] == d;
    }
  }

  /** Specification keys absent from the dictionary are ignored. */
  lemma DropOutside(d: seq<Item>, p: Paths)
    requires Keys(d) !! p.Keys
    ensures DropItems(d, p) == Ok(d)
  {
    DropAgree(d, p, map[]);
    DropNothing(d);
  }

  lemma {:induction false} DropKeys(d: seq<Item>, p: Paths)
    requires DropItems(d, p).Ok?
    ensures Keys(DropItems(d, p).value) <= Keys(d)
  {
    if d != [] {
      KeysCons(d);
      DropKeys(d[1..], p);
      var h := DropEntry(d[0], p).value;
      if h.Some? {
        KeysCons([h.value] + DropItems(d[1..], p).value);
      }
    }
  }

  /** A key the specification does not name keeps its value. */
  lemma {:induction false} DropUntouched(d: seq<Item>, p: Paths, k: string)
    requires DropItems(d, p).Ok? && k !in p
    ensures Get(DropItems(d, p).value, k) == Get(d, k)
  {
    if d != [] {
      DropUntouched(d[1..], p, k);
    }
  }

  lemma {:induction false} RemoveAbsent(d: seq<Item>, k: string)
    requires k !in Keys(d)
    ensures Remove(d, k) == d
  {
    if d != [] {
      KeysCons(d);
      RemoveAbsent(d[1..], k);
      assert [d[0]] + d[1..] == d;
    }
  }

  /** Handling a key mapped to `None` pops it from the copy. */
  lemma {:induction false} StepRemove(d: seq<Item>, p: Paths, c: string)
    requires UniqueKeys(d) && c in Keys(d) && c !in p && DropItems(d, p).Ok?
    ensures DropItems(d, p[c := None]) == Ok(Remove(DropItems(d, p).value, c))
  {
    KeysCons(d);
    var rest := DropItems(d[1..], p).value;
    assert UniqueKeys(d[1..]);
    if d[0].key == c {
      assert c !in Keys(d[1..]);
      DropAgree(d[1..], p, p[c := None]);
      DropKeys(d[1..], p);
      RemoveAbsent(rest, c);
    } else {
      StepRemove(d[1..], p, c);
    }
  }

  /** Handling a key mapped to a nested specification replaces its value
      in the copy, or fails as the nested drop does. */
  lemma {:induction false} StepReplace(d: seq<Item>, p: Paths, c: string, sub: Skip)
    requires UniqueKeys(d) && c in Keys(d) && c !in p && DropItems(d, p).Ok?
    ensures DropItems(d, p[c := Some(sub)]) ==
      match DropValue(Get(d, c).value, sub)
      case Err(e) => Err(e)
      case Ok(v) => Ok(Set(DropItems(d, p).value, c, v))
  {
    KeysCons(d);
    assert UniqueKeys(d[1..]);
    var q := p[c := Some(sub)];
    var rest := DropItems(d[1..], p).value;
    if d[0].key == c {
      assert c !in Keys(d[1..]);
      DropAgree(d[1..], p, q);
      assert DropItems(d, p).value == [d[0]] + rest;
      assert Get(d, c) == Some(d[0].val);
    } else {
      assert DropEntry(d[0], q) == DropEntry(d[0], p);
      assert Get(d, c) == Get(d[1..], c);
      StepReplace(d[1..], p, c, sub);
      var h := DropEntry(d[0], p).value;
      if h.Some? {
        assert DropItems(d, p).value == [h.value] + rest;
        assert h.value.key != c;
      } else {
        assert DropItems(d, p).value == rest;
      }
    }
  }

  /** A drop that fails on part of a specification fails on all of it. */
  lemma {:induction false} DropMonotone(d: seq<Item>, p: Paths, q: Paths)
    requires DropItems(d, p).Err?
    requires forall k | k in p :: k in q && q[k] == p[k]
    ensures DropItems(d, q).Err?
  {
    if DropEntry(d[0], p).Ok? && DropEntry(d[0], q).Ok? {
      DropMonotone(d[1..], p, q);
    }
  }

  // ---------------------------------------------------------------------
  // Properties of `_drop`

  /** Without a specification, or with an empty one, the result is a copy
      equal to the input. */
  lemma DropNoSpec(d: seq<Item>)
    ensures Dropped(d, None) == Ok(d)
    ensures Dropped(d, Some(Skip(map[]))) == Ok(d)
  {
    DropNothing(d);
  }

  /** Only the keys the dictionary shares with the specification are
      affected: the rest of the specification is ignored. */
  lemma DropIgnoresAbsent(d: seq<Item>, s: Skip, k: string, x: Option<Skip>)
    requires k !in Keys(d)
    ensures Dropped(d, Some(Skip(s.paths[k := x]))) == Dropped(d, Some(s))
  {
    DropAgree(d, s.paths[k := x], s.paths);
  }

  /** After a successful drop: a key outside the specification keeps its
      value, a key mapped to `None` is gone, a key mapped to a nested
      specification holds the dictionary dropped from that entry's keyword
      arguments (its constructor and positional arguments are gone), and no
      key is added. */
  lemma {:induction false} DropGet(d: seq<Item>, p: Paths, k: string)
    requires UniqueKeys(d) && DropItems(d, p).Ok?
    ensures var r := DropItems(d, p).value;
      && (k !in Keys(d) ==> Get(r, k).None?)
      && (k in Keys(d) && k !in p ==> Get(r, k) == Get(d, k))
      && (k in Keys(d) && k in p && p[k].None? ==> Get(r, k).None?)
      && (k in Keys(d) && k in p && p[k].Some? ==>
            && KwargsOf(Get(d, k).value).Ok?
            && DropItems(KwargsOf(Get(d, k).value).value, p[k].value.paths).Ok?
            && Get(r, k) == Some(Dict(DropItems(KwargsOf(Get(d, k).value).value, p[k].value.paths).value)))
  {
    if d != [] {
      KeysCons(d);
      assert UniqueKeys(d[1..]);
      DropGet(d[1..], p, k);
      if d[0].key == k {
        assert k !in Keys(d[1..]);
        DropKeys(d[1..], p);
        var rest := DropItems(d[1..], p).value;
        assert Get(d, k) == Some(d[0].val);
        if k in p && p[k].Some? {
          var v := DropValue(d[0].val, p[k].value).value;
          assert DropItems(d, p).value == [Item(k, v)] + rest;
        } else if k in p {
          assert DropItems(d, p).value == rest;
        } else {
          assert DropItems(d, p).value == [d[0]] + rest;
        }
      }
    } else {
      DropKeys(d, p);
    }
  }

  /** A nested specification that reaches a literal. */
  predicate Blocked(it: Item, p: Paths)
  {
    it.key in p && p[it.key].Some? &&
    (it.val.Scalar? || DropItems(KwargsOf(it.val).value, p[it.key].value.paths).Err?)
  }

  /** The drop fails exactly when a nested specification reaches a literal,
      at any depth; it then raises `AttributeError`. */
  lemma {:induction false} DropFails(d: seq<Item>, p: Paths)
    ensures DropItems(d, p).Err? <==> exists i | 0 <= i < |d| :: Blocked(d[i], p)
  {
    if d != [] {
      assert DropEntry(d[0], p).Err? <==> Blocked(d[0], p);
      DropFails(d[1..], p);
      assert forall i | 1 <= i < |d| :: d[1..][i - 1] == d[i];
    }
  }

  // ---------------------------------------------------------------------
  // `check_configurations`

  /** `[_drop(c, skip) for c in cfglst]`. */
  function DroppedAll(cfglst: seq<seq<Item>>, skip: Option<Skip>): Result<seq<seq<Item>>>
  {
    if cfglst == [] then Ok([])
    else
      var n := |cfglst| - 1;
      var init :- DroppedAll(cfglst[..n], skip);
      var m :- Dropped(cfglst[n], skip);
      Ok(init + [m])
  }

  /** The loop over the candidates and their dropped forms. */
  function Select(cfglst: seq<seq<Item>>, mods: seq<seq<Item>>, target: seq<Item>): Result<seq<seq<Item>>>
    requires |mods| == |cfglst|
  {
    if cfglst == [] then Ok([])
    else
      var n := |cfglst| - 1;
      var init :- Select(cfglst[..n], mods[..n], target);
      var same :- DictEq(mods[n], Dict(target));
      Ok(if same then init + [cfglst[n]] else init)
  }

  lemma {:induction false} DroppedAllLength(cfglst: seq<seq<Item>>, skip: Option<Skip>)
    requires DroppedAll(cfglst, skip).Ok?
    ensures |DroppedAll(cfglst, skip).value| == |cfglst|
  {
    if cfglst != [] {
      DroppedAllLength(cfglst[..|cfglst| - 1], skip);
    }
  }

  /** `check_configurations`: the configurations of `cfglst`, in order,
      that equal `config` once both have been dropped; it fails when some
      drop fails or a comparison raises. */
  function Matching(config: seq<Item>, cfglst: seq<seq<Item>>, skip: Option<Skip>): (r: Result<seq<seq<Item>>>)
    ensures r.Ok? ==> |r.value| <= |cfglst| && DroppedAll(cfglst, skip).Ok? && Dropped(config, skip).Ok?
    ensures Dropped(config, skip).Err? ==> r.Err?
  {
    var mods :- DroppedAll(cfglst, skip);
    var target :- Dropped(config, skip);
    DroppedAllLength(cfglst, skip);
    var sel := Select(cfglst, mods, target);
    if sel.Ok? then
      SelectPicks(cfglst, mods, target);
      sel
    else sel
  }

  /** `[_drop(c, skip) for c in cfglst]`, the first failure ending it. */
  method DropEach(cfglst: seq<seq<Item>>, skip: Option<Skip>) returns (r: Result<seq<seq<Item>>>)
    requires forall i | 0 <= i < |cfglst| :: WellFormedDict(cfglst[i])
    ensures r == DroppedAll(cfglst, skip)
  {
    var mods := [];
    var i := 0;
    while i < |cfglst|
      invariant 0 <= i <= |cfglst|
      invariant DroppedAll(cfglst[..i], skip) == Ok(mods)
    {
      assert cfglst[..i + 1][..i] == cfglst[..i];
      var m := Drop(cfglst[i], skip);
      if m.Err? {
        DroppedAllPrefixFails(cfglst, skip, i + 1);
        return Err(m.error);
      }
      mods := mods + [m.value];
      i := i + 1;
    }
    assert cfglst[..i] == cfglst;
    return Ok(mods);
  }

  method CheckConfigurations(config: seq<Item>, cfglst: seq<seq<Item>>, skip: Option<Skip>)
    returns (r: Result<seq<seq<Item>>>)
    requires WellFormedDict(config)
    requires forall i | 0 <= i < |cfglst| :: WellFormedDict(cfglst[i])
    ensures r == Matching(config, cfglst, skip)
  {
    var all := DropEach(cfglst, skip);
    if all.Err? {
      return Err(all.error);
    }
    var mods := all.value;
    DroppedAllLength(cfglst, skip);
    var target := Drop(config, skip);
    if target.Err? {
      return Err(target.error);
    }
    var matches := [];
    var j := 0;
    while j < |cfglst|
      invariant 0 <= j <= |cfglst|
      invariant Select(cfglst[..j], mods[..j], target.value) == Ok(matches)
    {
      assert cfglst[..j + 1][..j] == cfglst[..j] && mods[..j + 1][..j] == mods[..j];
      var same := DictEquals(mods[j], Dict(target.value));
      if same.Err? {
        SelectPrefixFails(cfglst, mods, target.value, j + 1);
        return Err(same.error);
      }
      if same.value {
        matches := matches + [cfglst[j]];
      }
      j := j + 1;
    }
    assert cfglst[..j] == cfglst && mods[..j] == mods;
    return Ok(matches);
  }

  lemma {:induction false} DroppedAllPrefixFails(cfglst: seq<seq<Item>>, skip: Option<Skip>, n: nat)
    requires n <= |cfglst| && DroppedAll(cfglst[..n], skip).Err?
    ensures DroppedAll(cfglst, skip) == DroppedAll(cfglst[..n], skip)
    decreases |cfglst| - n
  {
    if n < |cfglst| {
      assert cfglst[..n + 1][..n] == cfglst[..n];
      DroppedAllPrefixFails(cfglst, skip, n + 1);
    } else {
      assert cfglst[..n] == cfglst;
    }
  }

  lemma {:induction false} SelectPrefixFails(cfglst: seq<seq<Item>>, mods: seq<seq<Item>>, target: seq<Item>, n: nat)
    requires |mods| == |cfglst| && n <= |cfglst| && Select(cfglst[..n], mods[..n], target).Err?
    ensures Select(cfglst, mods, target) == Select(cfglst[..n], mods[..n], target)
    decreases |cfglst| - n
  {
    if n < |cfglst| {
      assert cfglst[..n + 1][..n] == cfglst[..n] && mods[..n + 1][..n] == mods[..n];
      SelectPrefixFails(cfglst, mods, target, n + 1);
    } else {
      assert cfglst[..n] == cfglst && mods[..n] == mods;
    }
  }

  // ---------------------------------------------------------------------
  // Properties of `check_configurations`

  /** `ms` lists, in order, the elements of `xs` at the increasing
      indices `idx`. */
  predicate Picks(ms: seq<seq<Item>>, xs: seq<seq<Item>>, idx: seq<nat>)
  {
    && |idx| == |ms|
    && (forall j | 0 <= j < |idx| :: idx[j] < |xs| && ms[j] == xs[idx[j]])
    && (forall j, j' | 0 <= j < j' < |idx| :: idx[j] < idx[j'])
  }

  lemma {:induction false} DroppedAllAt(cfglst: seq<seq<Item>>, skip: Option<Skip>)
    requires DroppedAll(cfglst, skip).Ok?
    ensures |DroppedAll(cfglst, skip).value| == |cfglst|
    ensures forall i | 0 <= i < |cfglst| :: Dropped(cfglst[i], skip) == Ok(DroppedAll(cfglst, skip).value[i])
  {
    if cfglst != [] {
      var n := |cfglst| - 1;
      DroppedAllAt(cfglst[..n], skip);
    }
  }

  /** The candidates are dropped one after the other, and the first one
      that fails decides the outcome. */
  lemma {:induction false} DroppedAllFails(cfglst: seq<seq<Item>>, skip: Option<Skip>)
    ensures DroppedAll(cfglst, skip).Err? <==> exists i | 0 <= i < |cfglst| :: Dropped(cfglst[i], skip).Err?
  {
    if cfglst != [] {
      var n := |cfglst| - 1;
      DroppedAllFails(cfglst[..n], skip);
      assert forall i | 0 <= i < n :: cfglst[..n][i] == cfglst[i];
    }
  }

  /** The dropped candidate `m` equals the dropped target. */
  predicate Same(m: seq<Item>, target: seq<Item>)
  {
    DictEq(m, Dict(target)) == Ok(true)
  }

  lemma PicksSnoc(ms: seq<seq<Item>>, xs: seq<seq<Item>>, idx: seq<nat>, x: seq<Item>)
    requires Picks(ms, xs, idx)
    ensures Picks(ms + [x], xs + [x], idx + [|xs|])
    ensures Picks(ms, xs + [x], idx)
  {
  }

  /** `ms` picks, in order, exactly the elements of `xs` whose partner in
      `ys` is the same as `target`. */
  predicate Selection(ms: seq<seq<Item>>, xs: seq<seq<Item>>, ys: seq<seq<Item>>, target: seq<Item>, idx: seq<nat>)
    requires |ys| == |xs|
  {
    Picks(ms, xs, idx) && forall i | 0 <= i < |xs| :: (i in idx <==> Same(ys[i], target))
  }

  /** One more candidate: picked when its dropped form is the same. */
  lemma SelectionStep(init: seq<seq<Item>>, xs: seq<seq<Item>>, ys: seq<seq<Item>>, idx0: seq<nat>,
                      x: seq<Item>, y: seq<Item>, target: seq<Item>)
    requires |ys| == |xs| && Selection(init, xs, ys, target, idx0)
    ensures Same(y, target) ==> Selection(init + [x], xs + [x], ys + [y], target, idx0 + [|xs|])
    ensures !Same(y, target) ==> Selection(init, xs + [x], ys + [y], target, idx0)
  {
    assert |xs| !in idx0;
    PicksSnoc(init, xs, idx0, x);
    assert forall i | 0 <= i < |xs| :: (ys + [y])[i] == ys[i];
  }

  lemma {:induction false} SelectPicks(cfglst: seq<seq<Item>>, mods: seq<seq<Item>>, target: seq<Item>)
    requires |mods| == |cfglst| && Select(cfglst, mods, target).Ok?
    ensures |Select(cfglst, mods, target).value| <= |cfglst|
    ensures exists idx :: Selection(Select(cfglst, mods, target).value, cfglst, mods, target, idx)
  {
    var ms := Select(cfglst, mods, target).value;
    if cfglst == [] {
      assert Selection(ms, cfglst, mods, target, []);
    } else {
      var n: nat := |cfglst| - 1;
      var xs, ys := cfglst[..n], mods[..n];
      assert cfglst == xs + [cfglst[n]] && mods == ys + [mods[n]];
      var init := Select(xs, ys, target).value;
      SelectPicks(xs, ys, target);
      var idx0: seq<nat> :| Selection(init, xs, ys, target, idx0);
      SelectionStep(init, xs, ys, idx0, cfglst[n], mods[n], target);
      if Same(mods[n], target) {
        assert ms == init + [cfglst[n]];
        assert Selection(ms, cfglst, mods, target, idx0 + [n]);
      } else {
        assert ms == init;
        assert Selection(ms, cfglst, mods, target, idx0);
      }
    }
  }

  /** `check_configurations` returns, in their order, exactly the original
      candidates whose dropped form equals the dropped target, so no more
      than it was given. */
  lemma MatchingPicks(config: seq<Item>, cfglst: seq<seq<Item>>, skip: Option<Skip>)
    requires Matching(config, cfglst, skip).Ok?
    ensures var ms := Matching(config, cfglst, skip).value;
      && |ms| <= |cfglst|
      && Dropped(config, skip).Ok?
      && exists idx :: Picks(ms, cfglst, idx) &&
           forall i | 0 <= i < |cfglst| ::
             && Dropped(cfglst[i], skip).Ok?
             && (i in idx <==> Same(Dropped(cfglst[i], skip).value, Dropped(config, skip).value))
  {
    var mods := DroppedAll(cfglst, skip).value;
    var target := Dropped(config, skip).value;
    DroppedAllAt(cfglst, skip);
    SelectPicks(cfglst, mods, target);
    var idx :| Selection(Select(cfglst, mods, target).value, cfglst, mods, target, idx);
    assert Picks(Matching(config, cfglst, skip).value, cfglst, idx);
  }

  lemma {:induction false} SelectFails(cfglst: seq<seq<Item>>, mods: seq<seq<Item>>, target: seq<Item>)
    requires |mods| == |cfglst|
    ensures Select(cfglst, mods, target).Err? <==>
      exists i | 0 <= i < |cfglst| :: DictEq(mods[i], Dict(target)).Err?
  {
    if cfglst != [] {
      var n := |cfglst| - 1;
      SelectFails(cfglst[..n], mods[..n], target);
      assert forall i | 0 <= i < n :: mods[..n][i] == mods[i];
    }
  }

  /** `check_configurations` raises exactly when dropping the target or a
      candidate raises, or when comparing a dropped candidate with the
      dropped target raises. */
  lemma MatchingFails(config: seq<Item>, cfglst: seq<seq<Item>>, skip: Option<Skip>)
    ensures Matching(config, cfglst, skip).Err? <==>
      || Dropped(config, skip).Err?
      || (exists i | 0 <= i < |cfglst| :: Dropped(cfglst[i], skip).Err?)
      || (exists i | 0 <= i < |cfglst| ::
            DictEq(Dropped(cfglst[i], skip).value, Dict(Dropped(config, skip).value)).Err?)
  {
    DroppedAllFails(cfglst, skip);
    if DroppedAll(cfglst, skip).Ok? && Dropped(config, skip).Ok? {
      DroppedAllAt(cfglst, skip);
      SelectFails(cfglst, DroppedAll(cfglst, skip).value, Dropped(config, skip).value);
    }
  }

  /** Without a skip specification a comparable configuration matches
      itself, and nothing else is picked. */
  lemma {:induction false} MatchesItself(t: seq<Item>)
    requires ComparableDict(t)
    ensures Matching(t, [t], None) == Ok([t])
  {
    DropNoSpec(t);
    DictEqReflexive(t);
    var one := [t];
    assert one[..0] == [] && one[0] == t;
    assert DroppedAll(one[..0], None) == Ok([]);
    assert DroppedAll(one, None) == Ok([] + [t]);
    assert Select(one[..0], one[..0], t) == Ok([]);
    assert Select(one, one, t) == Ok([] + [t]);
    assert [] + [t] == one;
  }

  /** A configuration saved, read back and compared with the original gives
      exactly one match, when no `Config` is a positional argument. */
  lemma OwnRoundTripMatches(codec: Codec, resolve: Resolver, t: seq<Item>)
    requires RoundTripsDict(codec, resolve, t) && ComparableDict(t)
    requires forall i | 0 <= i < |t| :: NoPositionalConfig(t[i].val)
    ensures Written(TreeXml(codec, t, AsWritten)).Ok?
    ensures var read := FromFile(codec, resolve, Written(TreeXml(codec, t, AsWritten)).value);
      read.Ok? && Matching(t, [read.value], None) == Ok([read.value])
  {
    RoundTrip(codec, resolve, t);
    MatchesItself(t);
  }

  /** With the corrected writer the same holds for every configuration the
      codec and the resolver can carry. */
  lemma OwnRoundTripMatchesCorrected(codec: Codec, resolve: Resolver, t: seq<Item>)
    requires RoundTripsDict(codec, resolve, t) && ComparableDict(t)
    ensures SaveCorrected(codec, t).Ok?
    ensures var read := FromFile(codec, resolve, SaveCorrected(codec, t).value);
      read.Ok? && Matching(t, [read.value], None) == Ok([read.value])
  {
    RoundTripCorrected(codec, resolve, t);
    MatchesItself(t);
  }
}
