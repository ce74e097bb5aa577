/** `ConfDict.proc_conf` and `Config.__call__` of confmgr/core.py. The
    constructor a `Config` holds is called through `invoke`, a function
    of the model's caller: what it builds and whether it raises is outside
    the model. */
module Build {
  import opened Wrappers
  import opened Tree

  /** A value of a processed dictionary: a non-`Config` value as stored,
      or the object a constructor returned. */
  datatype Built<O> = Kept(e: Entry) | Made(obj: O)

  datatype BuiltItem<O> = BuiltItem(key: string, val: Built<O>)

  /** `const(*args, **kwargs)`, which may raise. */
  type Invoke<!O> = (Ctor, seq<Entry>, seq<BuiltItem<O>>) -> Result<O>

  /** `Config.__call__`: the keyword arguments are processed first, then
      the constructor is called with the stored positional arguments as
      they are (a `Config` among them is passed unbuilt). */
  function Call<O>(invoke: Invoke<O>, e: Entry): (r: Result<O>)
    requires e.Node?
    ensures r.Ok? ==> Processed(invoke, e.kwargs).Ok?
    ensures Processed(invoke, e.kwargs).Err? ==> r == Err(Processed(invoke, e.kwargs).error)
    decreases e, 1
  {
    var kw :- Processed(invoke, e.kwargs);
    invoke(e.ctor, e.args, kw)
  }

  /** What `proc_conf` returns for the dictionary `d`: its items in order,
      each `Config` replaced by what calling it returns; the first call
      that raises ends the processing. */
  function Processed<O>(invoke: Invoke<O>, d: seq<Item>): (r: Result<seq<BuiltItem<O>>>)
    ensures r.Ok? ==> |r.value| == |d| && forall i | 0 <= i < |d| :: r.value[i].key == d[i].key
    ensures r.Ok? ==> forall i | 0 <= i < |d| :: d[i].val.Scalar? || d[i].val.Dict? ==> r.value[i].val == Kept(d[i].val)
    decreases d, 0
  {
    if d == [] then Ok([])
    else
      var init :- Processed(invoke, d[..|d| - 1]);
      var it := d[|d| - 1];
      if it.val.Node? then
        var o :- Call(invoke, it.val);
        Ok(init + [BuiltItem(it.key, Made(o))])
      else Ok(init + [BuiltItem(it.key, Kept(it.val))])
  }

  /** `proc_conf`, filling a fresh dictionary in a loop. The keys of `d`
      are distinct, so each `cfg[k] = …` appends. */
  method ProcConf<O>(invoke: Invoke<O>, d: seq<Item>) returns (r: Result<seq<BuiltItem<O>>>)
    ensures r == Processed(invoke, d)
  {
    var cfg := [];
    var i := 0;
    while i < |d|
      invariant 0 <= i <= |d|
      invariant Processed(invoke, d[..i]) == Ok(cfg)
    {
      var k, v := d[i].key, d[i].val;
      assert d[..i + 1][..i] == d[..i];
      if v.Node? {
        var o := Call(invoke, v);
        if o.Err? {
          ProcessedPrefixFails(invoke, d, i + 1);
          return Err(o.error);
        }
        cfg := cfg + [BuiltItem(k, Made(o.value))];
      } else {
        cfg := cfg + [BuiltItem(k, Kept(v))];
      }
      i := i + 1;
    }
    assert d[..i] == d;
    return Ok(cfg);
  }

  lemma {:induction false} ProcessedPrefixFails<O>(invoke: Invoke<O>, d: seq<Item>, n: nat)
    requires n <= |d| && Processed(invoke, d[..n]).Err?
    ensures Processed(invoke, d) == Processed(invoke, d[..n])
    decreases |d| - n
  {
    if n < |d| {
      assert d[..n + 1][..n] == d[..n];
      ProcessedPrefixFails(invoke, d, n + 1);
    } else {
      assert d[..n] == d;
    }
  }

  /** When processing succeeds, the result has the same keys in the same
      order; each `Config` value is replaced by what calling it returned,
      and every other value is kept unchanged. */
  lemma {:induction false} ProcessedItems<O>(invoke: Invoke<O>, d: seq<Item>)
    requires Processed(invoke, d).Ok?
    ensures var r := Processed(invoke, d).value;
      && |r| == |d|
      && forall i | 0 <= i < |d| ::
           && r[i].key == d[i].key
           && (d[i].val.Node? ==> r[i].val.Made? && Call(invoke, d[i].val) == Ok(r[i].val.obj))
           && (!d[i].val.Node? ==> r[i].val == Kept(d[i].val))
  {
    if d != [] {
      var n := |d| - 1;
      ProcessedItems(invoke, d[..n]);
    }
  }

  /** Calling the value of `it`, a `Config`, raises. */
  predicate CallFails<O>(invoke: Invoke<O>, it: Item)
  {
    it.val.Node? && Call(invoke, it.val).Err?
  }

  /** Item `i` of `d` is the first whose call raises. */
  predicate FirstFailure<O>(invoke: Invoke<O>, d: seq<Item>, i: int)
  {
    0 <= i < |d| && CallFails(invoke, d[i]) && forall j | 0 <= j < i :: !CallFails(invoke, d[j])
  }

  /** Processing fails exactly when calling some `Config` value raises,
      and it fails with the exception of the first one. */
  lemma {:induction false} ProcessedFails<O>(invoke: Invoke<O>, d: seq<Item>)
    ensures Processed(invoke, d).Err? <==> exists i | 0 <= i < |d| :: CallFails(invoke, d[i])
    ensures Processed(invoke, d).Err? ==>
      exists i :: FirstFailure(invoke, d, i) && Processed(invoke, d).error == Call(invoke, d[i].val).error
  {
    if d != [] {
      var n := |d| - 1;
      var init := d[..n];
      assert forall i | 0 <= i < n :: init[i] == d[i];
      ProcessedFails(invoke, init);
      if Processed(invoke, init).Err? {
        var i :| FirstFailure(invoke, init, i) && Processed(invoke, init).error == Call(invoke, init[i].val).error;
        assert FirstFailure(invoke, d, i);
      } else if CallFails(invoke, d[n]) {
        assert FirstFailure(invoke, d, n);
      }
    }
  }

  /** A `Config` with a keyword argument that is a `Config` whose call
      raises is not constructed: processing its keyword arguments fails,
      and the call fails with the exception of the first keyword argument,
      at or before that one, whose call raises. */
  lemma CallNeedsKwargs<O>(invoke: Invoke<O>, c: Ctor, args: seq<Entry>, kw: seq<Item>, i: nat)
    requires i < |kw| && kw[i].val.Node? && Call(invoke, kw[i].val).Err?
    ensures Processed(invoke, kw).Err?
    ensures Call(invoke, Node(c, args, kw)) == Err(Processed(invoke, kw).error)
    ensures exists j | 0 <= j <= i ::
      FirstFailure(invoke, kw, j) && Call(invoke, Node(c, args, kw)).error == Call(invoke, kw[j].val).error
  {
    assert CallFails(invoke, kw[i]);
    ProcessedFails(invoke, kw);
    var j :| FirstFailure(invoke, kw, j) && Processed(invoke, kw).error == Call(invoke, kw[j].val).error;
    assert j <= i;
  }

  /** Once its keyword arguments are built, a `Config` calls its
      constructor with its positional arguments exactly as stored: a
      `Config` among them is passed unbuilt. */
  lemma CallPassesArgs<O>(invoke: Invoke<O>, c: Ctor, args: seq<Entry>, kw: seq<Item>, built: seq<BuiltItem<O>>)
    requires Processed(invoke, kw) == Ok(built)
    ensures Call(invoke, Node(c, args, kw)) == invoke(c, args, built)
  {
  }
}
