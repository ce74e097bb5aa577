/** `ConfMgr._create_xml_node`, `_from_xml_node`, `save` and `from_file` of
    confmgr/core.py, over an in-memory element tree. Reading and writing
    the file is outside the model; what `ElementTree.write` refuses to
    serialise is modelled by `Written`. */
module Xml {
  import opened Wrappers
  import opened Tree

  /** The `name` attribute of an element: absent, a string, or the Python
      value None, which `SubElement(root, tag, name = None)` stores. */
  datatype NameAttr = Unnamed | Named(s: string) | NamedNone

  /** An XML element; `text` is "" when the element has no text. */
  datatype Element = Element(tag: string, name: NameAttr, children: seq<Element>, text: string)

  /** The literal codec: `str` of a literal, `eval` of a text (None when it
      raises), and `str` of a nested `ConfMgr`. */
  datatype Codec = Codec(show: Value -> string, eval: string -> Option<Value>, showDict: seq<Item> -> string)

  /** The import system: `importlib.import_module(mod)` succeeds exactly
      for the modules in `modules`, and `getattr` of such a module gives
      `attr(mod, name)`, None when the module has no such attribute. */
  datatype Resolver = Resolver(modules: string -> bool, attr: (string, string) -> Option<Ctor>)

  /** `_create_xml_node` as the source writes it, or with the `Config`
      branch corrected to omit a None name as the literal branch does. */
  datatype Variant = AsWritten | Corrected

  // ---------------------------------------------------------------------
  // Writing

  function ConfigName(variant: Variant, name: Option<string>): NameAttr
  {
    match name
    case Some(s) => Named(s)
    case None => if variant == AsWritten then NamedNone else Unnamed
  }

  function LiteralName(name: Option<string>): NameAttr
  {
    match name
    case Some(s) => Named(s)
    case None => Unnamed
  }

  /** `str(value)` for a value that is not a `Config`. */
  function LeafText(codec: Codec, e: Entry): string
  {
    match e
    case Scalar(v) => codec.show(v)
    case Dict(d) => codec.showDict(d)
    case Node(_, _, _) => ""
  }

  /** The element `_create_xml_node(root, e, name)` appends to `root`. */
  function NodeXml(codec: Codec, e: Entry, name: Option<string>, variant: Variant): Element
    decreases e, 1
  {
    match e
    case Node(c, args, kw) =>
      Element(ClassPath(c), ConfigName(variant, name),
              [Element("args", Unnamed, ArgsXml(codec, args, variant), ""),
               Element("kwargs", Unnamed, KwargsXml(codec, kw, variant), "")], "")
    case _ => Element(TypePath(e), LiteralName(name), [], LeafText(codec, e))
  }

  /** One unnamed child per positional argument, in order. */
  function ArgsXml(codec: Codec, args: seq<Entry>, variant: Variant): (r: seq<Element>)
    ensures |r| == |args|
    decreases args, 0
  {
    if args == [] then []
    else ArgsXml(codec, args[..|args| - 1], variant) + [NodeXml(codec, args[|args| - 1], None, variant)]
  }

  /** One child named by its key per keyword argument, in order. */
  function KwargsXml(codec: Codec, kw: seq<Item>, variant: Variant): (r: seq<Element>)
    ensures |r| == |kw|
    decreases kw, 0
  {
    if kw == [] then []
    else KwargsXml(codec, kw[..|kw| - 1], variant) + [NodeXml(codec, kw[|kw| - 1].val, Some(kw[|kw| - 1].key), variant)]
  }

  /** `_class_path(ConfMgr)`, the tag of the root. */
  const RootTag := ClassPath(Ctor(CoreModule, "ConfMgr"))

  /** The root element `save` builds. */
  function TreeXml(codec: Codec, t: seq<Item>, variant: Variant): Element
  {
    Element(RootTag, Unnamed, KwargsXml(codec, t, variant), "")
  }

  /** The element tree can be written: no attribute holds None. */
  predicate Writable(el: Element)
    decreases el
  {
    el.name != NamedNone && forall i | 0 <= i < |el.children| :: Writable(el.children[i])
  }

  /** `tree.write`: fails with TypeError ("cannot serialize None") on a
      None attribute; otherwise the file holds the element tree. */
  function Written(root: Element): (r: Result<Element>)
    ensures r.Ok? <==> Writable(root)
    ensures r.Ok? ==> r.value == root
  {
    if Writable(root) then Ok(root) else Err(TypeError)
  }

  /** `_create_xml_node`, with its three loops. */
  method CreateXmlNode(codec: Codec, e: Entry, name: Option<string>) returns (el: Element)
    ensures el == NodeXml(codec, e, name, AsWritten)
    decreases e
  {
    if e.Node? {
      var args := [];
      var i := 0;
      while i < |e.args|
        invariant 0 <= i <= |e.args|
        invariant args == ArgsXml(codec, e.args[..i], AsWritten)
      {
        var child := CreateXmlNode(codec, e.args[i], None);
        assert e.args[..i + 1][..i] == e.args[..i];
        args := args + [child];
        i := i + 1;
      }
      assert e.args[..i] == e.args;
      var kwargs := KwargsLoop(codec, e.kwargs);
      el := Element(ClassPath(e.ctor), NamedNone, [], "");
      if name.Some? {
        el := el.(name := Named(name.value));
      }
      el := el.(children := [Element("args", Unnamed, args, ""), Element("kwargs", Unnamed, kwargs, "")]);
    } else {
      if name.None? {
        el := Element(TypePath(e), Unnamed, [], "");
      } else {
        el := Element(TypePath(e), Named(name.value), [], "");
      }
      el := el.(text := LeafText(codec, e));
    }
  }

  /** The loop appending one named child per item, shared by the
      keyword-argument loop of `_create_xml_node` and the loop of `save`. */
  method KwargsLoop(codec: Codec, kw: seq<Item>) returns (kids: seq<Element>)
    ensures kids == KwargsXml(codec, kw, AsWritten)
    decreases kw
  {
    kids := [];
    var i := 0;
    while i < |kw|
      invariant 0 <= i <= |kw|
      invariant kids == KwargsXml(codec, kw[..i], AsWritten)
    {
      var child := CreateXmlNode(codec, kw[i].val, Some(kw[i].key));
      assert kw[..i + 1][..i] == kw[..i];
      kids := kids + [child];
      i := i + 1;
    }
    assert kw[..i] == kw;
  }

  /** `save` without the file: the root, then `tree.write`. */
  method Save(codec: Codec, t: seq<Item>) returns (r: Result<Element>)
    ensures r == Written(TreeXml(codec, t, AsWritten))
  {
    var kids := KwargsLoop(codec, t);
    var root := Element(RootTag, Unnamed, kids, "");
    if Writable(root) {
      r := Ok(root);
    } else {
      r := Err(TypeError);
    }
  }

  // ---------------------------------------------------------------------
  // Reading

  /** `s.rfind('.')`. */
  function LastDot(s: string): (p: int)
    ensures -1 <= p < |s|
    ensures p >= 0 ==> s[p] == '.' && forall i | p < i < |s| :: s[i] != '.'
    ensures p == -1 ==> forall i | 0 <= i < |s| :: s[i] != '.'
  {
    if s == [] then -1
    else if s[|s| - 1] == '.' then |s| - 1
    else LastDot(s[..|s| - 1])
  }

  /** The names defined at the top level of confmgr/core.py, which
      `globals()[path]` finds. */
  const Globals: map<string, Ctor> := map[
    "ConfObj" := Ctor(CoreModule, "ConfObj"),
    "ConfDict" := Ctor(CoreModule, "ConfDict"),
    "ConfMgr" := Ctor(CoreModule, "ConfMgr"),
    "Config" := Ctor(CoreModule, "Config"),
    "config_builder" := Ctor(CoreModule, "config_builder"),
    "_class_path" := Ctor(CoreModule, "_class_path")]

  /** The constructor a tag names: split at the last dot when it is past the
      first character and imported (ImportError when the module is missing,
      AttributeError when it lacks the class), otherwise looked up among the
      module's globals (KeyError when absent). */
  function ResolveTag(resolve: Resolver, tag: string): (r: Result<Ctor>)
    ensures r.Err? ==> r.error == ImportError || r.error == AttributeError || r.error == KeyError
    ensures r == Err(KeyError) <==> LastDot(tag) <= 0 && tag !in Globals
    ensures r == Err(ImportError) <==> LastDot(tag) > 0 && !resolve.modules(tag[..LastDot(tag)])
  {
    var p := LastDot(tag);
    if p > 0 then
      if !resolve.modules(tag[..p]) then Err(ImportError)
      else match resolve.attr(tag[..p], tag[p + 1..])
        case Some(c) => Ok(c)
        case None => Err(AttributeError)
    else if tag in Globals then Ok(Globals[tag])
    else Err(KeyError)
  }

  /** A leaf's text, decoded: an element without text reads back as None,
      and a text `eval` cannot parse is kept as the raw string. */
  function LeafValue(codec: Codec, text: string): Value
  {
    if text == "" then NoneV
    else match codec.eval(text)
      case Some(v) => v
      case None => StrV(text)
  }

  /** `c.get('name')`. */
  function NameOf(el: Element): Option<string>
  {
    match el.name
    case Named(s) => Some(s)
    case _ => None
  }

  /** A keyword child as read: its name attribute, if any, and its entry. */
  datatype Pair = Pair(name: Option<string>, val: Entry)

  /** `_from_xml_node`. A leaf never fails, an element with two children
      reads as a `Config` whose keyword arguments have unique keys that
      `Config.__init__` can take, and any other count of children raises
      ValueError. */
  function Parse(codec: Codec, resolve: Resolver, el: Element): (r: Result<Entry>)
    ensures el.children == [] ==> r.Ok? && r.value.Scalar?
    ensures el.children == [] && el.text == "" ==> r == Ok(Scalar(NoneV))
    ensures el.children == [] && el.text != "" && codec.eval(el.text).Some? ==> r == Ok(Scalar(codec.eval(el.text).value))
    ensures el.children == [] && el.text != "" && codec.eval(el.text).None? ==> r == Ok(Scalar(StrV(el.text)))
    ensures |el.children| != 0 && |el.children| != 2 ==> r == Err(ValueError)
    ensures r.Ok? && el.children != [] ==>
      && r.value.Node? && ResolveTag(resolve, el.tag) == Ok(r.value.ctor)
      && |r.value.args| == |el.children[0].children|
      && UniqueKeys(r.value.kwargs) && "const" !in Keys(r.value.kwargs) && "self" !in Keys(r.value.kwargs)
    decreases el, 1
  {
    if el.children == [] then Ok(Scalar(LeafValue(codec, el.text)))
    else if |el.children| != 2 then Err(ValueError)  // arels, kwels = children
    else
      var args :- ParseArgs(codec, resolve, el.children[0].children);
      var kw :- ParsePairs(codec, resolve, el.children[1].children);
      var c :- ResolveTag(resolve, el.tag);
      if !AllNamed(kw) then Err(TypeError)  // Config(const, *a, **d) with a None key
      else
        var d := FromPairs(ToItems(kw));
        // `Config.__init__(self, const, ...)` given `self` or `const` twice
        if "const" in Keys(d) || "self" in Keys(d) then Err(TypeError)
        else Ok(Node(c, args, d))
  }

  function ParseArgs(codec: Codec, resolve: Resolver, cs: seq<Element>): (r: Result<seq<Entry>>)
    ensures r.Ok? ==> |r.value| == |cs|
    decreases cs, 0
  {
    if cs == [] then Ok([])
    else
      var h :- Parse(codec, resolve, cs[0]);
      var t :- ParseArgs(codec, resolve, cs[1..]);
      Ok([h] + t)
  }

  function ParsePairs(codec: Codec, resolve: Resolver, cs: seq<Element>): (r: Result<seq<Pair>>)
    ensures r.Ok? ==> |r.value| == |cs| && forall i | 0 <= i < |cs| :: r.value[i].name == NameOf(cs[i])
    decreases cs, 0
  {
    if cs == [] then Ok([])
    else
      var h :- Parse(codec, resolve, cs[0]);
      var t :- ParsePairs(codec, resolve, cs[1..]);
      Ok([Pair(NameOf(cs[0]), h)] + t)
  }

  predicate AllNamed(ps: seq<Pair>)
  {
    forall i | 0 <= i < |ps| :: ps[i].name.Some?
  }

  function ToItems(ps: seq<Pair>): (r: seq<Item>)
    requires AllNamed(ps)
    ensures |r| == |ps|
    ensures forall i | 0 <= i < |ps| :: r[i] == Item(ps[i].name.value, ps[i].val)
  {
    if ps == [] then [] else [Item(ps[0].name.value, ps[0].val)] + ToItems(ps[1..])
  }

  /** `from_file` after `et.parse`: the root's children, keyed by their
      name attribute. A child without one is refused (the source would
      store it under the key None). */
  function FromFile(codec: Codec, resolve: Resolver, root: Element): (r: Result<seq<Item>>)
    ensures r.Ok? ==> UniqueKeys(r.value) && |r.value| <= |root.children|
    ensures r.Ok? ==> forall i | 0 <= i < |root.children| :: root.children[i].name.Named?
    ensures r.Ok? ==> Keys(r.value) == set c | c in root.children && c.name.Named? :: c.name.s
  {
    var ps :- ParsePairs(codec, resolve, root.children);
    if !AllNamed(ps) then Err(KeyError)
    else
      var items := ToItems(ps);
      FromPairsLength(items);
      NamedKeys(root.children, ps);
      Ok(FromPairs(items))
  }

  /** The keys of the items read from named children are their names. */
  lemma {:induction false} NamedKeys(cs: seq<Element>, ps: seq<Pair>)
    requires AllNamed(ps) && |ps| == |cs|
    requires forall i | 0 <= i < |cs| :: ps[i].name == NameOf(cs[i])
    ensures forall i | 0 <= i < |cs| :: cs[i].name.Named?
    ensures Keys(ToItems(ps)) == set c | c in cs && c.name.Named? :: c.name.s
  {
    var items := ToItems(ps);
    forall i | 0 <= i < |cs| ensures cs[i].name.Named? {
      assert ps[i].name.Some?;
    }
    forall c | c in cs && c.name.Named? ensures c.name.s in Keys(items) {
      var i :| 0 <= i < |cs| && cs[i] == c;
      assert items[i] in items;
    }
    forall k | k in Keys(items) ensures k in set c | c in cs && c.name.Named? :: c.name.s {
      var it :| it in items && it.key == k;
      var i :| 0 <= i < |items| && items[i] == it;
      assert cs[i] in cs;
    }
  }

  // ---------------------------------------------------------------------
  // Properties of the format

  /** A saved `Config` is an element tagged with its class path, carrying
      its name, with exactly two children: `args`, holding the positional
      arguments in order and unnamed, then `kwargs`, holding the keyword
      arguments in order, each named by its key; a literal is a leaf tagged
      with the class path of its type, whose text is `str(value)`. */
  lemma NodeXmlShape(codec: Codec, e: Entry, name: Option<string>, variant: Variant)
    ensures var el := NodeXml(codec, e, name, variant);
      && (e.Node? ==>
          && el.tag == ClassPath(e.ctor) && NameOf(el) == name
          && |el.children| == 2
          && el.children[0].tag == "args" && el.children[1].tag == "kwargs"
          && |el.children[0].children| == |e.args|
          && |el.children[1].children| == |e.kwargs|
          && (forall i | 0 <= i < |e.args| ::
               el.children[0].children[i] == NodeXml(codec, e.args[i], None, variant))
          && forall i | 0 <= i < |e.kwargs| ::
               el.children[1].children[i] == NodeXml(codec, e.kwargs[i].val, Some(e.kwargs[i].key), variant))
      && (!e.Node? ==>
          el.tag == TypePath(e) && el.children == [] && NameOf(el) == name && el.text == LeafText(codec, e))
  {
    if e.Node? {
      ArgsXmlAt(codec, e.args, variant);
      KwargsXmlAt(codec, e.kwargs, variant);
    }
  }

  /** The root `save` builds is tagged with the class path of `ConfMgr` and
      holds one child per item, in order, named by its key. */
  lemma TreeXmlShape(codec: Codec, t: seq<Item>, variant: Variant)
    ensures var root := TreeXml(codec, t, variant);
      && root.tag == "confmgr.core.ConfMgr" && root.name == Unnamed && |root.children| == |t|
      && forall i | 0 <= i < |t| :: root.children[i] == NodeXml(codec, t[i].val, Some(t[i].key), variant)
  {
    KwargsXmlAt(codec, t, variant);
  }

  lemma {:induction false} KwargsXmlAt(codec: Codec, kw: seq<Item>, variant: Variant)
    ensures forall i | 0 <= i < |kw| :: KwargsXml(codec, kw, variant)[i] == NodeXml(codec, kw[i].val, Some(kw[i].key), variant)
  {
    if kw != [] {
      KwargsXmlAt(codec, kw[..|kw| - 1], variant);
    }
  }

  lemma {:induction false} LastDotSuffix(m: string, n: string)
    requires forall i | 0 <= i < |n| :: n[i] != '.'
    ensures LastDot(m + "." + n) == |m|
    decreases |n|
  {
    if n != [] {
      var s := m + "." + n;
      assert s[..|s| - 1] == m + "." + n[..|n| - 1];
      LastDotSuffix(m, n[..|n| - 1]);
    } else {
      assert (m + "." + n)[|m|] == '.';
    }
  }

  /** Splitting a class path at its last dot gives back the module and the
      class, when the module is not empty and the class name has no dot. */
  lemma SplitClassPath(c: Ctor)
    requires c.mod != "" && forall i | 0 <= i < |c.name| :: c.name[i] != '.'
    ensures var p := LastDot(ClassPath(c));
      p > 0 && ClassPath(c)[..p] == c.mod && ClassPath(c)[p + 1..] == c.name
  {
    LastDotSuffix(c.mod, c.name);
  }

  /** A tag without a dot past its first character is looked up among the
      module's globals. */
  lemma UndottedTag(resolve: Resolver, tag: string)
    requires forall i | 0 < i < |tag| :: tag[i] != '.'
    ensures ResolveTag(resolve, tag) == if tag in Globals then Ok(Globals[tag]) else Err(KeyError)
  {
  }

  /** A class path whose module imports but has no such class raises
      AttributeError, and one whose module does not import raises
      ImportError. */
  lemma ResolveClassPath(resolve: Resolver, c: Ctor)
    requires c.mod != "" && forall i | 0 <= i < |c.name| :: c.name[i] != '.'
    ensures !resolve.modules(c.mod) ==> ResolveTag(resolve, ClassPath(c)) == Err(ImportError)
    ensures resolve.modules(c.mod) && resolve.attr(c.mod, c.name).None? ==>
      ResolveTag(resolve, ClassPath(c)) == Err(AttributeError)
    ensures resolve.modules(c.mod) && resolve.attr(c.mod, c.name).Some? ==>
      ResolveTag(resolve, ClassPath(c)) == Ok(resolve.attr(c.mod, c.name).value)
  {
    SplitClassPath(c);
  }

  // ---------------------------------------------------------------------
  // Round trip

  /** The literal reads back as itself. Not every literal does: `str('1')`
      reads back as the int 1, and `str('')` as None. */
  predicate Decodes(codec: Codec, v: Value)
  {
    LeafValue(codec, codec.show(v)) == v
  }

  /** The class can be found again from its class path. */
  predicate Resolvable(resolve: Resolver, c: Ctor)
  {
    && c.mod != "" && (forall i | 0 <= i < |c.name| :: c.name[i] != '.')
    && resolve.modules(c.mod) && resolve.attr(c.mod, c.name) == Some(c)
  }

  /** Every literal decodes, every class resolves, every dictionary has
      unique keys, and no nested `ConfMgr` is stored (it is written through
      `str`). */
  predicate RoundTrips(codec: Codec, resolve: Resolver, e: Entry)
  {
    match e
    case Scalar(v) => Decodes(codec, v)
    case Node(c, args, kw) =>
      && Resolvable(resolve, c) && (forall i | 0 <= i < |args| :: RoundTrips(codec, resolve, args[i]))
      && RoundTripsDict(codec, resolve, kw) && "const" !in Keys(kw) && "self" !in Keys(kw)
    case Dict(_) => false
  }

  predicate RoundTripsDict(codec: Codec, resolve: Resolver, d: seq<Item>)
  {
    UniqueKeys(d) && forall i | 0 <= i < |d| :: RoundTrips(codec, resolve, d[i].val)
  }

  function AsPairs(kw: seq<Item>): (r: seq<Pair>)
    ensures AllNamed(r) && ToItems(r) == kw
  {
    if kw == [] then [] else [Pair(Some(kw[0].key), kw[0].val)] + AsPairs(kw[1..])
  }

  lemma {:induction false} ParseNodeXml(codec: Codec, resolve: Resolver, e: Entry, name: Option<string>, variant: Variant)
    requires RoundTrips(codec, resolve, e)
    ensures Parse(codec, resolve, NodeXml(codec, e, name, variant)) == Ok(e)
    decreases e, 1
  {
    match e
    case Scalar(_) =>
    case Node(c, args, kw) =>
      ParseArgsXml(codec, resolve, args, variant);
      ParseKwargsXml(codec, resolve, kw, variant);
      SplitClassPath(c);
      FromPairsUnique(kw);
      ParseConfigXml(codec, resolve, c, args, kw, name, variant);
  }

  lemma ParseConfigXml(codec: Codec, resolve: Resolver, c: Ctor, args: seq<Entry>, kw: seq<Item>,
                       name: Option<string>, variant: Variant)
    requires ParseArgs(codec, resolve, ArgsXml(codec, args, variant)) == Ok(args)
    requires ParsePairs(codec, resolve, KwargsXml(codec, kw, variant)) == Ok(AsPairs(kw))
    requires ResolveTag(resolve, ClassPath(c)) == Ok(c)
    requires FromPairs(kw) == kw && "const" !in Keys(kw) && "self" !in Keys(kw)
    ensures Parse(codec, resolve, NodeXml(codec, Node(c, args, kw), name, variant)) == Ok(Node(c, args, kw))
  {
    var el := NodeXml(codec, Node(c, args, kw), name, variant);
    assert el.children[0].children == ArgsXml(codec, args, variant);
    assert el.children[1].children == KwargsXml(codec, kw, variant);
  }

  lemma {:induction false} ParseArgsXml(codec: Codec, resolve: Resolver, args: seq<Entry>, variant: Variant)
    requires forall i | 0 <= i < |args| :: RoundTrips(codec, resolve, args[i])
    ensures ParseArgs(codec, resolve, ArgsXml(codec, args, variant)) == Ok(args)
    decreases args, 0
  {
    if args != [] {
      var n := |args| - 1;
      var init := args[..n];
      assert init + [args[n]] == args;
      assert forall i | 0 <= i < n :: init[i] == args[i];
      ParseArgsXml(codec, resolve, init, variant);
      ParseNodeXml(codec, resolve, args[n], None, variant);
      var last := NodeXml(codec, args[n], None, variant);
      var xs := ArgsXml(codec, init, variant);
      assert ArgsXml(codec, args, variant) == xs + [last];
      ParseArgsAppend(codec, resolve, xs, last);
    }
  }

  lemma {:induction false} ParseKwargsXml(codec: Codec, resolve: Resolver, kw: seq<Item>, variant: Variant)
    requires forall i | 0 <= i < |kw| :: RoundTrips(codec, resolve, kw[i].val)
    ensures ParsePairs(codec, resolve, KwargsXml(codec, kw, variant)) == Ok(AsPairs(kw))
    decreases kw, 0
  {
    if kw != [] {
      var n := |kw| - 1;
      var init := kw[..n];
      assert init + [kw[n]] == kw;
      assert forall i | 0 <= i < n :: init[i] == kw[i];
      ParseKwargsXml(codec, resolve, init, variant);
      ParseNodeXml(codec, resolve, kw[n].val, Some(kw[n].key), variant);
      ParseKwargsStep(codec, resolve, init, kw[n], variant);
    }
  }

  lemma ParseKwargsStep(codec: Codec, resolve: Resolver, init: seq<Item>, it: Item, variant: Variant)
    requires ParsePairs(codec, resolve, KwargsXml(codec, init, variant)) == Ok(AsPairs(init))
    requires Parse(codec, resolve, NodeXml(codec, it.val, Some(it.key), variant)) == Ok(it.val)
    ensures ParsePairs(codec, resolve, KwargsXml(codec, init + [it], variant)) == Ok(AsPairs(init + [it]))
  {
    var last := NodeXml(codec, it.val, Some(it.key), variant);
    var xs := KwargsXml(codec, init, variant);
    KwargsXmlSnoc(codec, init, it, variant);
    NodeXmlName(codec, it.val, it.key, variant);
    ParsePairsAppend(codec, resolve, xs, last);
    AsPairsAppend(init, it);
  }

  lemma KwargsXmlSnoc(codec: Codec, init: seq<Item>, it: Item, variant: Variant)
    ensures KwargsXml(codec, init + [it], variant) == KwargsXml(codec, init, variant) + [NodeXml(codec, it.val, Some(it.key), variant)]
  {
    assert (init + [it])[..|init|] == init;
  }

  lemma NodeXmlName(codec: Codec, e: Entry, key: string, variant: Variant)
    ensures NameOf(NodeXml(codec, e, Some(key), variant)) == Some(key)
  {
  }

  lemma {:induction false} ParseArgsAppend(codec: Codec, resolve: Resolver, cs: seq<Element>, c: Element)
    requires ParseArgs(codec, resolve, cs).Ok? && Parse(codec, resolve, c).Ok?
    ensures ParseArgs(codec, resolve, cs + [c]) == Ok(ParseArgs(codec, resolve, cs).value + [Parse(codec, resolve, c).value])
  {
    if cs != [] {
      assert (cs + [c])[0] == cs[0] && (cs + [c])[1..] == cs[1..] + [c];
      ParseArgsAppend(codec, resolve, cs[1..], c);
      var h0, rest, h := Parse(codec, resolve, cs[0]).value, ParseArgs(codec, resolve, cs[1..]).value, Parse(codec, resolve, c).value;
      assert ParseArgs(codec, resolve, cs) == Ok([h0] + rest);
      assert ParseArgs(codec, resolve, cs + [c]) == Ok([h0] + (rest + [h]));
      assert [h0] + (rest + [h]) == ([h0] + rest) + [h];
    } else {
      assert cs + [c] == [c] && [c][1..] == [];
      var h := Parse(codec, resolve, c).value;
      assert ParseArgs(codec, resolve, [c][1..]) == Ok([]);
      assert ParseArgs(codec, resolve, [c]) == Ok([h] + []);
      assert [h] + [] == [] + [h];
    }
  }

  lemma {:induction false} ParsePairsAppend(codec: Codec, resolve: Resolver, cs: seq<Element>, c: Element)
    requires ParsePairs(codec, resolve, cs).Ok? && Parse(codec, resolve, c).Ok?
    ensures ParsePairs(codec, resolve, cs + [c]) ==
      Ok(ParsePairs(codec, resolve, cs).value + [Pair(NameOf(c), Parse(codec, resolve, c).value)])
  {
    if cs != [] {
      assert (cs + [c])[0] == cs[0] && (cs + [c])[1..] == cs[1..] + [c];
      ParsePairsAppend(codec, resolve, cs[1..], c);
      var h0 := Pair(NameOf(cs[0]), Parse(codec, resolve, cs[0]).value);
      var rest := ParsePairs(codec, resolve, cs[1..]).value;
      var h := Pair(NameOf(c), Parse(codec, resolve, c).value);
      assert ParsePairs(codec, resolve, cs) == Ok([h0] + rest);
      assert ParsePairs(codec, resolve, cs + [c]) == Ok([h0] + (rest + [h]));
      assert [h0] + (rest + [h]) == ([h0] + rest) + [h];
    } else {
      assert cs + [c] == [c] && [c][1..] == [];
      var h := Pair(NameOf(c), Parse(codec, resolve, c).value);
      assert ParsePairs(codec, resolve, [c][1..]) == Ok([]);
      assert ParsePairs(codec, resolve, [c]) == Ok([h] + []);
      assert [h] + [] == [] + [h];
    }
  }

  lemma {:induction false} AsPairsAppend(kw: seq<Item>, it: Item)
    ensures AsPairs(kw + [it]) == AsPairs(kw) + [Pair(Some(it.key), it.val)]
  {
    if kw != [] {
      assert (kw + [it])[1..] == kw[1..] + [it];
      AsPairsAppend(kw[1..], it);
    }
  }

  /** Reading what `save` built gives back the very tree that was saved,
      for either variant of the writer. */
  lemma RoundTripTree(codec: Codec, resolve: Resolver, t: seq<Item>, variant: Variant)
    requires RoundTripsDict(codec, resolve, t)
    ensures FromFile(codec, resolve, TreeXml(codec, t, variant)) == Ok(t)
  {
    ParseKwargsXml(codec, resolve, t, variant);
    FromPairsUnique(t);
  }

  // ---------------------------------------------------------------------
  // A `Config` passed as a positional argument cannot be saved

  /** No `Config` is a positional argument of a `Config`, at any depth. */
  predicate NoPositionalConfig(e: Entry)
  {
    match e
    case Node(_, args, kw) =>
      (forall i | 0 <= i < |args| :: !args[i].Node?) && forall i | 0 <= i < |kw| :: NoPositionalConfig(kw[i].val)
    case _ => true
  }

  lemma {:induction false} ArgsXmlAt(codec: Codec, args: seq<Entry>, variant: Variant)
    ensures forall i | 0 <= i < |args| :: ArgsXml(codec, args, variant)[i] == NodeXml(codec, args[i], None, variant)
  {
    if args != [] {
      ArgsXmlAt(codec, args[..|args| - 1], variant);
    }
  }

  /** The element tree of an entry can be written iff the writer is the
      corrected one, or no `Config` in it lacks a name: the entry itself,
      when it is a `Config`, has one, and none of its positional arguments
      is a `Config`, at any depth. */
  lemma {:induction false} WritableNode(codec: Codec, e: Entry, name: Option<string>, variant: Variant)
    ensures Writable(NodeXml(codec, e, name, variant)) <==>
      variant == Corrected || ((e.Node? ==> name.Some?) && NoPositionalConfig(e))
    decreases e
  {
    match e
    case Scalar(_) =>
    case Dict(_) =>
    case Node(c, args, kw) =>
      ArgsXmlAt(codec, args, variant);
      KwargsXmlAt(codec, kw, variant);
      forall i | 0 <= i < |args| { WritableNode(codec, args[i], None, variant); }
      forall i | 0 <= i < |kw| { WritableNode(codec, kw[i].val, Some(kw[i].key), variant); }
      var el := NodeXml(codec, e, name, variant);
      assert Writable(el) <==>
        el.name != NamedNone && Writable(el.children[0]) && Writable(el.children[1]);
  }

  /** On trees without a positional `Config`, the two writers agree. */
  lemma {:induction false} VariantsAgree(codec: Codec, e: Entry, name: Option<string>)
    requires (e.Node? ==> name.Some?) && NoPositionalConfig(e)
    ensures NodeXml(codec, e, name, AsWritten) == NodeXml(codec, e, name, Corrected)
    decreases e, 1
  {
    match e
    case Scalar(_) =>
    case Dict(_) =>
    case Node(c, args, kw) =>
      ArgsAgree(codec, args);
      KwargsAgree(codec, kw);
  }

  lemma {:induction false} ArgsAgree(codec: Codec, args: seq<Entry>)
    requires forall i | 0 <= i < |args| :: !args[i].Node?
    ensures ArgsXml(codec, args, AsWritten) == ArgsXml(codec, args, Corrected)
    decreases args
  {
    if args != [] {
      ArgsAgree(codec, args[..|args| - 1]);
    }
  }

  lemma {:induction false} KwargsAgree(codec: Codec, kw: seq<Item>)
    requires forall i | 0 <= i < |kw| :: NoPositionalConfig(kw[i].val)
    ensures KwargsXml(codec, kw, AsWritten) == KwargsXml(codec, kw, Corrected)
    decreases kw, 0
  {
    if kw != [] {
      var n := |kw| - 1;
      KwargsAgree(codec, kw[..n]);
      VariantsAgree(codec, kw[n].val, Some(kw[n].key));
    }
  }

  /** `save` as written fails exactly when some `Config` of the tree has a
      `Config` among its positional arguments, at any depth. */
  lemma SaveFails(codec: Codec, t: seq<Item>)
    ensures Written(TreeXml(codec, t, AsWritten)).Err? <==>
      exists i | 0 <= i < |t| :: !NoPositionalConfig(t[i].val)
  {
    KwargsXmlAt(codec, t, AsWritten);
    forall i | 0 <= i < |t| { WritableNode(codec, t[i].val, Some(t[i].key), AsWritten); }
    var root := TreeXml(codec, t, AsWritten);
    assert Writable(root) <==> forall i | 0 <= i < |root.children| :: Writable(root.children[i]);
  }

  /** The smallest such tree: `{'outer': Config(c, Config(d))}`. */
  lemma PositionalConfigNotSaved(codec: Codec, c: Ctor, d: Ctor)
    ensures Written(TreeXml(codec, [Item("outer", Node(c, [Node(d, [], [])], []))], AsWritten)).Err?
  {
    var t := [Item("outer", Node(c, [Node(d, [], [])], []))];
    SaveFails(codec, t);
    assert t[0].val.args[0].Node?;
    assert !NoPositionalConfig(t[0].val);
  }

  /** `save` with the `Config` branch corrected: it always succeeds. */
  function SaveCorrected(codec: Codec, t: seq<Item>): (r: Result<Element>)
    ensures r == Ok(TreeXml(codec, t, Corrected))
  {
    KwargsXmlAt(codec, t, Corrected);
    forall i | 0 <= i < |t| ensures Writable(TreeXml(codec, t, Corrected).children[i]) {
      WritableNode(codec, t[i].val, Some(t[i].key), Corrected);
    }
    Written(TreeXml(codec, t, Corrected))
  }

  /** Saving with the corrected writer and reading the file back gives the
      tree that was saved, nested positional `Config`s included. */
  lemma RoundTripCorrected(codec: Codec, resolve: Resolver, t: seq<Item>)
    requires RoundTripsDict(codec, resolve, t)
    ensures SaveCorrected(codec, t).Ok?
    ensures FromFile(codec, resolve, SaveCorrected(codec, t).value) == Ok(t)
  {
    RoundTripTree(codec, resolve, t, Corrected);
  }

  /** Saving as written and reading the file back gives the tree that was
      saved, when no `Config` is a positional argument: then the writer as
      written builds the same element tree as the corrected one. */
  lemma RoundTrip(codec: Codec, resolve: Resolver, t: seq<Item>)
    requires RoundTripsDict(codec, resolve, t)
    requires forall i | 0 <= i < |t| :: NoPositionalConfig(t[i].val)
    ensures Written(TreeXml(codec, t, AsWritten)).Ok?
    ensures FromFile(codec, resolve, Written(TreeXml(codec, t, AsWritten)).value) == Ok(t)
  {
    SaveFails(codec, t);
    KwargsAgree(codec, t);
    assert TreeXml(codec, t, AsWritten) == TreeXml(codec, t, Corrected);
    RoundTripCorrected(codec, resolve, t);
  }

  /** A `Config` built with no arguments at all is saved with two empty
      children, and so reads back as a `Config`, not as a literal. */
  lemma EmptyConfigReadsAsConfig(codec: Codec, resolve: Resolver, c: Ctor, name: string)
    requires Resolvable(resolve, c)
    ensures |NodeXml(codec, Node(c, [], []), Some(name), AsWritten).children| == 2
    ensures Parse(codec, resolve, NodeXml(codec, Node(c, [], []), Some(name), AsWritten)) == Ok(Node(c, [], []))
  {
    ParseNodeXml(codec, resolve, Node(c, [], []), Some(name), AsWritten);
  }
}
