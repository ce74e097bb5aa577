# confmgr configuration trees, modelled in Dafny

confmgr stores the configuration of a program as a dictionary whose values
are literals (ints, strings, lists, …) or `Config` objects. A `Config` holds
a class constructor with the positional and keyword arguments to call it
with, and its keyword arguments may be further `Config`s. A `ConfMgr` saves
such a tree to XML and reads it back. It builds the objects on demand
(`proc_conf`, `Config.__call__`) and compares trees while ignoring key
order. `check_configurations` finds the stored configurations that equal a
target once named sub-paths have been dropped from both (`_drop`).

The model has six modules:

- `Wrappers` has `Option`, `Result` and `Exc`, the Python exceptions the core can raise.
- `Tree` describes the configuration tree.
  - An `Entry` is a literal (`Scalar`), a `Config` (`Node`: its constructor, its positional
    arguments and its keyword arguments) or a nested `ConfMgr` (`Dict`, which `_drop` produces).
  - A dictionary is a sequence of `Item`s in insertion order.
  - `Config.__init__`, `Config.args`, `Config.const` and `Config.kwargs` are the `Node`
    constructor and its three fields.
  - `_class_path` is `ClassPath`.
- `Equality` covers `ConfDict.__eq__`/`__ne__` and `Config.__eq__`, as pure functions that can
  raise. `DictEquals` is the method with `__eq__`'s early-exit loop.
- `Xml` covers writing and reading.
  - `_create_xml_node` (the method `CreateXmlNode` and the function `NodeXml`).
  - `save` and `from_file` without the file.
  - `_from_xml_node` (`Parse`).
  - An XML element is a value.
- `Build` covers `proc_conf` (the method `ProcConf`, specified by `Processed`) and
  `Config.__call__` (`Call`).
- `Funcs` covers `_drop` (the method `Drop`, specified by `Dropped`) and `check_configurations`
  (the method `CheckConfigurations`, specified by `Matching`). The list comprehension that
  drops every candidate is the method `DropEach`.

Some parts of the core are foreign to the model and are parameters instead:

- Converting a literal to text (`str`) and back (`eval`), the `Codec`. A literal
  "decodes" when `eval(str(v))` gives `v` back.
- Finding a class from its module and name (`importlib`), the `Resolver`.
- Calling a constructor, `Invoke`.

Python semantics followed:

- A `Config` defines `__eq__` without `__hash__`, so it is unhashable, as lists are.
  `set(self._args)` therefore raises `TypeError` when a positional argument is a `Config` or a
  list.
- A `Config` on the left compared with anything that is not a `Config` raises `AttributeError`
  (`other._const`). So does a literal on the left compared with a `Config`, through the reflected
  `Config.__eq__`. A `ConfDict` on the left compared with a `Config` raises `TypeError`, because
  `len` of a `Config` does.
- `ConfDict.__eq__` against a non-dictionary raises as `len`, `in` and indexing do on that value.
- The Python version is 3.7 or 3.8. Dictionaries and `**kwargs` keep insertion order. `!=` on a
  `Config` is Python 3's default `__ne__`, which inverts `__eq__`. `getchildren` and
  `xml.etree.cElementTree` still exist there; both are gone from 3.9 on. Python 2, where `!=` on a
  `Config` would compare identities, is not followed.
- `Config(const, *a, **d)` raises `TypeError` when a key of `d` is not a string, or is `const` or
  `self`, which `Config.__init__` already receives.

## Model

| member | source | states |
|---|---|---|
| Tree.ClassPath | confmgr/core.py:57-65 | the class path is the module, a dot, then the class name, in that order |
| Tree.Get | confmgr/core.py:115 | a lookup finds a value exactly when the key is present, and the value found is the one stored under it |
| Tree.Set | confmgr/core.py:267-268 | assigning a key, as building a dictionary from pairs does for each pair, leaves the dictionary with its old keys plus that key |
| Tree.SetGet | confmgr/core.py:267-268 | after `d[k] = v`, `d[k]` is `v` and every other key keeps its value |
| Tree.SetOrder | confmgr/core.py:267-268 | assigning a key that is present keeps the order of the keys; a new key goes last |
| Tree.SetUnique | confmgr/core.py:267-268 | assigning a key keeps the keys unique |
| Tree.Remove | confmgr/funcs.py:69 | popping a key leaves the dictionary with its old keys minus that key |
| Tree.RemoveGet | confmgr/funcs.py:69 | after `d.pop(k)`, `k` is absent and every other key keeps its value |
| Tree.RemoveUnique | confmgr/funcs.py:69 | popping a key keeps the keys unique |
| Tree.FromPairs | confmgr/core.py:267-268 | building a dictionary from pairs keeps exactly the keys of the pairs, each of them once |
| Tree.FromPairsGet | confmgr/core.py:267-268 | each key holds the value of the last pair with that key |
| Tree.FromPairsOrder | confmgr/core.py:267-268 | the keys come in the order of their first occurrence among the pairs |
| Tree.FromPairsLength | confmgr/core.py:267-268 | the dictionary has at most as many items as there are pairs |
| Tree.FromPairsUnique | confmgr/core.py:307-308 | pairs with distinct keys become a dictionary holding exactly those pairs, in order |
| Tree.GetUnique | confmgr/core.py:112-115 | in a dictionary with unique keys, looking up the key of an item gives that item's value |
| Equality.Eq | confmgr/core.py:379-399 | a Config on the left raises AttributeError against anything but a Config, and so does a literal on the left against a Config; a dictionary on the left raises TypeError against a Config; two literals compare by value; dictionaries of different lengths are unequal |
| Equality.ConfigEq | confmgr/core.py:379-399 | `Config.__eq__` raises AttributeError when the other operand is not a Config; different constructors give False; a True result means the same constructor, equal sets of positional arguments and as many keyword arguments |
| Equality.DictEq | confmgr/core.py:100-125 | `ConfDict.__eq__` raises TypeError against a Config; different lengths give False; a True result against a dictionary means equal lengths and every key of the left one present in the right one |
| Equality.ItemsEq | confmgr/core.py:112-125 | when the loop finishes with True, every key of the left dictionary is a key of the right one |
| Equality.DictEquals | confmgr/core.py:100-125 | the `__eq__` loop returns what the equality specification gives, error cases included |
| Equality.DictEqTrue | confmgr/core.py:110-125 | two dictionaries are equal iff they have the same length and each key of the first is in the second with an equal value |
| Equality.ItemsEqTrue | confmgr/core.py:112-120 | the loop finishes with True iff every item has its key in the other dictionary with an equal value |
| Equality.ItemsEqRaises | confmgr/core.py:112-120 | the loop raises iff some item is reached with every earlier item matching, and comparing its value with its counterpart raises |
| Equality.DictEqOrderFree | confmgr/core.py:100-125 | equality does not depend on the insertion order of either dictionary |
| Equality.DictNe | confmgr/core.py:127-139 | `!=` on dictionaries is the negation of `==`, and raises when `==` raises |
| Equality.Ne | confmgr/core.py:379-399 | `!=` on any entry is the negation of `==`, and raises when `==` raises |
| Equality.ConfigEqTrue | confmgr/core.py:379-399 | two Configs are equal iff they have the same constructor, only hashable positional arguments, equal sets of positional arguments, and equal keyword dictionaries |
| Equality.ArgsAsSet | confmgr/core.py:394 | positional arguments are compared as sets: order and repetition do not matter |
| Equality.ArgumentKindMatters | tests/test_config.py:56-59 | `Config(dummy, 1, 0) != Config(dummy, 1, b=0)` |
| Equality.EqReflexive | confmgr/core.py:379-399 | an entry whose Configs have hashable positional arguments equals itself |
| Equality.DictEqReflexive | confmgr/core.py:100-125 | such a dictionary equals itself |
| Xml.CreateXmlNode | confmgr/core.py:210-242 | the three loops build the element the writing specification gives |
| Xml.KwargsLoop | confmgr/core.py:231-233 | the keyword loop builds one named child per keyword argument, in order |
| Xml.Save | confmgr/core.py:318-325 | the root holds one named child per top-level entry, and writing fails with TypeError exactly when an attribute is None |
| Xml.NodeXmlShape | confmgr/core.py:223-240 | a Config becomes an element tagged with its class path and carrying its name, with exactly two children: `args`, holding each positional argument in order as an unnamed element, then `kwargs`, holding each keyword argument in order as an element named by its key; a literal becomes a leaf tagged with its type's class path, carrying its name, whose text is `str(value)` |
| Xml.TreeXmlShape | confmgr/core.py:318-321 | the root is tagged `confmgr.core.ConfMgr` and holds one element per item, in order, named by its key |
| Xml.ArgsXml | confmgr/core.py:227-229 | one child per positional argument |
| Xml.KwargsXml | confmgr/core.py:231-233 | one child per keyword argument |
| Xml.LastDot | confmgr/core.py:272 | `rfind('.')` is the index of the last dot, or -1 when there is none |
| Xml.SplitClassPath | confmgr/core.py:270-277 | splitting a class path at its last dot gives back the module and the class, when the class name has no dot |
| Xml.ResolveTag | confmgr/core.py:270-279 | resolving a tag raises only ImportError, AttributeError or KeyError; KeyError exactly when the tag has no dot after its first character and is not a global name; ImportError exactly when it has one and its module cannot be imported |
| Xml.ResolveClassPath | confmgr/core.py:272-277 | a class path whose module cannot be imported raises ImportError; one whose module has no such class raises AttributeError; otherwise it resolves to the module's class |
| Xml.UndottedTag | confmgr/core.py:278-279 | a tag with no dot after its first character is looked up in the module's globals, and a missing name raises KeyError |
| Xml.Parse | confmgr/core.py:258-292 | a leaf never fails: no text reads as None, a text `eval` accepts as its value, any other text as the raw string; a count of children other than zero or two raises ValueError; two children read as a Config, or raise, whose constructor is what the tag resolves to, with one positional argument per child of `args` and keyword arguments with unique keys, none of them `const` or `self` |
| Xml.ParseArgs | confmgr/core.py:265 | one positional argument is read per child |
| Xml.ParsePairs | confmgr/core.py:267-268 | one pair is read per child, keyed by that child's `name` attribute |
| Xml.FromFile | confmgr/core.py:304-308 | the dictionary read has unique keys, at most one item per child of the root, every child named, and exactly the children's names as keys |
| Xml.EmptyConfigReadsAsConfig | tests/test_config.py:116-127 | a Config with no arguments is saved with two empty children and reads back as a Config |
| Xml.RoundTripTree | confmgr/core.py:294-325 | reading back a tree written by either writer gives the original tree |
| Xml.RoundTrip | tests/test_config.py:33-43 | saving and reading back gives the original tree, when no Config is a positional argument |
| Xml.WritableNode | confmgr/core.py:225 | an element is writable iff no Config in it is a positional argument, or the writer is the corrected one |
| Xml.SaveFails | confmgr/core.py:225-229 | `save` raises exactly when some Config of the tree has a Config among its positional arguments |
| Xml.PositionalConfigNotSaved | confmgr/core.py:225-229 | `{'outer': Config(c, Config(d))}` cannot be saved |
| Xml.SaveCorrected | confmgr/core.py:318-325 | the corrected `save` always succeeds |
| Xml.RoundTripCorrected | confmgr/core.py:294-325 | with the corrected writer, every tree the codec and the resolver can carry reads back as itself |
| Build.Processed | confmgr/core.py:180-195 | a processed dictionary has one item per item of the input, with the same keys in the same order, and every value that is not a Config kept as it is |
| Build.Call | confmgr/core.py:369-377 | a Config is built only once its keyword arguments are; if they fail, the call fails with their exception |
| Build.ProcConf | confmgr/core.py:180-195 | the loop returns what the processing specification gives, the first failing constructor included |
| Build.ProcessedItems | confmgr/core.py:188-195 | the processed dictionary has the same keys in the same order; each Config is replaced by what calling it returned and every other value is kept |
| Build.ProcessedFails | confmgr/core.py:188-195 | processing raises iff calling some Config value raises, and it raises the error of the first one |
| Build.CallNeedsKwargs | confmgr/core.py:369-377 | a Config with a keyword argument whose call raises is not constructed: processing its keyword arguments fails, and the call raises the exception of the first failing keyword argument, at or before that one |
| Build.CallPassesArgs | confmgr/core.py:377 | once the keyword arguments are built, the constructor gets the stored positional arguments unbuilt |
| Funcs.KwargsOf | confmgr/core.py:171-178 | `kwargs()` fails with AttributeError exactly on a literal |
| Funcs.Dropped | confmgr/funcs.py:48-71 | with no specification the dictionary comes back unchanged, and any failure is an AttributeError |
| Funcs.DropItems | confmgr/funcs.py:48-71 | every failure of `_drop` is an AttributeError |
| Funcs.Drop | confmgr/funcs.py:48-71 | the copy-and-update loop, in any order of the shared keys, returns what the drop specification gives |
| Funcs.DropNoSpec | confmgr/funcs.py:59-61 | with no specification or an empty one, the result equals the input |
| Funcs.DropIgnoresAbsent | confmgr/funcs.py:62 | specification keys absent from the dictionary do not change the result |
| Funcs.DropGet | confmgr/funcs.py:61-71 | a key outside the specification keeps its value; a key mapped to None is gone; a key mapped to a nested specification holds the dropped keyword dictionary of its entry; no key is added |
| Funcs.DropFails | confmgr/funcs.py:64-67 | dropping raises iff a nested specification reaches a literal |
| Funcs.Matching | confmgr/funcs.py:18-45 | a result lists no more configurations than were given, and exists only when the target and every candidate could be dropped; a target that cannot be dropped makes the call raise |
| Funcs.DropEach | confmgr/funcs.py:35 | dropping every candidate in turn gives the list of their dropped forms, or the first failure |
| Funcs.CheckConfigurations | confmgr/funcs.py:18-45 | the two loops return what the matching specification gives, error cases included |
| Funcs.MatchingPicks | confmgr/funcs.py:35-45 | the result is the sublist, in order, of exactly those original candidates whose dropped form equals the dropped target, so it is no longer than the list given |
| Funcs.MatchingFails | confmgr/funcs.py:35-45 | the call raises iff dropping the target or a candidate raises, or comparing a dropped candidate with the dropped target raises |
| Funcs.MatchesItself | confmgr/funcs.py:35-45 | without a specification, a comparable configuration matched against itself alone gives exactly that one match |
| Funcs.OwnRoundTripMatches | tests/test_config.py:33-43 | a configuration saved and read back matches the original exactly once, when no Config is a positional argument |
| Funcs.OwnRoundTripMatchesCorrected | tests/test_config.py:33-43 | with the corrected writer the same holds for every configuration the codec and the resolver can carry |

## Left out

- File I/O is not modelled: `et.parse`, `tree.write` and the file. An XML element is a value,
  and `SubElement` appending to a shared parent is modelled by returning the child.
- `eval` and `str` of literals are not modelled. They are the `Codec` parameter; an empty text
  reads as None.
- `importlib.import_module`/`getattr` are not modelled. They are the `Resolver` parameter: the
  modules that import, and the attribute each has for a name.
- `globals()` is the table of the six classes and functions core.py defines. The
  imported modules (`importlib`, `et`), the module attributes (`__all__`, `__author__`,
  `__email__`) and the interpreter's dunder names (`__name__`, `__builtins__`, …) are left out.
  A tag naming one of them raises KeyError in the model, where the source would build a `Config`
  around that object.
- An import that raises something other than ImportError is not modelled: a module that does
  not import raises ImportError.
- Real constructors are not modelled. `Invoke` is a parameter.
- Floats, tuples, sets and dictionaries as literals are not modelled. Literals are None, bools,
  ints, strings and lists.
- Python's numeric equality across types (`1 == True`) is not modelled. Literal equality is
  structural.
- Class identity is approximated by the pair (module, name).
- Xml.FromFile: a root child without a `name` attribute is refused with KeyError. The source
  would store it under the key None.
- `get_configurations` is not modelled. It walks the file system and matches file names.
- `__str__` pretty-printing is not modelled. It is display only. A `ConfMgr` nested in a tree
  is written through the codec's `showDict`.
- `config_builder`, setup.py, confmgr/__init__.py and tests/test_builders.py are not part of
  this model. test_builders.py uses methods the modelled core.py does not have.
- `ConfObj.kwargs`, which only raises NotImplementedError, is not modelled.
- The skip argument is typed as a dictionary of lists in the docstring of
  `check_configurations`. The code needs, for each key, None or a nested dictionary. The model
  follows the code (`Skip`).
- Drop does not return an "extracted" tree to merge back, and there is no restore step, because
  the source has neither. `_drop` works on a copy, so the caller's dictionary is unchanged;
  value semantics give the model this for free.
- `requires WellFormedDict`, on `Funcs.Drop` and `Funcs.CheckConfigurations`: is not checked by
  the source. It states that every dictionary has unique keys, which a Python dict guarantees.

## Findings

| source | as written | input that shows it | evidently intended | confidence | as-written member | corrected member |
|---|---|---|---|---|---|---|
| confmgr/core.py:225-229 | a positional argument is written with `name=None`, which sets an attribute whose value is None, so `tree.write` raises TypeError | `ConfMgr({'outer': Config(c, Config(d))}).save(path)` | a positional argument is written without a `name` attribute, as the literal branch at lines 235-236 does | not executed | Xml.PositionalConfigNotSaved | Xml.RoundTripCorrected |
