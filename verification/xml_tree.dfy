/** The tree of settings: what the traversal reads out of a tree, and what adding a setting to the tree does to
    that.  Tags, names and keys are of any type; what is said of them is in `Names`. */
module XmlTree {

  /** How the traversal treats an element: by its tag. */
  datatype Kind = ConfigTag | MapTag | ListTag | PropertyTag | PlainTag

  /** A node: an element with its name attribute (blank if it has none) and its children, or text. */
  datatype Node<S> = Elem(tag: S, hasName: bool, name: S, children: seq<Node<S>>) | Text(text: string)

  datatype Value<S> = Str(text: string) | Map(m: map<S, string>) | List(xs: seq<string>)

  /** The tags, what is made of them, the blank name, and the key of a name below another key. */
  datatype Names<!S(!new), !K(!new)> = Names(kind: S -> Kind, under: (K, S) -> K, blank: S,
                                            property: S, propertyMap: S, propertyList: S, value: S)

  ghost predicate WellNamed<S(!new), K(!new)>(names: Names<S, K>) {
    && names.kind(names.property) == PropertyTag
    && names.kind(names.propertyMap) == MapTag
    && names.kind(names.propertyList) == ListTag
  }

  // ---------------------------------------------------------------- reading

  /** QDomElement::text: all the text inside. */
  function TextOf<S>(n: Node<S>): string {
    match n
    case Text(text) => text
    case Elem(_, _, _, children) => TextsOf(children)
  }

  function TextsOf<S>(ns: seq<Node<S>>): string { if ns == [] then "" else TextOf(ns[0]) + TextsOf(ns[1..]) }

  /** The elements from the first child on; none if the first child is text. */
  function Elements<S>(ns: seq<Node<S>>): seq<Node<S>> {
    if ns == [] || ns[0].Text? then [] else ElementsOnly(ns)
  }

  function ElementsOnly<S>(ns: seq<Node<S>>): seq<Node<S>> {
    if ns == [] then [] else (if ns[0].Elem? then [ns[0]] else []) + ElementsOnly(ns[1..])
  }

  /** The entries of a property map; one without a name is left out. */
  function ReadMap<S(==, !new), K(!new)>(names: Names<S, K>, ns: seq<Node<S>>): map<S, string> {
    if ns == [] then map[]
    else
      var before, n := ReadMap(names, ns[..|ns| - 1]), ns[|ns| - 1];
      if n.Elem? && n.name != names.blank then before[n.name := TextOf(n)] else before
  }

  function ReadList<S>(ns: seq<Node<S>>): seq<string> {
    if ns == [] then [] else ReadList(ns[..|ns| - 1]) + [TextOf(ns[|ns| - 1])]
  }

  /** The text of a property: that of its first child, if this is an element. */
  function FirstText<S>(ns: seq<Node<S>>): string { if ns == [] || ns[0].Text? then "" else TextOf(ns[0]) }

  /** XMLTraversal. */
  function Traverse<S(==, !new), K(!new)>(names: Names<S, K>, n: Node<S>, at: K, m: map<K, Value<S>>): map<K, Value<S>>
    decreases n
  {
    match n
    case Text(_) => m
    case Elem(tag, hasName, name, children) =>
      if names.kind(tag) == MapTag then m[names.under(at, name) := Map(ReadMap(names, Elements(children)))]
      else if names.kind(tag) == ListTag then m[names.under(at, name) := List(ReadList(Elements(children)))]
      else if !hasName then
        TraverseAll(names, children, if names.kind(tag) == ConfigTag then at else names.under(at, tag), m)
      else m[names.under(at, name) := Str(FirstText(children))]
  }

  function TraverseAll<S(==, !new), K(!new)>(names: Names<S, K>, ns: seq<Node<S>>, at: K, m: map<K, Value<S>>)
    : map<K, Value<S>>
    decreases ns
  {
    if ns == [] then m else TraverseAll(names, ns[1..], at, Traverse(names, ns[0], at, m))
  }

  lemma {:induction false} ElementsBetween<S>(a: seq<Node<S>>, text: string, b: seq<Node<S>>)
    ensures ElementsOnly(a + [Text(text)] + b) == ElementsOnly(a + b)
  {
    if a == [] {
      assert ([Text(text)] + b)[1..] == b && [] + [Text(text)] + b == [Text(text)] + b && [] + b == b;
      assert [] + ElementsOnly(b) == ElementsOnly(b);
    } else {
      ElementsBetween(a[1..], text, b);
      assert (a + [Text(text)] + b)[1..] == a[1..] + [Text(text)] + b && (a + b)[1..] == a[1..] + b;
    }
  }

  /** In a file that the program has not written there may be text between elements: behind the first child it is
      skipped, but as the first child it hides the entries of a map, those of a list and the text of a property. */
  lemma TextBetween<S(!new), K(!new)>(names: Names<S, K>, a: seq<Node<S>>, text: string, b: seq<Node<S>>)
    ensures a != [] ==> Elements(a + [Text(text)] + b) == Elements(a + b)
    ensures ReadMap(names, Elements([Text(text)] + b)) == map[] && ReadList(Elements([Text(text)] + b)) == []
    ensures FirstText([Text(text)] + b) == ""
  {
    ElementsBetween(a, text, b);
  }

  /** All the text inside counts, whatever elements it stands in. */
  lemma {:induction false} TextsTogether<S>(a: seq<Node<S>>, b: seq<Node<S>>)
    ensures TextsOf(a + b) == TextsOf(a) + TextsOf(b)
  {
    if a == [] {
      assert a + b == b;
    } else {
      var first, inner := TextOf(a[0]), TextsOf(a[1..]);
      TextsTogether(a[1..], b);
      assert (a + b)[1..] == a[1..] + b && (a + b)[0] == a[0];
      assert (first + inner) + TextsOf(b) == first + (inner + TextsOf(b));
    }
  }

  // ---------------------------------------------------------------- adding

  /** QDomNode::firstChildElement: the first child with a tag, or the number of children. */
  function FindChild<S(==)>(ns: seq<Node<S>>, tag: S): (k: nat)
    ensures k <= |ns|
    ensures k < |ns| ==> ns[k].Elem? && ns[k].tag == tag
  {
    if ns == [] || (ns[0].Elem? && ns[0].tag == tag) then 0 else 1 + FindChild(ns[1..], tag)
  }

  /** The children of a node after leaves have been added below it along a path.  The directories on the path are
      made where they are missing. */
  function Add<S(==, !new), K(!new)>(names: Names<S, K>, ns: seq<Node<S>>, path: seq<S>, leaves: seq<Node<S>>)
    : seq<Node<S>>
    decreases path
  {
    if path == [] then ns + leaves
    else
      var k := FindChild(ns, path[0]);
      if k < |ns| then ns[k := ns[k].(children := Add(names, ns[k].children, path[1..], leaves))]
      else ns + [Elem(path[0], false, names.blank, Add(names, [], path[1..], leaves))]
  }

  /** The key of a name at the end of a path. */
  function KeyOf<S(==, !new), K(!new)>(names: Names<S, K>, at: K, path: seq<S>, name: S): K {
    if path == [] then names.under(at, name) else KeyOf(names, names.under(at, path[0]), path[1..], name)
  }

  /** What a list of nodes adds to a map. */
  function Flat<S(==, !new), K(!new)>(names: Names<S, K>, ns: seq<Node<S>>, at: K): map<K, Value<S>> {
    TraverseAll(names, ns, at, map[])
  }

  lemma {:induction false} TraverseAdds<S(!new), K(!new)>(names: Names<S, K>, n: Node<S>, at: K, m: map<K, Value<S>>)
    ensures Traverse(names, n, at, m) == m + Traverse(names, n, at, map[])
    decreases n
  {
    if n.Elem? && names.kind(n.tag) != MapTag && names.kind(n.tag) != ListTag && !n.hasName {
      TraverseAllAdds(names, n.children, if names.kind(n.tag) == ConfigTag then at else names.under(at, n.tag), m);
    }
  }

  lemma {:induction false} TraverseAllAdds<S(!new), K(!new)>(names: Names<S, K>, ns: seq<Node<S>>, at: K,
                                                             m: map<K, Value<S>>)
    ensures TraverseAll(names, ns, at, m) == m + Flat(names, ns, at)
    decreases ns
  {
    if ns != [] {
      TraverseAdds(names, ns[0], at, m);
      TraverseAllAdds(names, ns[1..], at, Traverse(names, ns[0], at, m));
      TraverseAllAdds(names, ns[1..], at, Traverse(names, ns[0], at, map[]));
    }
  }

  /** Nodes that follow each other add one after the other. */
  lemma {:induction false} FlatAppend<S(!new), K(!new)>(names: Names<S, K>, a: seq<Node<S>>, b: seq<Node<S>>, at: K)
    ensures Flat(names, a + b, at) == Flat(names, a, at) + Flat(names, b, at)
    decreases a
  {
    if a == [] {
      assert a + b == b;
    } else {
      FlatAppend(names, a[1..], b, at);
      assert (a + b)[0] == a[0] && (a + b)[1..] == a[1..] + b;
      TraverseAllAdds(names, a[1..] + b, at, Traverse(names, a[0], at, map[]));
      TraverseAllAdds(names, a[1..], at, Traverse(names, a[0], at, map[]));
    }
  }

  /** Directories have no name, and so have the directories in them. */
  predicate Tidy<S(==, !new), K(!new)>(names: Names<S, K>, ns: seq<Node<S>>)
    decreases ns
  {
    forall i :: 0 <= i < |ns| ==>
      ns[i].Elem? && names.kind(ns[i].tag) == PlainTag ==> !ns[i].hasName && Tidy(names, ns[i].children)
  }

  /** A path of directories. */
  predicate Plain<S(==, !new), K(!new)>(names: Names<S, K>, path: seq<S>) {
    forall i :: 0 <= i < |path| ==> names.kind(path[i]) == PlainTag
  }

  lemma FlatOne<S(!new), K(!new)>(names: Names<S, K>, leaf: Node<S>, at: K)
    ensures Flat(names, [leaf], at) == Traverse(names, leaf, at, map[])
  {
    var m := Traverse(names, leaf, at, map[]);
    assert [leaf][1..] == [] && TraverseAll(names, [], at, m) == m;
  }

  /** A directory adds what its children add below its key. */
  lemma FlatDirectory<S(!new), K(!new)>(names: Names<S, K>, n: Node<S>, at: K)
    requires n.Elem? && names.kind(n.tag) == PlainTag && !n.hasName
    ensures Flat(names, [n], at) == Flat(names, n.children, names.under(at, n.tag))
  {
    FlatOne(names, n, at);
  }

  lemma FlatSplit<S(!new), K(!new)>(names: Names<S, K>, ns: seq<Node<S>>, k: nat, at: K)
    requires k < |ns|
    ensures Flat(names, ns, at) == Flat(names, ns[..k], at) + Flat(names, [ns[k]], at) + Flat(names, ns[k + 1..], at)
  {
    assert ns == (ns[..k] + [ns[k]]) + ns[k + 1..];
    FlatAppend(names, ns[..k] + [ns[k]], ns[k + 1..], at);
    FlatAppend(names, ns[..k], [ns[k]], at);
  }

  // ---------------------------------------------------------------- settings

  /** A value to be written; the entries of a map in the order in which they are written. */
  datatype Setting<S> = StrOf(text: string) | MapOf(pairs: seq<(S, string)>) | ListOf(xs: seq<string>)

  /** Empty maps and lists are not written. */
  predicate Written<S>(v: Setting<S>) {
    match v
    case StrOf(_) => true
    case MapOf(pairs) => pairs != []
    case ListOf(xs) => xs != []
  }

  function ValueNode<S(==, !new), K(!new)>(names: Names<S, K>, text: string): Node<S> {
    Elem(names.value, false, names.blank, [Text(text)])
  }

  function PropertyNode<S(==, !new), K(!new)>(names: Names<S, K>, name: S, text: string): Node<S> {
    Elem(names.property, true, name, [ValueNode(names, text)])
  }

  /** AppendSettingToXML: the nodes that are appended. */
  function Leaves<S(==, !new), K(!new)>(names: Names<S, K>, name: S, v: Setting<S>): seq<Node<S>> {
    if !Written(v) then []
    else
      match v
      case StrOf(text) => [PropertyNode(names, name, text)]
      case MapOf(pairs) => [Elem(names.propertyMap, true, name, PropertyNodes(names, pairs))]
      case ListOf(xs) => [Elem(names.propertyList, true, name, ValueNodes(names, xs))]
  }

  function PropertyNodes<S(==, !new), K(!new)>(names: Names<S, K>, pairs: seq<(S, string)>): seq<Node<S>> {
    seq(|pairs|, i requires 0 <= i < |pairs| => PropertyNode(names, pairs[i].0, pairs[i].1))
  }

  function ValueNodes<S(==, !new), K(!new)>(names: Names<S, K>, xs: seq<string>): seq<Node<S>> {
    seq(|xs|, i requires 0 <= i < |xs| => ValueNode(names, xs[i]))
  }

  function Entries<S(==)>(pairs: seq<(S, string)>): map<S, string> {
    if pairs == [] then map[] else Entries(pairs[..|pairs| - 1])[pairs[|pairs| - 1].0 := pairs[|pairs| - 1].1]
  }

  function Named<S(==)>(pairs: seq<(S, string)>, blank: S): seq<(S, string)> {
    if pairs == [] then []
    else Named(pairs[..|pairs| - 1], blank) + if pairs[|pairs| - 1].0 != blank then [pairs[|pairs| - 1]] else []
  }

  /** What is read back for a setting that was written. */
  function ReadBack<S(==, !new)>(v: Setting<S>, blank: S): Value<S> {
    match v
    case StrOf(text) => Str(text)
    case MapOf(pairs) => Map(Entries(Named(pairs, blank)))
    case ListOf(xs) => List(xs)
  }

  lemma OneText<S>(n: Node<S>)
    ensures TextsOf([n]) == TextOf(n)
  {
    var none: seq<Node<S>> := [];
    assert [n][1..] == none && TextsOf(none) == "";
    assert TextOf(n) + "" == TextOf(n);
  }

  lemma ValueText<S(!new), K(!new)>(names: Names<S, K>, name: S, text: string)
    ensures TextOf(ValueNode(names, text)) == text
    ensures TextOf(PropertyNode(names, name, text)) == text
  {
    OneText<S>(Text(text));
    OneText(ValueNode(names, text));
  }

  lemma {:induction false} AllElements<S>(ns: seq<Node<S>>)
    requires forall i :: 0 <= i < |ns| ==> ns[i].Elem?
    ensures ElementsOnly(ns) == ns
  {
    if ns != [] {
      AllElements(ns[1..]);
    }
  }

  lemma {:induction false} MapRead<S(!new), K(!new)>(names: Names<S, K>, ns: seq<Node<S>>, pairs: seq<(S, string)>)
    requires |ns| == |pairs| && forall i :: 0 <= i < |ns| ==> ns[i] == PropertyNode(names, pairs[i].0, pairs[i].1)
    ensures ReadMap(names, ns) == Entries(Named(pairs, names.blank))
  {
    if ns != [] {
      var last := |ns| - 1;
      MapRead(names, ns[..last], pairs[..last]);
      ValueText(names, pairs[last].0, pairs[last].1);
      var before := Named(pairs[..last], names.blank);
      assert (before + [pairs[last]])[..|before|] == before && before + [] == before;
    }
  }

  lemma {:induction false} ListRead<S(!new), K(!new)>(names: Names<S, K>, ns: seq<Node<S>>, xs: seq<string>)
    requires |ns| == |xs| && forall i :: 0 <= i < |ns| ==> ns[i] == ValueNode(names, xs[i])
    ensures ReadList(ns) == xs
  {
    if ns != [] {
      var last := |ns| - 1;
      ListRead(names, ns[..last], xs[..last]);
      ValueText(names, names.blank, xs[last]);
      assert xs == xs[..last] + [xs[last]];
    }
  }

  /** Reading the nodes of a setting gives its value under its name. */
  lemma LeavesFlat<S(!new), K(!new)>(names: Names<S, K>, name: S, v: Setting<S>, at: K)
    requires WellNamed(names)
    ensures Flat(names, Leaves(names, name, v), at) ==
      if Written(v) then map[names.under(at, name) := ReadBack(v, names.blank)] else map[]
  {
    if Written(v) {
      var leaf := Leaves(names, name, v)[0];
      assert Leaves(names, name, v) == [leaf];
      FlatOne(names, leaf, at);
      match v {
        case StrOf(text) =>
          ValueText(names, name, text);
          assert FirstText(leaf.children) == text;
        case MapOf(pairs) =>
          AllElements(leaf.children);
          MapRead(names, leaf.children, pairs);
        case ListOf(xs) =>
          AllElements(leaf.children);
          ListRead(names, leaf.children, xs);
      }
    }
  }

  /** Adding a setting with a new key adds its value under that key, and changes nothing else that is read. */
  lemma {:induction false} AddFlat<S(!new), K(!new)>(names: Names<S, K>, ns: seq<Node<S>>, at: K, path: seq<S>,
                                                          name: S, v: Setting<S>)
    requires WellNamed(names) && Tidy(names, ns) && Plain(names, path)
    requires KeyOf(names, at, path, name) !in Flat(names, ns, at)
    ensures Tidy(names, Add(names, ns, path, Leaves(names, name, v)))
    ensures Flat(names, Add(names, ns, path, Leaves(names, name, v)), at) ==
      if Written(v) then Flat(names, ns, at)[KeyOf(names, at, path, name) := ReadBack(v, names.blank)]
      else Flat(names, ns, at)
    decreases path, 1
  {
    var leaves := Leaves(names, name, v);
    if path == [] {
      LeavesFlat(names, name, v, at);
      FlatAppend(names, ns, leaves, at);
    } else {
      var k := FindChild(ns, path[0]);
      assert names.kind(path[0]) == PlainTag;
      if k < |ns| {
        AddInside(names, ns, k, at, path, name, v);
      } else {
        AddBeside(names, ns, at, path, name, v);
      }
    }
  }

  lemma {:induction false} AddBeside<S(!new), K(!new)>(names: Names<S, K>, ns: seq<Node<S>>, at: K, path: seq<S>,
                                                       name: S, v: Setting<S>)
    requires WellNamed(names) && Tidy(names, ns) && Plain(names, path) && path != []
    requires FindChild(ns, path[0]) == |ns|
    ensures Tidy(names, Add(names, ns, path, Leaves(names, name, v)))
    ensures Flat(names, Add(names, ns, path, Leaves(names, name, v)), at) ==
      if Written(v) then Flat(names, ns, at)[KeyOf(names, at, path, name) := ReadBack(v, names.blank)]
      else Flat(names, ns, at)
    decreases path, 0
  {
    assert names.kind(path[0]) == PlainTag;
    AddFlat(names, [], names.under(at, path[0]), path[1..], name, v);
    AddDirectory(names, ns, at, path[0], Add(names, [], path[1..], Leaves(names, name, v)));
  }

  lemma AddDirectory<S(!new), K(!new)>(names: Names<S, K>, ns: seq<Node<S>>, at: K, tag: S, children: seq<Node<S>>)
    requires Tidy(names, ns) && names.kind(tag) == PlainTag && Tidy(names, children)
    ensures Tidy(names, ns + [Elem(tag, false, names.blank, children)])
    ensures Flat(names, ns + [Elem(tag, false, names.blank, children)], at) ==
      Flat(names, ns, at) + Flat(names, children, names.under(at, tag))
  {
    var n := Elem(tag, false, names.blank, children);
    FlatDirectory(names, n, at);
    FlatAppend(names, ns, [n], at);
  }

  lemma {:induction false} AddInside<S(!new), K(!new)>(names: Names<S, K>, ns: seq<Node<S>>, k: nat, at: K,
                                                            path: seq<S>, name: S, v: Setting<S>)
    requires WellNamed(names) && Tidy(names, ns) && Plain(names, path) && path != []
    requires KeyOf(names, at, path, name) !in Flat(names, ns, at)
    requires k == FindChild(ns, path[0]) < |ns|
    ensures Tidy(names, Add(names, ns, path, Leaves(names, name, v)))
    ensures Flat(names, Add(names, ns, path, Leaves(names, name, v)), at) ==
      if Written(v) then Flat(names, ns, at)[KeyOf(names, at, path, name) := ReadBack(v, names.blank)]
      else Flat(names, ns, at)
    decreases path, 0
  {
    var n := ns[k];
    assert names.kind(n.tag) == PlainTag;
    var n' := n.(children := Add(names, n.children, path[1..], Leaves(names, name, v)));
    var ns' := ns[k := n'];
    FlatSplit(names, ns, k, at);
    FlatSplit(names, ns', k, at);
    assert ns'[..k] == ns[..k] && ns'[k + 1..] == ns[k + 1..];
    FlatDirectory(names, n, at);
    AddFlat(names, n.children, names.under(at, path[0]), path[1..], name, v);
    FlatDirectory(names, n', at);
  }

  // ---------------------------------------------------------------- all the settings

  datatype Item<S> = Item(path: seq<S>, name: S, v: Setting<S>)

  /** storageToDisk, below the root. */
  function Built<S(==, !new), K(!new)>(names: Names<S, K>, items: seq<Item<S>>): seq<Node<S>> {
    if items == [] then []
    else
      var it := items[|items| - 1];
      Add(names, Built(names, items[..|items| - 1]), it.path, Leaves(names, it.name, it.v))
  }

  function ItemKey<S(==, !new), K(!new)>(names: Names<S, K>, at: K, it: Item<S>): K {
    KeyOf(names, at, it.path, it.name)
  }

  /** Directories have plain tags, and no key is used twice. */
  ghost predicate Legal<S(!new), K(!new)>(names: Names<S, K>, at: K, items: seq<Item<S>>) {
    && (forall i :: 0 <= i < |items| ==> Plain(names, items[i].path))
    && (forall i, j :: 0 <= i < j < |items| ==> ItemKey(names, at, items[i]) != ItemKey(names, at, items[j]))
  }

  /** What is read back: the settings that were written, without entries that have no name. */
  function Expected<S(==, !new), K(!new)>(names: Names<S, K>, at: K, items: seq<Item<S>>): map<K, Value<S>> {
    if items == [] then map[]
    else
      var before, it := Expected(names, at, items[..|items| - 1]), items[|items| - 1];
      if Written(it.v) then before[ItemKey(names, at, it) := ReadBack(it.v, names.blank)] else before
  }

  lemma {:induction false} ExpectedKeys<S(!new), K(!new)>(names: Names<S, K>, at: K, items: seq<Item<S>>)
    ensures forall k :: k in Expected(names, at, items) ==>
      exists i :: 0 <= i < |items| && ItemKey(names, at, items[i]) == k
  {
    if items != [] {
      var rest := items[..|items| - 1];
      ExpectedKeys(names, at, rest);
      forall k | k in Expected(names, at, items)
        ensures exists i :: 0 <= i < |items| && ItemKey(names, at, items[i]) == k
      {
        if k in Expected(names, at, rest) {
          var i :| 0 <= i < |rest| && ItemKey(names, at, rest[i]) == k;
          assert ItemKey(names, at, items[i]) == k;
        } else {
          assert ItemKey(names, at, items[|items| - 1]) == k;
        }
      }
    }
  }

  /** Whatever the order in which the settings are written, reading the tree gives exactly what is expected. */
  lemma {:induction false} BuiltFlat<S(!new), K(!new)>(names: Names<S, K>, at: K, items: seq<Item<S>>)
    requires WellNamed(names) && Legal(names, at, items)
    ensures Tidy(names, Built(names, items))
    ensures Flat(names, Built(names, items), at) == Expected(names, at, items)
  {
    if items != [] {
      var rest, it := items[..|items| - 1], items[|items| - 1];
      BuiltFlat(names, at, rest);
      ExpectedKeys(names, at, rest);
      AddFlat(names, Built(names, rest), at, it.path, it.name, it.v);
    }
  }

  // ---------------------------------------------------------------- when everything is read back

  /** What the setting means. */
  function Meant<S(==, !new)>(v: Setting<S>): Value<S> {
    match v
    case StrOf(text) => Str(text)
    case MapOf(pairs) => Map(Entries(pairs))
    case ListOf(xs) => List(xs)
  }

  /** All the settings. */
  function Whole<S(==, !new), K(!new)>(names: Names<S, K>, at: K, items: seq<Item<S>>): map<K, Value<S>> {
    if items == [] then map[]
    else
      Whole(names, at, items[..|items| - 1])[ItemKey(names, at, items[|items| - 1]) := Meant(items[|items| - 1].v)]
  }

  /** Not an empty map or list, and no entry without a name. */
  ghost predicate Faithful<S(!new)>(v: Setting<S>, blank: S) {
    Written(v) && (v.MapOf? ==> forall i :: 0 <= i < |v.pairs| ==> v.pairs[i].0 != blank)
  }

  lemma {:induction false} NamedAll<S(!new)>(pairs: seq<(S, string)>, blank: S)
    requires forall i :: 0 <= i < |pairs| ==> pairs[i].0 != blank
    ensures Named(pairs, blank) == pairs
  {
    if pairs != [] {
      NamedAll(pairs[..|pairs| - 1], blank);
    }
  }

  lemma {:induction false} EntriesKeys<S(!new)>(pairs: seq<(S, string)>, k: S)
    ensures k in Entries(pairs) <==> exists i :: 0 <= i < |pairs| && pairs[i].0 == k
  {
    if pairs != [] {
      var rest := pairs[..|pairs| - 1];
      EntriesKeys(rest, k);
      if i :| 0 <= i < |pairs| && pairs[i].0 == k && i < |rest| {
        assert rest[i].0 == k;
      }
      if i :| 0 <= i < |rest| && rest[i].0 == k {
        assert pairs[i].0 == k;
      }
    }
  }

  lemma {:induction false} NoBlank<S(!new)>(pairs: seq<(S, string)>, blank: S)
    ensures blank !in Entries(Named(pairs, blank))
  {
    if pairs != [] {
      var before := Named(pairs[..|pairs| - 1], blank);
      NoBlank(pairs[..|pairs| - 1], blank);
      assert before + [] == before && (before + [pairs[|pairs| - 1]])[..|before|] == before;
    }
  }

  /** A written setting is read back as it was meant exactly when all its entries have names. */
  lemma ReadAsMeant<S(!new)>(v: Setting<S>, blank: S)
    requires Written(v)
    ensures ReadBack(v, blank) == Meant(v) <==> Faithful(v, blank)
  {
    if v.MapOf? {
      if Faithful(v, blank) {
        NamedAll(v.pairs, blank);
      } else {
        NoBlank(v.pairs, blank);
        EntriesKeys(v.pairs, blank);
      }
    }
  }

  lemma {:induction false} WholeKeys<S(!new), K(!new)>(names: Names<S, K>, at: K, items: seq<Item<S>>, k: K)
    ensures k in Whole(names, at, items) <==> exists i :: 0 <= i < |items| && ItemKey(names, at, items[i]) == k
  {
    if items != [] {
      var rest := items[..|items| - 1];
      WholeKeys(names, at, rest, k);
      if i :| 0 <= i < |items| && ItemKey(names, at, items[i]) == k && i < |rest| {
        assert ItemKey(names, at, rest[i]) == k;
      }
      if i :| 0 <= i < |rest| && ItemKey(names, at, rest[i]) == k {
        assert ItemKey(names, at, items[i]) == k;
      }
    }
  }

  ghost predicate AllFaithful<S(!new)>(items: seq<Item<S>>, blank: S) {
    forall i :: 0 <= i < |items| ==> Faithful(items[i].v, blank)
  }

  /** Everything expected is everything there is exactly when every setting is faithful. */
  lemma {:induction false} ExpectedIsWhole<S(!new), K(!new)>(names: Names<S, K>, at: K, items: seq<Item<S>>)
    requires Legal(names, at, items)
    ensures Expected(names, at, items) == Whole(names, at, items) <==> AllFaithful(items, names.blank)
  {
    if items != [] {
      var rest, it := items[..|items| - 1], items[|items| - 1];
      var key := ItemKey(names, at, it);
      ExpectedIsWhole(names, at, rest);
      ExpectedKeys(names, at, rest);
      WholeKeys(names, at, rest, key);
      assert key !in Expected(names, at, rest) && key !in Whole(names, at, rest);
      if Written(it.v) {
        ReadAsMeant(it.v, names.blank);
        SameWithout(Expected(names, at, rest), Whole(names, at, rest), key, ReadBack(it.v, names.blank), Meant(it.v));
      }
      assert AllFaithful(items, names.blank) <==> AllFaithful(rest, names.blank) && Faithful(it.v, names.blank) by {
        if AllFaithful(items, names.blank) {
          forall i | 0 <= i < |rest| ensures Faithful(rest[i].v, names.blank) { assert items[i] == rest[i]; }
        }
      }
    }
  }

  lemma SameWithout<K, V>(a: map<K, V>, b: map<K, V>, key: K, v: V, w: V)
    requires key !in a && key !in b
    ensures a[key := v] == b[key := w] <==> a == b && v == w
  {
    if a[key := v] == b[key := w] {
      assert a[key := v][key] == v && b[key := w][key] == w;
      forall k ensures (k in a <==> k in b) && (k in a ==> a[k] == b[k]) {
        assert k != key ==> (k in a[key := v] <==> k in a) && (k in b[key := w] <==> k in b);
        assert k in a ==> a[key := v][k] == a[k];
        assert k in b ==> b[key := w][k] == b[k];
      }
    }
  }
}
