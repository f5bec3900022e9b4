/** The settings file: slash-separated keys to a tree of elements, and back. */
module XmlStorage {
  import opened XmlTree

  const CONFIG := "Config"
  const PROPERTY := "property"
  const PROPERTY_MAP := "property_map"
  const PROPERTY_LIST := "property_list"
  const VALUE := "value"

  function KindOf(tag: string): Kind {
    if tag == CONFIG then ConfigTag
    else if tag == PROPERTY_MAP then MapTag
    else if tag == PROPERTY_LIST then ListTag
    else if tag == PROPERTY then PropertyTag
    else PlainTag
  }

  /** The key of a name below another key. */
  function Under(at: string, name: string): string { (if at == "" then at else at + "/") + name }

  const NAMES: Names<string, string> :=
    Names((tag: string) => KindOf(tag), (at: string, name: string) => Under(at, name), "", PROPERTY, PROPERTY_MAP,
          PROPERTY_LIST, VALUE)

  // ---------------------------------------------------------------- keys

  /** QString::split at slashes; acc is the segment read so far. */
  function SplitFrom(s: string, acc: string): (segments: seq<string>)
    ensures segments != []
  {
    if s == "" then [acc]
    else if s[0] == '/' then [acc] + SplitFrom(s[1..], "")
    else SplitFrom(s[1..], acc + [s[0]])
  }

  function Split(s: string): (segments: seq<string>)
    ensures segments != []
  {
    SplitFrom(s, "")
  }

  function Directories(key: string): seq<string> { Split(key)[..|Split(key)| - 1] }

  function Leaf(key: string): string { Split(key)[|Split(key)| - 1] }

  /** Segments with slashes between. */
  function Slashed(segments: seq<string>): string {
    if segments == [] then "" else if |segments| == 1 then segments[0] else segments[0] + "/" + Slashed(segments[1..])
  }

  lemma {:induction false} SlashedSplit(s: string, acc: string)
    ensures Slashed(SplitFrom(s, acc)) == acc + s
  {
    if s != "" {
      if s[0] == '/' {
        SlashedSplit(s[1..], "");
        var rest := SplitFrom(s[1..], "");
        assert ([acc] + rest)[1..] == rest;
        assert acc + "/" + s[1..] == acc + s;
      } else {
        SlashedSplit(s[1..], acc + [s[0]]);
        assert acc + [s[0]] + s[1..] == acc + s;
      }
    }
  }

  lemma {:induction false} KeyOfPath(at: string, path: seq<string>, name: string)
    requires forall i :: 0 <= i < |path| ==> path[i] != ""
    ensures KeyOf(NAMES, at, path, name) == Under(at, Slashed(path + [name]))
    decreases path
  {
    if path == [] {
      assert path + [name] == [name];
    } else {
      KeyOfPath(Under(at, path[0]), path[1..], name);
      assert (path + [name])[1..] == path[1..] + [name];
      UnderTwice(at, path[0], Slashed(path[1..] + [name]));
    }
  }

  lemma UnderTwice(at: string, a: string, b: string)
    requires a != ""
    ensures Under(Under(at, a), b) == Under(at, a + "/" + b)
  {
    var prefix := if at == "" then at else at + "/";
    assert prefix + a != "";
    assert (prefix + a) + "/" + b == prefix + (a + "/" + b);
  }

  /** Directories with a name, which is none of the tags that mean something else. */
  ghost predicate LegalKey(key: string) {
    Plain(NAMES, Directories(key)) && forall i :: 0 <= i < |Directories(key)| ==> Directories(key)[i] != ""
  }

  /** That is, the directories are none of these. */
  lemma LegalExactly(key: string)
    ensures LegalKey(key) <==>
      forall i :: 0 <= i < |Directories(key)| ==>
        Directories(key)[i] !in {"", "Config", "property", "property_map", "property_list"}
  {
    var ds := Directories(key);
    forall i | 0 <= i < |ds|
      ensures NAMES.kind(ds[i]) == PlainTag <==> ds[i] !in {"Config", "property", "property_map", "property_list"}
    {
    }
  }

  /** A key is what the traversal makes of its path. */
  lemma KeyOfKey(key: string)
    requires LegalKey(key)
    ensures KeyOf(NAMES, "", Directories(key), Leaf(key)) == key
  {
    KeyOfPath("", Directories(key), Leaf(key));
    assert Directories(key) + [Leaf(key)] == Split(key);
    SlashedSplit(key, "");
    assert "" + key == key;
  }

  // ---------------------------------------------------------------- writing

  /** The settings with their keys taken apart. */
  function ItemsOf(settings: seq<(string, Setting<string>)>): seq<Item<string>> {
    seq(|settings|, i requires 0 <= i < |settings| =>
      Item(Directories(settings[i].0), Leaf(settings[i].0), settings[i].1))
  }

  /** AppendSettingToXML. */
  method AppendSetting(children: seq<Node<string>>, key: string, v: Setting<string>) returns (r: seq<Node<string>>)
    ensures r == children + Leaves(NAMES, key, v)
  {
    var nodes: seq<Node<string>> := [];
    match v {
      case MapOf(pairs) =>
        if pairs != [] {
          for i := 0 to |pairs|
            invariant |nodes| == i && forall j :: 0 <= j < i ==> nodes[j] == PropertyNode(NAMES, pairs[j].0, pairs[j].1)
          {
            nodes := nodes + [PropertyNode(NAMES, pairs[i].0, pairs[i].1)];
          }
          assert nodes == PropertyNodes(NAMES, pairs);
          return children + [Elem(PROPERTY_MAP, true, key, nodes)];
        }
      case ListOf(xs) =>
        if xs != [] {
          for i := 0 to |xs|
            invariant |nodes| == i && forall j :: 0 <= j < i ==> nodes[j] == ValueNode(NAMES, xs[j])
          {
            nodes := nodes + [ValueNode(NAMES, xs[i])];
          }
          assert nodes == ValueNodes(NAMES, xs);
          return children + [Elem(PROPERTY_LIST, true, key, nodes)];
        }
      case StrOf(text) =>
        return children + [PropertyNode(NAMES, key, text)];
    }
    assert children + [] == children;
    return children;
  }

  /** One turn of the loop of storageToDisk: going down the path, making the directories that are missing. */
  method AddSetting(children: seq<Node<string>>, path: seq<string>, key: string, v: Setting<string>)
    returns (r: seq<Node<string>>)
    ensures r == Add(NAMES, children, path, Leaves(NAMES, key, v))
    decreases path
  {
    if path == [] {
      r := AppendSetting(children, key, v);
    } else {
      var k := FindChild(children, path[0]);
      if k < |children| {
        var inside := AddSetting(children[k].children, path[1..], key, v);
        r := children[k := children[k].(children := inside)];
      } else {
        var inside := AddSetting([], path[1..], key, v);
        r := children + [Elem(path[0], false, "", inside)];
      }
    }
  }

  /** storageToDisk. */
  method StorageToDisk(settings: seq<(string, Setting<string>)>) returns (root: Node<string>)
    ensures root == Elem(CONFIG, false, "", Built(NAMES, ItemsOf(settings)))
  {
    var children: seq<Node<string>> := [];
    var items := ItemsOf(settings);
    for i := 0 to |settings|
      invariant children == Built(NAMES, items[..i])
    {
      var segments := Split(settings[i].0);
      assert items[..i + 1][..i] == items[..i];
      children := AddSetting(children, segments[..|segments| - 1], segments[|segments| - 1], settings[i].1);
    }
    assert items[..|settings|] == items;
    root := Elem(CONFIG, false, "", children);
  }

  function TextElem(text: string): Node<string> { Elem("value", false, "", [Text(text)]) }

  function NamedText(name: string, text: string): Node<string> { Elem("property", true, name, [TextElem(text)]) }

  /** What stands in the file for a text, for a map and for a list. */
  lemma SettingShapes(name: string, text: string, pairs: seq<(string, string)>, xs: seq<string>)
    ensures Leaves(NAMES, name, StrOf(text)) == [NamedText(name, text)]
    ensures var maps := Leaves(NAMES, name, MapOf(pairs));
      if pairs == [] then maps == []
      else maps == [Elem("property_map", true, name,
                         seq(|pairs|, i requires 0 <= i < |pairs| => NamedText(pairs[i].0, pairs[i].1)))]
    ensures var lists := Leaves(NAMES, name, ListOf(xs));
      if xs == [] then lists == []
      else lists == [Elem("property_list", true, name, seq(|xs|, i requires 0 <= i < |xs| => TextElem(xs[i])))]
  {
    assert PropertyNodes(NAMES, pairs)
        == seq(|pairs|, i requires 0 <= i < |pairs| => NamedText(pairs[i].0, pairs[i].1));
    assert ValueNodes(NAMES, xs) == seq(|xs|, i requires 0 <= i < |xs| => TextElem(xs[i]));
  }

  /** Two settings in the same directory share its element; the second stands behind the first. */
  lemma DirectoryShared(dir: string, a: string, s: string, b: string, t: string)
    ensures Built(NAMES, [Item([dir], a, StrOf(s)), Item([dir], b, StrOf(t))])
         == [Elem(dir, false, "", [NamedText(a, s), NamedText(b, t)])]
  {
    var one, two := Item([dir], a, StrOf(s)), Item([dir], b, StrOf(t));
    SettingShapes(a, s, [], []);
    SettingShapes(b, t, [], []);
    assert [one, two][..1] == [one] && [one][..0] == [];
    assert Built(NAMES, []) == [];
    var dirA := Elem(dir, false, "", [NamedText(a, s)]);
    assert Add(NAMES, [], [dir][1..], Leaves(NAMES, a, one.v)) == [NamedText(a, s)];
    assert Built(NAMES, [one]) == [dirA];
    assert FindChild([dirA], dir) == 0;
    assert Add(NAMES, [NamedText(a, s)], [dir][1..], Leaves(NAMES, b, two.v)) == [NamedText(a, s), NamedText(b, t)];
  }

  // ---------------------------------------------------------------- reading

  /** XMLTraversal. */
  method XmlTraversal(n: Node<string>, str: string, storage: map<string, Value<string>>)
    returns (r: map<string, Value<string>>)
    ensures r == Traverse(NAMES, n, str, storage)
    decreases n
  {
    if n.Text? {
      return storage;
    }
    var kind := KindOf(n.tag);
    if kind == MapTag {
      var value := ReadProperties(Elements(n.children));
      r := storage[Under(str, n.name) := Map(value)];
    } else if kind == ListTag {
      r := storage[Under(str, n.name) := List(ReadList(Elements(n.children)))];
    } else if !n.hasName {
      r := storage;
      var inside := if kind == ConfigTag then str else Under(str, n.tag);
      var i := 0;
      while i < |n.children|
        invariant 0 <= i <= |n.children|
        invariant TraverseAll(NAMES, n.children[i..], inside, r) == Traverse(NAMES, n, str, storage)
      {
        assert n.children[i..][0] == n.children[i] && n.children[i..][1..] == n.children[i + 1..];
        r := XmlTraversal(n.children[i], inside, r);
        i := i + 1;
      }
    } else {
      r := storage[Under(str, n.name) := Str(FirstText(n.children))];
    }
  }

  method ReadProperties(elements: seq<Node<string>>) returns (m: map<string, string>)
    ensures m == ReadMap(NAMES, elements)
  {
    m := map[];
    for i := 0 to |elements|
      invariant m == ReadMap(NAMES, elements[..i])
    {
      assert elements[..i + 1][..i] == elements[..i];
      if elements[i].Elem? {
        var key := elements[i].name;
        if key != "" {
          m := m[key := TextOf(elements[i])];
        }
      }
    }
    assert elements[..|elements|] == elements;
  }

  // ---------------------------------------------------------------- the round trip

  /** Legal keys, none of them twice. */
  ghost predicate LegalSettings(settings: seq<(string, Setting<string>)>) {
    && (forall i :: 0 <= i < |settings| ==> LegalKey(settings[i].0))
    && (forall i, j :: 0 <= i < j < |settings| ==> settings[i].0 != settings[j].0)
  }

  /** The settings as a map from keys to values. */
  function AsMap(settings: seq<(string, Setting<string>)>): map<string, Value<string>> {
    if settings == [] then map[]
    else
      var last := settings[|settings| - 1];
      AsMap(settings[..|settings| - 1])[last.0 := Meant(last.1)]
  }

  lemma ItemsLegal(settings: seq<(string, Setting<string>)>)
    requires LegalSettings(settings)
    ensures Legal(NAMES, "", ItemsOf(settings))
    ensures forall i :: 0 <= i < |settings| ==> ItemKey(NAMES, "", ItemsOf(settings)[i]) == settings[i].0
  {
    forall i | 0 <= i < |settings|
      ensures ItemKey(NAMES, "", ItemsOf(settings)[i]) == settings[i].0 && Plain(NAMES, ItemsOf(settings)[i].path) {
      KeyOfKey(settings[i].0);
    }
  }

  lemma {:induction false} WholeIsMap(settings: seq<(string, Setting<string>)>)
    requires forall i :: 0 <= i < |settings| ==> ItemKey(NAMES, "", ItemsOf(settings)[i]) == settings[i].0
    ensures Whole(NAMES, "", ItemsOf(settings)) == AsMap(settings)
  {
    if settings != [] {
      var n := |settings| - 1;
      assert ItemsOf(settings)[..n] == ItemsOf(settings[..n]);
      forall i | 0 <= i < n ensures ItemKey(NAMES, "", ItemsOf(settings[..n])[i]) == settings[..n][i].0 {
        assert ItemsOf(settings)[i] == ItemsOf(settings[..n])[i];
      }
      WholeIsMap(settings[..n]);
    }
  }

  /** diskToStorage, for a tree that storageToDisk has built. */
  function ReadTree(settings: seq<(string, Setting<string>)>): map<string, Value<string>> {
    Traverse(NAMES, Elem(CONFIG, false, "", Built(NAMES, ItemsOf(settings))), "", map[])
  }

  lemma TreeRead(settings: seq<(string, Setting<string>)>)
    requires LegalSettings(settings)
    ensures ReadTree(settings) == Expected(NAMES, "", ItemsOf(settings))
  {
    ItemsLegal(settings);
    BuiltFlat(NAMES, "", ItemsOf(settings));
  }

  lemma SameFaithful(settings: seq<(string, Setting<string>)>)
    ensures AllFaithful(ItemsOf(settings), "") <==> forall i :: 0 <= i < |settings| ==> Faithful(settings[i].1, "")
  {
    var items := ItemsOf(settings);
    assert forall i :: 0 <= i < |settings| ==> items[i].v == settings[i].1;
  }

  /** Reading the tree that was built from the settings gives back the settings exactly when no map or list is empty
      and no map has an entry without a name; the order of the settings does not matter. */
  lemma SettingsRoundTrip(settings: seq<(string, Setting<string>)>)
    requires LegalSettings(settings)
    ensures ReadTree(settings) == AsMap(settings) <==> forall i :: 0 <= i < |settings| ==> Faithful(settings[i].1, "")
  {
    TreeRead(settings);
    ItemsLegal(settings);
    ExpectedIsWhole(NAMES, "", ItemsOf(settings));
    WholeIsMap(settings);
    SameFaithful(settings);
  }
}
