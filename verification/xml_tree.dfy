/** `JsonToXml.traverse` (PrettyJson.py): the element tree built from a decoded JSON
    value. Serialising the tree to text (`ElementTree.tostring`) is not modelled. */
module XmlTree {
  import opened Wrappers
  import opened Text
  import opened JsonValue

  /** An element with its tag, its optional `value` attribute and its children. */
  datatype Element = Element(tag: String, value: Option<String>, children: seq<Element>)

  /** `traverse(Element(tag), j)`. A non-empty object gets one child per entry, tagged with
      the key; a list gets a single `items` child holding one `item` per element; anything
      else (including `{}`) gets `value="str(j)"` and no children. */
  function Traverse(tag: String, j: Json): (e: Element)
    ensures e.tag == tag
    ensures e.value.Some? <==> !IsContainer(j)
    ensures !IsContainer(j) ==> e.value == Some(PyStr(j)) && e.children == []
    ensures j.Object? && IsContainer(j) ==>
      |e.children| == |j.fields| && forall i | 0 <= i < |j.fields| :: e.children[i].tag == j.fields[i].0
    ensures j.Array? ==>
      && |e.children| == 1
      && e.children[0].tag == "items" && e.children[0].value.None?
      && |e.children[0].children| == |j.items|
      && forall i | 0 <= i < |j.items| :: e.children[0].children[i].tag == "item"
    decreases j, Width(j) + 1
  {
    match j
    case Object(fields) =>
      if |fields| > 0 then Element(tag, None, FieldElements(j, 0)) else Element(tag, Some(PyStr(j)), [])
    case Array(items) => Element(tag, None, [Element("items", None, ItemElements(j, 0))])
    case _ => Element(tag, Some(PyStr(j)), [])
  }

  /** The children for the entries `k..` of an object. */
  function FieldElements(parent: Json, k: nat): (es: seq<Element>)
    requires parent.Object? && k <= |parent.fields|
    ensures |es| == |parent.fields| - k
    ensures forall i | 0 <= i < |es| :: es[i].tag == parent.fields[k + i].0
    decreases parent, |parent.fields| - k
  {
    if k == |parent.fields| then []
    else
      var f := parent.fields[k];
      assert f in parent.fields;
      [Traverse(f.0, f.1)] + FieldElements(parent, k + 1)
  }

  /** The `item` children for the elements `k..` of a list. */
  function ItemElements(parent: Json, k: nat): (es: seq<Element>)
    requires parent.Array? && k <= |parent.items|
    ensures |es| == |parent.items| - k
    ensures forall i | 0 <= i < |es| :: es[i].tag == "item"
    decreases parent, |parent.items| - k
  {
    if k == |parent.items| then []
    else
      assert parent.items[k] in parent.items;
      [Traverse("item", parent.items[k])] + ItemElements(parent, k + 1)
  }

  // ---------------------------------------------------------------------------
  // Reading the tree back

  /** The `value` attributes of a tree in document order. */
  function Values(e: Element): seq<String>
    decreases e, |e.children| + 1
  {
    (if e.value.Some? then [e.value.value] else []) + ChildValues(e, 0)
  }

  function ChildValues(parent: Element, k: nat): seq<String>
    requires k <= |parent.children|
    decreases parent, |parent.children| - k
  {
    if k == |parent.children| then []
    else
      assert parent.children[k] in parent.children;
      Values(parent.children[k]) + ChildValues(parent, k + 1)
  }

  /** `str()` of every value of `j` that is not a container, in document order. */
  function Scalars(j: Json): seq<String>
    decreases j, Width(j) + 1
  {
    if !IsContainer(j) then [PyStr(j)]
    else if j.Object? then FieldScalars(j, 0)
    else ItemScalars(j, 0)
  }

  function FieldScalars(parent: Json, k: nat): seq<String>
    requires parent.Object? && k <= |parent.fields|
    decreases parent, |parent.fields| - k
  {
    if k == |parent.fields| then []
    else
      var f := parent.fields[k];
      assert f in parent.fields;
      Scalars(f.1) + FieldScalars(parent, k + 1)
  }

  function ItemScalars(parent: Json, k: nat): seq<String>
    requires parent.Array? && k <= |parent.items|
    decreases parent, |parent.items| - k
  {
    if k == |parent.items| then []
    else
      assert parent.items[k] in parent.items;
      Scalars(parent.items[k]) + ItemScalars(parent, k + 1)
  }

  // ---------------------------------------------------------------------------
  // Properties

  /** The tree keeps every scalar: its `value` attributes, read in document order, are the
      `str()` of the JSON's scalars (and empty objects) in document order, and nothing else. */
  lemma {:induction false} TraverseKeepsScalars(tag: String, j: Json)
    ensures Values(Traverse(tag, j)) == Scalars(j)
    decreases j, Width(j) + 1
  {
    var e := Traverse(tag, j);
    if !IsContainer(j) {
      assert ChildValues(e, 0) == [];
    } else if j.Object? {
      FieldsKeepScalars(tag, j, 0);
    } else {
      var items := Element("items", None, ItemElements(j, 0));
      assert e.children == [items];
      ItemsKeepScalars(j, 0);
      assert ChildValues(items, 0) == ItemScalars(j, 0);
      assert Values(items) == ItemScalars(j, 0);
      assert ChildValues(e, 1) == [];
      assert ChildValues(e, 0) == Values(items);
    }
  }

  lemma {:induction false} FieldsKeepScalars(tag: String, parent: Json, k: nat)
    requires parent.Object? && |parent.fields| > 0 && k <= |parent.fields|
    ensures ChildValues(Traverse(tag, parent), k) == FieldScalars(parent, k)
    decreases parent, |parent.fields| - k
  {
    var e := Traverse(tag, parent);
    if k < |parent.fields| {
      var f := parent.fields[k];
      assert f in parent.fields;
      assert e.children[k] == FieldElements(parent, k)[0] == Traverse(f.0, f.1) by {
        ChildrenAt(parent, 0, k);
      }
      TraverseKeepsScalars(f.0, f.1);
      FieldsKeepScalars(tag, parent, k + 1);
    }
  }

  lemma {:induction false} ChildrenAt(parent: Json, k: nat, m: nat)
    requires parent.Object? && k <= m < |parent.fields|
    ensures FieldElements(parent, k)[m - k] == FieldElements(parent, m)[0]
    decreases m - k
  {
    if k < m {
      ChildrenAt(parent, k + 1, m);
    }
  }

  lemma {:induction false} ItemsAt(parent: Json, k: nat, m: nat)
    requires parent.Array? && k <= m < |parent.items|
    ensures ItemElements(parent, k)[m - k] == ItemElements(parent, m)[0]
    decreases m - k
  {
    if k < m {
      ItemsAt(parent, k + 1, m);
    }
  }

  lemma {:induction false} ItemsKeepScalars(parent: Json, k: nat)
    requires parent.Array? && k <= |parent.items|
    ensures ChildValues(Element("items", None, ItemElements(parent, 0)), k) == ItemScalars(parent, k)
    decreases parent, |parent.items| - k
  {
    var items := Element("items", None, ItemElements(parent, 0));
    if k < |parent.items| {
      assert parent.items[k] in parent.items;
      assert items.children[k] == Traverse("item", parent.items[k]) by {
        ItemsAt(parent, 0, k);
      }
      TraverseKeepsScalars("item", parent.items[k]);
      ItemsKeepScalars(parent, k + 1);
    }
  }
}
