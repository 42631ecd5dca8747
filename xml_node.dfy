/** The document tree that the XML parser builds. The Java class XmlNode is
    not part of this model; what the parser needs of it is modelled here as a
    value: a name, the attributes in the order they were added, the children
    in the order they were added, and a text payload that is `null` until set. */
module XmlNodes {
  import opened Wrappers

  datatype Attribute = Attribute(name: string, value: string)

  datatype XmlNode = XmlNode(name: string, attributes: seq<Attribute>, children: seq<XmlNode>, data: Option<string>)
  {
    /** `new XmlNode(name)`: no attributes, no children, no text. */
    static function Named(name: string): XmlNode
    {
      XmlNode(name, [], [], None)
    }

    /** `addAttribute(name, value)` appends one pair. */
    function AddAttribute(attributeName: string, attributeValue: string): XmlNode
    {
      this.(attributes := attributes + [Attribute(attributeName, attributeValue)])
    }

    /** `addChild(child)` appends one child. */
    function AddChild(child: XmlNode): XmlNode
    {
      this.(children := children + [child])
    }

    /** `setData(text)` replaces the text payload. */
    function SetData(text: string): XmlNode
    {
      this.(data := Some(text))
    }

    /** `getChild(name)`: the first child with that name, or `null`. */
    function GetChild(childName: string): Option<XmlNode>
    {
      FirstNamed(children, childName)
    }
  }

  /** The first node of `nodes` whose name is `name`, if there is one. */
  function FirstNamed(nodes: seq<XmlNode>, name: string): (r: Option<XmlNode>)
    ensures r.None? <==> forall k :: 0 <= k < |nodes| ==> nodes[k].name != name
    ensures r.Some? ==> exists k :: 0 <= k < |nodes| && nodes[k] == r.value && r.value.name == name &&
                                    forall j :: 0 <= j < k ==> nodes[j].name != name
  {
    if nodes == [] then None
    else if nodes[0].name == name then Some(nodes[0])
    else
      var r := FirstNamed(nodes[1..], name);
      assert forall k :: 1 <= k < |nodes| ==> nodes[k] == nodes[1..][k - 1];
      r
  }

  /** The number of nodes in a tree. */
  function Size(n: XmlNode): nat
    decreases n, 1
  {
    1 + SizeAll(n.children)
  }

  /** The number of nodes in a sequence of trees. */
  function SizeAll(nodes: seq<XmlNode>): nat
    decreases nodes, 0
  {
    if nodes == [] then 0 else Size(nodes[0]) + SizeAll(nodes[1..])
  }

  /** Appending a tree adds its nodes to the count. */
  lemma {:induction false} SizeAllAppend(nodes: seq<XmlNode>, n: XmlNode)
    ensures SizeAll(nodes + [n]) == SizeAll(nodes) + Size(n)
  {
    if nodes == [] {
      assert [] + [n] == [n];
      assert [n][1..] == [];
    } else {
      assert (nodes + [n])[1..] == nodes[1..] + [n];
      SizeAllAppend(nodes[1..], n);
    }
  }

  /** `addChild` adds exactly the nodes of the child to the tree. */
  lemma AddChildSize(parent: XmlNode, child: XmlNode)
    ensures Size(parent.AddChild(child)) == Size(parent) + Size(child)
  {
    SizeAllAppend(parent.children, child);
  }
}
