/**
 * The content-node codec: `NodeSerializer` (node to JSON), `NodeDeserializer`
 * (JSON to node) and `NodeListDeserializer` (JSON array to list of nodes), as
 * they run inside a Gson instance that has all three registered.
 *
 * Decoding has three outcomes: a value, Java's `null` (the deserializer
 * returns null), or `Malformed` (the code throws: a missing "tag", a
 * `getAsString` on a non-primitive, the non-null `Node` check on a list
 * element that came back null, an attribute Gson cannot read as a string).
 */
module NodeCodec {

  import opened Wrappers
  import opened JsonTree
  import opened ContentNode

  datatype Decoded<+T> = Value(v: T) | Null | Malformed

  // ---------------------------------------------------------------------------
  // Serialization.

  /** Gson's map serialization of `Map<String, String>`: one string member per entry. */
  function EncodeAttrs(attrs: seq<(string, string)>): (r: seq<(string, Json)>)
    ensures |r| == |attrs|
    ensures forall i :: 0 <= i < |attrs| ==> r[i].0 == attrs[i].0 && r[i].1 == JStr(attrs[i].1)
  {
    seq(|attrs|, i requires 0 <= i < |attrs| => (attrs[i].0, JStr(attrs[i].1)))
  }

  /**
   * `NodeSerializer.serialize` on a node: a text node is a JSON string; an
   * element is an object with the members "tag", "attrs" and "children",
   * added in that order, the children serialized by this same rule.
   */
  function EncodeNode(n: Node): (r: Json)
    decreases n
    ensures n.Text? ==> r == JStr(n.s)
    ensures n.Element? ==> r.JObj? && |r.members| == 3
    ensures n.Element? ==>
      r.members[0] == ("tag", JStr(n.tag)) &&
      r.members[1] == ("attrs", JObj(EncodeAttrs(n.attrs))) &&
      r.members[2].0 == "children" && r.members[2].1.JArr? &&
      |r.members[2].1.items| == |n.children|
    ensures n.Element? ==> forall i :: 0 <= i < |n.children| ==> r.members[2].1.items[i] == EncodeNode(n.children[i])
  {
    match n
    case Text(s) => JStr(s)
    case Element(tag, attrs, children) =>
      JObj([("tag", JStr(tag)),
            ("attrs", JObj(EncodeAttrs(attrs))),
            ("children", JArr(seq(|children|, i requires 0 <= i < |children| => EncodeNode(children[i]))))])
  }

  /** Gson's serialization of `List<Node>`: an array, each node by `EncodeNode`. */
  function EncodeForest(ns: seq<Node>): (r: Json)
    ensures r.JArr? && |r.items| == |ns|
    ensures forall i :: 0 <= i < |ns| ==> r.items[i] == EncodeNode(ns[i])
  {
    JArr(seq(|ns|, i requires 0 <= i < |ns| => EncodeNode(ns[i])))
  }

  /** `NodeSerializer.serialize` on a possibly null node: null becomes `JsonNull`. */
  function Serialize(node: Option<Node>): (r: Json)
    ensures node.None? <==> r.JNull?
    ensures node.Some? ==> r == EncodeNode(node.value)
  {
    match node
    case None => JNull
    case Some(n) => EncodeNode(n)
  }

  // ---------------------------------------------------------------------------
  // Deserialization.

  /**
   * Gson's `String` reader on an attribute value: a string, a number's lexeme
   * or a boolean's name; anything else is not read (see README).
   */
  function AttrValue(j: Json): (r: Option<string>)
    ensures r.Some? <==> IsPrimitive(j)
    ensures r.Some? ==> r == AsString(j)
  {
    if IsPrimitive(j) then AsString(j) else None
  }

  /** Gson's map reader on the members of the "attrs" object, in order. */
  function DecodeAttrMembers(members: seq<(string, Json)>): (r: Decoded<seq<(string, string)>>)
    ensures r.Value? <==> forall i :: 0 <= i < |members| ==> IsPrimitive(members[i].1)
    ensures r.Value? ==> |r.v| == |members|
    ensures r.Value? ==> forall i :: 0 <= i < |members| ==>
      r.v[i].0 == members[i].0 && Some(r.v[i].1) == AsString(members[i].1)
  {
    if members == [] then Value([])
    else
      var k := |members| - 1;
      match DecodeAttrMembers(members[..k])
      case Value(front) =>
        (match AttrValue(members[k].1)
         case Some(s) => Value(front + [(members[k].0, s)])
         case None => Malformed)
      case _ => Malformed
  }

  /** The "attrs" member: absent or `null` is the empty map; an object is read entry by entry. */
  function DecodeAttrs(j: Option<Json>): (r: Decoded<seq<(string, string)>>)
    ensures j.None? || j == Some(JNull) ==> r == Value([])
    ensures j.Some? && j.value.JObj? ==> r == DecodeAttrMembers(j.value.members)
    ensures j.Some? && !j.value.JNull? && !j.value.JObj? ==> r.Malformed?
  {
    match j
    case None => Value([])
    case Some(JNull) => Value([])
    case Some(JObj(members)) => DecodeAttrMembers(members)
    case Some(_) => Malformed
  }

  /**
   * `NodeDeserializer.deserialize`: a primitive is a text node with its string
   * form; an object is an element read from its "tag", "attrs" and "children"
   * members; an array or `JsonNull` gives null.
   */
  function DecodeNode(j: Json): (r: Decoded<Node>)
    decreases j, 2
    ensures r.Null? <==> j.JArr? || j.JNull?
    ensures IsPrimitive(j) ==> r == Value(Text(AsString(j).value))
    ensures r.Value? && j.JObj? ==> r.v.Element?
    ensures j.JObj? && (forall i :: 0 <= i < |j.members| ==> j.members[i].0 != "tag") ==> r.Malformed?
    // An object decodes exactly when its "tag" member reads as a string, its
    // "attrs" member as a string map, and its "children" member (if any) as a
    // node list; the element is built from those three readings.
    ensures j.JObj? ==>
      (r.Value? <==>
         Find(j.members, "tag").Some? && AsString(j.members[Find(j.members, "tag").value].1).Some?
         && DecodeAttrs(Get(j.members, "attrs")).Value?
         && (Find(j.members, "children").Some? ==>
               DecodeChildren(j.members[Find(j.members, "children").value].1).Value?))
    ensures j.JObj? && r.Value? ==>
      Some(r.v.tag) == AsString(j.members[Find(j.members, "tag").value].1)
    ensures j.JObj? && r.Value? ==> Value(r.v.attrs) == DecodeAttrs(Get(j.members, "attrs"))
    ensures j.JObj? && r.Value? && Find(j.members, "children").None? ==> r.v.children == []
    ensures j.JObj? && r.Value? && Find(j.members, "children").Some? ==>
      Value(r.v.children) == DecodeChildren(j.members[Find(j.members, "children").value].1)
  {
    match j
    case JStr(_) => Value(Text(AsString(j).value))
    case JNum(_) => Value(Text(AsString(j).value))
    case JBool(_) => Value(Text(AsString(j).value))
    case JNull => Null
    case JArr(_) => Null
    case JObj(members) =>
      match Find(members, "tag")
      case None => Malformed
      case Some(t) =>
        match AsString(members[t].1)
        case None => Malformed
        case Some(tag) =>
          match DecodeAttrs(Get(members, "attrs"))
          case Value(attrs) =>
            (match Find(members, "children")
             case None => Value(Element(tag, attrs, []))
             case Some(c) =>
               (match DecodeChildren(members[c].1)
                case Value(children) => Value(Element(tag, attrs, children))
                case _ => Malformed))
          case _ => Malformed
  }

  /** The "children" member, read as `List<Node>`: `JsonNull` is the empty list. */
  function DecodeChildren(j: Json): (r: Decoded<seq<Node>>)
    decreases j, 1
    ensures !r.Null?
    ensures j.JNull? ==> r == Value([])
    ensures !j.JNull? ==> r == DecodeNodeList(j)
  {
    if j.JNull? then Value([]) else DecodeNodeList(j)
  }

  /**
   * `NodeListDeserializer.deserialize`: an array is decoded element by
   * element; any other JSON is the empty list.
   */
  function DecodeNodeList(j: Json): (r: Decoded<seq<Node>>)
    decreases j, 0
    ensures !r.Null?
    ensures !j.JArr? ==> r == Value([])
    ensures j == JArr([]) ==> r == Value([])
    ensures j.JArr? ==> r == DecodeItems(j.items)
  {
    match j
    case JArr(items) => DecodeItems(items)
    case _ => Value([])
  }

  /**
   * The elements of an array, decoded in order and added to the list one by
   * one.  An element that decodes to null breaks the list's non-null `Node`
   * type, so the whole list fails, as does one that throws.
   */
  function DecodeItems(items: seq<Json>): (r: Decoded<seq<Node>>)
    decreases items
    ensures !r.Null?
    ensures r.Value? <==> forall i :: 0 <= i < |items| ==> DecodeNode(items[i]).Value?
    ensures r.Value? ==> |r.v| == |items|
    ensures r.Value? ==> forall i :: 0 <= i < |items| ==> DecodeNode(items[i]) == Value(r.v[i])
  {
    if items == [] then Value([])
    else
      var k := |items| - 1;
      match DecodeItems(items[..k])
      case Value(front) =>
        (match DecodeNode(items[k])
         case Value(n) => Value(front + [n])
         case _ => Malformed)
      case _ => Malformed
  }

  /**
   * The loop of `NodeListDeserializer.deserialize`: a fresh mutable list, one
   * `add` per array element in array order.
   */
  method DeserializeNodeList(json: Json) returns (r: Decoded<seq<Node>>)
    ensures r == DecodeNodeList(json)
  {
    if !json.JArr? {
      return Value([]);
    }
    var items := json.items;
    var nodes: seq<Node> := [];
    var i := 0;
    while i < |items|
      invariant 0 <= i <= |items|
      invariant DecodeItems(items[..i]) == Value(nodes)
    {
      var node := DecodeNode(items[i]);
      if !node.Value? {
        return Malformed;
      }
      assert items[..i + 1][..i] == items[..i];
      nodes := nodes + [node.v];
      i := i + 1;
    }
    assert items[..i] == items;
    return Value(nodes);
  }

  // ---------------------------------------------------------------------------
  // Properties.

  /** The attribute map reads back as written, names and values in order. */
  lemma AttrsRoundTrip(attrs: seq<(string, string)>)
    ensures DecodeAttrMembers(EncodeAttrs(attrs)) == Value(attrs)
  {
    var r := DecodeAttrMembers(EncodeAttrs(attrs));
    assert r.Value?;
    assert forall i :: 0 <= i < |attrs| ==> r.v[i] == attrs[i];
    assert r.v == attrs;
  }

  /** Decoding what the serializer wrote gives back the node. */
  lemma {:induction false} RoundTrip(n: Node)
    decreases n
    ensures DecodeNode(EncodeNode(n)) == Value(n)
  {
    match n
    case Text(_) =>
    case Element(tag, attrs, children) =>
      var members := EncodeNode(n).members;
      assert Find(members, "tag") == Some(0);
      assert DecodeAttrs(Get(members, "attrs")) == Value(attrs) by {
        assert Get(members, "attrs") == Some(JObj(EncodeAttrs(attrs)));
        AttrsRoundTrip(attrs);
      }
      assert Find(members, "children") == Some(2);
      assert DecodeChildren(members[2].1) == Value(children) by {
        ChildrenRoundTrip(children, members[2].1.items);
      }
  }

  lemma {:induction false} ChildrenRoundTrip(children: seq<Node>, items: seq<Json>)
    decreases children, 0
    requires |items| == |children|
    requires forall i :: 0 <= i < |children| ==> items[i] == EncodeNode(children[i])
    ensures DecodeItems(items) == Value(children)
  {
    forall i | 0 <= i < |children|
      ensures DecodeNode(items[i]) == Value(children[i])
    {
      RoundTrip(children[i]);
    }
    var r := DecodeItems(items);
    assert r.Value?;
    assert forall i :: 0 <= i < |children| ==> r.v[i] == children[i];
    assert r.v == children;
  }

  /** The list form of the round trip: a serialized list of nodes reads back as that list. */
  lemma ForestRoundTrip(ns: seq<Node>)
    ensures DecodeNodeList(EncodeForest(ns)) == Value(ns)
  {
    ChildrenRoundTrip(ns, EncodeForest(ns).items);
  }

  /**
   * The JSON the serializer writes: a string, or an object with exactly the
   * members "tag" (a string), "attrs" (an object of strings) and "children"
   * (an array of such JSON), in that order.
   */
  predicate Canonical(j: Json)
    decreases j
  {
    match j
    case JStr(_) => true
    case JObj(members) =>
      |members| == 3
      && members[0].0 == "tag" && members[0].1.JStr?
      && members[1].0 == "attrs" && members[1].1.JObj?
      && (forall i :: 0 <= i < |members[1].1.members| ==> members[1].1.members[i].1.JStr?)
      && members[2].0 == "children" && members[2].1.JArr?
      && (forall i :: 0 <= i < |members[2].1.items| ==> Canonical(members[2].1.items[i]))
    case _ => false
  }

  /** Everything the serializer writes is canonical. */
  lemma {:induction false} EncodeCanonical(n: Node)
    decreases n
    ensures Canonical(EncodeNode(n))
  {
    match n
    case Text(_) =>
    case Element(tag, attrs, children) =>
      var items := EncodeNode(n).members[2].1.items;
      forall i | 0 <= i < |items|
        ensures Canonical(items[i])
      {
        EncodeCanonical(children[i]);
      }
  }

  /** Canonical JSON decodes, and serializing the node gives the same JSON back. */
  lemma {:induction false} DecodeEncode(j: Json)
    decreases j, 1
    requires Canonical(j)
    ensures DecodeNode(j).Value? && EncodeNode(DecodeNode(j).v) == j
  {
    match j
    case JStr(_) =>
    case JObj(members) =>
      var am, items := members[1].1.members, members[2].1.items;
      DecodeEncodeAttrs(am);
      DecodeEncodeItems(items);
      DecodeCanonicalObject(members);
      EncodeElement(members, DecodeAttrMembers(am).v, DecodeItems(items).v);
  }

  /** A canonical object decodes member by member: "tag", then "attrs", then "children". */
  lemma DecodeCanonicalObject(members: seq<(string, Json)>)
    requires Canonical(JObj(members))
    requires DecodeAttrMembers(members[1].1.members).Value?
    requires DecodeItems(members[2].1.items).Value?
    ensures DecodeNode(JObj(members))
         == Value(Element(members[0].1.s, DecodeAttrMembers(members[1].1.members).v, DecodeItems(members[2].1.items).v))
  {
    assert Find(members, "tag") == Some(0);
    assert Find(members, "attrs") == Some(1);
    assert Find(members, "children") == Some(2);
  }

  /** An element whose attributes and children encode to a canonical object's members encodes to that object. */
  lemma EncodeElement(members: seq<(string, Json)>, attrs: seq<(string, string)>, children: seq<Node>)
    requires Canonical(JObj(members))
    requires EncodeAttrs(attrs) == members[1].1.members
    requires |children| == |members[2].1.items|
    requires forall i :: 0 <= i < |children| ==> EncodeNode(children[i]) == members[2].1.items[i]
    ensures EncodeNode(Element(members[0].1.s, attrs, children)) == JObj(members)
  {
    var e := EncodeNode(Element(members[0].1.s, attrs, children));
    assert e.members[2].1.items == members[2].1.items;
    assert e.members == members;
  }

  lemma DecodeEncodeAttrs(am: seq<(string, Json)>)
    requires forall i :: 0 <= i < |am| ==> am[i].1.JStr?
    ensures DecodeAttrMembers(am).Value? && EncodeAttrs(DecodeAttrMembers(am).v) == am
  {
    var r := DecodeAttrMembers(am);
    assert forall i :: 0 <= i < |am| ==> IsPrimitive(am[i].1);
    assert EncodeAttrs(r.v) == am by {
      assert forall i :: 0 <= i < |am| ==> EncodeAttrs(r.v)[i] == am[i];
    }
  }

  lemma {:induction false} DecodeEncodeItems(items: seq<Json>)
    decreases items, 0
    requires forall i :: 0 <= i < |items| ==> Canonical(items[i])
    ensures DecodeItems(items).Value?
    ensures forall i :: 0 <= i < |items| ==> EncodeNode(DecodeItems(items).v[i]) == items[i]
  {
    forall i | 0 <= i < |items|
      ensures DecodeNode(items[i]).Value? && EncodeNode(DecodeNode(items[i]).v) == items[i]
    {
      DecodeEncode(items[i]);
    }
  }

  /**
   * The serializer writes a JSON tree Gson can hold (no object repeats a key)
   * exactly when every attribute list of the node is a map.
   */
  lemma {:induction false} EncodeValid(n: Node)
    decreases n
    ensures Valid(EncodeNode(n)) <==> WellFormed(n)
  {
    match n
    case Text(_) =>
    case Element(tag, attrs, children) =>
      var members := EncodeNode(n).members;
      var items := members[2].1.items;
      assert DistinctKeys(members);
      var a := EncodeAttrs(attrs);
      assert Valid(JObj(a)) <==> DistinctNames(attrs) by {
        assert forall i :: 0 <= i < |a| ==> Valid(a[i].1);
      }
      forall i | 0 <= i < |children|
        ensures Valid(items[i]) <==> WellFormed(children[i])
      {
        EncodeValid(children[i]);
      }
      assert Valid(members[2].1) <==> forall i :: 0 <= i < |children| ==> WellFormed(children[i]);
  }

  /** An object without repeated keys decodes to an attribute list without repeated names. */
  lemma AttrsWellFormed(members: seq<(string, Json)>)
    requires DistinctKeys(members)
    ensures DecodeAttrMembers(members).Value? ==> DistinctNames(DecodeAttrMembers(members).v)
  {
  }

  /** A node decoded from a tree Gson can hold has map attributes throughout. */
  lemma {:induction false} DecodeWellFormed(j: Json)
    decreases j, 1
    requires Valid(j)
    ensures DecodeNode(j).Value? ==> WellFormed(DecodeNode(j).v)
  {
    match j
    case JObj(members) =>
      var r := DecodeNode(j);
      if r.Value? {
        var attrsJson := Get(members, "attrs");
        if attrsJson.Some? && attrsJson.value.JObj? {
          var i :| 0 <= i < |members| && members[i] == ("attrs", attrsJson.value);
          AttrsWellFormed(attrsJson.value.members);
        }
        match Find(members, "children")
        case None =>
        case Some(c) =>
          if members[c].1.JArr? {
            DecodeItemsWellFormed(members[c].1.items);
          }
      }
    case _ =>
  }

  lemma {:induction false} DecodeItemsWellFormed(items: seq<Json>)
    decreases items, 0
    requires forall i :: 0 <= i < |items| ==> Valid(items[i])
    ensures DecodeItems(items).Value? ==>
      forall i :: 0 <= i < |items| ==> WellFormed(DecodeItems(items).v[i])
  {
    forall i | 0 <= i < |items|
      ensures DecodeNode(items[i]).Value? ==> WellFormed(DecodeNode(items[i]).v)
    {
      DecodeWellFormed(items[i]);
    }
  }

  // ---------------------------------------------------------------------------
  // The paragraph the node tests use: a text child and a link.

  const PostUrl := "https://m.habrahabr.ru/post/335876/"

  function Paragraph(): Node {
    Element("p", [], [Text("text content"),
                      Element("a", [("href", PostUrl), ("target", "_blank")], [Text(PostUrl)])])
  }

  /** The paragraph as a JSON tree, member by member. */
  function ParagraphJson(): Json {
    JObj([("tag", JStr("p")),
          ("attrs", JObj([])),
          ("children", JArr([JStr("text content"),
                             JObj([("tag", JStr("a")),
                                   ("attrs", JObj([("href", JStr(PostUrl)), ("target", JStr("_blank"))])),
                                   ("children", JArr([JStr(PostUrl)]))])]))])
  }

  /** The serializer writes the paragraph as that tree. */
  lemma ParagraphEncodes()
    ensures EncodeNode(Paragraph()) == ParagraphJson()
  {
    var link := Paragraph().children[1];
    assert EncodeAttrs(link.attrs) == [("href", JStr(PostUrl)), ("target", JStr("_blank"))];
    var linkJson := ParagraphJson().members[2].1.items[1];
    assert EncodeNode(link).members[2].1.items == [JStr(PostUrl)];
    assert EncodeNode(link).members == linkJson.members;
    assert EncodeNode(Paragraph()).members[2].1.items == ParagraphJson().members[2].1.items;
    assert EncodeNode(Paragraph()).members == ParagraphJson().members;
  }

  /** The tree reads back as the paragraph. */
  lemma ParagraphDecodes()
    ensures DecodeNode(ParagraphJson()) == Value(Paragraph())
  {
    ParagraphEncodes();
    RoundTrip(Paragraph());
  }

  /** A two-element array of the tree reads back as a two-element list. */
  lemma ParagraphListDecodes()
    ensures DecodeNodeList(JArr([ParagraphJson(), ParagraphJson()])) == Value([Paragraph(), Paragraph()])
  {
    var n := Paragraph();
    ParagraphEncodes();
    ChildrenRoundTrip([n, n], [EncodeNode(n), EncodeNode(n)]);
  }
}
