/**
 * A telegra.ph content node: either a text string or an element with a tag,
 * attributes and child nodes.
 *
 * The attributes are the element's `Map<String, String>`.  Kotlin's `mapOf`
 * and the map Gson builds when it reads one both iterate in insertion order,
 * and that order is what the serializer writes, so the map is kept as an
 * ordered list of (name, value) pairs; a map proper has distinct names
 * (`WellFormed`).
 */
module ContentNode {

  datatype Node =
    | Text(s: string)
    | Element(tag: string, attrs: seq<(string, string)>, children: seq<Node>)

  predicate DistinctNames(attrs: seq<(string, string)>) {
    forall i, k :: 0 <= i < k < |attrs| ==> attrs[i].0 != attrs[k].0
  }

  /** Every attribute list in the tree is a map. */
  predicate WellFormed(n: Node)
    decreases n
  {
    match n
    case Text(_) => true
    case Element(_, attrs, children) =>
      DistinctNames(attrs) && forall i :: 0 <= i < |children| ==> WellFormed(children[i])
  }
}
