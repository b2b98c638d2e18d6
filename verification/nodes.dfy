/**
  The parsed markup the sanitizer's transformers see: an element with its
  attribute values and ordered children, or a run of text. A transformer
  answers with the nodes that take the visited node's place among its
  siblings: the node itself (possibly changed), its children (`swap`), or
  nothing (`unlink`).
*/
module Nodes {

  datatype Node =
    | Element(name: string, attributes: map<string, string>, children: seq<Node>)
    | Text(content: string)

  predicate IsElementNamed(node: Node, name: string) {
    node.Element? && node.name == name
  }
}
