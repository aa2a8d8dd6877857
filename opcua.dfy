/**
  The part of the OPC UA client library that the node-tree walk consults,
  reduced to data. A library node handle is replaced by a finite value that
  carries what the walk asks the library for: the display name's text, the
  node class, the ordered list of children, and whether the object is an
  instance of the library's Node class at all. Being a finite inductive
  value, a node can never reach itself through its children.
*/
module OpcUa {

  /** The node classes an OPC UA address space distinguishes. */
  datatype NodeClass =
    | Unspecified
    | Object
    | Variable
    | Method
    | ObjectType
    | VariableType
    | ReferenceType
    | DataType
    | View

  /**
    A child as enumerated by the server. `isNode` is false for an object
    the library hands back that is not a Node instance; such an object
    still has a display name, and its class and children are never asked for.
  */
  datatype Node = Node(
    displayName: string,
    isNode: bool,
    nodeClass: NodeClass,
    children: seq<Node>)

}
