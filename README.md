# pymovicon node-tree model

pymovicon wraps an OPC UA client so that a script can talk to the IO server
of the Movicon SCADA product. Its `IOServer` class builds the endpoint URL
`opc.tcp://<hostname>:<port>` (port 62841 by default). On `connect` it walks
the server's node tree into a nested dictionary keyed by display name.
`get_tags` hands back the `Objects` entry of that dictionary.

This project models that logic in Dafny:

- `OpcUa` (`opcua.dfy`): a library node handle reduced to a finite value.
  It has a display name, an "is a Node instance" flag, an OPC UA node
  class and an ordered list of children.
- `NodeTree` (`node_tree.dfy`): the dictionary of `_get_nodes` as a
  reference definition, `Walk`. It is a left fold, in enumeration order,
  of dictionary assignments over the children. The lemmas cover the key
  set, the leaf/branch classification, last-write-wins, the empty case
  and the size.
- `Decimal` (`decimal.dfy`): the decimal text Python gives an `int` in an
  f-string, and a parser that reads it back.
- `Movicon` (`movicon.dfy`): the `IOServer` class.
  - Its constructor sets the URL and the empty initial state.
  - `Connect` takes the outcome of the network session as a parameter.
  - `GetTags` looks up `Objects`.
  - `GetNodes` is the loop of `_get_nodes` with its recursive call. It is
    proved equal to `Walk`.

The walk descends into every Node child whose class is not `Variable`, so
`Method`, `View` and the other classes become branches. It stores a child
that is not a Node instance as a leaf, so not every leaf is a variable node.

## Model

| member | source | states |
|---|---|---|
| `Movicon.IOServer.GetNodes` | movicon.py:70-88 | the loop-and-recursion version of the walk returns exactly the reference dictionary `Walk(node)` |
| `NodeTree.WalkKeys` | movicon.py:78-88 | the dictionary's keys are exactly the display names of the node's direct children; children with equal names give one key |
| `NodeTree.LastWins` | movicon.py:79-87 | the entry under a name is what the last child enumerated with that name contributes (later siblings overwrite earlier ones) |
| `NodeTree.EntryOrigin` | movicon.py:79-87 | every entry was contributed by the last child enumerated under its key |
| `NodeTree.VariableChildIsLeaf` | movicon.py:81-83 | a Node child of class Variable is stored as the child handle itself, not as a sub-dictionary |
| `NodeTree.ContainerChildIsBranch` | movicon.py:84-85 | a Node child of any other class is stored as the dictionary obtained by walking that child |
| `NodeTree.ForeignChildIsLeaf` | movicon.py:86-87 | a child that is not a Node instance is stored as a leaf under its display name and never walked, whatever class it reports |
| `NodeTree.EntryShape` | movicon.py:79-87 | every leaf holds a child of that name that is a Variable or not a Node; every branch holds the walk of a child of that name that is a Node of another class |
| `NodeTree.EmptyIffNoChildren` | movicon.py:78-88 | the dictionary is empty if and only if the node has no children |
| `NodeTree.WalkSize` | movicon.py:78-88 | the dictionary has at most one key per child, and exactly one per child when the display names are distinct |
| `Movicon.TemperatureAndMotors` | movicon.py:78-88 | a root with a Temperature variable and a Motors folder holding Motor1 gives {Temperature: handle, Motors: {Motor1: handle}} |
| `Movicon.EndpointUrl` | movicon.py:24 | the URL is the `opc.tcp://` scheme, then the host name, then ':', then the port's decimal text |
| `Movicon.EndpointRoundTrip` | movicon.py:24 | the host name and the port can be read back from the URL unchanged, even when the host name holds colons |
| `Movicon.DefaultEndpoint` | movicon.py:21-24 | with the default port the URL is `opc.tcp://<hostname>:62841` |
| `Decimal.IntToString` | movicon.py:24 | the port's text has no ':', starts with '-' exactly for negative ports, is digits after that sign, and has no leading zero except for the port 0 itself |
| `Decimal.IntRoundTrip` | movicon.py:24 | parsing the port's decimal text gives back the port |
| `Movicon.IOServer.constructor` | movicon.py:21-29 | a fresh server keeps host name and port, has the URL built from them, no root node, and empty node, tag and alarm dictionaries |
| `Movicon.IOServer.Connect` | movicon.py:31-47 | true exactly when the session succeeds. Then the root is recorded and the node dictionary is the walk of the root. A failure to connect changes nothing. A failure inside the walk records only the root. Tags and alarms stay empty |
| `Movicon.IOServer.GetTags` | movicon.py:49-54 | the value stored under `Objects` when that key is present, otherwise the KeyError Python raises |
| `Movicon.TagsPresentIffObjectsChild` | movicon.py:40-54 | after a walk of the root, `Objects` is present exactly when the root has a child displayed as `Objects` |
| `Movicon.TagsAreObjectsSubtree` | movicon.py:40-54 | when the last such child is a container node, the tags are the walk of that child |

## Left out

- Network session: opening it, creating the client object (movicon.py:25) and fetching the root node are library calls. `Connect` receives their outcome as a `SessionEvent` parameter.
- Exceptions inside the walk: an exception raised by a library call during the walk is the `WalkInterrupted` outcome. The partial dictionary is dropped, as in the source. Where inside the walk the exception happened is not modelled.
- `set_tag` (movicon.py:55-68): it only forwards to the library. The type lookup (movicon.py:64) runs outside the `try`, so an exception from it reaches the caller. Only an exception from `set_value` (movicon.py:65-68) is caught and printed. There is no logic of the repository's own.
- The printed diagnostics (movicon.py:42-45, 68).
- The OPC UA library's `get_children`, `get_display_name` and `get_node_class`: they are fields of `OpcUa.Node`. Their answers are assumed stable, so the two reads of the display name (movicon.py:80 and 83) agree.
- Reference cycles in the server's graph: a finite datatype cannot express them. The source has no guard against them either.
- Key order of the Python dictionaries: Dafny maps are unordered, so the insertion order of keys is not captured. The value kept under each key is captured.
- Types: `hostname` is a string and `port` an integer. Python would format any object placed there.
- `alarms` and `tags`: never written after construction. The model proves they stay empty and says nothing more about them.
- Movicon.IOServer.constructor: `hostname`, `port` and `url` are constants, so the URL always matches them. In Python they are writable attributes; after a caller reassigns `hostname` or `port`, `_url` and the client object keep the values from construction (movicon.py:22-25). The model does not capture that reassignment.
- Movicon.IOServer.GetTags: it returns the `Objects` entry as a value. Python returns the very dictionary held in `_opcua_nodes` (movicon.py:54), so a caller who mutates the result also mutates the server's map. The model does not capture that aliasing.
- setup.py: packaging only.
