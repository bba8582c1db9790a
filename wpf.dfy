/** Plain-data stand-ins for the WPF objects that the style-key lookup reads.
    Nothing here changes during a lookup: the lookup is a read-only traversal. */
module Wpf {

  datatype Option<+T> = None | Some(value: T)

  /** Object identity: two references denote the same object exactly when their ids agree. */
  type ObjId = nat

  /** The runtime type of an object, as far as the lookup tells types apart. */
  datatype Kind = StyleKind | DependencyObjectKind | OtherKind

  /** A non-null object: its identity, its runtime type and its IsSealed flag. */
  datatype Obj = Obj(id: ObjId, kind: Kind, sealed: bool)

  /** A possibly-null reference held as a dictionary value; only its identity matters. */
  datatype Value = Null | Ref(id: ObjId)

  /** One (key, value) pair of a resource dictionary; keys are their string form. */
  datatype Entry = Entry(key: string, value: Value)

  /** A resource dictionary: its own entries in enumeration order, then its merged
      dictionaries in declared order (an absent merge list is the empty one). */
  datatype Dict = Dict(entries: seq<Entry>, merged: seq<Dict>)

  /** Identity of a node of the element tree. */
  type NodeId = nat

  /** A node of the element tree: a FrameworkElement, with its Style, its Resources, its
      logical parent and its visual parent, or some other Visual, of which only the visual
      parent is read. */
  datatype Node =
    | FrameworkElement(style: Option<Obj>, resources: Dict,
                       logicalParent: Option<NodeId>, visualParent: Option<NodeId>)
    | OtherNode(visualParent: Option<NodeId>)

  /** Everything the lookup can see: the element tree and the resources of the running
      Application, if there is one. */
  datatype World = World(nodes: map<NodeId, Node>, application: Option<Dict>)

  /** Every parent reference names a node of the tree, and every Style property holds a Style. */
  predicate WellFormed(w: World) {
    forall n | n in w.nodes ::
      (w.nodes[n].visualParent.Some? ==> w.nodes[n].visualParent.value in w.nodes) &&
      (w.nodes[n].FrameworkElement? ==>
         (w.nodes[n].logicalParent.Some? ==> w.nodes[n].logicalParent.value in w.nodes) &&
         (w.nodes[n].style.Some? ==> w.nodes[n].style.value.kind == StyleKind))
  }
}
