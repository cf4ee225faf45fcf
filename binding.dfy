/**
  * The boundary to the accessibility API. Every `AX.*` call that lib/AXElements/Element.rb
  * makes is a function-valued field of `Binding`: the model fixes what the core does with
  * the answers, not what the answers are.
  */
module Binding {
  import opened Wrappers
  import opened NameMatch

  /** An opaque reference to a node of the external accessibility tree. */
  type NodeId = nat

  /**
    * An attribute value as the binding hands it back: `nil`, a scalar, one element, or an
    * array of elements. Search results are values of the same kind, so a filter can compare
    * either with the value the caller gave.
    */
  datatype Value =
    | Nil
    | Bool(b: bool)
    | Int(i: int)
    | Str(s: string)
    | Ref(id: NodeId)
    | Refs(ids: seq<NodeId>)

  /** The exceptions the core raises, tagged with the name the caller gave. */
  datatype AxError =
    | NotAnAttribute(name: string)        // ArgumentError "... is not an attribute"
    | NotAnAction(name: string)           // ArgumentError "... is not an action"
    | NotAParamAttribute(name: string)    // ArgumentError "... is not a parameterized attribute"
    | NotWritable(name: string)           // ArgumentError "... not writable"
    | NoMethod(name: string)              // NoMethodError from `super` in method_missing

  /** An attribute write handed to the binding (`AX.set_attr_of_element`). */
  datatype WriteCall = WriteCall(target: NodeId, attribute: string, value: Value)

  /**
    * The binding's answers. `height` is not something the source reads: it bounds the depth
    * of the finite tree below each node and exists only to state that the tree is finite.
    */
  datatype Binding = Binding(
    attrsOf: NodeId -> seq<string>,              // AX.attrs_of_element
    actionsOf: NodeId -> seq<string>,            // AX.actions_of_element
    paramAttrsOf: NodeId -> seq<string>,         // AX.param_attrs_of_element
    pidOf: NodeId -> int,                        // AX.pid_of_element
    attrOf: (NodeId, string) -> Value,           // AX.attr_of_element
    paramAttrOf: (NodeId, string, Value) -> Value, // AX.param_attr_of_element
    writable: string -> bool,                    // AX.attr_of_element_writable?
    performOf: (NodeId, string) -> bool,         // AX.perform_action_of_element
    classOf: NodeId -> string,                   // the AX::Element subclass the binding wraps a node in
    pluralConstGet: string -> Option<string>,    // AX.plural_const_get (nil when unknown)
    camelize: string -> string,                  // String#camelize!
    ghost height: NodeId -> nat)

  /** The exact name of the children attribute (KAXChildrenAttribute), "AXChildren". */
  const ChildrenAttribute: string := "AX" + "Children"

  /** The elements an array-valued attribute holds; anything else holds none. */
  function ElementsOf(v: Value): seq<NodeId>
  {
    if v.Refs? then v.ids else []
  }

  /**
    * The children a dequeued node contributes to the search queue (Element.rb:115-117):
    * nothing unless its attribute list holds the exact children attribute; otherwise the
    * elements of `get_attribute :children`, which reads the first attribute that answers
    * to the short name "children".
    */
  function Kids(w: Binding, n: NodeId): seq<NodeId>
  {
    var attrs := w.attrsOf(n);
    if ChildrenAttribute !in attrs then []
    else
      match ConstantFor("children", attrs)
      case Some(a) => ElementsOf(w.attrOf(n, a))
      case None => []   // cannot happen: "AXChildren" answers to "children" (KidsReadsChildren)
  }

  /** The root's children as search reads them: the exact children attribute (Element.rb:106). */
  function RootChildren(w: Binding, root: NodeId): seq<NodeId>
  {
    ElementsOf(w.attrOf(root, ChildrenAttribute))
  }

  /**
    * A node with the exact children attribute contributes the elements of the first of its
    * attributes that answers to "children"; such an attribute always exists.
    */
  lemma KidsReadsChildren(w: Binding, n: NodeId)
    requires ChildrenAttribute in w.attrsOf(n)
    ensures ConstantFor("children", w.attrsOf(n)).Some?
    ensures Kids(w, n) == ElementsOf(w.attrOf(n, ConstantFor("children", w.attrsOf(n)).value))
  {
    ChildrenMatchesAXChildren();
    ConstantForSpec("children", w.attrsOf(n));
  }

  /** A node without the exact children attribute contributes nothing, whatever else it lists. */
  lemma NoChildrenAttributeNoKids(w: Binding, n: NodeId)
    requires ChildrenAttribute !in w.attrsOf(n)
    ensures Kids(w, n) == []
  {
  }
}
