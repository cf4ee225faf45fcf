/**
  * `AX::Element` (lib/AXElements/Element.rb): a wrapper around one node of the external
  * accessibility tree. The attribute-name list is a snapshot taken when the wrapper is made;
  * the action names, parameterised-attribute names and process id are fetched on first use
  * and kept. The binding `w` passed to each operation is the state of the accessibility API
  * at the moment of the call, so a cached answer can differ from what `w` would give now.
  */
module AXElement {
  import opened Wrappers
  import opened NameMatch
  import opened Binding
  import opened BreadthFirst
  import opened ElementSearch

  lemma PrependTwice(done: seq<NodeId>, node: NodeId, rest: Result<seq<NodeId>, AxError>)
    ensures Prepend(done, Prepend([node], rest)) == Prepend(done + [node], rest)
  {
    if rest.Ok? {
      assert done + ([node] + rest.value) == (done + [node]) + rest.value;
    }
  }

  class Element {
    /** The external node this wrapper stands for. */
    const ref: NodeId
    /** The attribute names, as the binding listed them when the wrapper was made. */
    const attributes: seq<string>

    /** `@actions`, `@param_attributes`, `@pid`: None until first fetched. */
    var actionsCache: Option<seq<string>>
    var paramAttributesCache: Option<seq<string>>
    var pidCache: Option<int>

    /** How many times each cached value has been fetched from the binding. */
    ghost var actionFetches: nat
    ghost var paramAttributeFetches: nat
    ghost var pidFetches: nat

    /** Every cache is fetched at most once, and exactly once when it is filled. */
    ghost predicate Valid()
      reads this
    {
      && actionFetches == (if actionsCache.Some? then 1 else 0)
      && paramAttributeFetches == (if paramAttributesCache.Some? then 1 else 0)
      && pidFetches == (if pidCache.Some? then 1 else 0)
    }

    /** `initialize`: wraps the node and takes the snapshot of its attribute names (Element.rb:10-13). */
    constructor (w: Binding, element: NodeId)
      ensures ref == element && attributes == w.attrsOf(element)
      ensures actionsCache == None && paramAttributesCache == None && pidCache == None
      ensures Valid()
    {
      ref := element;
      attributes := w.attrsOf(element);
      actionsCache := None;
      paramAttributesCache := None;
      pidCache := None;
      actionFetches := 0;
      paramAttributeFetches := 0;
      pidFetches := 0;
    }

    /** `actions`: fetched on the first call only; later calls give the cached list. */
    method Actions(w: Binding) returns (r: seq<string>)
      requires Valid()
      modifies this
      ensures Valid()
      ensures r == (if old(actionsCache).Some? then old(actionsCache).value else w.actionsOf(ref))
      ensures actionsCache == Some(r)
      ensures old(actionsCache).Some? ==> actionFetches == old(actionFetches)
      ensures paramAttributesCache == old(paramAttributesCache) && pidCache == old(pidCache)
    {
      if actionsCache.None? {
        actionsCache := Some(w.actionsOf(ref));
        actionFetches := actionFetches + 1;
      }
      r := actionsCache.value;
    }

    /** `param_attributes`: fetched on the first call only. */
    method ParamAttributes(w: Binding) returns (r: seq<string>)
      requires Valid()
      modifies this
      ensures Valid()
      ensures r == (if old(paramAttributesCache).Some? then old(paramAttributesCache).value else w.paramAttrsOf(ref))
      ensures paramAttributesCache == Some(r)
      ensures old(paramAttributesCache).Some? ==> paramAttributeFetches == old(paramAttributeFetches)
      ensures actionsCache == old(actionsCache) && pidCache == old(pidCache)
    {
      if paramAttributesCache.None? {
        paramAttributesCache := Some(w.paramAttrsOf(ref));
        paramAttributeFetches := paramAttributeFetches + 1;
      }
      r := paramAttributesCache.value;
    }

    /** `pid`: fetched on the first call only (a process id is never nil). */
    method Pid(w: Binding) returns (r: int)
      requires Valid()
      modifies this
      ensures Valid()
      ensures r == (if old(pidCache).Some? then old(pidCache).value else w.pidOf(ref))
      ensures pidCache == Some(r)
      ensures old(pidCache).Some? ==> pidFetches == old(pidFetches)
      ensures actionsCache == old(actionsCache) && paramAttributesCache == old(paramAttributesCache)
    {
      if pidCache.None? {
        pidCache := Some(w.pidOf(ref));
        pidFetches := pidFetches + 1;
      }
      r := pidCache.value;
    }

    /**
      * `attribute_for`: the first attribute name, in the order the element lists them, that
      * answers to `name`.
      */
    function AttributeFor(name: string): (r: Option<string>)
      ensures r.None? <==> forall i :: 0 <= i < |attributes| ==> !Matches(name, attributes[i])
      ensures r.Some? ==> r.value in attributes && Matches(name, r.value)
      ensures r.Some? ==>
        exists i :: 0 <= i < |attributes| && attributes[i] == r.value &&
          forall j :: 0 <= j < i ==> !Matches(name, attributes[j])
    {
      ConstantForSpec(name, attributes);
      ConstantFor(name, attributes)
    }

    /** `action_for`: resolves against the cached action names, fetching them on first use. */
    method ActionFor(w: Binding, name: string) returns (r: Option<string>)
      requires Valid()
      modifies this
      ensures Valid()
      ensures actionsCache.Some? && r == ConstantFor(name, actionsCache.value)
      ensures actionsCache == Some(if old(actionsCache).Some? then old(actionsCache).value else w.actionsOf(ref))
      ensures paramAttributesCache == old(paramAttributesCache) && pidCache == old(pidCache)
    {
      var actions := Actions(w);
      r := ConstantFor(name, actions);
    }

    /** `param_attribute_for`: resolves against the cached parameterised-attribute names. */
    method ParamAttributeFor(w: Binding, name: string) returns (r: Option<string>)
      requires Valid()
      modifies this
      ensures Valid()
      ensures paramAttributesCache.Some? && r == ConstantFor(name, paramAttributesCache.value)
      ensures paramAttributesCache ==
        Some(if old(paramAttributesCache).Some? then old(paramAttributesCache).value else w.paramAttrsOf(ref))
      ensures actionsCache == old(actionsCache) && pidCache == old(pidCache)
    {
      var names := ParamAttributes(w);
      r := ConstantFor(name, names);
    }

    /**
      * `get_attribute`: ArgumentError when no attribute answers to `name`; otherwise the
      * value of the first attribute that does.
      */
    function GetAttribute(w: Binding, name: string): (r: Result<Value, AxError>)
      ensures r.Err? <==> forall i :: 0 <= i < |attributes| ==> !Matches(name, attributes[i])
      ensures r.Err? ==> r.error == NotAnAttribute(name)
      ensures r.Ok? ==>
        exists i :: 0 <= i < |attributes| && Matches(name, attributes[i]) &&
          (forall j :: 0 <= j < i ==> !Matches(name, attributes[j])) &&
          r.value == w.attrOf(ref, attributes[i])
    {
      ConstantForSpec(name, attributes);
      var a := ConstantFor(name, attributes);
      if a.None? then Err(NotAnAttribute(name)) else Ok(w.attrOf(ref, a.value))
    }

    /**
      * `perform_action`: ArgumentError when no cached action answers to `name`; otherwise
      * the binding's answer for the first action that does.
      */
    method PerformAction(w: Binding, name: string) returns (r: Result<bool, AxError>)
      requires Valid()
      modifies this
      ensures Valid()
      ensures actionsCache == Some(if old(actionsCache).Some? then old(actionsCache).value else w.actionsOf(ref))
      ensures var actions := actionsCache.value;
        && (r.Err? <==> forall i :: 0 <= i < |actions| ==> !Matches(name, actions[i]))
        && (r.Err? ==> r.error == NotAnAction(name))
        && (r.Ok? ==>
              exists i :: 0 <= i < |actions| && Matches(name, actions[i]) &&
                (forall j :: 0 <= j < i ==> !Matches(name, actions[j])) &&
                r.value == w.performOf(ref, actions[i]))
      ensures paramAttributesCache == old(paramAttributesCache) && pidCache == old(pidCache)
    {
      var action := ActionFor(w, name);
      ConstantForSpec(name, actionsCache.value);
      if action.None? {
        r := Err(NotAnAction(name));
      } else {
        r := Ok(w.performOf(ref, action.value));
      }
    }

    /**
      * `get_param_attribute`: ArgumentError when no cached parameterised attribute answers to
      * `name`; otherwise the binding's answer for the first one that does, with `param`.
      */
    method GetParamAttribute(w: Binding, name: string, param: Value) returns (r: Result<Value, AxError>)
      requires Valid()
      modifies this
      ensures Valid()
      ensures paramAttributesCache ==
        Some(if old(paramAttributesCache).Some? then old(paramAttributesCache).value else w.paramAttrsOf(ref))
      ensures var names := paramAttributesCache.value;
        && (r.Err? <==> forall i :: 0 <= i < |names| ==> !Matches(name, names[i]))
        && (r.Err? ==> r.error == NotAParamAttribute(name))
        && (r.Ok? ==>
              exists i :: 0 <= i < |names| && Matches(name, names[i]) &&
                (forall j :: 0 <= j < i ==> !Matches(name, names[j])) &&
                r.value == w.paramAttrOf(ref, names[i], param))
      ensures actionsCache == old(actionsCache) && pidCache == old(pidCache)
    {
      var attribute := ParamAttributeFor(w, name);
      ConstantForSpec(name, paramAttributesCache.value);
      if attribute.None? {
        r := Err(NotAParamAttribute(name));
      } else {
        r := Ok(w.paramAttrOf(ref, attribute.value, param));
      }
    }

    /**
      * `set_attribute` as written: ArgumentError when no attribute answers to `name` or the
      * resolved attribute is not writable; otherwise the write is handed to the binding and
      * the value given is returned. The write names the caller's short name (Element.rb:73),
      * not the resolved attribute.
      */
    function SetAttribute(w: Binding, name: string, value: Value): (r: Result<(Value, WriteCall), AxError>)
      ensures r.Err? <==> AttributeFor(name).None? || !w.writable(AttributeFor(name).value)
      ensures (forall i :: 0 <= i < |attributes| ==> !Matches(name, attributes[i])) ==> r == Err(NotAnAttribute(name))
      ensures r.Err? && AttributeFor(name).Some? ==> r == Err(NotWritable(name))
      ensures r.Ok? ==> r.value == (value, WriteCall(ref, name, value))
    {
      match AttributeFor(name)
      case None => Err(NotAnAttribute(name))
      case Some(a) =>
        if !w.writable(a) then Err(NotWritable(name))
        else Ok((value, WriteCall(ref, name, value)))
    }

    /**
      * `set_attribute` as evidently intended: the same checks, but the write names the
      * resolved attribute, which the element has and which answers to `name`.
      */
    function SetAttributeResolved(w: Binding, name: string, value: Value): (r: Result<(Value, WriteCall), AxError>)
      ensures r.Err? <==> SetAttribute(w, name, value).Err?
      ensures r.Err? ==> r == SetAttribute(w, name, value)
      ensures r.Ok? ==>
        && r.value.0 == value
        && r.value.1.target == ref && r.value.1.value == value
        && r.value.1.attribute in attributes && Matches(name, r.value.1.attribute)
        && w.writable(r.value.1.attribute)
        && AttributeFor(name) == Some(r.value.1.attribute)
    {
      match AttributeFor(name)
      case None => Err(NotAnAttribute(name))
      case Some(a) =>
        if !w.writable(a) then Err(NotWritable(name))
        else Ok((value, WriteCall(ref, a, value)))
    }

    /**
      * `respond_to?`: true when some attribute answers to `name`, otherwise whatever the
      * inherited `respond_to?` says. Search names are not reported.
      */
    function RespondTo(name: string, inherited: bool): (r: bool)
      ensures r <==> (exists i :: 0 <= i < |attributes| && Matches(name, attributes[i])) || inherited
    {
      AttributeFor(name).Some? || inherited
    }

    /**
      * `method_missing`: the attribute when `name` resolves against the snapshot, else a
      * search below this element when it has children, else unresolved (`super`).
      */
    method MethodMissing(w: Binding, name: string, filters: seq<(string, Value)>) returns (r: Result<Outcome, AxError>)
      requires WellFounded(w)
      decreases |filters|, 4
      ensures r == Dispatch(w, ref, attributes, name, filters)
    {
      var attr := AttributeFor(name);
      if attr.Some? {
        return Ok(AttributeValue(w.attrOf(ref, attr.value)));
      }
      if ChildrenAttribute in attributes {
        var found := Search(w, name, filters);
        match found
        case Ok(v) => return Ok(SearchResult(v));
        case Err(e) => return Err(e);
      }
      return Ok(Unresolved);
    }

    /**
      * `element.send(key)` with no arguments: Element defines no method of that name, so it
      * is `method_missing`, whose `super` raises NoMethodError.
      */
    method Send(w: Binding, key: string) returns (r: Result<Value, AxError>)
      requires WellFounded(w)
      requires attributes == w.attrsOf(ref)
      decreases 0, 5
      ensures r == ElementSearch.Send(w, ref, key)
    {
      var outcome := MethodMissing(w, key, []);
      match outcome
      case Ok(AttributeValue(v)) => r := Ok(v);
      case Ok(SearchResult(v)) => r := Ok(v);
      case Ok(Unresolved) => r := Err(NoMethod(key));
      case Err(e) => r := Err(e);
    }

    /** `filters.find { |f, v| send(f) != v }` is nil: every filter compares equal (Element.rb:120). */
    method Passes(w: Binding, filters: seq<(string, Value)>) returns (r: Result<bool, AxError>)
      requires WellFounded(w)
      requires attributes == w.attrsOf(ref)
      decreases |filters|, 2
      ensures r == FiltersPass(w, ref, filters)
    {
      var i := 0;
      while i < |filters|
        invariant 0 <= i <= |filters|
        invariant FiltersPass(w, ref, filters) == FiltersPass(w, ref, filters[i..])
      {
        assert filters[i..][0] == filters[i] && filters[i..][1..] == filters[i + 1..];
        var v := Send(w, filters[i].0);
        if v.Err? {
          return Err(v.error);
        }
        if v.value != filters[i].1 {
          return Ok(false);
        }
        i := i + 1;
      }
      return Ok(true);
    }

    /**
      * `search`: breadth-first over the nodes below this element. The queue starts with the
      * exact children attribute of this element; each dequeued node is wrapped, its children
      * enqueued when it lists the children attribute, and it is kept when its class is the
      * resolved type and every filter compares equal. A singular search returns the first
      * node kept; a plural one collects them all.
      */
    /**
      * The nodes the search enqueues below this element: its children, read through the
      * fuzzy `get_attribute :children`, when it lists the exact children attribute, and
      * nothing otherwise.
      */
    method ChildElements(w: Binding) returns (below: seq<NodeId>)
      requires attributes == w.attrsOf(ref)
      ensures below == Kids(w, ref)
    {
      below := [];
      if ChildrenAttribute in attributes {
        KidsReadsChildren(w, ref);
        var children := GetAttribute(w, "children");
        assert children == Ok(w.attrOf(ref, ConstantFor("children", w.attrsOf(ref)).value));
        below := ElementsOf(children.value);
      }
    }

    method Search(w: Binding, typeName: string, filters: seq<(string, Value)>) returns (r: Result<Value, AxError>)
      requires WellFounded(w)
      decreases |filters|, 3
      ensures r == SearchValue(w, ref, typeName, filters)
    {
      var classConst := w.camelize(typeName);
      var elements := RootChildren(w, ref);
      var results: seq<NodeId> := [];
      var primaryFilter: Option<string> := None;
      ghost var target := w.pluralConstGet(classConst);
      ghost var kids := Children(w);
      ghost var order := SearchOrder(w, ref);
      assert order == Walk(kids, w.height, elements);
      match AllHits(w, order, target, filters) {
        case Ok(hits) => assert [] + hits == hits;
        case Err(_) =>
      }

      while elements != []
        invariant primaryFilter.Some? ==> primaryFilter == target
        invariant IsPlural(classConst) ==>
          AllHits(w, order, target, filters) == Prepend(results, AllHits(w, Walk(kids, w.height, elements), target, filters))
        invariant !IsPlural(classConst) ==>
          FirstHit(w, order, target, filters) == FirstHit(w, Walk(kids, w.height, elements), target, filters)
        decreases QueueSize(kids, w.height, elements)
      {
        var node := elements[0];
        ghost var rest := Walk(kids, w.height, Step(kids, elements));
        assert Walk(kids, w.height, elements) == [node] + rest;
        StepShrinks(kids, w.height, elements);
        ghost var verdict := IsHit(w, node, target, filters);
        AllHitsCons(w, node, rest, target, filters);
        FirstHitCons(w, node, rest, target, filters);

        var element := new Element(w, node);
        if primaryFilter.None? {
          primaryFilter := w.pluralConstGet(classConst);
        }

        var below := element.ChildElements(w);
        elements := elements[1..] + below;

        if primaryFilter == Some(w.classOf(node)) {
          var pass := element.Passes(w, filters);
          assert pass == verdict;
          if pass.Err? {
            return Err(pass.error);
          }
          if pass.value {
            if !IsPlural(classConst) {
              return Ok(Ref(node));
            }
            PrependTwice(results, node, AllHits(w, rest, target, filters));
            results := results + [node];
          }
        } else {
          assert verdict == Ok(false);
        }
      }
      if IsPlural(classConst) {
        assert results + [] == results;
        return Ok(Refs(results));
      }
      return Ok(Nil);
    }
  }

  /**
    * Finding, as written: resolving "title" against the attribute "AXTitle" succeeds, yet
    * the write handed to the binding names "title", which the element does not list.
    */
  lemma SetAttributeWritesShortName(e: Element, w: Binding, value: Value)
    requires e.attributes == ["AX" + "Title"]
    requires w.writable("AX" + "Title")
    ensures e.SetAttribute(w, "title", value) == Ok((value, WriteCall(e.ref, "title", value)))
    ensures "title" !in e.attributes
    ensures e.SetAttributeResolved(w, "title", value) == Ok((value, WriteCall(e.ref, "AX" + "Title", value)))
  {
    TitleResolves(e);
  }

  /** "title" resolves to "AXTitle" on an element whose only attribute is "AXTitle". */
  lemma TitleResolves(e: Element)
    requires e.attributes == ["AX" + "Title"]
    ensures e.AttributeFor("title") == Some("AX" + "Title")
  {
    FoldedTitle();
    MatchesBySuffix("title", "AX" + "Title", "AX", "Title");
    FirstCandidateWins("title", "AX" + "Title", []);
    assert ["AX" + "Title"] + [] == ["AX" + "Title"];
  }

  /** `respond_to?` without the inherited answer is true exactly when dispatch reads an attribute. */
  lemma RespondsExactlyToAttributes(e: Element, w: Binding, name: string, filters: seq<(string, Value)>)
    requires WellFounded(w)
    ensures e.RespondTo(name, false) <==>
      (Dispatch(w, e.ref, e.attributes, name, filters).Ok? &&
       Dispatch(w, e.ref, e.attributes, name, filters).value.AttributeValue?)
  {
    ConstantForSpec(name, e.attributes);
  }
}
