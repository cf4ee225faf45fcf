/**
  * Breadth-first element search and `method_missing` dispatch as functions of the binding
  * (lib/AXElements/Element.rb:103-156). The imperative search loop itself is
  * `AXElement.Element.Search`, proved equal to `SearchValue` below.
  *
  * Search and dispatch call each other: a filter key is sent to the candidate element,
  * which may answer it by searching below itself with no filters. The recursion is
  * well-founded on (number of filters, level, size of the walk).
  */
module ElementSearch {
  import opened Wrappers
  import opened NameMatch
  import opened Binding
  import opened BreadthFirst

  /** The three ways `method_missing` can end. */
  datatype Outcome =
    | AttributeValue(value: Value)   // the name resolved to an attribute
    | SearchResult(value: Value)     // the name was taken as an element type and searched for
    | Unresolved                     // neither: the source calls `super`

  /** A search is plural when the camelized type name ends in `s` (Element.rb:122, 126). */
  predicate IsPlural(typeName: string)
  {
    |typeName| > 0 && typeName[|typeName| - 1] == 's'
  }

  /** The children the search reads of each node, as a function. */
  function Children(w: Binding): NodeId -> seq<NodeId>
  {
    n => Kids(w, n)
  }

  /**
    * The tree is finite and acyclic: both ways of reading a node's children give only
    * nodes strictly lower than that node.
    */
  ghost predicate WellFounded(w: Binding)
  {
    && Descending(Children(w), w.height)
    && (forall n: NodeId, c: NodeId :: c in RootChildren(w, n) ==> w.height(c) < w.height(n))
  }

  /** The order in which the search loop dequeues the nodes below `root`. */
  function SearchOrder(w: Binding, root: NodeId): seq<NodeId>
    requires WellFounded(w)
  {
    Walk(Children(w), w.height, RootChildren(w, root))
  }

  // ---------------------------------------------------------------------------------------
  // Search and dispatch

  /**
    * `search`: the camelized type name picks the class (`AX.plural_const_get`) and the
    * cardinality; the walk starts from the root's children. A plural search gives every
    * hit in visit order, a singular one the first hit or `nil`.
    */
  function SearchValue(w: Binding, root: NodeId, typeName: string, filters: seq<(string, Value)>)
    : (r: Result<Value, AxError>)
    requires WellFounded(w)
    decreases |filters|, 3, 0
    ensures r.Ok? && IsPlural(w.camelize(typeName)) ==> r.value.Refs?
    ensures r.Ok? && !IsPlural(w.camelize(typeName)) ==> r.value.Nil? || r.value.Ref?
  {
    var classConst := w.camelize(typeName);
    var order := SearchOrder(w, root);
    var target := w.pluralConstGet(classConst);
    if IsPlural(classConst) then
      match AllHits(w, order, target, filters)
      case Ok(hits) => Ok(Refs(hits))
      case Err(e) => Err(e)
    else
      match FirstHit(w, order, target, filters)
      case Ok(Some(n)) => Ok(Ref(n))
      case Ok(None) => Ok(Nil)
      case Err(e) => Err(e)
  }

  /** Every hit of the order, in order; the first filter that raises aborts the scan. */
  function AllHits(w: Binding, order: seq<NodeId>, target: Option<string>, filters: seq<(string, Value)>)
    : (r: Result<seq<NodeId>, AxError>)
    requires WellFounded(w)
    decreases |filters|, 2, |order|
    ensures r.Ok? <==> forall i :: 0 <= i < |order| ==> IsHit(w, order[i], target, filters).Ok?
    ensures r.Ok? ==> |r.value| <= |order|
    ensures r.Ok? ==> forall x :: x in r.value <==> x in order && IsHit(w, x, target, filters) == Ok(true)
  {
    if order == [] then Ok([])
    else
      match IsHit(w, order[0], target, filters)
      case Err(e) => Err(e)
      case Ok(hit) =>
        match AllHits(w, order[1..], target, filters)
        case Err(e) => Err(e)
        case Ok(rest) => Ok(if hit then [order[0]] + rest else rest)
  }

  /** The first hit of the order, or None; a filter that raises before it aborts the scan. */
  function FirstHit(w: Binding, order: seq<NodeId>, target: Option<string>, filters: seq<(string, Value)>)
    : (r: Result<Option<NodeId>, AxError>)
    requires WellFounded(w)
    decreases |filters|, 2, |order|
    ensures r == Ok(None) <==> forall i :: 0 <= i < |order| ==> IsHit(w, order[i], target, filters) == Ok(false)
    ensures r.Ok? && r.value.Some? ==>
      exists i :: 0 <= i < |order| && order[i] == r.value.value &&
        IsHit(w, order[i], target, filters) == Ok(true) &&
        forall j :: 0 <= j < i ==> IsHit(w, order[j], target, filters) == Ok(false)
    ensures r.Err? <==>
      exists i :: 0 <= i < |order| && IsHit(w, order[i], target, filters).Err? &&
        forall j :: 0 <= j < i ==> IsHit(w, order[j], target, filters) == Ok(false)
  {
    if order == [] then Ok(None)
    else
      match IsHit(w, order[0], target, filters)
      case Err(e) => Err(e)
      case Ok(true) => Ok(Some(order[0]))
      case Ok(false) =>
        var rest := FirstHit(w, order[1..], target, filters);
        assert forall i :: 1 <= i < |order| ==> order[i] == order[1..][i - 1];
        assert rest.Ok? && rest.value.Some? ==>
          exists i :: 1 <= i < |order| && order[i] == rest.value.value &&
            IsHit(w, order[i], target, filters) == Ok(true) &&
            forall j :: 1 <= j < i ==> IsHit(w, order[j], target, filters) == Ok(false);
        assert rest.Err? ==>
          exists i :: 1 <= i < |order| && IsHit(w, order[i], target, filters).Err? &&
            forall j :: 1 <= j < i ==> IsHit(w, order[j], target, filters) == Ok(false);
        rest
  }

  /** A node is a hit when its class is the target class and no filter fails (Element.rb:119-120). */
  function IsHit(w: Binding, n: NodeId, target: Option<string>, filters: seq<(string, Value)>)
    : (r: Result<bool, AxError>)
    requires WellFounded(w)
    decreases |filters|, 1, 1
    ensures r != Ok(false) ==> target == Some(w.classOf(n))
  {
    if target != Some(w.classOf(n)) then Ok(false) else FiltersPass(w, n, filters)
  }

  /** `filters.find { |f, v| element.send(f) != v }` is nil: every filter compares equal. */
  function FiltersPass(w: Binding, n: NodeId, filters: seq<(string, Value)>): Result<bool, AxError>
    requires WellFounded(w)
    decreases |filters|, 1, 0
  {
    if filters == [] then Ok(true)
    else
      match Send(w, n, filters[0].0)
      case Err(e) => Err(e)
      case Ok(v) => if v != filters[0].1 then Ok(false) else FiltersPass(w, n, filters[1..])
  }

  /**
    * `element.send(key)` on a freshly wrapped node: `method_missing` with no arguments,
    * whose `super` raises NoMethodError.
    */
  function Send(w: Binding, n: NodeId, key: string): Result<Value, AxError>
    requires WellFounded(w)
    decreases 1, 0, 1
  {
    match Dispatch(w, n, w.attrsOf(n), key, [])
    case Ok(AttributeValue(v)) => Ok(v)
    case Ok(SearchResult(v)) => Ok(v)
    case Ok(Unresolved) => Err(NoMethod(key))
    case Err(e) => Err(e)
  }

  /**
    * `method_missing` on the element `n` whose cached attribute list is `attrs`: an
    * attribute read when the name resolves, else a search when the element has children,
    * else unresolved.
    */
  function Dispatch(w: Binding, n: NodeId, attrs: seq<string>, name: string, filters: seq<(string, Value)>)
    : (r: Result<Outcome, AxError>)
    requires WellFounded(w)
    decreases |filters|, 4, 0
    ensures r == Ok(Unresolved) ==> ChildrenAttribute !in attrs
    ensures r.Err? ==> ChildrenAttribute in attrs
  {
    match ConstantFor(name, attrs)
    case Some(a) => Ok(AttributeValue(w.attrOf(n, a)))
    case None =>
      if ChildrenAttribute in attrs then
        match SearchValue(w, n, name, filters)
        case Ok(v) => Ok(SearchResult(v))
        case Err(e) => Err(e)
      else Ok(Unresolved)
  }

  /** The hits found so far, followed by whatever the rest of the order yields. */
  function Prepend(done: seq<NodeId>, rest: Result<seq<NodeId>, AxError>): Result<seq<NodeId>, AxError>
  {
    match rest
    case Ok(hits) => Ok(done + hits)
    case Err(e) => Err(e)
  }

  /** Prepending twice is prepending the concatenation. */
  lemma PrependPrepend(a: seq<NodeId>, b: seq<NodeId>, rest: Result<seq<NodeId>, AxError>)
    ensures Prepend(a, Prepend(b, rest)) == Prepend(a + b, rest)
  {
    if rest.Ok? {
      assert a + (b + rest.value) == (a + b) + rest.value;
    }
  }

  /** Collecting from a node and then the rest: the node's own verdict comes first. */
  lemma AllHitsCons(w: Binding, n: NodeId, rest: seq<NodeId>, target: Option<string>, filters: seq<(string, Value)>)
    requires WellFounded(w)
    ensures AllHits(w, [n] + rest, target, filters) ==
      match IsHit(w, n, target, filters)
      case Err(e) => Err(e)
      case Ok(hit) => if hit then Prepend([n], AllHits(w, rest, target, filters)) else AllHits(w, rest, target, filters)
  {
    assert ([n] + rest)[0] == n && ([n] + rest)[1..] == rest;
  }

  lemma FirstHitCons(w: Binding, n: NodeId, rest: seq<NodeId>, target: Option<string>, filters: seq<(string, Value)>)
    requires WellFounded(w)
    ensures FirstHit(w, [n] + rest, target, filters) ==
      match IsHit(w, n, target, filters)
      case Err(e) => Err(e)
      case Ok(hit) => if hit then Ok(Some(n)) else FirstHit(w, rest, target, filters)
  {
    assert ([n] + rest)[0] == n && ([n] + rest)[1..] == rest;
  }

  // ---------------------------------------------------------------------------------------
  // Laws of search and dispatch

  /**
    * The filter law: a node is a hit exactly when its class is the target and sending each
    * filter key gives the filter's value. With no filters every node of the type is a hit.
    */
  lemma {:induction false} FilterLaw(w: Binding, n: NodeId, target: Option<string>, filters: seq<(string, Value)>)
    requires WellFounded(w)
    ensures IsHit(w, n, target, filters) == Ok(true) <==>
      target == Some(w.classOf(n)) && forall i :: 0 <= i < |filters| ==> Send(w, n, filters[i].0) == Ok(filters[i].1)
    ensures filters == [] ==> IsHit(w, n, target, filters) == Ok(target == Some(w.classOf(n)))
    ensures target != Some(w.classOf(n)) ==> IsHit(w, n, target, filters) == Ok(false)
  {
    if target == Some(w.classOf(n)) {
      FiltersPassLaw(w, n, filters);
    }
  }

  /** A candidate of the target class passes exactly when every filter compares equal. */
  lemma {:induction false} FiltersPassLaw(w: Binding, n: NodeId, filters: seq<(string, Value)>)
    requires WellFounded(w)
    ensures FiltersPass(w, n, filters) == Ok(true) <==>
      forall i :: 0 <= i < |filters| ==> Send(w, n, filters[i].0) == Ok(filters[i].1)
  {
    if filters != [] {
      FiltersPassLaw(w, n, filters[1..]);
      assert forall i :: 1 <= i < |filters| ==> filters[i] == filters[1..][i - 1];
    }
  }

  /**
    * Filters are tried in the order given and the scan stops at the first key whose value
    * differs (a miss) or whose `send` raises: the check raises exactly when some key raises
    * after every earlier key compared equal; keys after it are never sent.
    */
  lemma {:induction false} FiltersPassRaises(w: Binding, n: NodeId, filters: seq<(string, Value)>)
    requires WellFounded(w)
    ensures FiltersPass(w, n, filters).Err? <==>
      exists i :: 0 <= i < |filters| && Send(w, n, filters[i].0).Err? &&
        forall j :: 0 <= j < i ==> Send(w, n, filters[j].0) == Ok(filters[j].1)
  {
    if filters != [] {
      var rest := filters[1..];
      FiltersPassRaises(w, n, rest);
      assert forall i :: 1 <= i < |filters| ==> filters[i] == rest[i - 1];
      var first := Send(w, n, filters[0].0);
      if first.Err? {
        assert FiltersPass(w, n, filters).Err?;
      } else if first.value != filters[0].1 {
        assert FiltersPass(w, n, filters) == Ok(false);
        assert Send(w, n, filters[0].0) != Ok(filters[0].1);
      } else {
        assert FiltersPass(w, n, filters) == FiltersPass(w, n, rest);
        assert Send(w, n, filters[0].0) == Ok(filters[0].1);
      }
    }
  }

  /** The exception the filter check raises is the one the raising key's `send` raised. */
  lemma {:induction false} FiltersPassRaisesKeyError(w: Binding, n: NodeId, filters: seq<(string, Value)>)
    requires WellFounded(w)
    ensures FiltersPass(w, n, filters).Err? ==>
      exists i :: 0 <= i < |filters| && Send(w, n, filters[i].0) == Err(FiltersPass(w, n, filters).error) &&
        forall j :: 0 <= j < i ==> Send(w, n, filters[j].0) == Ok(filters[j].1)
  {
    if filters != [] {
      var rest := filters[1..];
      FiltersPassRaisesKeyError(w, n, rest);
      assert forall i :: 1 <= i < |filters| ==> filters[i] == rest[i - 1];
      var first := Send(w, n, filters[0].0);
      if first.Err? {
        assert FiltersPass(w, n, filters) == Err(first.error);
      } else if first.value == filters[0].1 {
        assert FiltersPass(w, n, filters) == FiltersPass(w, n, rest);
        assert Send(w, n, filters[0].0) == Ok(filters[0].1);
      }
    }
  }

  /**
    * A filter key that neither resolves to an attribute of the candidate nor can start a
    * search below it raises NoMethodError; the key is not skipped.
    */
  lemma UnresolvableFilterRaises(w: Binding, n: NodeId, target: Option<string>, filters: seq<(string, Value)>)
    requires WellFounded(w)
    requires target == Some(w.classOf(n))
    requires filters != []
    requires forall a :: a in w.attrsOf(n) ==> !Matches(filters[0].0, a)
    requires ChildrenAttribute !in w.attrsOf(n)
    ensures IsHit(w, n, target, filters) == Err(NoMethod(filters[0].0))
  {
    var attrs := w.attrsOf(n);
    var key := filters[0].0;
    assert forall i :: 0 <= i < |attrs| ==> !Matches(key, attrs[i]) by {
      forall i | 0 <= i < |attrs|
        ensures !Matches(key, attrs[i])
      {
        assert attrs[i] in attrs;
      }
    }
    ConstantForSpec(key, attrs);
    assert Dispatch(w, n, attrs, key, []) == Ok(Unresolved);
    assert Send(w, n, key) == Err(NoMethod(key));
  }

  /**
    * Hits are collected in visit order: scanning `a + b` gives the hits of `a` followed by
    * the hits of `b`, and an error in `a` ends the scan before `b` is looked at.
    */
  lemma {:induction false} AllHitsAppend(w: Binding, a: seq<NodeId>, b: seq<NodeId>, target: Option<string>,
                                         filters: seq<(string, Value)>)
    requires WellFounded(w)
    ensures AllHits(w, a + b, target, filters) ==
      match AllHits(w, a, target, filters)
      case Err(e) => Err(e)
      case Ok(hits) => Prepend(hits, AllHits(w, b, target, filters))
  {
    if a == [] {
      assert a + b == b;
      var r := AllHits(w, b, target, filters);
      assert r.Ok? ==> [] + r.value == r.value;
    } else {
      var tail := a[1..];
      assert a == [a[0]] + tail;
      assert a + b == [a[0]] + (tail + b);
      AllHitsCons(w, a[0], tail + b, target, filters);
      AllHitsCons(w, a[0], tail, target, filters);
      AllHitsAppend(w, tail, b, target, filters);
      var r := AllHits(w, tail, target, filters);
      if r.Ok? {
        PrependPrepend([a[0]], r.value, AllHits(w, b, target, filters));
      }
    }
  }

  /**
    * A singular search gives the first element that the plural search of the same order
    * would collect, or nothing when that collection is empty.
    */
  lemma {:induction false} FirstOfAll(w: Binding, order: seq<NodeId>, target: Option<string>, filters: seq<(string, Value)>)
    requires WellFounded(w)
    requires AllHits(w, order, target, filters).Ok?
    ensures FirstHit(w, order, target, filters) ==
      Ok(if AllHits(w, order, target, filters).value == [] then None
         else Some(AllHits(w, order, target, filters).value[0]))
  {
    if order != [] {
      FirstOfAll(w, order[1..], target, filters);
    }
  }

  /** Search never visits the root itself: every node of the order lies strictly below it. */
  lemma RootNotInOrder(w: Binding, root: NodeId)
    requires WellFounded(w)
    ensures forall c :: c in SearchOrder(w, root) ==> w.height(c) < w.height(root)
    ensures root !in SearchOrder(w, root)
  {
    WalkBelow(Children(w), w.height, RootChildren(w, root), w.height(root));
  }

  /** The order begins with the root's children, in the order the root lists them. */
  lemma OrderStartsWithRootChildren(w: Binding, root: NodeId)
    requires WellFounded(w)
    ensures |RootChildren(w, root)| <= |SearchOrder(w, root)|
    ensures SearchOrder(w, root)[..|RootChildren(w, root)|] == RootChildren(w, root)
  {
    WalkStartsWithQueue(Children(w), w.height, RootChildren(w, root));
  }

  /**
    * Cardinality: a plural search gives every hit of the order and nothing else, never the
    * root, and raises when any candidate's filters raise; a singular one gives the first hit,
    * or `nil` when every candidate misses, and raises only when a candidate's filters raise
    * before any hit (the scan stops at the first hit, Element.rb:122).
    */
  lemma SearchCardinality(w: Binding, root: NodeId, typeName: string, filters: seq<(string, Value)>)
    requires WellFounded(w)
    ensures var order := SearchOrder(w, root);
      var target := w.pluralConstGet(w.camelize(typeName));
      var r := SearchValue(w, root, typeName, filters);
      IsPlural(w.camelize(typeName)) ==>
        && (r.Err? <==> exists i :: 0 <= i < |order| && IsHit(w, order[i], target, filters).Err?)
        && (r.Ok? ==>
              && r.value.Refs?
              && root !in r.value.ids
              && forall c :: c in r.value.ids <==> (c in order && IsHit(w, c, target, filters) == Ok(true)))
    ensures var order := SearchOrder(w, root);
      var target := w.pluralConstGet(w.camelize(typeName));
      var r := SearchValue(w, root, typeName, filters);
      !IsPlural(w.camelize(typeName)) ==>
        && (r == Ok(Nil) <==> forall i :: 0 <= i < |order| ==> IsHit(w, order[i], target, filters) == Ok(false))
        && (r.Err? <==>
              exists i :: 0 <= i < |order| && IsHit(w, order[i], target, filters).Err? &&
                forall j :: 0 <= j < i ==> IsHit(w, order[j], target, filters) == Ok(false))
        && (r.Ok? && r.value != Nil ==>
              && r.value.Ref?
              && r.value.id != root
              && exists i :: 0 <= i < |order| && order[i] == r.value.id &&
                   IsHit(w, order[i], target, filters) == Ok(true) &&
                   forall j :: 0 <= j < i ==> IsHit(w, order[j], target, filters) == Ok(false))
  {
    RootNotInOrder(w, root);
  }

  /**
    * Dispatch order: a name that resolves against the cached attributes reads the first
    * matching attribute and never searches; otherwise a node with children searches with
    * the given filters; otherwise the name is unresolved.
    */
  lemma DispatchOrder(w: Binding, n: NodeId, attrs: seq<string>, name: string, filters: seq<(string, Value)>)
    requires WellFounded(w)
    ensures (exists i :: 0 <= i < |attrs| && Matches(name, attrs[i])) ==>
      exists i :: 0 <= i < |attrs| && Matches(name, attrs[i]) &&
        (forall j :: 0 <= j < i ==> !Matches(name, attrs[j])) &&
        Dispatch(w, n, attrs, name, filters) == Ok(AttributeValue(w.attrOf(n, attrs[i])))
    ensures (forall i :: 0 <= i < |attrs| ==> !Matches(name, attrs[i])) && ChildrenAttribute in attrs ==>
      Dispatch(w, n, attrs, name, filters) ==
        match SearchValue(w, n, name, filters)
        case Ok(v) => Ok(SearchResult(v))
        case Err(e) => Err(e)
    ensures (forall i :: 0 <= i < |attrs| ==> !Matches(name, attrs[i])) && ChildrenAttribute !in attrs ==>
      Dispatch(w, n, attrs, name, filters) == Ok(Unresolved)
  {
    ConstantForSpec(name, attrs);
  }
}
