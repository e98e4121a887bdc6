/**
 * The crawl's state-flow graph: an append-only directed multigraph whose vertices are
 * crawled states (deduplicated by stripped DOM) and whose edges are clickables.
 * Each method is one atomic step; the read/write lock is not modelled.
 */
module StateFlowGraph {

  import opened Optional
  import opened States
  import Int32
  import StateNames
  import Paths

  /** Distinct keys make distinct vertices, so the set has one element per vertex. */
  lemma {:induction false} DistinctKeysCard(vs: seq<StateVertex>)
    requires forall i, j :: 0 <= i < j < |vs| ==> Key(vs[i]) != Key(vs[j])
    ensures |set v | v in vs| == |vs|
  {
    if vs != [] {
      var init := vs[..|vs| - 1];
      var last := vs[|vs| - 1];
      DistinctKeysCard(init);
      assert (set v | v in vs) == (set v | v in init) + {last};
      assert last !in (set v | v in init);
    }
  }

  /** Distinct clickables make one clickable per edge. */
  lemma {:induction false} DistinctClickablesCard(es: seq<Edge>)
    requires forall i, j :: 0 <= i < j < |es| ==> es[i].clickable != es[j].clickable
    ensures |set e | e in es :: e.clickable| == |es|
  {
    if es != [] {
      var init := es[..|es| - 1];
      var last := es[|es| - 1];
      DistinctClickablesCard(init);
      assert (set e | e in es :: e.clickable) == (set e | e in init :: e.clickable) + {last.clickable};
      assert last.clickable !in (set e | e in init :: e.clickable);
    }
  }

  lemma ClickablesAppend(es: seq<Edge>, e: Edge)
    ensures (set f | f in es + [e] :: f.clickable) == (set f | f in es :: f.clickable) + {e.clickable}
  {
  }

  class InMemoryStateFlowGraph {

    /** `sfg.vertexSet()`, in insertion order. */
    var vertices: seq<StateVertex>
    /** `sfg.edgeSet()`, each clickable with the endpoints it was added with. */
    var edges: seq<Edge>
    /** The id -> state index. */
    var stateById: map<int, StateVertex>
    /** The number of accepted states, as an AtomicInteger. */
    var stateCounter: int
    /** The last id handed out by `newStateFor`, as an AtomicInteger. */
    var nextStateNameCounter: int
    /** Calls made to `ExitNotifier.incrementNumberOfStates`. */
    ghost var notifications: nat
    /** Calls made to `newStateFor`. */
    ghost var issued: nat

    /** The keys of the registered vertices. */
    function Keys(): set<string>
      reads this`vertices
    {
      set v | v in vertices :: Key(v)
    }

    /** `sfg.containsVertex(v)`: some registered vertex equals v. */
    predicate HasVertex(v: StateVertex)
      reads this`vertices
    {
      Key(v) in Keys()
    }

    /**
     * No two stored vertices are equal; the counter is the number of vertices as a 32-bit int
     * and the notifier has been told once per vertex; the index maps ids to registered
     * vertices with that id and covers every vertex.
     */
    ghost predicate VerticesValid()
      reads this`vertices, this`stateCounter, this`notifications, this`stateById
    {
      (forall i, j :: 0 <= i < j < |vertices| ==> Key(vertices[i]) != Key(vertices[j])) &&
      stateCounter == Int32.Wrap(|vertices|) &&
      notifications == |vertices| &&
      (forall id :: id in stateById ==> stateById[id] in vertices && stateById[id].id == id) &&
      (forall v :: v in vertices ==> v.id in stateById)
    }

    /** Edges join registered vertices, and the graph holds each clickable once. */
    ghost predicate EdgesValid()
      reads this`vertices, this`edges
    {
      Paths.Closed(edges, Keys()) &&
      (forall i, j :: 0 <= i < j < |edges| ==> edges[i].clickable != edges[j].clickable)
    }

    /** The name counter holds the number of newStateFor calls as a 32-bit int. */
    ghost predicate NamesValid()
      reads this`nextStateNameCounter, this`issued
    {
      nextStateNameCounter == Int32.Wrap(issued)
    }

    ghost predicate Valid()
      reads this
    {
      VerticesValid() && EdgesValid() && NamesValid()
    }

    constructor ()
      ensures Valid()
      ensures vertices == [] && edges == [] && stateById == map[]
      ensures stateCounter == 0 && nextStateNameCounter == 0
      ensures notifications == 0 && issued == 0
    {
      vertices := [];
      edges := [];
      stateById := map[];
      stateCounter := 0;
      nextStateNameCounter := 0;
      notifications := 0;
      issued := 0;
    }

    /**
     * The effect of inserting v: when an equal vertex is stored, nothing changes and that
     * stored vertex is returned; otherwise v is added, indexed by its id and counted once,
     * the exit notifier is told once, and None says v is now canonical.
     */
    twostate predicate PutOutcome(v: StateVertex, new r: Option<StateVertex>)
      reads this
      requires old(Valid())
    {
      edges == old(edges) && nextStateNameCounter == old(nextStateNameCounter) && issued == old(issued) &&
      if old(HasVertex(v)) then
        r.Some? && r.value in old(vertices) && SameState(r.value, v) &&
        vertices == old(vertices) && stateById == old(stateById) &&
        stateCounter == old(stateCounter) && notifications == old(notifications)
      else
        r == None &&
        vertices == old(vertices) + [v] && stateById == old(stateById)[v.id := v] &&
        stateCounter == Int32.Increment(old(stateCounter)) && notifications == old(notifications) + 1
    }

    /** `putIfAbsent(StateVertex, boolean)`; the flag is accepted and not used. */
    method PutIfAbsentWith(v: StateVertex, correctName: bool) returns (r: Option<StateVertex>)
      requires Valid()
      modifies this
      ensures Valid()
      ensures PutOutcome(v, r)
    {
      var added := !HasVertex(v);
      if added {
        Int32.IncrementWrap(|vertices|);
        assert Keys() + {Key(v)} == set u | u in vertices + [v] :: Key(u);
        vertices := vertices + [v];
        stateById := stateById[v.id := v];
        stateCounter := Int32.Increment(stateCounter);
        notifications := notifications + 1;
        r := None;
      } else {
        r := GetStateInGraph(v);
      }
    }

    /** `putIfAbsent(StateVertex)`. */
    method PutIfAbsent(v: StateVertex) returns (r: Option<StateVertex>)
      requires Valid()
      modifies this
      ensures Valid()
      ensures PutOutcome(v, r)
    {
      r := PutIfAbsentWith(v, true);
    }

    /** `putIndex(StateVertex)`: the same insertion as PutIfAbsent. */
    method PutIndex(v: StateVertex) returns (r: Option<StateVertex>)
      requires Valid()
      modifies this
      ensures Valid()
      ensures PutOutcome(v, r)
    {
      r := PutIfAbsentWith(v, false);
    }

    /** `getStateInGraph`: the stored vertex equal to v, found by scanning the vertex set. */
    method GetStateInGraph(v: StateVertex) returns (r: Option<StateVertex>)
      ensures r.Some? ==> r.value in vertices && SameState(v, r.value)
      ensures r.None? ==> !HasVertex(v)
    {
      var i := 0;
      while i < |vertices|
        invariant 0 <= i <= |vertices|
        invariant forall k :: 0 <= k < i ==> !SameState(v, vertices[k])
      {
        if SameState(v, vertices[i]) {
          return Some(vertices[i]);
        }
        i := i + 1;
      }
      return None;
    }

    /** `getById(id)`: the stored vertex with that id, if any. */
    function GetById(id: int): (r: Option<StateVertex>)
      reads this
      requires Valid()
      ensures r.Some? <==> exists v :: v in vertices && v.id == id
      ensures r.Some? ==> r.value in vertices && r.value.id == id
    {
      if id in stateById then Some(stateById[id]) else None
    }

    /** `getInitialState()`: the stored vertex with the reserved index id, if any. */
    function GetInitialState(): (r: Option<StateVertex>)
      reads this
      requires Valid()
      ensures r.Some? <==> exists v :: v in vertices && v.id == IndexId
      ensures r.Some? ==> r.value in vertices && r.value.id == IndexId
    {
      GetById(IndexId)
    }

    /**
     * `addEdge(source, target, clickable)`: both endpoints must be registered. An equal
     * clickable already in the graph makes it return false and change nothing; otherwise
     * the edge is added and it returns true.
     */
    method AddEdge(source: StateVertex, target: StateVertex, clickable: Eventable) returns (added: bool)
      requires Valid() && HasVertex(source) && HasVertex(target)
      modifies this`edges
      ensures Valid()
      ensures added <==> clickable !in old(AllEdges())
      ensures edges == if added then old(edges) + [Edge(source, target, clickable)] else old(edges)
      ensures added ==> AllEdges() == old(AllEdges()) + {clickable}
    {
      var present := Paths.HasEdge(edges, Key(source), Key(target)) &&
        exists e :: e in edges && SameState(e.source, source) && SameState(e.target, target) && e.clickable == clickable;
      if present {
        added := false;
      } else if clickable in AllEdges() {
        // the multigraph refuses an edge equal to one it already holds
        added := false;
      } else {
        AppendEdge(Edge(source, target, clickable));
        added := true;
      }
    }

    /** Appends an edge with registered endpoints and a clickable the graph does not hold yet. */
    method AppendEdge(e: Edge)
      requires Valid() && HasVertex(e.source) && HasVertex(e.target) && e.clickable !in AllEdges()
      modifies this`edges
      ensures Valid()
      ensures edges == old(edges) + [e]
      ensures AllEdges() == old(AllEdges()) + {e.clickable}
    {
      ghost var before := edges;
      assert forall i :: 0 <= i < |before| ==> before[i].clickable != e.clickable;
      edges := edges + [e];
      assert forall i, j :: 0 <= i < j < |edges| ==> edges[i].clickable != edges[j].clickable by {
        forall i, j | 0 <= i < j < |edges|
          ensures edges[i].clickable != edges[j].clickable
        {
          if j < |before| {
            assert edges[i] == before[i] && edges[j] == before[j];
          }
        }
      }
      assert Paths.Closed(edges, Keys());
      assert EdgesValid();
      assert VerticesValid();
      assert NamesValid();
      ClickablesAppend(before, e);
    }

    /** `getOutgoingClickables(v)`: the clickables of exactly the edges leaving v. */
    function OutgoingClickables(v: StateVertex): (r: set<Eventable>)
      reads this
      requires Valid() && HasVertex(v)
      ensures r <= AllEdges()
      ensures forall e :: e in edges ==> (e.clickable in r <==> SameState(e.source, v))
    {
      var r := set e | e in edges && SameState(e.source, v) :: e.clickable;
      ClickableDeterminesEdge();
      r
    }

    /** `getIncomingClickable(v)`: the clickables of exactly the edges entering v. */
    function IncomingClickable(v: StateVertex): (r: set<Eventable>)
      reads this
      requires Valid() && HasVertex(v)
      ensures r <= AllEdges()
      ensures forall e :: e in edges ==> (e.clickable in r <==> SameState(e.target, v))
    {
      var r := set e | e in edges && SameState(e.target, v) :: e.clickable;
      ClickableDeterminesEdge();
      r
    }

    /** Within a valid graph, a clickable names one edge. */
    lemma ClickableDeterminesEdge()
      requires Valid()
      ensures forall e, f :: e in edges && f in edges && e.clickable == f.clickable ==> e == f
    {
    }

    /**
     * `canGoTo(source, target)`: a single edge joins the two states in one direction or
     * the other. This is neither directed nor multi-hop reachability.
     */
    function CanGoTo(source: StateVertex, target: StateVertex): (r: bool)
      reads this
      ensures r <==> Paths.OneHop(edges, Key(source), Key(target)) || Paths.OneHop(edges, Key(target), Key(source))
    {
      Paths.HasEdgeIsOneHop(edges, Key(source), Key(target));
      Paths.HasEdgeIsOneHop(edges, Key(target), Key(source));
      Paths.HasEdge(edges, Key(source), Key(target)) || Paths.HasEdge(edges, Key(target), Key(source))
    }

    lemma CanGoToSymmetric(a: StateVertex, b: StateVertex)
      ensures CanGoTo(a, b) == CanGoTo(b, a)
    {
    }

    /** For registered states, an edge a -> b exists exactly when a's outgoing and b's incoming clickables meet. */
    lemma HasEdgeByClickables(a: StateVertex, b: StateVertex)
      requires Valid() && HasVertex(a) && HasVertex(b)
      ensures Paths.HasEdge(edges, Key(a), Key(b)) <==> OutgoingClickables(a) * IncomingClickable(b) != {}
    {
      if Paths.HasEdge(edges, Key(a), Key(b)) {
        var e :| e in edges && Key(e.source) == Key(a) && Key(e.target) == Key(b);
        assert e.clickable in OutgoingClickables(a) * IncomingClickable(b);
      }
      if OutgoingClickables(a) * IncomingClickable(b) != {} {
        var c :| c in OutgoingClickables(a) * IncomingClickable(b);
        var e :| e in edges && SameState(e.source, a) && e.clickable == c;
        ClickableDeterminesEdge();
        assert SameState(e.target, b);
      }
    }

    /** For registered states, canGoTo holds exactly when one's outgoing and the other's incoming clickables meet. */
    lemma CanGoToByClickables(a: StateVertex, b: StateVertex)
      requires Valid() && HasVertex(a) && HasVertex(b)
      ensures CanGoTo(a, b) <==>
                OutgoingClickables(a) * IncomingClickable(b) != {} || OutgoingClickables(b) * IncomingClickable(a) != {}
    {
      HasEdgeByClickables(a, b);
      HasEdgeByClickables(b, a);
    }

    /**
     * `getShortestPath(start, end)`: the clickables of a minimum-hop chain from start to end.
     * None stands for the library's null when no chain exists.
     */
    function ShortestPath(start: StateVertex, end: StateVertex): (r: Option<seq<Eventable>>)
      reads this
      requires Valid() && HasVertex(start) && HasVertex(end)
      ensures r.None? <==> !Paths.Connected(edges, Key(start), Key(end))
      ensures r.Some? ==> exists p :: Paths.IsPath(edges, p, Key(start), Key(end)) && Paths.Clickables(p) == r.value
      ensures r.Some? ==> forall q :: Paths.IsPath(edges, q, Key(start), Key(end)) ==> |r.value| <= |q|
      ensures SameState(start, end) ==> r == Some([])
    {
      match Paths.ShortestPath(edges, Keys(), Key(start), Key(end))
      case None => None
      case Some(p) => Some(Paths.Clickables(p))
    }

    /** `getAllStates()`: the registered vertices, one per content. */
    function AllStates(): (r: set<StateVertex>)
      reads this
      requires Valid()
      ensures forall v :: v in r <==> v in vertices
      ensures |r| == |vertices|
      ensures forall u, v :: u in r && v in r && SameState(u, v) ==> u == v
    {
      DistinctKeysCard(vertices);
      set v | v in vertices
    }

    /** `getAllEdges()`: the clickables of the graph, one per edge. */
    function AllEdges(): (r: set<Eventable>)
      reads this
      requires Valid()
      ensures forall c :: c in r <==> exists e :: e in edges && e.clickable == c
      ensures |r| == |edges|
    {
      DistinctClickablesCard(edges);
      set e | e in edges :: e.clickable
    }

    /** `getNumberOfStates()`: the state counter, which is the number of states as a 32-bit int. */
    function NumberOfStates(): (r: int)
      reads this
      requires Valid()
      ensures r == Int32.Wrap(|AllStates()|)
      ensures |AllStates()| <= Int32.Max ==> r == |AllStates()|
    {
      stateCounter
    }

    /**
     * `newStateFor(url, dom, strippedDom)`: a candidate with the next id from the name
     * counter, named after that id. The graph and the state counter are not touched.
     */
    method NewStateFor(url: string, dom: string, strippedDom: string) returns (v: StateVertex)
      requires Valid()
      modifies this`nextStateNameCounter, this`issued
      ensures Valid()
      ensures issued == old(issued) + 1
      ensures nextStateNameCounter == Int32.Increment(old(nextStateNameCounter))
      ensures v == StateVertex(nextStateNameCounter, url, StateNames.NewStateName(nextStateNameCounter), dom, strippedDom)
      ensures v.id == Int32.Wrap(issued)
    {
      Int32.IncrementWrap(issued);
      nextStateNameCounter := Int32.Increment(nextStateNameCounter);
      issued := issued + 1;
      var id := nextStateNameCounter;
      v := StateVertex(id, url, StateNames.NewStateName(id), dom, strippedDom);
    }

  }

  /** The k-th call of newStateFor returns id Wrap(k): the first 2^32 calls never repeat an id. */
  lemma IssuedIdsDistinct(i: nat, j: nat)
    requires 1 <= i < j <= Int32.Modulus
    ensures Int32.Wrap(i) != Int32.Wrap(j)
  {
  }

  /** The first 2^31-1 ids increase strictly; they are unique but may have gaps, since rejected candidates keep theirs. */
  lemma IssuedIdsIncrease(i: nat, j: nat)
    requires 1 <= i < j <= Int32.Max
    ensures Int32.Wrap(i) < Int32.Wrap(j)
  {
  }

  // ---------------------------------------------------------------------------
  // Clients: what a crawler can rely on from the contracts above

  /** Two candidates with equal stripped DOM: the first becomes canonical, the second gets it back, one state is stored. */
  method DuplicateCandidates(a: StateVertex, b: StateVertex) returns (first: Option<StateVertex>, second: Option<StateVertex>, count: int)
    requires SameState(a, b)
    ensures first == None && second == Some(a) && count == 1
  {
    var g := new InMemoryStateFlowGraph();
    first := g.PutIfAbsent(a);
    second := g.PutIndex(b);
    count := g.NumberOfStates();
  }

  /** The same edge offered twice: accepted, then refused, and the graph holds it once. */
  method DuplicateEdge(a: StateVertex, b: StateVertex, c: Eventable) returns (first: bool, second: bool, edgeCount: nat)
    ensures first && !second && edgeCount == 1
  {
    var g := new InMemoryStateFlowGraph();
    var _ := g.PutIfAbsent(a);
    var _ := g.PutIfAbsent(b);
    first := g.AddEdge(a, b, c);
    second := g.AddEdge(a, b, c);
    edgeCount := |g.AllEdges()|;
  }

}
