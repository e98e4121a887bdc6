/**
 * Directed chains of edges in the multigraph and the minimum-hop path between two states,
 * standing in for jgrapht's `DijkstraShortestPath.findPathBetween` with unit weights.
 * Vertices are named by their keys, since the graph looks vertices up by `equals`.
 */
module Paths {

  import opened Optional
  import opened States

  /** p is a chain of edges of es leading from the state keyed `from` to the state keyed `to`. */
  predicate IsPath(es: seq<Edge>, p: seq<Edge>, from: string, to: string)
    decreases |p|
  {
    if p == [] then from == to
    else p[0] in es && Key(p[0].source) == from && IsPath(es, p[1..], Key(p[0].target), to)
  }

  /** Some chain of edges leads from `from` to `to`. */
  ghost predicate Connected(es: seq<Edge>, from: string, to: string) {
    exists p :: IsPath(es, p, from, to)
  }

  /** A single edge leads from `from` to `to`. */
  ghost predicate OneHop(es: seq<Edge>, from: string, to: string) {
    exists p :: |p| == 1 && IsPath(es, p, from, to)
  }

  /** jgrapht's `containsEdge(source, target)`: some edge goes from `from` to `to`. */
  predicate HasEdge(es: seq<Edge>, from: string, to: string) {
    exists e :: e in es && Key(e.source) == from && Key(e.target) == to
  }

  /** Every edge joins two keys of ks. */
  predicate Closed(es: seq<Edge>, ks: set<string>) {
    forall e :: e in es ==> Key(e.source) in ks && Key(e.target) in ks
  }

  /** The clickables along a chain, in traversal order. */
  function Clickables(p: seq<Edge>): seq<Eventable> {
    seq(|p|, i requires 0 <= i < |p| => p[i].clickable)
  }

  lemma {:induction false} HasEdgeIsOneHop(es: seq<Edge>, from: string, to: string)
    ensures HasEdge(es, from, to) <==> OneHop(es, from, to)
  {
    if HasEdge(es, from, to) {
      var e :| e in es && Key(e.source) == from && Key(e.target) == to;
      assert IsPath(es, [e], from, to) by {
        assert [e][1..] == [];
      }
    }
    if OneHop(es, from, to) {
      var p: seq<Edge> :| |p| == 1 && IsPath(es, p, from, to);
      assert p[1..] == [];
      assert IsPath(es, p[1..], Key(p[0].target), to);
      assert p[0] in es && Key(p[0].source) == from && Key(p[0].target) == to;
    }
  }

  // ---------------------------------------------------------------------------
  // Search for a chain of a given length

  /** A chain of exactly k edges from `from` to `to`, trying the edges in their stored order. */
  function FindPath(es: seq<Edge>, from: string, to: string, k: nat): Option<seq<Edge>>
    decreases k, |es| + 1
  {
    if k == 0 then (if from == to then Some([]) else None)
    else FindVia(es, 0, from, to, k)
  }

  /** A chain of exactly k > 0 edges from `from` to `to` whose first edge is es[i] or a later one. */
  function FindVia(es: seq<Edge>, i: nat, from: string, to: string, k: nat): Option<seq<Edge>>
    requires 0 < k && i <= |es|
    decreases k, |es| - i
  {
    if i == |es| then None
    else if Key(es[i].source) == from then
      match FindPath(es, Key(es[i].target), to, k - 1)
      case Some(q) => Some([es[i]] + q)
      case None => FindVia(es, i + 1, from, to, k)
    else FindVia(es, i + 1, from, to, k)
  }

  lemma {:induction false} FindPathSound(es: seq<Edge>, from: string, to: string, k: nat)
    ensures FindPath(es, from, to, k).Some? ==>
              IsPath(es, FindPath(es, from, to, k).value, from, to) && |FindPath(es, from, to, k).value| == k
    decreases k, |es| + 1
  {
    if k > 0 {
      FindViaSound(es, 0, from, to, k);
    }
  }

  lemma {:induction false} FindViaSound(es: seq<Edge>, i: nat, from: string, to: string, k: nat)
    requires 0 < k && i <= |es|
    ensures FindVia(es, i, from, to, k).Some? ==>
              IsPath(es, FindVia(es, i, from, to, k).value, from, to) && |FindVia(es, i, from, to, k).value| == k
    decreases k, |es| - i
  {
    if i < |es| {
      if Key(es[i].source) == from {
        FindPathSound(es, Key(es[i].target), to, k - 1);
        match FindPath(es, Key(es[i].target), to, k - 1)
        case Some(q) =>
          assert ([es[i]] + q)[1..] == q;
        case None =>
          FindViaSound(es, i + 1, from, to, k);
      } else {
        FindViaSound(es, i + 1, from, to, k);
      }
    }
  }

  lemma {:induction false} FindPathComplete(es: seq<Edge>, p: seq<Edge>, from: string, to: string)
    requires IsPath(es, p, from, to)
    ensures FindPath(es, from, to, |p|).Some?
    decreases |p|, |es| + 1
  {
    if p != [] {
      FindViaComplete(es, 0, p, from, to);
    }
  }

  lemma {:induction false} FindViaComplete(es: seq<Edge>, i: nat, p: seq<Edge>, from: string, to: string)
    requires IsPath(es, p, from, to) && p != []
    requires i <= |es| && p[0] in es[i..]
    ensures FindVia(es, i, from, to, |p|).Some?
    decreases |p|, |es| - i
  {
    if es[i] == p[0] {
      FindPathComplete(es, p[1..], Key(p[0].target), to);
    } else {
      assert p[0] in es[i + 1..] by {
        var j :| i <= j < |es| && es[j] == p[0];
        assert j != i;
        assert es[i + 1..][j - i - 1] == p[0];
      }
      FindViaComplete(es, i + 1, p, from, to);
    }
  }

  // ---------------------------------------------------------------------------
  // Minimum-hop search by increasing length

  /** The first chain found of length k, k + 1, ..., bound. */
  function Search(es: seq<Edge>, from: string, to: string, k: nat, bound: nat): Option<seq<Edge>>
    decreases bound - k
  {
    if k > bound then None
    else match FindPath(es, from, to, k)
      case Some(p) => Some(p)
      case None => Search(es, from, to, k + 1, bound)
  }

  lemma {:induction false} SearchCorrect(es: seq<Edge>, from: string, to: string, k: nat, bound: nat)
    requires forall q :: IsPath(es, q, from, to) ==> |q| >= k
    ensures Search(es, from, to, k, bound).Some? ==>
              IsPath(es, Search(es, from, to, k, bound).value, from, to) &&
              forall q :: IsPath(es, q, from, to) ==> |Search(es, from, to, k, bound).value| <= |q|
    ensures Search(es, from, to, k, bound).None? ==>
              forall q :: IsPath(es, q, from, to) ==> |q| > bound
    decreases bound - k
  {
    if k <= bound {
      FindPathSound(es, from, to, k);
      if FindPath(es, from, to, k).None? {
        forall q | IsPath(es, q, from, to)
          ensures |q| >= k + 1
        {
          if |q| == k {
            FindPathComplete(es, q, from, to);
          }
        }
        SearchCorrect(es, from, to, k + 1, bound);
      }
    }
  }

  // ---------------------------------------------------------------------------
  // Every connected pair is joined by a chain shorter than the number of keys

  /** The key of the i-th state visited along p, which starts at `from`. */
  function KeyAt(p: seq<Edge>, from: string, i: nat): string
    requires i <= |p|
  {
    if i == 0 then from else Key(p[i - 1].target)
  }

  lemma {:induction false} PathEdgesIn(es: seq<Edge>, p: seq<Edge>, from: string, to: string)
    requires IsPath(es, p, from, to)
    ensures forall i :: 0 <= i < |p| ==> p[i] in es
    decreases |p|
  {
    if p != [] {
      PathEdgesIn(es, p[1..], Key(p[0].target), to);
      forall i | 1 <= i < |p|
        ensures p[i] in es
      {
        assert p[i] == p[1..][i - 1];
      }
    }
  }

  lemma {:induction false} Split(es: seq<Edge>, p: seq<Edge>, from: string, to: string, i: nat)
    requires IsPath(es, p, from, to) && i <= |p|
    ensures IsPath(es, p[..i], from, KeyAt(p, from, i))
    ensures IsPath(es, p[i..], KeyAt(p, from, i), to)
    decreases i
  {
    if i == 0 {
      assert p[0..] == p;
    } else {
      var mid := Key(p[0].target);
      Split(es, p[1..], mid, to, i - 1);
      assert KeyAt(p[1..], mid, i - 1) == KeyAt(p, from, i);
      assert p[..i][1..] == p[1..][..i - 1];
      assert p[1..][i - 1..] == p[i..];
    }
  }

  lemma {:induction false} Concat(es: seq<Edge>, p: seq<Edge>, q: seq<Edge>, a: string, b: string, c: string)
    requires IsPath(es, p, a, b) && IsPath(es, q, b, c)
    ensures IsPath(es, p + q, a, c)
    decreases |p|
  {
    if p == [] {
      assert p + q == q;
    } else {
      Concat(es, p[1..], q, Key(p[0].target), b, c);
      assert (p + q)[1..] == p[1..] + q;
    }
  }

  /** A sequence longer than the set its elements come from repeats an element. */
  lemma {:induction false} Pigeonhole(s: seq<string>, ks: set<string>)
    requires forall i :: 0 <= i < |s| ==> s[i] in ks
    requires |s| > |ks|
    ensures exists i, j :: 0 <= i < j < |s| && s[i] == s[j]
    decreases |s|
  {
    if exists j :: 1 <= j < |s| && s[j] == s[0] {
      var j :| 1 <= j < |s| && s[j] == s[0];
      assert 0 < j && s[0] == s[j];
    } else {
      var t := s[1..];
      var rest := ks - {s[0]};
      assert |rest| == |ks| - 1;
      forall i | 0 <= i < |t|
        ensures t[i] in rest
      {
        assert t[i] == s[i + 1];
      }
      Pigeonhole(t, rest);
      var i, j :| 0 <= i < j < |t| && t[i] == t[j];
      assert s[i + 1] == s[j + 1];
    }
  }

  /** When `from` is connected to `to`, some chain between them has fewer edges than there are keys. */
  lemma {:induction false} ShortChain(es: seq<Edge>, ks: set<string>, p: seq<Edge>, from: string, to: string)
    requires Closed(es, ks) && from in ks && IsPath(es, p, from, to)
    ensures exists q :: IsPath(es, q, from, to) && |q| < |ks|
    decreases |p|
  {
    if |p| < |ks| {
      assert IsPath(es, p, from, to);
    } else {
      PathEdgesIn(es, p, from, to);
      var s := seq(|p| + 1, i requires 0 <= i <= |p| => KeyAt(p, from, i));
      forall i | 0 <= i < |s|
        ensures s[i] in ks
      {
        if i > 0 {
          assert p[i - 1] in es;
        }
      }
      Pigeonhole(s, ks);
      var i, j :| 0 <= i < j < |s| && s[i] == s[j];
      Split(es, p, from, to, i);
      Split(es, p, from, to, j);
      Concat(es, p[..i], p[j..], from, s[i], to);
      ShortChain(es, ks, p[..i] + p[j..], from, to);
    }
  }

  lemma {:induction false} NoShortChainNoChain(es: seq<Edge>, ks: set<string>, from: string, to: string)
    requires Closed(es, ks) && from in ks
    requires forall q :: IsPath(es, q, from, to) ==> |q| > |ks| - 1
    ensures !Connected(es, from, to)
  {
    if Connected(es, from, to) {
      var p :| IsPath(es, p, from, to);
      ShortChain(es, ks, p, from, to);
    }
  }

  /**
   * A minimum-hop chain from `from` to `to` when one exists, None when none does.
   * ks holds the keys of the registered vertices, which every edge joins.
   */
  function ShortestPath(es: seq<Edge>, ks: set<string>, from: string, to: string): (r: Option<seq<Edge>>)
    requires Closed(es, ks) && from in ks
    ensures r.None? <==> !Connected(es, from, to)
    ensures r.Some? ==> IsPath(es, r.value, from, to)
    ensures r.Some? ==> forall q :: IsPath(es, q, from, to) ==> |r.value| <= |q|
    ensures from == to ==> r == Some([])
  {
    SearchCorrect(es, from, to, 0, |ks| - 1);
    var r := Search(es, from, to, 0, |ks| - 1);
    assert r.None? ==> !Connected(es, from, to) by {
      if r.None? {
        NoShortChainNoChain(es, ks, from, to);
      }
    }
    assert from == to ==> IsPath(es, [], from, to);
    r
  }

  // ---------------------------------------------------------------------------
  // Worked examples

  /**
   * States A, B, C with edges A -> B (e1), B -> C (e2), A -> C (e3): the single hop e3 is
   * preferred to e1 e2, A reaches itself by no edges, and C reaches nothing.
   */
  lemma ThreeStatesExample(a: StateVertex, b: StateVertex, c: StateVertex, e1: Eventable, e2: Eventable, e3: Eventable)
    requires Key(a) != Key(b) && Key(b) != Key(c) && Key(a) != Key(c)
    ensures var es := [Edge(a, b, e1), Edge(b, c, e2), Edge(a, c, e3)];
            var ks := {Key(a), Key(b), Key(c)};
            ShortestPath(es, ks, Key(a), Key(c)) == Some([Edge(a, c, e3)]) &&
            ShortestPath(es, ks, Key(a), Key(a)) == Some([]) &&
            ShortestPath(es, ks, Key(c), Key(a)) == None
  {
    var es := [Edge(a, b, e1), Edge(b, c, e2), Edge(a, c, e3)];
    var ks := {Key(a), Key(b), Key(c)};
    assert IsPath(es, [Edge(a, c, e3)], Key(a), Key(c)) by {
      assert [Edge(a, c, e3)][1..] == [];
    }
    var p := ShortestPath(es, ks, Key(a), Key(c)).value;
    assert |p| == 1 by {
      assert |p| <= 1;
      assert p != [];
    }
    assert p[1..] == [];
    assert IsPath(es, p[1..], Key(p[0].target), Key(c));
    assert p == [Edge(a, c, e3)];
    assert !Connected(es, Key(c), Key(a));
  }

  /**
   * With A -> B (e1) and B -> C (e2) only, C is two hops from A, yet no single edge joins
   * A and C in either direction: adjacency is not reachability.
   */
  lemma TwoHopsExample(a: StateVertex, b: StateVertex, c: StateVertex, e1: Eventable, e2: Eventable)
    requires Key(a) != Key(b) && Key(b) != Key(c) && Key(a) != Key(c)
    ensures var es := [Edge(a, b, e1), Edge(b, c, e2)];
            !HasEdge(es, Key(a), Key(c)) && !HasEdge(es, Key(c), Key(a)) &&
            ShortestPath(es, {Key(a), Key(b), Key(c)}, Key(a), Key(c)) == Some(es)
  {
    var es := [Edge(a, b, e1), Edge(b, c, e2)];
    var ks := {Key(a), Key(b), Key(c)};
    assert IsPath(es, es, Key(a), Key(c)) by {
      assert es[1..] == [Edge(b, c, e2)];
      assert es[1..][1..] == [];
    }
    var p := ShortestPath(es, ks, Key(a), Key(c)).value;
    HasEdgeIsOneHop(es, Key(a), Key(c));
    assert |p| == 2 by {
      assert |p| <= 2;
      assert p != [];
      assert !(|p| == 1 && IsPath(es, p, Key(a), Key(c)));
    }
    assert p[0] == Edge(a, b, e1);
    assert IsPath(es, p[1..], Key(b), Key(c));
    assert p[1..][1..] == [];
    assert IsPath(es, p[1..][1..], Key(p[1].target), Key(c));
    assert p == es;
  }

}
