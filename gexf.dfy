/** scripts/rdf2gexf.py: turn the triples of RDF files into a network
    graph for Gephi. Resources become labelled nodes, literal properties
    and types become node attributes, and every other triple becomes an
    edge labelled with the local name of its predicate.

    The networkx `MultiDiGraph` is a map from node to attribute map plus a
    list of edges; rdflib's `split_uri` is modelled on ASCII names. */
module Gexf {
  import opened Wrappers
  import opened Strings
  import opened Rdf
  import Smush
  import Queens

  // ---------------------------------------------------------------------
  // rdflib's split_uri

  /** Characters a local name may hold: letters and digits, and the
      characters `-`, `.` and `_`. */
  predicate NameChar(c: char) { IsLetter(c) || IsDigit(c) || c == '-' || c == '.' || c == '_' }

  /** Characters a local name may start with: letters and `_`. */
  predicate NameStart(c: char) { IsLetter(c) || c == '_' }

  predicate NotNameStart(c: char) { !NameStart(c) }

  /** A local name: it starts with a letter or `_`, and holds only name
      characters. */
  predicate LocalName(s: string) {
    s != [] && NameStart(s[0]) && forall k :: 0 <= k < |s| ==> NameChar(s[k])
  }

  /** `rdflib.namespace.split_uri(uri)`: walk back over the trailing name
      characters to the first character that is not one, then forward from
      there to the first character that can start a name; the namespace is
      what comes before it. `None` is the exception "Can't split". */
  function SplitUri(uri: string): (r: Option<(string, string)>)
    ensures r.Some? ==> r.value.0 + r.value.1 == uri && r.value.0 != [] && LocalName(r.value.1)
  {
    var i := SuffixLength(NameChar, uri);
    if i == |uri| then None
    else
      var p := |uri| - i - 1;
      var j := p + 1 + PrefixLength(NotNameStart, uri[p + 1..]);
      if j < |uri| then
        assert uri[..j] + uri[j..] == uri;
        assert forall k :: 0 <= k < |uri| - j ==> uri[j..][k] == uri[j + k];
        Some((uri[..j], uri[j..]))
      else None
  }

  /** A URI that is a namespace ending in a character outside names,
      followed by a local name, splits into the two. */
  lemma SplitUriOf(ns: string, local: string)
    requires ns != [] && !NameChar(ns[|ns| - 1])
    requires LocalName(local)
    ensures SplitUri(ns + local) == Some((ns, local))
  {
    var uri := ns + local;
    SuffixLengthOf(NameChar, ns, local);
    assert uri[|ns| - 1 + 1..] == local + [];
    PrefixLengthOf(NotNameStart, [], local);
    assert uri[..|ns|] == ns;
    assert uri[|ns|..] == local;
  }

  /** A URI made only of name characters, or with no name start after its
      last separator, cannot be split. */
  lemma SplitUriFails(ns: string, tail: string)
    requires forall k :: 0 <= k < |tail| ==> NameChar(tail[k]) && !NameStart(tail[k])
    requires ns == [] || !NameChar(ns[|ns| - 1])
    ensures SplitUri(ns + tail) == None
  {
    var uri := ns + tail;
    SuffixLengthOf(NameChar, ns, tail);
    if ns != [] {
      var p := |ns| - 1;
      assert uri[p + 1..] == tail;
      PrefixLengthOf(NotNameStart, tail, []);
      assert tail + [] == tail;
    } else {
      assert uri == tail;
    }
  }

  /** The local name, as `ns, name = split_uri(uri)` keeps it. */
  datatype Error = CannotSplit(uri: string) | KeyError(node: Term)

  function LocalOf(t: Term): (r: Result<string, Error>)
    ensures r.Success? ==> LocalName(r.value) && EndsWith(Str(t), r.value)
    ensures r.Failure? ==> r.error == CannotSplit(Str(t))
  {
    match SplitUri(Str(t))
    case None => Failure(CannotSplit(Str(t)))
    case Some(parts) =>
      assert Str(t)[|Str(t)| - |parts.1|..] == parts.1;
      Success(parts.1)
  }

  // ---------------------------------------------------------------------
  // get_best_label

  /** `if value:` on the result of `graph.value(...)`. */
  predicate Signal(v: Option<Term>) {
    v.Some? && Truthy(v.value)
  }

  /** `get_best_label(res, graph)` (rdf2gexf.py:18-32): a true dc:title,
      else a true schema:name, else the local name of a true rdf:type,
      else nothing. */
  function BestLabel(g: Graph, res: Term): (r: Result<Option<string>, Error>)
    ensures r.Success? && r.value.Some? ==> r.value.value != ""
    ensures r == Success(None) <==>
              !Signal(Value(g, res, Smush.DcTitle)) && !Signal(Value(g, res, Queens.SchemaName)) && !Signal(Value(g, res, RdfType))
    ensures r.Failure? ==> r.error.CannotSplit?
  {
    var title := Value(g, res, Smush.DcTitle);
    var name := Value(g, res, Queens.SchemaName);
    var kind := Value(g, res, RdfType);
    if Signal(title) then
      TruthyIffNonEmpty(title.value);
      Success(Some(Str(title.value)))
    else if Signal(name) then
      TruthyIffNonEmpty(name.value);
      Success(Some(Str(name.value)))
    else if Signal(kind) then
      var short :- LocalOf(kind.value);
      Success(Some(short))
    else Success(None)
  }

  /** The order of preference among the three properties. */
  lemma LabelPreference(g: Graph, res: Term)
    ensures Signal(Value(g, res, Smush.DcTitle)) ==>
              BestLabel(g, res) == Success(Some(Str(Value(g, res, Smush.DcTitle).value)))
    ensures !Signal(Value(g, res, Smush.DcTitle)) && Signal(Value(g, res, Queens.SchemaName)) ==>
              BestLabel(g, res) == Success(Some(Str(Value(g, res, Queens.SchemaName).value)))
    ensures !Signal(Value(g, res, Smush.DcTitle)) && !Signal(Value(g, res, Queens.SchemaName)) && Signal(Value(g, res, RdfType)) ==>
              BestLabel(g, res) == (match LocalOf(Value(g, res, RdfType).value)
                                    case Failure(e) => Failure(e)
                                    case Success(l) => Success(Some(l)))
  {
  }

  /** A resource with one title among others keeps that title; typed
      resources always get a label when their types split. */
  lemma TypedResourceLabelled(g: Graph, res: Term, o: Term)
    requires (res, RdfType, o) in g
    requires forall t :: (res, RdfType, t) in g ==> Truthy(t) && SplitUri(Str(t)).Some?
    ensures BestLabel(g, res).Success? && BestLabel(g, res).value.Some?
  {
  }

  // ---------------------------------------------------------------------
  // The network graph

  /** A networkx `MultiDiGraph`: each node's attributes, and the edges in
      the order they were added, each with its label. */
  datatype Net = Net(nodes: map<Term, map<string, string>>, edges: seq<(Term, Term, string)>)

  /** `nxg.add_node(x, label=l)`: a new node, or new attributes on an old one. */
  function AddNode(net: Net, x: Term, text: string): (r: Net)
    ensures r.nodes.Keys == net.nodes.Keys + {x} && r.edges == net.edges
    ensures "label" in r.nodes[x] && r.nodes[x]["label"] == text
    ensures forall y :: y in net.nodes && y != x ==> r.nodes[y] == net.nodes[y]
  {
    var attrs := if x in net.nodes then net.nodes[x] else map[];
    net.(nodes := net.nodes[x := attrs["label" := text]])
  }

  /** `nxg.add_edge(s, o, label=name)`: the two ends become nodes if they
      were not already. */
  function AddEdge(net: Net, s: Term, o: Term, name: string): (r: Net)
    ensures r.nodes.Keys == net.nodes.Keys + {s, o}
    ensures forall x :: x in net.nodes ==> r.nodes[x] == net.nodes[x]
    ensures r.edges == net.edges + [(s, o, name)]
  {
    var withS := if s in net.nodes then net.nodes else net.nodes[s := map[]];
    var withO := if o in withS then withS else withS[o := map[]];
    Net(withO, net.edges + [(s, o, name)])
  }

  /** Adding `x` as a node when it has a label (rdf2gexf.py:50-54, 59-63). */
  function Labelled(g: Graph, net: Net, x: Term): (r: Result<Net, Error>)
    ensures r.Success? ==> r.value.edges == net.edges
    ensures r.Success? ==> BestLabel(g, x).Success? && (x in r.value.nodes <==> x in net.nodes || BestLabel(g, x).value.Some?)
    ensures r.Success? ==> forall y :: y != x ==> (y in r.value.nodes <==> y in net.nodes)
    ensures r.Success? ==> forall y :: y != x && y in net.nodes ==> r.value.nodes[y] == net.nodes[y]
    ensures r.Success? && BestLabel(g, x).value.Some? ==>
              "label" in r.value.nodes[x] && r.value.nodes[x]["label"] == BestLabel(g, x).value.value
    ensures r.Failure? <==> BestLabel(g, x).Failure?
  {
    var best :- BestLabel(g, x);
    if best.Some? then Success(AddNode(net, x, best.value)) else Success(net)
  }

  /** Whether the triple becomes an attribute of its subject rather than
      an edge (rdf2gexf.py:69): `subj in nxg and isinstance(obj, Literal)
      or pred == RDF.type`. */
  predicate IsAttribute(net: Net, t: Triple) {
    (t.0 in net.nodes && t.2.Lit?) || t.1 == RdfType
  }

  /** The subject test of rdf2gexf.py:48-49 as Python groups it: an IRI
      subject is labelled every time, a blank node only the first time. */
  predicate LabelSubject(net: Net, s: Term) {
    s.IRI? || (s.BNode? && s !in net.nodes)
  }

  /** The object test of rdf2gexf.py:56-58. */
  predicate LabelObject(net: Net, t: Triple) {
    t.1 != RdfType && !t.2.Lit? && t.2 !in net.nodes
  }

  /** The nodes after the subject and the object have been labelled. */
  function LabelEnds(g: Graph, net: Net, t: Triple): Result<Net, Error> {
    var afterSubject :- if LabelSubject(net, t.0) then Labelled(g, net, t.0) else Success(net);
    if LabelObject(afterSubject, t) then Labelled(g, afterSubject, t.2) else Success(afterSubject)
  }

  /** Recording the triple once its ends are labelled
      (rdf2gexf.py:66-78): an attribute of the subject, or an edge. */
  function RecordTriple(labelled: Net, t: Triple): Result<Net, Error> {
    var name :- LocalOf(t.1);
    if IsAttribute(labelled, t) then
      var val :- if t.1 == RdfType then LocalOf(t.2) else Success(Str(t.2));
      if t.0 in labelled.nodes then
        Success(labelled.(nodes := labelled.nodes[t.0 := labelled.nodes[t.0][name := val]]))
      else Failure(KeyError(t.0))
    else Success(AddEdge(labelled, t.0, t.2, name))
  }

  /** One pass of the loop over the triples (rdf2gexf.py:46-78). */
  function TripleStep(g: Graph, net: Net, t: Triple): Result<Net, Error> {
    var labelled :- LabelEnds(g, net, t);
    RecordTriple(labelled, t)
  }

  /** Literals and types become attributes keyed by the predicate's local
      name and add no edge; every other triple adds exactly one edge,
      labelled with that local name, from the subject to the object. */
  lemma Classification(g: Graph, net: Net, t: Triple)
    requires TripleStep(g, net, t).Success?
    ensures var labelled := LabelEnds(g, net, t).value;
            var after := TripleStep(g, net, t).value;
            var name := LocalOf(t.1).value;
            && LocalOf(t.1).Success?
            && (IsAttribute(labelled, t) ==>
                  && after.edges == net.edges
                  && t.0 in after.nodes
                  && after.nodes[t.0][name] == (if t.1 == RdfType then LocalOf(t.2).value else Str(t.2)))
            && (!IsAttribute(labelled, t) ==> after.edges == net.edges + [(t.0, t.2, name)])
  {
    var labelled := LabelEnds(g, net, t).value;
    assert TripleStep(g, net, t) == RecordTriple(labelled, t);
    RecordClassification(labelled, t);
  }

  lemma RecordClassification(labelled: Net, t: Triple)
    requires RecordTriple(labelled, t).Success?
    ensures var after := RecordTriple(labelled, t).value;
            var name := LocalOf(t.1).value;
            && LocalOf(t.1).Success?
            && (IsAttribute(labelled, t) ==>
                  && after.edges == labelled.edges
                  && t.0 in after.nodes
                  && after.nodes[t.0][name] == (if t.1 == RdfType then LocalOf(t.2).value else Str(t.2)))
            && (!IsAttribute(labelled, t) ==> after.edges == labelled.edges + [(t.0, t.2, name)])
  {
  }

  /** A type triple on a resource never fails for want of a node: its
      subject has a label, so it is in the graph by then. */
  lemma TypeTripleHasNode(g: Graph, net: Net, s: Term, o: Term)
    requires !s.Lit? && (s, RdfType, o) in g
    requires forall t :: (s, RdfType, t) in g ==> Truthy(t) && SplitUri(Str(t)).Some?
    requires LabelEnds(g, net, (s, RdfType, o)).Success?
    ensures s in LabelEnds(g, net, (s, RdfType, o)).value.nodes
  {
    var t := (s, RdfType, o);
    TypedResourceLabelled(g, s, o);
    var afterSubject := if LabelSubject(net, s) then Labelled(g, net, s) else Success(net);
    assert afterSubject.Success?;
    assert !LabelObject(afterSubject.value, t);
    assert LabelEnds(g, net, t) == afterSubject;
    if !LabelSubject(net, s) {
      assert s in net.nodes;
    }
  }

  /** On a subject without a label that is not yet a node, a literal
      property becomes an edge to a node for the literal. */
  lemma UnlabelledSubjectLiteralEdge(g: Graph, net: Net, s: Term, p: Term, o: Term)
    requires s !in net.nodes && o.Lit? && p != RdfType
    requires BestLabel(g, s) == Success(None)
    requires TripleStep(g, net, (s, p, o)).Success?
    ensures TripleStep(g, net, (s, p, o)).value.edges == net.edges + [(s, o, LocalOf(p).value)]
    ensures o in TripleStep(g, net, (s, p, o)).value.nodes
  {
  }

  /** Every edge joins two nodes. */
  predicate Closed(net: Net) {
    forall e :: e in net.edges ==> e.0 in net.nodes && e.1 in net.nodes
  }

  /** A pass keeps every node and every edge, and keeps edges joining nodes. */
  lemma TripleStepGrows(g: Graph, net: Net, t: Triple)
    requires TripleStep(g, net, t).Success?
    ensures net.nodes.Keys <= TripleStep(g, net, t).value.nodes.Keys
    ensures net.edges <= TripleStep(g, net, t).value.edges
    ensures Closed(net) ==> Closed(TripleStep(g, net, t).value)
  {
    var labelled := LabelEnds(g, net, t).value;
    assert TripleStep(g, net, t) == RecordTriple(labelled, t);
    LabelEndsGrows(g, net, t);
    RecordGrows(labelled, t);
  }

  lemma LabelEndsGrows(g: Graph, net: Net, t: Triple)
    requires LabelEnds(g, net, t).Success?
    ensures net.nodes.Keys <= LabelEnds(g, net, t).value.nodes.Keys
    ensures LabelEnds(g, net, t).value.edges == net.edges
    ensures Closed(net) ==> Closed(LabelEnds(g, net, t).value)
  {
  }

  lemma RecordGrows(net: Net, t: Triple)
    requires RecordTriple(net, t).Success?
    ensures net.nodes.Keys <= RecordTriple(net, t).value.nodes.Keys
    ensures net.edges <= RecordTriple(net, t).value.edges
    ensures Closed(net) ==> Closed(RecordTriple(net, t).value)
  {
    var name := LocalOf(t.1).value;
    if IsAttribute(net, t) {
      var val := if t.1 == RdfType then LocalOf(t.2).value else Str(t.2);
      assert t.0 in net.nodes;
      assert RecordTriple(net, t).value == net.(nodes := net.nodes[t.0 := net.nodes[t.0][name := val]]);
      SetAttributeKeeps(net, t.0, net.nodes[t.0][name := val]);
    } else {
      assert RecordTriple(net, t).value == AddEdge(net, t.0, t.2, name);
      AddEdgeKeeps(net, t.0, t.2, name);
    }
  }

  lemma SetAttributeKeeps(net: Net, x: Term, attrs: map<string, string>)
    requires x in net.nodes
    ensures net.(nodes := net.nodes[x := attrs]).nodes.Keys == net.nodes.Keys
    ensures Closed(net) ==> Closed(net.(nodes := net.nodes[x := attrs]))
  {
  }

  lemma AddEdgeKeeps(net: Net, s: Term, o: Term, name: string)
    ensures Closed(net) ==> Closed(AddEdge(net, s, o, name))
  {
    var after := AddEdge(net, s, o, name);
    if Closed(net) {
      forall e | e in after.edges ensures e.0 in after.nodes && e.1 in after.nodes {
        if e !in net.edges {
          assert e == (s, o, name);
        }
      }
    }
  }

  /** The loop over `triples` from `net`. */
  function NetOf(g: Graph, net: Net, triples: seq<Triple>): Result<Net, Error>
    decreases |triples|
  {
    if triples == [] then Success(net)
    else
      var before :- NetOf(g, net, triples[..|triples| - 1]);
      TripleStep(g, before, triples[|triples| - 1])
  }

  lemma {:induction false} NetOfClosed(g: Graph, net: Net, triples: seq<Triple>)
    requires Closed(net) && NetOf(g, net, triples).Success?
    ensures Closed(NetOf(g, net, triples).value)
    ensures net.edges <= NetOf(g, net, triples).value.edges
    decreases |triples|
  {
    if triples != [] {
      NetOfClosed(g, net, triples[..|triples| - 1]);
      TripleStepGrows(g, NetOf(g, net, triples[..|triples| - 1]).value, triples[|triples| - 1]);
    }
  }

  /** The networkx graph under construction. */
  class NetworkBuilder {
    var nodes: map<Term, map<string, string>>
    var edges: seq<(Term, Term, string)>

    constructor ()
      ensures nodes == map[] && edges == []
    {
      nodes := map[];
      edges := [];
    }

    function Current(): Net
      reads this
    {
      Net(nodes, edges)
    }

    /** `add_node` with the best label, when there is one. */
    method AddLabelled(g: Graph, x: Term) returns (err: Option<Error>)
      modifies this
      ensures err.None? <==> Labelled(g, old(Current()), x).Success?
      ensures err.None? ==> Current() == Labelled(g, old(Current()), x).value
      ensures err.Some? ==> err.value == Labelled(g, old(Current()), x).error
    {
      var best := BestLabel(g, x);
      if best.Failure? {
        return Some(best.error);
      }
      err := None;
      if best.value.Some? {
        var attrs := if x in nodes then nodes[x] else map[];
        nodes := nodes[x := attrs["label" := best.value.value]];
      }
    }

    /** Labelling the subject and the object (rdf2gexf.py:48-63). */
    method LabelTripleEnds(g: Graph, t: Triple) returns (err: Option<Error>)
      modifies this
      ensures err.None? <==> LabelEnds(g, old(Current()), t).Success?
      ensures err.None? ==> Current() == LabelEnds(g, old(Current()), t).value
      ensures err.Some? ==> err.value == LabelEnds(g, old(Current()), t).error
    {
      err := None;
      if LabelSubject(Current(), t.0) {
        err := AddLabelled(g, t.0);
        if err.Some? {
          return;
        }
      }
      if LabelObject(Current(), t) {
        err := AddLabelled(g, t.2);
      }
    }

    /** Recording a triple whose ends are labelled (rdf2gexf.py:66-78). */
    method Record(t: Triple) returns (err: Option<Error>)
      modifies this
      ensures err.None? <==> RecordTriple(old(Current()), t).Success?
      ensures err.None? ==> Current() == RecordTriple(old(Current()), t).value
      ensures err.Some? ==> err.value == RecordTriple(old(Current()), t).error
    {
      var (subj, pred, obj) := t;
      var name := LocalOf(pred);
      if name.Failure? {
        return Some(name.error);
      }
      if IsAttribute(Current(), t) {
        var val;
        if pred == RdfType {
          var short := LocalOf(obj);
          if short.Failure? {
            return Some(short.error);
          }
          val := short.value;
        } else {
          val := Str(obj);
        }
        if subj !in nodes {
          return Some(KeyError(subj));
        }
        nodes := nodes[subj := nodes[subj][name.value := val]];
      } else {
        if subj !in nodes {
          nodes := nodes[subj := map[]];
        }
        if obj !in nodes {
          nodes := nodes[obj := map[]];
        }
        edges := edges + [(subj, obj, name.value)];
      }
      err := None;
    }

    /** One pass of the loop (rdf2gexf.py:46-78). */
    method AddTriple(g: Graph, t: Triple) returns (err: Option<Error>)
      modifies this
      ensures err.None? <==> TripleStep(g, old(Current()), t).Success?
      ensures err.None? ==> Current() == TripleStep(g, old(Current()), t).value
      ensures err.Some? ==> err.value == TripleStep(g, old(Current()), t).error
    {
      err := LabelTripleEnds(g, t);
      if err.None? {
        err := Record(t);
      }
    }
  }

  /** `process_files` up to writing the GEXF file (rdf2gexf.py:35-81): the
      files' triples, in the order the store yields them, make the network. */
  method ProcessFiles(triples: seq<Triple>) returns (r: Result<Net, Error>)
    ensures r == NetOf((set t | t in triples), Net(map[], []), triples)
    ensures r.Success? ==> Closed(r.value)
  {
    var g := set t | t in triples;
    var b := new NetworkBuilder();
    var i := 0;
    while i < |triples|
      invariant 0 <= i <= |triples|
      invariant NetOf(g, Net(map[], []), triples[..i]) == Success(b.Current())
    {
      assert triples[..i + 1][..i] == triples[..i];
      var err := b.AddTriple(g, triples[i]);
      if err.Some? {
        NetOfFailsAfter(g, Net(map[], []), triples, i + 1);
        return Failure(err.value);
      }
      i := i + 1;
    }
    assert triples[..i] == triples;
    r := Success(b.Current());
    NetOfClosed(g, Net(map[], []), triples);
  }

  /** Once the loop has failed on a prefix it fails on the whole list, with
      the same error. */
  lemma {:induction false} NetOfFailsAfter(g: Graph, net: Net, triples: seq<Triple>, i: nat)
    requires i <= |triples| && NetOf(g, net, triples[..i]).Failure?
    ensures NetOf(g, net, triples) == NetOf(g, net, triples[..i])
    decreases |triples| - i
  {
    if i < |triples| {
      assert triples[..i + 1][..i] == triples[..i];
      NetOfFailsAfter(g, net, triples, i + 1);
    } else {
      assert triples[..i] == triples;
    }
  }
}
