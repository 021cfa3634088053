/** RDF terms, triples and graphs, the namespaces the scripts use, and the
    one rdflib query every script relies on: `graph.value(subject, predicate)`.

    A graph is a finite set of triples. rdflib's `Graph.value` returns one
    matching object, whichever its store yields first, or `None`; the model
    returns the least match in a fixed total order on terms, so that it is a
    function. */
module Rdf {
  import opened Wrappers
  import opened Strings

  datatype Term = IRI(iri: string) | BNode(id: nat) | Lit(lexical: string)

  type Triple = (Term, Term, Term)

  type Graph = set<Triple>

  // Namespaces (belfastdata/rdfns.py and the copies at the head of each script)
  const RDF_NS := "http://www.w3.org/1999/02/22-rdf-syntax-ns#"
  const XSD_NS := "http://www.w3.org/2001/XMLSchema#"
  const OWL_NS := "http://www.w3.org/2002/07/owl#"
  const SCHEMA_ORG := "http://schema.org/"
  const DC := "http://purl.org/dc/terms/"
  const BIBO := "http://purl.org/ontology/bibo/"
  const ARCH := "http://purl.org/archival/vocab/arch#"
  const DCMITYPE := "http://purl.org/dc/dcmitype/"

  const RdfType := IRI(RDF_NS + "type")
  const RdfFirst := IRI(RDF_NS + "first")
  const RdfRest := IRI(RDF_NS + "rest")
  const RdfNil := IRI(RDF_NS + "nil")
  const RdfValue := IRI(RDF_NS + "value")
  const OwlSameAs := IRI(OWL_NS + "sameAs")

  /** Python's `unicode(term)`: the IRI, the lexical form, or the blank node's id. */
  function Str(t: Term): string {
    match t
    case IRI(s) => s
    case Lit(s) => s
    case BNode(n) => "N" + NatToString(n)
  }

  /** Python's truth value of a term: an empty IRI or plain literal is false,
      a blank node (whose id is never empty) is true. */
  predicate Truthy(t: Term) {
    !t.BNode? ==> Str(t) != ""
  }

  lemma TruthyIffNonEmpty(t: Term)
    ensures Truthy(t) <==> Str(t) != ""
  {
  }

  /** All objects `o` with `(s, p, o)` in `g`. */
  function Objects(g: Graph, s: Term, p: Term): (r: set<Term>)
    ensures forall o :: o in r <==> (s, p, o) in g
  {
    set t | t in g && t.0 == s && t.1 == p :: t.2
  }

  /** Every term in object position. */
  function AllObjects(g: Graph): set<Term> {
    set t | t in g :: t.2
  }

  /** rdflib's `graph.value(s, p)`: some object of a matching triple, or `None`. */
  function Value(g: Graph, s: Term, p: Term): (r: Option<Term>)
    ensures r.None? <==> forall o :: (s, p, o) !in g
    ensures r.Some? ==> (s, p, r.value) in g
  {
    var os := Objects(g, s, p);
    if os == {} then None else Some(Least(os))
  }

  /** When there is exactly one match, `Value` returns it. */
  lemma ValueUnique(g: Graph, s: Term, p: Term, o: Term)
    requires (s, p, o) in g
    requires forall o' :: (s, p, o') in g ==> o' == o
    ensures Value(g, s, p) == Some(o)
  {
    assert Objects(g, s, p) == {o};
  }

  /** `Value` only looks at the triples with the given subject and predicate. */
  lemma ValueLocal(g: Graph, h: Graph, s: Term, p: Term, s': Term, p': Term)
    requires forall o :: (s, p, o) in g <==> (s', p', o) in h
    ensures Value(g, s, p) == Value(h, s', p')
  {
    assert Objects(g, s, p) == Objects(h, s', p');
  }

  // ---------------------------------------------------------------------
  // A total order on terms, used only to make `Value` a function

  function Rank(t: Term): nat {
    match t
    case IRI(_) => 0
    case BNode(_) => 1
    case Lit(_) => 2
  }

  predicate TermLess(a: Term, b: Term) {
    match (a, b)
    case (IRI(x), IRI(y)) => Less(x, y)
    case (BNode(m), BNode(n)) => m < n
    case (Lit(x), Lit(y)) => Less(x, y)
    case _ => Rank(a) < Rank(b)
  }

  predicate TermLe(a: Term, b: Term) {
    a == b || TermLess(a, b)
  }

  lemma TermLeAntisymmetric(a: Term, b: Term)
    requires TermLe(a, b) && TermLe(b, a)
    ensures a == b
  {
    if a != b {
      match (a, b)
      case (IRI(x), IRI(y)) => LessAsymmetric(x, y);
      case (Lit(x), Lit(y)) => LessAsymmetric(x, y);
      case _ =>
    }
  }

  lemma TermLeTotal(a: Term, b: Term)
    ensures TermLe(a, b) || TermLe(b, a)
  {
    match (a, b)
    case (IRI(x), IRI(y)) => LessTotal(x, y);
    case (Lit(x), Lit(y)) => LessTotal(x, y);
    case _ =>
  }

  lemma TermLeTransitive(a: Term, b: Term, c: Term)
    requires TermLe(a, b) && TermLe(b, c)
    ensures TermLe(a, c)
  {
    if a != b && b != c && Rank(a) == Rank(b) == Rank(c) {
      match a
      case IRI(x) => LessTransitive(x, b.iri, c.iri);
      case Lit(x) => LessTransitive(x, b.lexical, c.lexical);
      case BNode(_) =>
    }
  }

  predicate IsLeast(x: Term, ts: set<Term>) {
    x in ts && forall t :: t in ts ==> TermLe(x, t)
  }

  lemma {:induction false} LeastExists(ts: set<Term>)
    requires ts != {}
    ensures exists x :: IsLeast(x, ts)
    decreases |ts|
  {
    var y :| y in ts;
    if ts == {y} {
      assert IsLeast(y, ts);
    } else {
      var rest := ts - {y};
      LeastExists(rest);
      var m :| IsLeast(m, rest);
      TermLeTotal(m, y);
      if TermLe(m, y) {
        assert IsLeast(m, ts);
      } else {
        forall t | t in ts ensures TermLe(y, t) {
          if t != y {
            TermLeTransitive(y, m, t);
          }
        }
        assert IsLeast(y, ts);
      }
    }
  }

  lemma LeastUnique(ts: set<Term>)
    ensures forall x, y :: IsLeast(x, ts) && IsLeast(y, ts) ==> x == y
  {
    forall x, y | IsLeast(x, ts) && IsLeast(y, ts) ensures x == y {
      TermLeAntisymmetric(x, y);
    }
  }

  /** The least term of a non-empty set. */
  function Least(ts: set<Term>): (r: Term)
    requires ts != {}
    ensures IsLeast(r, ts)
  {
    LeastExists(ts);
    LeastUnique(ts);
    var x :| IsLeast(x, ts);
    x
  }
}
