/** Group-sheet "smushing" (belfastdata/clean.py): give every Belfast Group
    manuscript a content-derived identifier and rewrite the graph so that
    duplicate manuscripts share it.

    The fingerprint of a manuscript is
      BELFASTGROUPSHEET + md5("<author key> <sorted slugs of the titles joined by spaces>")
    and the rewrite replaces each fingerprinted manuscript, in subject and in
    object position, by its fingerprint. `md5` is a parameter: the hex digest
    of the UTF-8 encoding of its argument. */
module Smush {
  import opened Wrappers
  import opened Strings
  import opened Rdf
  import opened Slug

  /** Base of the smushed identifiers. */
  const BELFASTGROUPSHEET := "http://belfastgroup.org/groupsheets/md5/"

  /** The Belfast Group's VIAF identifier, the topic the query filters on. */
  const BELFAST_GROUP_URI := "http://viaf.org/viaf/123393054/"

  const DcTitle := IRI(DC + "title")
  const SchemaAuthor := IRI(SCHEMA_ORG + "author")
  const SchemaFamilyName := IRI(SCHEMA_ORG + "familyName")
  const SchemaGivenName := IRI(SCHEMA_ORG + "givenName")
  const BiboManuscript := IRI(BIBO + "Manuscript")

  /** Exceptions a fingerprint computation can raise. */
  datatype Error =
    | RecursiveList           // rdflib's ValueError for an rdf:rest cycle
    | NameError(name: string) // an undefined name in the script copy

  // ---------------------------------------------------------------------
  // RDF lists, read the way rdflib's Collection iterates them

  /** rdflib's `Graph.items(node)`: from a truthy node, yield its rdf:first
      (when it has one) and move to its rdf:rest, stopping when there is no
      rest, failing when a rest node was already visited. */
  function Walk(g: Graph, node: Term, chain: set<Term>): (r: Result<seq<Term>, Error>)
    requires node in chain
    decreases AllObjects(g) - chain
  {
    if !Truthy(node) then Success([])
    else
      var first := Value(g, node, RdfFirst);
      var items := if first.Some? then [first.value] else [];
      match Value(g, node, RdfRest)
      case None => Success(items)
      case Some(next) =>
        if next in chain then Failure(RecursiveList)
        else
          assert next in AllObjects(g);
          var rest :- Walk(g, next, chain + {next});
          Success(items + rest)
  }

  /** The members of the RDF list headed by `head`. */
  function ListItems(g: Graph, head: Term): Result<seq<Term>, Error> {
    Walk(g, head, {head})
  }

  /** `nodes` is a well-formed RDF list in `g` holding `items`: distinct
      truthy cells, each with one rdf:first and one rdf:rest, the last rest
      being rdf:nil, which has neither. */
  ghost predicate IsList(g: Graph, nodes: seq<Term>, items: seq<Term>) {
    && |nodes| == |items|
    && (forall i, j :: 0 <= i < j < |nodes| ==> nodes[i] != nodes[j])
    && (forall i :: 0 <= i < |nodes| ==> nodes[i] != RdfNil && Truthy(nodes[i]))
    && (forall i :: 0 <= i < |nodes| ==> Value(g, nodes[i], RdfFirst) == Some(items[i]))
    && (forall i :: 0 <= i < |nodes| - 1 ==> Value(g, nodes[i], RdfRest) == Some(nodes[i + 1]))
    && (|nodes| > 0 ==> Value(g, nodes[|nodes| - 1], RdfRest) == Some(RdfNil))
    && Value(g, RdfNil, RdfFirst) == None
    && Value(g, RdfNil, RdfRest) == None
  }

  /** The cells of the list up to and including the `i`-th. */
  ghost function Cells(nodes: seq<Term>, i: nat): set<Term> {
    set k | 0 <= k <= i && k < |nodes| :: nodes[k]
  }

  lemma {:induction false} WalkList(g: Graph, nodes: seq<Term>, items: seq<Term>, i: nat)
    requires IsList(g, nodes, items) && i < |nodes|
    ensures nodes[i] in Cells(nodes, i) && Walk(g, nodes[i], Cells(nodes, i)) == Success(items[i..])
    decreases |nodes| - i
  {
    assert nodes[i] in Cells(nodes, i);
    if i == |nodes| - 1 {
      WalkLastCell(g, nodes, items, i);
    } else {
      WalkList(g, nodes, items, i + 1);
      WalkCell(g, nodes, items, i);
    }
  }

  /** The last cell yields its item and stops at rdf:nil. */
  lemma WalkLastCell(g: Graph, nodes: seq<Term>, items: seq<Term>, i: nat)
    requires IsList(g, nodes, items) && i == |nodes| - 1
    requires nodes[i] in Cells(nodes, i)
    ensures Walk(g, nodes[i], Cells(nodes, i)) == Success(items[i..])
  {
    var chain := Cells(nodes, i);
    assert RdfNil !in chain;
    assert Truthy(RdfNil);
    assert Walk(g, RdfNil, chain + {RdfNil}) == Success([]);
    assert Value(g, nodes[i], RdfFirst) == Some(items[i]);
    assert Value(g, nodes[i], RdfRest) == Some(RdfNil);
    assert Walk(g, nodes[i], chain) == Success([items[i]] + []);
    assert [items[i]] + [] == [items[i]] == items[i..];
  }

  /** An inner cell yields its item, then what the next cell yields. */
  lemma WalkCell(g: Graph, nodes: seq<Term>, items: seq<Term>, i: nat)
    requires IsList(g, nodes, items) && i < |nodes| - 1
    requires nodes[i] in Cells(nodes, i) && nodes[i + 1] in Cells(nodes, i + 1)
    requires Walk(g, nodes[i + 1], Cells(nodes, i + 1)) == Success(items[i + 1..])
    ensures Walk(g, nodes[i], Cells(nodes, i)) == Success(items[i..])
  {
    CellsNext(nodes, i);
    assert Value(g, nodes[i], RdfFirst) == Some(items[i]);
    assert Value(g, nodes[i], RdfRest) == Some(nodes[i + 1]);
    ConsSlice(items, i);
  }

  /** The next cell is new to the chain walked so far. */
  lemma CellsNext(nodes: seq<Term>, i: nat)
    requires i < |nodes| - 1
    requires forall j, k :: 0 <= j < k < |nodes| ==> nodes[j] != nodes[k]
    ensures Cells(nodes, i + 1) == Cells(nodes, i) + {nodes[i + 1]}
    ensures nodes[i + 1] !in Cells(nodes, i)
  {
  }

  lemma ConsSlice<A>(s: seq<A>, i: nat)
    requires i < |s|
    ensures s[i..] == [s[i]] + s[i + 1..]
  {
  }

  /** A well-formed list yields its items in rdf:first/rdf:rest order. */
  lemma ListItemsOfList(g: Graph, nodes: seq<Term>, items: seq<Term>)
    requires IsList(g, nodes, items) && |nodes| > 0
    ensures ListItems(g, nodes[0]) == Success(items)
  {
    WalkList(g, nodes, items, 0);
    assert Cells(nodes, 0) == {nodes[0]};
  }

  /** A cell whose only rdf:rest is itself makes the walk fail. */
  lemma ListCycleFails(g: Graph, cell: Term)
    requires Truthy(cell)
    requires (cell, RdfRest, cell) in g
    requires forall o :: (cell, RdfRest, o) in g ==> o == cell
    ensures ListItems(g, cell) == Failure(RecursiveList)
  {
    ValueUnique(g, cell, RdfRest, cell);
  }

  // ---------------------------------------------------------------------
  // The fingerprint (clean.py, calculate_uri)

  /** The titles of a manuscript before normalising (clean.py:20-35): none
      when the value is absent or falsy, the literal itself, or the members
      of the RDF list the value heads. */
  function RawTitles(g: Graph, ms: Term): Result<seq<Term>, Error> {
    var title := Value(g, ms, DcTitle);
    if title.None? || !Truthy(title.value) then Success([])
    else if title.value.Lit? then Success([title.value])
    else ListItems(g, title.value)
  }

  function SlugOf(t: Term): string {
    Slugify(Str(t))
  }

  /** `[slugify(t) for t in titles]`. */
  function Slugs(titles: seq<Term>): (r: seq<string>)
    ensures |r| == |titles|
  {
    Map(SlugOf, titles)
  }

  lemma SlugsOne(t: Term)
    ensures Slugs([t]) == [SlugOf(t)]
  {
    var r := Slugs([t]);
    assert |r| == 1 && r[0] == SlugOf(t);
  }

  /** The author key (clean.py:44-57): the author's string for an IRI or
      literal, `"family, given"` for a blank node that has both names, and
      `None` otherwise. */
  function AuthorKey(g: Graph, ms: Term): Option<string> {
    match Value(g, ms, SchemaAuthor)
    case None => None
    case Some(author) =>
      if author.BNode? then
        var last := Value(g, author, SchemaFamilyName);
        var first := Value(g, author, SchemaGivenName);
        if last.Some? && first.Some? then Some(Str(last.value) + ", " + Str(first.value))
        else None
      else Some(Str(author))
  }

  /** Python's truth value of the `author` variable. */
  predicate HasAuthor(author: Option<string>) {
    author.Some? && author.value != ""
  }

  /** The author text that goes into the hash: `None` becomes "anonymous". */
  function AuthorText(author: Option<string>): string {
    if author.None? then "anonymous" else author.value
  }

  /** The text that is hashed, for a list of slugs in the order given. */
  function HashText(author: Option<string>, slugs: seq<string>): string {
    AuthorText(author) + " " + Join(" ", slugs)
  }

  /** clean.py:37-69 once the titles and the author key are read. */
  function Fingerprint(author: Option<string>, titles: seq<Term>, md5: string -> string): (r: Option<Term>)
    ensures r.None? <==> titles == [] && !HasAuthor(author)
    ensures r.Some? ==> r.value.IRI? && StartsWith(r.value.iri, BELFASTGROUPSHEET)
  {
    var sorted := Sort(Slugs(titles));
    assert |sorted| == |multiset(sorted)| == |Slugs(titles)| == |titles|;
    if sorted == [] && !HasAuthor(author) then None
    else Some(IRI(BELFASTGROUPSHEET + md5(HashText(author, sorted))))
  }

  /** clean.py's `calculate_uri(uri, graph)`. */
  function CalculateUri(ms: Term, g: Graph, md5: string -> string): Result<Option<Term>, Error> {
    var titles :- RawTitles(g, ms);
    Success(Fingerprint(AuthorKey(g, ms), titles, md5))
  }

  /** The identifier is the hash of the author text and the titles' slugs
      in sorted order, whatever order the titles came in. */
  lemma FingerprintIsHashOfSortedSlugs(author: Option<string>, titles: seq<Term>, md5: string -> string, s: seq<string>)
    requires titles != [] || HasAuthor(author)
    requires Sorted(s) && multiset(s) == multiset(Slugs(titles))
    ensures Fingerprint(author, titles, md5) == Some(IRI(BELFASTGROUPSHEET + md5(HashText(author, s))))
  {
    SortedUnique(s, Sort(Slugs(titles)));
  }

  /** Title order is discarded: any permutation gives the same identifier. */
  lemma FingerprintPermutation(author: Option<string>, t1: seq<Term>, t2: seq<Term>, md5: string -> string)
    requires multiset(t1) == multiset(t2)
    ensures Fingerprint(author, t1, md5) == Fingerprint(author, t2, md5)
  {
    MapPermutation(SlugOf, t1, t2);
    SortPermutationInvariant(Slugs(t1), Slugs(t2));
    assert |t1| == |multiset(t1)| == |t2|;
  }

  /** Titles that differ only in letter case give the same identifier. */
  lemma FingerprintIgnoresCase(author: Option<string>, t1: seq<Term>, t2: seq<Term>, md5: string -> string)
    requires |t1| == |t2|
    requires forall i :: 0 <= i < |t1| ==> Lower(Str(t1[i])) == Lower(Str(t2[i]))
    ensures Fingerprint(author, t1, md5) == Fingerprint(author, t2, md5)
  {
    forall i | 0 <= i < |t1| ensures Slugs(t1)[i] == Slugs(t2)[i] {
      SlugifyIgnoresCase(Str(t1[i]));
      SlugifyIgnoresCase(Str(t2[i]));
    }
    assert Slugs(t1) == Slugs(t2);
  }

  /** The no-signal guard of clean.py:59-61: the manuscript keeps its
      identity exactly when it has no titles and no truthy author key. */
  lemma NoSignalIff(ms: Term, g: Graph, md5: string -> string)
    requires RawTitles(g, ms).Success?
    ensures CalculateUri(ms, g, md5) == Success(None)
        <==> RawTitles(g, ms).value == [] && !HasAuthor(AuthorKey(g, ms))
  {
  }

  /** No title and no author: nothing to fingerprint. */
  lemma NoTitleNoAuthor(ms: Term, g: Graph, md5: string -> string)
    requires forall o :: (ms, DcTitle, o) !in g
    requires forall o :: (ms, SchemaAuthor, o) !in g
    ensures CalculateUri(ms, g, md5) == Success(None)
  {
  }

  /** A blank-node author with both names is keyed `"family, given"`. */
  lemma BlankAuthorBothNames(g: Graph, ms: Term, a: Term, last: Term, first: Term)
    requires a.BNode?
    requires Value(g, ms, SchemaAuthor) == Some(a)
    requires Value(g, a, SchemaFamilyName) == Some(last) && Value(g, a, SchemaGivenName) == Some(first)
    ensures AuthorKey(g, ms) == Some(Str(last) + ", " + Str(first))
    ensures HasAuthor(AuthorKey(g, ms))
  {
  }

  /** A blank-node author missing either name counts as no author, and is
      hashed as "anonymous", never as a partial name. */
  lemma BlankAuthorMissingName(g: Graph, ms: Term, a: Term, titles: seq<Term>, md5: string -> string)
    requires a.BNode? && Value(g, ms, SchemaAuthor) == Some(a)
    requires (forall o :: (a, SchemaFamilyName, o) !in g) || (forall o :: (a, SchemaGivenName, o) !in g)
    requires titles != []
    ensures AuthorKey(g, ms) == None
    ensures Fingerprint(AuthorKey(g, ms), titles, md5)
         == Some(IRI(BELFASTGROUPSHEET + md5("anonymous " + Join(" ", Sort(Slugs(titles))))))
  {
    assert Value(g, a, SchemaFamilyName).None? || Value(g, a, SchemaGivenName).None?;
    assert AuthorKey(g, ms) == None;
    assert "anonymous" + " " == "anonymous ";
    assert |Sort(Slugs(titles))| == |multiset(Slugs(titles))| == |titles| > 0;
  }

  /** A present but falsy title (an empty literal, say) counts as absent. */
  lemma FalsyTitleIsAbsent(g: Graph, ms: Term, t: Term)
    requires Value(g, ms, DcTitle) == Some(t) && !Truthy(t)
    ensures RawTitles(g, ms) == Success([])
  {
  }

  /** A truthy title that is not a literal is read as an RDF list. */
  lemma ListTitleIsExpanded(g: Graph, ms: Term, nodes: seq<Term>, items: seq<Term>)
    requires |nodes| > 0 && Value(g, ms, DcTitle) == Some(nodes[0])
    requires !nodes[0].Lit?
    requires IsList(g, nodes, items)
    ensures RawTitles(g, ms) == Success(items)
  {
    ListItemsOfList(g, nodes, items);
  }

  /** Same content, same identifier: two manuscripts, in the same graph or
      in two independently harvested ones, whose author keys agree and
      whose titles are the same up to order get the same identifier. */
  lemma SameContentSameUri(g1: Graph, ms1: Term, g2: Graph, ms2: Term, md5: string -> string)
    requires AuthorKey(g1, ms1) == AuthorKey(g2, ms2)
    requires RawTitles(g1, ms1).Success? && RawTitles(g2, ms2).Success?
    requires multiset(RawTitles(g1, ms1).value) == multiset(RawTitles(g2, ms2).value)
    ensures CalculateUri(ms1, g1, md5) == CalculateUri(ms2, g2, md5)
  {
    FingerprintPermutation(AuthorKey(g1, ms1), RawTitles(g1, ms1).value, RawTitles(g2, ms2).value, md5);
  }

  /** A manuscript with a single title literal and a blank-node author
      named by one family and one given name. */
  ghost predicate SimpleSheet(g: Graph, ms: Term, title: string, a: Term, family: string, given: string) {
    && a.BNode?
    && title != ""
    && (forall o :: (ms, DcTitle, o) in g <==> o == Lit(title))
    && (forall o :: (ms, SchemaAuthor, o) in g <==> o == a)
    && (forall o :: (a, SchemaFamilyName, o) in g <==> o == Lit(family))
    && (forall o :: (a, SchemaGivenName, o) in g <==> o == Lit(given))
  }

  /** Cross-document merge: the same sheet described in two graphs gets the
      same identifier in both, `md5("family, given slug")`. */
  lemma CrossDocumentMerge(g1: Graph, ms1: Term, a1: Term, g2: Graph, ms2: Term, a2: Term,
                           title: string, family: string, given: string, md5: string -> string)
    requires SimpleSheet(g1, ms1, title, a1, family, given)
    requires SimpleSheet(g2, ms2, title, a2, family, given)
    ensures CalculateUri(ms1, g1, md5) == CalculateUri(ms2, g2, md5)
         == Success(Some(IRI(BELFASTGROUPSHEET + md5(family + ", " + given + " " + Slugify(title)))))
  {
    SimpleSheetUri(g1, ms1, a1, title, family, given, md5);
    SimpleSheetUri(g2, ms2, a2, title, family, given, md5);
  }

  lemma SimpleSheetUri(g: Graph, ms: Term, a: Term, title: string, family: string, given: string, md5: string -> string)
    requires SimpleSheet(g, ms, title, a, family, given)
    ensures CalculateUri(ms, g, md5) == Success(Some(IRI(BELFASTGROUPSHEET + md5(family + ", " + given + " " + Slugify(title)))))
  {
    var key := family + ", " + given;
    SimpleSheetReads(g, ms, a, title, family, given);
    OneTitleFingerprint(Some(key), Lit(title), md5);
    assert CalculateUri(ms, g, md5) == Success(Fingerprint(Some(key), [Lit(title)], md5));
    assert SlugOf(Lit(title)) == Slugify(title);
  }

  lemma SimpleSheetReads(g: Graph, ms: Term, a: Term, title: string, family: string, given: string)
    requires SimpleSheet(g, ms, title, a, family, given)
    ensures RawTitles(g, ms) == Success([Lit(title)])
    ensures AuthorKey(g, ms) == Some(family + ", " + given)
  {
    ValueUnique(g, ms, DcTitle, Lit(title));
    ValueUnique(g, ms, SchemaAuthor, a);
    ValueUnique(g, a, SchemaFamilyName, Lit(family));
    ValueUnique(g, a, SchemaGivenName, Lit(given));
  }

  /** The identifier of a manuscript with one title. */
  lemma OneTitleFingerprint(author: Option<string>, t: Term, md5: string -> string)
    ensures Fingerprint(author, [t], md5) == Some(IRI(BELFASTGROUPSHEET + md5(AuthorText(author) + " " + SlugOf(t))))
  {
    SlugsOne(t);
    FingerprintIsHashOfSortedSlugs(author, [t], md5, [SlugOf(t)]);
  }

  // ---------------------------------------------------------------------
  // The manuscript query (clean.py:83-93)

  /** The subjects of the pattern
        ?doc <schema>about <BELFAST_GROUP_URI> . ?doc <schema>mentions ?ms .
        ?ms rdf:type bibo:Manuscript
      for a given expansion of the `schema:` prefix. */
  function ManuscriptsWith(g: Graph, schema: string): (r: set<Term>)
    ensures forall ms :: ms in r <==> exists doc ::
              && (doc, IRI(schema + "mentions"), ms) in g
              && (doc, IRI(schema + "about"), IRI(BELFAST_GROUP_URI)) in g
              && (ms, RdfType, BiboManuscript) in g
  {
    set t | t in g && t.1 == IRI(schema + "mentions")
                   && (t.0, IRI(schema + "about"), IRI(BELFAST_GROUP_URI)) in g
                   && (t.2, RdfType, BiboManuscript) in g
          :: t.2
  }

  /** The query as written: its `schema:` prefix is bound to the XML Schema
      namespace, not to schema.org. */
  function ManuscriptsAsWritten(g: Graph): set<Term> {
    ManuscriptsWith(g, XSD_NS)
  }

  /** The query as intended, with `schema:` bound to schema.org. */
  function Manuscripts(g: Graph): set<Term> {
    ManuscriptsWith(g, SCHEMA_ORG)
  }

  /** Data that uses schema.org and no XML Schema predicates is never
      matched by the query as written, while the intended query finds the
      manuscript. */
  lemma QueryAsWrittenMissesSchemaOrg(doc: Term, ms: Term)
    ensures ManuscriptsAsWritten(ExampleQueryGraph(doc, ms)) == {}
    ensures Manuscripts(ExampleQueryGraph(doc, ms)) == {ms}
  {
    var g := ExampleQueryGraph(doc, ms);
    assert IRI(SCHEMA_ORG + "mentions") != IRI(XSD_NS + "mentions") by {
      assert (SCHEMA_ORG + "mentions")[7] != (XSD_NS + "mentions")[7];
    }
    assert IRI(SCHEMA_ORG + "mentions") != IRI(SCHEMA_ORG + "about") by {
      assert (SCHEMA_ORG + "mentions")[18] != (SCHEMA_ORG + "about")[18];
    }
    assert IRI(SCHEMA_ORG + "about") != IRI(XSD_NS + "mentions") by {
      assert (SCHEMA_ORG + "about")[7] != (XSD_NS + "mentions")[7];
    }
    assert RdfType != IRI(XSD_NS + "mentions") by {
      assert RdfType.iri[18] != (XSD_NS + "mentions")[18];
    }
    assert RdfType != IRI(SCHEMA_ORG + "mentions") by {
      assert RdfType.iri[7] != (SCHEMA_ORG + "mentions")[7];
    }
    assert (doc, IRI(SCHEMA_ORG + "mentions"), ms) in g;
  }

  /** The three triples the query is meant to match. */
  function ExampleQueryGraph(doc: Term, ms: Term): Graph {
    { (doc, IRI(SCHEMA_ORG + "about"), IRI(BELFAST_GROUP_URI)),
      (doc, IRI(SCHEMA_ORG + "mentions"), ms),
      (ms, RdfType, BiboManuscript) }
  }

  // ---------------------------------------------------------------------
  // The rewrite (clean.py:106-122)

  /** `new_uris.get(x, x)`. */
  function Sub(m: map<Term, Term>, x: Term): Term {
    if x in m then m[x] else x
  }

  function RewriteTriple(m: map<Term, Term>, t: Triple): Triple {
    (Sub(m, t.0), t.1, Sub(m, t.2))
  }

  /** `{(m(s), p, m(o)) | (s, p, o) in g}`. */
  function Rewrite(g: Graph, m: map<Term, Term>): Graph {
    set t | t in g :: RewriteTriple(m, t)
  }

  function Predicates(g: Graph): set<Term> {
    set t | t in g :: t.1
  }

  /** Subjects and objects. */
  function Nodes(g: Graph): set<Term> {
    (set t | t in g :: t.0) + (set t | t in g :: t.2)
  }

  /** The substitution map: each manuscript whose fingerprint is computed
      and not `None`, mapped to it. */
  function Substitution(found: set<Term>, compute: Term -> Result<Option<Term>, Error>): (m: map<Term, Term>)
    ensures m.Keys <= found
    ensures forall ms :: ms in m <==> ms in found && compute(ms).Success? && compute(ms).value.Some?
    ensures forall ms :: ms in m ==> compute(ms) == Success(Some(m[ms]))
  {
    map ms | ms in found && compute(ms).Success? && compute(ms).value.Some? :: compute(ms).value.value
  }

  /** Computing one more manuscript's fingerprint extends the map by it,
      when that fingerprint is not `None`. */
  lemma SubstitutionStep(done: set<Term>, ms: Term, compute: Term -> Result<Option<Term>, Error>)
    requires compute(ms).Success?
    ensures Substitution(done + {ms}, compute) ==
            if compute(ms).value.Some? then Substitution(done, compute)[ms := compute(ms).value.value]
            else Substitution(done, compute)
  {
  }

  /** clean.py's fingerprint as a function of the manuscript alone. */
  function Calculator(g: Graph, md5: string -> string): Term -> Result<Option<Term>, Error> {
    ms => CalculateUri(ms, g, md5)
  }

  /** Every smushed identifier lives in the group-sheet namespace. */
  lemma SubstitutionTargets(g: Graph, md5: string -> string)
    ensures forall ms :: ms in Substitution(Manuscripts(g), Calculator(g, md5)) ==>
              var u := Substitution(Manuscripts(g), Calculator(g, md5))[ms];
              u.IRI? && StartsWith(u.iri, BELFASTGROUPSHEET)
  {
  }

  /** Predicates are never rewritten. */
  lemma RewriteKeepsPredicates(g: Graph, m: map<Term, Term>)
    ensures Predicates(Rewrite(g, m)) == Predicates(g)
  {
    forall p | p in Predicates(g) ensures p in Predicates(Rewrite(g, m)) {
      var t :| t in g && t.1 == p;
      assert RewriteTriple(m, t) in Rewrite(g, m);
    }
  }

  /** A term that is not a key keeps its identity; in particular, a
      manuscript whose fingerprint is `None` is left as it was. */
  lemma RewriteKeepsUnmapped(g: Graph, m: map<Term, Term>, t: Triple)
    requires t in g && t.0 !in m && t.2 !in m
    ensures t in Rewrite(g, m)
  {
    assert RewriteTriple(m, t) == t;
  }

  /** A rewritten node disappears from subject and object position unless
      some manuscript is mapped onto it. */
  lemma RewriteRemovesMapped(g: Graph, m: map<Term, Term>, x: Term)
    requires x in m && x !in m.Values
    ensures x !in Nodes(Rewrite(g, m))
  {
  }

  /** With no substitution, the rewrite is the identity. */
  lemma RewriteIdentity(g: Graph)
    ensures Rewrite(g, map[]) == g
  {
    forall t | t in g ensures t in Rewrite(g, map[]) {
      assert RewriteTriple(map[], t) == t;
    }
  }

  /** Rewriting twice with the same map changes nothing more, when no
      identifier is itself a key. */
  lemma RewriteIdempotent(g: Graph, m: map<Term, Term>)
    requires m.Keys !! m.Values
    ensures Rewrite(Rewrite(g, m), m) == Rewrite(g, m)
  {
    var once := Rewrite(g, m);
    forall t | t in once ensures RewriteTriple(m, t) == t {
      var u :| u in g && t == RewriteTriple(m, u);
      assert t.0 !in m && t.2 !in m;
    }
    forall t | t in once ensures t in Rewrite(once, m) {
      assert RewriteTriple(m, t) == t;
    }
  }

  lemma RewriteStep(g: Graph, todo: Graph, t: Triple, m: map<Term, Term>)
    requires t in todo && todo <= g
    ensures Rewrite(g - (todo - {t}), m) == Rewrite(g - todo, m) + {RewriteTriple(m, t)}
  {
    assert g - (todo - {t}) == (g - todo) + {t};
  }

  // ---------------------------------------------------------------------
  // process_file

  datatype Outcome =
    | NoGroupSheets                                              // nothing matched; the file is not touched
    | Rewritten(graph: Graph, bindings: map<string, string>)     // the graph that replaces the file
    | Failed(error: Error)                                       // an exception escaped

  /** Copies the namespace bindings of the input graph (clean.py:112-115). */
  method CopyBindings(bindings: map<string, string>) returns (out: map<string, string>)
    ensures out == bindings
  {
    out := map[];
    var todo := bindings.Keys;
    while todo != {}
      invariant todo <= bindings.Keys
      invariant forall p :: p in out <==> p in bindings && p !in todo
      invariant forall p :: p in out ==> out[p] == bindings[p]
      decreases |todo|
    {
      var prefix :| prefix in todo;
      out := out[prefix := bindings[prefix]];
      todo := todo - {prefix};
    }
  }

  /** The loop over `g` that adds each triple, rewritten, to `output`
      (clean.py:117-122). */
  method RewriteTriples(g: Graph, m: map<Term, Term>) returns (output: Graph)
    ensures output == Rewrite(g, m)
  {
    output := {};
    var todo := g;
    while todo != {}
      invariant todo <= g
      invariant output == Rewrite(g - todo, m)
      decreases |todo|
    {
      var t :| t in todo;
      RewriteStep(g, todo, t, m);
      output := output + {RewriteTriple(m, t)};
      todo := todo - {t};
    }
  }

  /** The body of `process_file` once the graph is loaded, for a given
      fingerprint function: find the manuscripts, build `new_uris` in a loop
      (an exception from the fingerprint escapes), then copy the bindings
      and rewrite every triple. */
  method SmushWith(g: Graph, bindings: map<string, string>, compute: Term -> Result<Option<Term>, Error>)
    returns (out: Outcome)
    ensures out.NoGroupSheets? <==> Manuscripts(g) == {}
    ensures out.Failed? <==> Manuscripts(g) != {} && exists ms :: ms in Manuscripts(g) && compute(ms).Failure?
    ensures out.Failed? ==> exists ms :: ms in Manuscripts(g) && compute(ms) == Failure(out.error)
    ensures out.Rewritten? ==>
              out.graph == Rewrite(g, Substitution(Manuscripts(g), compute)) && out.bindings == bindings
  {
    var found := Manuscripts(g);
    if found == {} {
      return NoGroupSheets;
    }
    var newUris: map<Term, Term> := map[];
    var todo := found;
    while todo != {}
      invariant todo <= found
      invariant newUris == Substitution(found - todo, compute)
      invariant forall ms :: ms in found - todo ==> compute(ms).Success?
      decreases |todo|
    {
      var ms :| ms in todo;
      var r := compute(ms);
      if r.Failure? {
        return Failed(r.error);
      }
      assert found - (todo - {ms}) == (found - todo) + {ms};
      SubstitutionStep(found - todo, ms, compute);
      if r.value.Some? {
        newUris := newUris[ms := r.value.value];
      }
      todo := todo - {ms};
    }
    var outBindings := CopyBindings(bindings);
    var output := RewriteTriples(g, newUris);
    return Rewritten(output, outBindings);
  }

  /** clean.py's `process_file`, on an already parsed graph. */
  method ProcessFile(g: Graph, bindings: map<string, string>, md5: string -> string) returns (out: Outcome)
    ensures out.NoGroupSheets? <==> Manuscripts(g) == {}
    ensures out.Failed? <==> Manuscripts(g) != {} && exists ms :: ms in Manuscripts(g) && CalculateUri(ms, g, md5).Failure?
    ensures out.Failed? ==> out.error == RecursiveList
    ensures out.Rewritten? ==>
              out.graph == Rewrite(g, Substitution(Manuscripts(g), Calculator(g, md5))) && out.bindings == bindings
  {
    out := SmushWith(g, bindings, Calculator(g, md5));
    if out.Failed? {
      var ms :| ms in Manuscripts(g) && CalculateUri(ms, g, md5) == Failure(out.error);
      CalculateUriFailsOnCycle(ms, g, md5);
    }
  }

  lemma {:induction false} WalkFailsOnCycle(g: Graph, node: Term, chain: set<Term>)
    requires node in chain
    requires Walk(g, node, chain).Failure?
    ensures Walk(g, node, chain).error == RecursiveList
    decreases AllObjects(g) - chain
  {
    if Truthy(node) {
      match Value(g, node, RdfRest)
      case None =>
      case Some(next) =>
        if next !in chain {
          assert next in AllObjects(g);
          WalkFailsOnCycle(g, next, chain + {next});
        }
    }
  }

  /** The only exception clean.py's fingerprint raises is rdflib's
      recursive-list error. */
  lemma CalculateUriFailsOnCycle(ms: Term, g: Graph, md5: string -> string)
    requires CalculateUri(ms, g, md5).Failure?
    ensures CalculateUri(ms, g, md5).error == RecursiveList
  {
    var title := Value(g, ms, DcTitle);
    WalkFailsOnCycle(g, title.value, {title.value});
  }

  // ---------------------------------------------------------------------
  // Running the smusher on its own output

  const SchemaMentions := IRI(SCHEMA_ORG + "mentions")

  /** What a second run needs of the first run's substitution: no two
      manuscripts get one identifier, no identifier is already a node of
      the graph, and a manuscript is the object of no triple but a
      schema:mentions one (it is nobody's title, author, name or list
      member). */
  ghost predicate Separated(g: Graph, m: map<Term, Term>) {
    && (forall a, b :: a in m && b in m && m[a] == m[b] ==> a == b)
    && (forall t :: t in g ==> t.0 !in m.Values && t.2 !in m.Values)
    && (forall t :: t in g && t.2 in m ==> t.1 == SchemaMentions)
  }

  /** Away from the identifiers, the rewrite merges no two terms. */
  lemma SubInjective(m: map<Term, Term>, x: Term, y: Term)
    requires forall a, b :: a in m && b in m && m[a] == m[b] ==> a == b
    requires x !in m.Values && y !in m.Values
    requires Sub(m, x) == Sub(m, y)
    ensures x == y
  {
  }

  lemma PredicatesNotMentions()
    ensures DcTitle != SchemaMentions && SchemaAuthor != SchemaMentions
    ensures SchemaFamilyName != SchemaMentions && SchemaGivenName != SchemaMentions
    ensures RdfFirst != SchemaMentions && RdfRest != SchemaMentions
    ensures RdfType != SchemaMentions && IRI(SCHEMA_ORG + "about") != SchemaMentions
  {
    assert DcTitle.iri[7] != SchemaMentions.iri[7];
    assert RdfFirst.iri[7] != SchemaMentions.iri[7] && RdfRest.iri[7] != SchemaMentions.iri[7];
    assert RdfType.iri[7] != SchemaMentions.iri[7];
    assert SchemaAuthor.iri[18] != SchemaMentions.iri[18];
    assert SchemaFamilyName.iri[18] != SchemaMentions.iri[18];
    assert SchemaGivenName.iri[18] != SchemaMentions.iri[18];
    assert (SCHEMA_ORG + "about")[18] != SchemaMentions.iri[18];
  }

  /** After a separated rewrite, a term keeps the values it had under any
      predicate but schema:mentions. */
  lemma ValueAfter(g: Graph, m: map<Term, Term>, x: Term, p: Term)
    requires Separated(g, m) && x !in m.Values && p != SchemaMentions
    ensures Value(Rewrite(g, m), Sub(m, x), p) == Value(g, x, p)
  {
    var g1 := Rewrite(g, m);
    forall o ensures (Sub(m, x), p, o) in g1 <==> (x, p, o) in g {
      if (x, p, o) in g {
        assert RewriteTriple(m, (x, p, o)) == (Sub(m, x), p, o);
      }
      if (Sub(m, x), p, o) in g1 {
        var t :| t in g && RewriteTriple(m, t) == (Sub(m, x), p, o);
        SubInjective(m, t.0, x);
      }
    }
    ValueLocal(g1, g, Sub(m, x), p, x, p);
  }

  /** The object of a triple whose predicate is not schema:mentions is
      left alone by a separated rewrite. */
  lemma ObjectStays(g: Graph, m: map<Term, Term>, s: Term, p: Term, o: Term)
    requires Separated(g, m) && (s, p, o) in g && p != SchemaMentions
    ensures o !in m && o !in m.Values && Sub(m, o) == o
  {
  }

  /** RDF lists read the same after a separated rewrite. */
  lemma {:induction false} WalkAfter(g: Graph, m: map<Term, Term>, node: Term, chain: set<Term>)
    requires Separated(g, m) && node !in m && node !in m.Values && node in chain
    ensures Walk(Rewrite(g, m), node, chain) == Walk(g, node, chain)
    decreases AllObjects(g) - chain
  {
    if Truthy(node) {
      PredicatesNotMentions();
      ValueAfter(g, m, node, RdfFirst);
      ValueAfter(g, m, node, RdfRest);
      match Value(g, node, RdfRest)
      case None =>
      case Some(next) =>
        if next !in chain {
          ObjectStays(g, m, node, RdfRest, next);
          assert next in AllObjects(g);
          WalkAfter(g, m, next, chain + {next});
        }
    }
  }

  /** A manuscript's titles and author key read the same, under its new
      name, after a separated rewrite. */
  lemma CalculateUriAfter(g: Graph, m: map<Term, Term>, x: Term, md5: string -> string)
    requires Separated(g, m) && x !in m.Values
    ensures CalculateUri(Sub(m, x), Rewrite(g, m), md5) == CalculateUri(x, g, md5)
  {
    var g1 := Rewrite(g, m);
    PredicatesNotMentions();
    ValueAfter(g, m, x, DcTitle);
    var title := Value(g, x, DcTitle);
    if title.Some? {
      ObjectStays(g, m, x, DcTitle, title.value);
      WalkAfter(g, m, title.value, {title.value});
    }
    assert RawTitles(g1, Sub(m, x)) == RawTitles(g, x);
    ValueAfter(g, m, x, SchemaAuthor);
    var author := Value(g, x, SchemaAuthor);
    if author.Some? {
      ObjectStays(g, m, x, SchemaAuthor, author.value);
      ValueAfter(g, m, author.value, SchemaFamilyName);
      ValueAfter(g, m, author.value, SchemaGivenName);
    }
    assert AuthorKey(g1, Sub(m, x)) == AuthorKey(g, x);
  }

  /** Every manuscript the second run finds is a manuscript of the first
      run, under its new name. */
  lemma ManuscriptsAfter(g: Graph, m: map<Term, Term>, y: Term)
    requires Separated(g, m) && y in Manuscripts(Rewrite(g, m))
    ensures exists x :: x in Manuscripts(g) && y == Sub(m, x)
  {
    var g1 := Rewrite(g, m);
    PredicatesNotMentions();
    var doc1 :| && (doc1, SchemaMentions, y) in g1
                && (doc1, IRI(SCHEMA_ORG + "about"), IRI(BELFAST_GROUP_URI)) in g1
                && (y, RdfType, BiboManuscript) in g1;
    var t1 :| t1 in g && RewriteTriple(m, t1) == (doc1, SchemaMentions, y);
    var t2 :| t2 in g && RewriteTriple(m, t2) == (doc1, IRI(SCHEMA_ORG + "about"), IRI(BELFAST_GROUP_URI));
    var t3 :| t3 in g && RewriteTriple(m, t3) == (y, RdfType, BiboManuscript);
    var doc, x := t1.0, t1.2;
    SubInjective(m, t2.0, doc);
    SubInjective(m, t3.0, x);
    ObjectStays(g, m, t2.0, t2.1, t2.2);
    ObjectStays(g, m, t3.0, t3.1, t3.2);
    assert (doc, IRI(SCHEMA_ORG + "about"), IRI(BELFAST_GROUP_URI)) in g;
    assert (x, RdfType, BiboManuscript) in g;
  }

  /** Running `process_file` on its own output rewrites nothing: when no
      fingerprint of the first run failed and its substitution is
      separated, every fingerprint of the second run succeeds and
      names its manuscript as it already is, so the second rewrite is the
      identity. */
  lemma RerunRewritesNothing(g: Graph, md5: string -> string)
    requires forall ms :: ms in Manuscripts(g) ==> CalculateUri(ms, g, md5).Success?
    requires Separated(g, Substitution(Manuscripts(g), Calculator(g, md5)))
    ensures var g1 := Rewrite(g, Substitution(Manuscripts(g), Calculator(g, md5)));
            && (forall ms :: ms in Manuscripts(g1) ==> CalculateUri(ms, g1, md5).Success?)
            && Rewrite(g1, Substitution(Manuscripts(g1), Calculator(g1, md5))) == g1
  {
    var m := Substitution(Manuscripts(g), Calculator(g, md5));
    var g1 := Rewrite(g, m);
    var m1 := Substitution(Manuscripts(g1), Calculator(g1, md5));
    forall y | y in Manuscripts(g1)
      ensures CalculateUri(y, g1, md5).Success?
      ensures y in m1 ==> m1[y] == y
    {
      ManuscriptsAfter(g, m, y);
      var x :| x in Manuscripts(g) && y == Sub(m, x);
      var doc :| (doc, SchemaMentions, x) in g;
      assert x !in m.Values;
      CalculateUriAfter(g, m, x, md5);
    }
    RewriteFixed(g1, m1);
  }

  /** A substitution that maps every key to itself rewrites nothing. */
  lemma RewriteFixed(g: Graph, m: map<Term, Term>)
    requires forall k :: k in m ==> m[k] == k
    ensures Rewrite(g, m) == g
  {
    forall t | t in g ensures RewriteTriple(m, t) == t && t in Rewrite(g, m) {
    }
  }
}
