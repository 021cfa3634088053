/** The stand-alone copy of the smushing in scripts/smush-rdf.py. Its
    `calculate_uri` differs from the library's in two ways:

    - it reads the title with `graph.value(DC.title)`, that is the
      rdf:value of the term dc:title itself, which is the same for every
      manuscript, and it tests that value with `is not None`, so an empty
      literal still counts as a title;
    - a non-literal title is read through `rdfcollection`, a name the
      script never imports, which raises NameError.

    The author key and the hashing are the library's. */
module SmushScript {
  import opened Wrappers
  import opened Rdf
  import opened Strings
  import Smush

  /** The titles as the script reads them (smush-rdf.py:26-42). */
  function ScriptTitles(g: Graph): (r: Result<seq<Term>, Smush.Error>)
    ensures r.Failure? <==> Value(g, Smush.DcTitle, RdfValue).Some? && !Value(g, Smush.DcTitle, RdfValue).value.Lit?
    ensures r.Failure? ==> r.error == Smush.NameError("rdfcollection")
    ensures r.Success? && Value(g, Smush.DcTitle, RdfValue).None? ==> r.value == []
    ensures r.Success? && Value(g, Smush.DcTitle, RdfValue).Some? ==> r.value == [Value(g, Smush.DcTitle, RdfValue).value]
  {
    match Value(g, Smush.DcTitle, RdfValue)
    case None => Success([])
    case Some(title) =>
      if title.Lit? then Success([title])
      else Failure(Smush.NameError("rdfcollection"))
  }

  /** smush-rdf.py's `calculate_uri(uri, graph)`, as written. */
  function CalculateUri(ms: Term, g: Graph, md5: string -> string): Result<Option<Term>, Smush.Error> {
    var titles :- ScriptTitles(g);
    Success(Smush.Fingerprint(Smush.AuthorKey(g, ms), titles, md5))
  }

  function Calculator(g: Graph, md5: string -> string): Term -> Result<Option<Term>, Smush.Error> {
    ms => CalculateUri(ms, g, md5)
  }

  /** smush-rdf.py's `process_file`, on an already parsed graph: the same
      query, loop and rewrite as the library, with the script's fingerprint. */
  method ProcessFile(g: Graph, bindings: map<string, string>, md5: string -> string) returns (out: Smush.Outcome)
    ensures out.NoGroupSheets? <==> Smush.Manuscripts(g) == {}
    ensures out.Failed? <==>
              Smush.Manuscripts(g) != {} && ScriptTitles(g).Failure?
    ensures out.Failed? ==> out.error == Smush.NameError("rdfcollection")
    ensures out.Rewritten? ==>
              out.graph == Smush.Rewrite(g, Smush.Substitution(Smush.Manuscripts(g), Calculator(g, md5)))
              && out.bindings == bindings
  {
    out := Smush.SmushWith(g, bindings, Calculator(g, md5));
    if Smush.Manuscripts(g) != {} && ScriptTitles(g).Failure? {
      var ms :| ms in Smush.Manuscripts(g);
      assert Calculator(g, md5)(ms).Failure?;
    }
  }

  /** The manuscript's own title plays no part: two manuscripts of the same
      graph with the same author key always get the same identifier, so the
      script merges every sheet of an author within a file. */
  lemma ScriptIgnoresOwnTitle(g: Graph, ms1: Term, ms2: Term, md5: string -> string)
    requires Smush.AuthorKey(g, ms1) == Smush.AuthorKey(g, ms2)
    ensures CalculateUri(ms1, g, md5) == CalculateUri(ms2, g, md5)
  {
  }

  /** A present title that is not a literal raises NameError. */
  lemma ScriptListTitleFails(g: Graph, ms: Term, t: Term, md5: string -> string)
    requires Value(g, Smush.DcTitle, RdfValue) == Some(t) && !t.Lit?
    ensures CalculateUri(ms, g, md5) == Failure(Smush.NameError("rdfcollection"))
  {
  }

  /** `is not None` rather than truthiness: an empty literal is a title, so
      the script fingerprints where the library keeps the manuscript. */
  lemma ScriptCountsEmptyTitle(g: Graph, ms: Term, md5: string -> string)
    requires Value(g, Smush.DcTitle, RdfValue) == Some(Lit(""))
    ensures CalculateUri(ms, g, md5).Success? && CalculateUri(ms, g, md5).value.Some?
  {
  }

  /** A graph with one manuscript carrying a single title and no author. */
  function UntitledAuthorlessGraph(ms: Term, title: string): Graph {
    {(ms, Smush.DcTitle, Lit(title))}
  }

  /** The finding, on a concrete graph: a manuscript with the title
      `title` and no author is skipped by the script but fingerprinted from
      its title by the library. */
  lemma ScriptDropsTitle(ms: Term, title: string, md5: string -> string)
    requires ms.BNode? && title != ""
    ensures CalculateUri(ms, UntitledAuthorlessGraph(ms, title), md5) == Success(None)
    ensures Smush.CalculateUri(ms, UntitledAuthorlessGraph(ms, title), md5)
         == Success(Some(IRI(Smush.BELFASTGROUPSHEET + md5("anonymous " + Smush.SlugOf(Lit(title))))))
  {
    var g := UntitledAuthorlessGraph(ms, title);
    GraphHasNoScriptTitleNorAuthor(ms, title);
    assert ScriptTitles(g) == Success([]);
    ValueUnique(g, ms, Smush.DcTitle, Lit(title));
    assert Smush.RawTitles(g, ms) == Success([Lit(title)]);
    Smush.OneTitleFingerprint(None, Lit(title), md5);
    AnonymousText(Smush.SlugOf(Lit(title)));
  }

  lemma AnonymousText(x: string)
    ensures Smush.AuthorText(None) + " " + x == "anonymous " + x
  {
    assert Smush.AuthorText(None) + " " == "anonymous ";
  }

  lemma GraphHasNoScriptTitleNorAuthor(ms: Term, title: string)
    requires ms.BNode?
    ensures Value(UntitledAuthorlessGraph(ms, title), Smush.DcTitle, RdfValue) == None
    ensures Smush.AuthorKey(UntitledAuthorlessGraph(ms, title), ms) == None
  {
    assert Smush.DcTitle.iri[7] == 'p' && Smush.SchemaAuthor.iri[7] == 's';
    assert forall o :: (Smush.DcTitle, RdfValue, o) !in UntitledAuthorlessGraph(ms, title);
    assert forall o :: (ms, Smush.SchemaAuthor, o) !in UntitledAuthorlessGraph(ms, title);
  }
}
