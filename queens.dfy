/** scripts/queens_belfast_rdf.py: RDF for the Belfast Group collection at
    Queen's University Belfast, generated from the HTML listing of the
    collection. The collection is a blank node; every `div` of the listing
    that mentions a typescript becomes a manuscript, with an author taken
    from the first line, a date from the last line, a genre, a page count
    and its titles.

    BeautifulSoup is not modelled: a div comes as its text, its list of
    stripped strings and the stripped strings of its italic elements.
    rdflib's fresh blank nodes are numbered by a counter. */
module Queens {
  import opened Wrappers
  import opened Strings
  import opened Rdf
  import Smush
  import Crawl

  const ArchCollection := IRI(ARCH + "Collection")
  const SchemaCreativeWork := IRI(SCHEMA_ORG + "CreativeWork")
  const DcmiCollection := IRI(DCMITYPE + "Collection")
  const SchemaName := IRI(SCHEMA_ORG + "name")
  const SchemaDescription := IRI(SCHEMA_ORG + "description")
  const SchemaAbout := IRI(SCHEMA_ORG + "about")
  const SchemaMentions := IRI(SCHEMA_ORG + "mentions")
  const SchemaPerson := IRI(SCHEMA_ORG + "Person")
  const SchemaGenre := IRI(SCHEMA_ORG + "genre")
  const DcDate := IRI(DC + "date")
  const BiboNumPages := IRI(BIBO + "numPages")
  const BiboDocumentPart := IRI(BIBO + "DocumentPart")

  /** The authors whose VIAF identifiers are known, keyed "family, given". */
  const NameUris: map<string, string> := map[
    "Terry, Arthur" := "http://viaf.org/viaf/2490119/",
    "Hobsbaum, Philip" := "http://viaf.org/viaf/91907300/",
    "Heaney, Seamus" := "http://viaf.org/viaf/109557338/",
    "Pakenham, John" := "http://viaf.org/viaf/40930958/",
    "Bredin, Hugh" := "http://viaf.org/viaf/94376522",
    "Buller, Norman" := "http://viaf.org/viaf/29058137",
    "McEldowney, Eugene" := "http://viaf.org/viaf/18143404",
    "Longley, Michael" := "http://viaf.org/viaf/39398205/",
    "Dugdale, Norman" := "http://viaf.org/viaf/50609413",
    "Simmons, James" := "http://viaf.org/viaf/92591927/",
    "Parker, Stewart" := "http://viaf.org/viaf/7497547/",
    "MacLaverty, Bernard" := "http://viaf.org/viaf/95151565",
    "Belfast Group" := "http://viaf.org/viaf/123393054/"
  ]

  // ---------------------------------------------------------------------
  // The regular expressions, as `re.match` and `re.search` run them

  /** The characters of `[a-z. ]`. */
  predicate GivenChar(c: char) { IsLowerLetter(c) || c == '.' || c == ' ' }

  predicate NotDigit(c: char) { !IsDigit(c) }

  datatype Name = Name(family: string, given: string)

  /** `'%s, %s' % (last_name, first_name)`, the key into `NameUris`. */
  function NameKey(n: Name): string {
    n.family + ", " + n.given
  }

  /** `'%s %s' % (first_name, last_name)`. */
  function FullName(n: Name): string {
    n.given + " " + n.family
  }

  /** What `NAME_REGEX` matches at the start of a line: `family` is `[A-Z][a-zA-Z]+`,
      `given` is `[A-Z][a-z. ]+` taken as far as it goes, and `rest` follows. */
  predicate NamePattern(family: string, given: string, rest: string) {
    && |family| >= 2 && IsUpper(family[0])
    && (forall k :: 0 <= k < |family| ==> IsLetter(family[k]))
    && |given| >= 2 && IsUpper(given[0])
    && (forall k :: 1 <= k < |given| ==> GivenChar(given[k]))
    && (rest == [] || !GivenChar(rest[0]))
  }

  /** `NAME_REGEX.match(first_line)` with both groups stripped
      (queens_belfast_rdf.py:28, 129-133). A run of letters can only be
      followed by ", " at its end, so the family name is the whole leading
      run of letters; the given name runs as far as `[a-z. ]` allows and
      only its trailing spaces can be stripped. */
  function NameMatch(line: string): (r: Option<Name>)
    ensures r.Some? ==> |r.value.family| >= 2 && IsUpper(r.value.family[0])
    ensures r.Some? ==> forall k :: 0 <= k < |r.value.family| ==> IsLetter(r.value.family[k])
    ensures r.Some? ==> r.value.given != [] && IsUpper(r.value.given[0]) && r.value.given[|r.value.given| - 1] != ' '
  {
    var k := PrefixLength(IsLetter, line);
    if k >= 2 && IsUpper(line[0]) && k + 3 <= |line| && line[k] == ',' && line[k + 1] == ' ' && IsUpper(line[k + 2]) then
      var m := PrefixLength(GivenChar, line[k + 3..]);
      if m >= 1 then
        var given := line[k + 2..k + 3 + m];
        RStripShape(given, ' ');
        RStripKeepsHead(given, ' ');
        Some(Name(line[..k], RStrip(given, ' ')))
      else None
    else None
  }

  /** A line of the form family, ", ", given, rest is matched with those
      names. */
  lemma NameMatchOf(family: string, given: string, rest: string)
    requires NamePattern(family, given, rest)
    ensures NameMatch(family + ", " + given + rest) == Some(Name(family, RStrip(given, ' ')))
  {
    var line := family + ", " + given + rest;
    var k := |family|;
    assert line == family + (", " + given + rest);
    PrefixLengthOf(IsLetter, family, ", " + given + rest);
    assert line[0] == family[0] && line[..k] == family;
    assert line[k] == ',' && line[k + 1] == ' ' && line[k + 2] == given[0];
    assert line[k + 3..] == given[1..] + rest;
    PrefixLengthOf(GivenChar, given[1..], rest);
    var m := |given| - 1;
    assert line[k + 2..k + 3 + m] == given;
  }

  /** Every match is of that form. */
  lemma NameMatchSound(line: string) returns (given: string, rest: string)
    requires NameMatch(line).Some?
    ensures NamePattern(NameMatch(line).value.family, given, rest)
    ensures line == NameMatch(line).value.family + ", " + given + rest
    ensures NameMatch(line).value.given == RStrip(given, ' ')
  {
    var k := PrefixLength(IsLetter, line);
    var m := PrefixLength(GivenChar, line[k + 3..]);
    given := line[k + 2..k + 3 + m];
    rest := line[k + 3 + m..];
    assert line[k..k + 2] == ", ";
    SplitFour(line, k, k + 2, k + 3 + m);
    forall i | 1 <= i < |given| ensures GivenChar(given[i]) {
      assert given[i] == line[k + 3..][i - 1];
    }
    if rest != [] {
      assert rest[0] == line[k + 3..][m];
    }
  }

  lemma SplitFour(s: string, i: nat, j: nat, l: nat)
    requires i <= j <= l <= |s|
    ensures s == s[..i] + s[i..j] + s[j..l] + s[l..]
  {
  }

  /** `d`, `m` and `y` are what `\d{2}`, `\d{2}` and `\d{4}` match. */
  predicate DatePattern(d: string, m: string, y: string) {
    |d| == 2 && |m| == 2 && |y| == 4 && AllDigits(d) && AllDigits(m) && AllDigits(y)
  }

  /** `yyyy-mm-dd`. */
  predicate IsoDate(s: string) {
    |s| == 10 && AllDigits(s[..4]) && s[4] == '-' && AllDigits(s[5..7]) && s[7] == '-' && AllDigits(s[8..])
  }

  /** `DATE_REGEX.match(line)`, giving `'%s-%s-%s' % (year, month, day)`
      (queens_belfast_rdf.py:29, 153-158). */
  function DateMatch(line: string): (r: Option<string>)
    ensures r.Some? ==> IsoDate(r.value)
  {
    if |line| >= 16 && line[..6] == "Dated " && AllDigits(line[6..8]) && line[8] == '/'
       && AllDigits(line[9..11]) && line[11] == '/' && AllDigits(line[12..16])
    then
      var r := line[12..16] + "-" + line[9..11] + "-" + line[6..8];
      assert r[..4] == line[12..16] && r[5..7] == line[9..11] && r[8..] == line[6..8];
      Some(r)
    else None
  }

  lemma DatedLine(d: string, m: string, y: string, rest: string)
    requires DatePattern(d, m, y)
    ensures DateMatch("Dated " + d + "/" + m + "/" + y + rest) == Some(y + "-" + m + "-" + d)
  {
    var line := "Dated " + d + "/" + m + "/" + y + rest;
    assert line[..6] == "Dated ";
    assert line[6..8] == d && line[9..11] == m && line[12..16] == y;
  }

  lemma DateMatchSound(line: string) returns (d: string, m: string, y: string, rest: string)
    requires DateMatch(line).Some?
    ensures DatePattern(d, m, y)
    ensures line == "Dated " + d + "/" + m + "/" + y + rest
    ensures DateMatch(line) == Some(y + "-" + m + "-" + d)
  {
    d, m, y, rest := line[6..8], line[9..11], line[12..16], line[16..];
    assert line == line[..6] + d + "/" + m + "/" + y + rest;
  }

  /** `YEAR_REGEX.match(line)`: "Dates ", any run of non-digits, then four
      digits (queens_belfast_rdf.py:30, 160-162). A run of non-digits cannot
      end early before a digit, so the year starts at the first digit. */
  function YearMatch(line: string): (r: Option<string>)
    ensures r.Some? ==> |r.value| == 4 && AllDigits(r.value)
  {
    if StartsWith(line, "Dates ") then
      var k := 6 + PrefixLength(NotDigit, line[6..]);
      if k + 4 <= |line| && AllDigits(line[k..k + 4]) then Some(line[k..k + 4]) else None
    else None
  }

  lemma YearLine(p: string, y: string, rest: string)
    requires forall k :: 0 <= k < |p| ==> !IsDigit(p[k])
    requires |y| == 4 && AllDigits(y)
    ensures YearMatch("Dates " + p + y + rest) == Some(y)
  {
    var line := "Dates " + p + y + rest;
    assert line[..6] == "Dates ";
    assert line[6..] == p + (y + rest);
    PrefixLengthOf(NotDigit, p, y + rest);
    assert line[6 + |p|..6 + |p| + 4] == y;
  }

  lemma YearMatchSound(line: string) returns (p: string, y: string, rest: string)
    requires YearMatch(line).Some?
    ensures forall k :: 0 <= k < |p| ==> !IsDigit(p[k])
    ensures line == "Dates " + p + y + rest
    ensures YearMatch(line) == Some(y)
  {
    var k := 6 + PrefixLength(NotDigit, line[6..]);
    p, y, rest := line[6..k], line[k..k + 4], line[k + 4..];
    forall i | 0 <= i < |p| ensures !IsDigit(p[i]) {
      assert p[i] == line[6..][i];
    }
    assert line == line[..6] + p + y + rest;
  }

  /** The date of a manuscript, from the last line of its div
      (queens_belfast_rdf.py:151-167): none when the line says "Undated",
      otherwise a full date, otherwise a year, otherwise none. */
  function DateOf(lastLine: string): (r: Option<string>)
    ensures Contains(lastLine, "Undated") ==> r.None?
    ensures r.Some? ==> IsoDate(r.value) || (|r.value| == 4 && AllDigits(r.value))
  {
    if Contains(lastLine, "Undated") then None
    else if DateMatch(lastLine).Some? then DateMatch(lastLine)
    else YearMatch(lastLine)
  }

  /** A "Dated dd/mm/yyyy" line gives "yyyy-mm-dd". */
  lemma DateOfDated(line: string, d: string, m: string, y: string, rest: string)
    requires DatePattern(d, m, y) && line == "Dated " + d + "/" + m + "/" + y + rest
    requires !Contains(line, "Undated")
    ensures DateOf(line) == Some(y + "-" + m + "-" + d)
  {
    DatedLine(d, m, y, rest);
  }

  /** A "Dates ... yyyy" line gives only the year. */
  lemma DateOfYear(line: string, p: string, y: string, rest: string)
    requires forall k :: 0 <= k < |p| ==> !IsDigit(p[k])
    requires |y| == 4 && AllDigits(y) && line == "Dates " + p + y + rest
    requires !Contains(line, "Undated")
    ensures DateOf(line) == Some(y)
  {
    YearLine(p, y, rest);
    assert line[..6][4] == 's' && "Dated "[4] == 'd';
  }

  /** The genre (queens_belfast_rdf.py:171-174): "poem" anywhere in the
      lower-cased first line makes it poetry, whatever else the div says;
      otherwise "short story" or "short stories" anywhere in the div makes
      it a short story. */
  function GenreOf(firstLine: string, text: string): (r: Option<string>)
    ensures r.Some? ==> r.value == "poetry" || r.value == "short story"
    ensures r == Some("poetry") <==> Contains(Lower(firstLine), "poem")
  {
    if Contains(Lower(firstLine), "poem") then Some("poetry")
    else if Contains(Lower(text), "short story") || Contains(Lower(text), "short stories") then Some("short story")
    else None
  }

  /** `w` lower-cased is `sub`, so the lower-cased text contains `sub`. */
  lemma ContainsLowered(pre: string, w: string, post: string, sub: string)
    requires Lower(w) == sub
    ensures Contains(Lower(pre + w + post), sub)
  {
    var s := Lower(pre + w + post);
    assert s[|pre|..|pre| + |w|] == Lower(w);
    assert OccursAt(s, sub, |pre|);
  }

  /** "Poem", "POEMS" or "poems" in the first line make it poetry, even
      when the div mentions a short story. */
  lemma PoemAnyCase(pre: string, w: string, post: string, text: string)
    requires Lower(w) == "poem"
    ensures GenreOf(pre + w + post, text) == Some("poetry")
  {
    ContainsLowered(pre, w, post, "poem");
  }

  lemma ShortStoryAnyCase(firstLine: string, pre: string, w: string, post: string)
    requires !Contains(Lower(firstLine), "poem")
    requires Lower(w) == "short story" || Lower(w) == "short stories"
    ensures GenreOf(firstLine, pre + w + post) == Some("short story")
  {
    ContainsLowered(pre, w, post, Lower(w));
  }

  /** `PAGES_REGEX` tried at index `i`: "Typescript", an optional "s",
      ", ", one digit, and then "p" (the first alternative of `(p|pp.)`,
      which succeeds whenever the second could). The optional "s" cannot
      be given back: without it the next character would have to be ",". */
  function PagesAt(text: string, i: nat): Option<char> {
    if OccursAt(text, "Typescript", i) then
      var j := if i + 10 < |text| && text[i + 10] == 's' then i + 11 else i + 10;
      if j + 4 <= |text| && text[j] == ',' && text[j + 1] == ' ' && IsDigit(text[j + 2]) && text[j + 3] == 'p'
      then Some(text[j + 2])
      else None
    else None
  }

  /** `re.search` from index `i`: the leftmost match wins. */
  function PagesFrom(text: string, i: nat): (r: Option<char>)
    requires i <= |text|
    ensures r.None? <==> forall k :: i <= k <= |text| ==> PagesAt(text, k).None?
    ensures r.Some? ==> exists k :: i <= k <= |text| && PagesAt(text, k) == r && forall j :: i <= j < k ==> PagesAt(text, j).None?
    decreases |text| - i
  {
    var here := PagesAt(text, i);
    if here.Some? then here
    else if i == |text| then None
    else
      var r := PagesFrom(text, i + 1);
      PagesFromStep(text, i, r);
      r
  }

  lemma PagesFromStep(text: string, i: nat, r: Option<char>)
    requires i < |text| && PagesAt(text, i).None?
    requires r.None? <==> forall k :: i + 1 <= k <= |text| ==> PagesAt(text, k).None?
    requires r.Some? ==> exists k :: i + 1 <= k <= |text| && PagesAt(text, k) == r && forall j :: i + 1 <= j < k ==> PagesAt(text, j).None?
    ensures r.None? <==> forall k :: i <= k <= |text| ==> PagesAt(text, k).None?
    ensures r.Some? ==> exists k :: i <= k <= |text| && PagesAt(text, k) == r && forall j :: i <= j < k ==> PagesAt(text, j).None?
  {
    if r.Some? {
      var k :| i + 1 <= k <= |text| && PagesAt(text, k) == r && forall j :: i + 1 <= j < k ==> PagesAt(text, j).None?;
      assert forall j :: i <= j < k ==> PagesAt(text, j).None?;
    }
  }

  /** `PAGES_REGEX.search(div.text)` and its `num` group
      (queens_belfast_rdf.py:31, 179-181): no count exactly when the
      pattern matches nowhere, and otherwise the digit of the leftmost
      match. */
  function PagesOf(text: string): (r: Option<string>)
    ensures r.None? <==> forall k :: 0 <= k <= |text| ==> PagesAt(text, k).None?
    ensures r.Some? ==> |r.value| == 1 && IsDigit(r.value[0])
    ensures r.Some? ==> exists k :: 0 <= k <= |text| && PagesAt(text, k) == Some(r.value[0])
                                  && forall j :: 0 <= j < k ==> PagesAt(text, j).None?
  {
    match PagesFrom(text, 0)
    case None => None
    case Some(d) => Some([d])
  }

  /** "Typescript, 3p" and "Typescripts, 3pp." give "3", after any text
      that holds no capital T. */
  lemma OneDigitPages(pre: string, plural: bool, d: char, post: string)
    requires IsDigit(d) && 'T' !in pre
    ensures PagesOf(pre + "Typescript" + (if plural then "s" else "") + ", " + [d] + "p" + post) == Some([d])
  {
    var m := "Typescript" + (if plural then "s" else "") + ", " + [d] + "p" + post;
    var text := pre + m;
    assert text == pre + "Typescript" + (if plural then "s" else "") + ", " + [d] + "p" + post;
    PagesAtStart(plural, d, post);
    PagesAtShift(pre, m, 0);
    NoMatchBeforeT(pre, m);
    var r := PagesOf(text);
    assert r.Some?;
    var k :| 0 <= k <= |text| && PagesAt(text, k) == Some(r.value[0]) && forall j :: 0 <= j < k ==> PagesAt(text, j).None?;
    assert k == |pre|;
  }

  lemma PagesAtStart(plural: bool, d: char, post: string)
    requires IsDigit(d)
    ensures PagesAt("Typescript" + (if plural then "s" else "") + ", " + [d] + "p" + post, 0) == Some(d)
  {
    var text := "Typescript" + (if plural then "s" else "") + ", " + [d] + "p" + post;
    assert text[..10] == "Typescript";
    var j := if plural then 11 else 10;
    assert text[j] == ',' && text[j + 1] == ' ' && text[j + 2] == d && text[j + 3] == 'p';
  }

  /** The pattern reads the same after a prefix. */
  lemma PagesAtShift(pre: string, m: string, k: nat)
    requires k <= |m|
    ensures PagesAt(pre + m, |pre| + k) == PagesAt(m, k)
  {
    var text := pre + m;
    var i := |pre| + k;
    assert forall x :: 0 <= x < |m| ==> text[|pre| + x] == m[x];
    if i + 10 <= |text| {
      assert text[i..i + 10] == m[k..k + 10];
    }
  }

  /** No match starts inside a prefix that holds no capital T. */
  lemma NoMatchBeforeT(pre: string, m: string)
    requires 'T' !in pre
    ensures forall k :: 0 <= k < |pre| ==> PagesAt(pre + m, k).None?
  {
    var text := pre + m;
    forall k | 0 <= k < |pre| ensures PagesAt(text, k).None? {
      assert text[k] == pre[k] != 'T';
      if k + 10 <= |text| {
        assert text[k..k + 10][0] == text[k];
      }
    }
  }

  /** Only one digit is read: a typescript of twelve pages gets no page
      count at all. */
  lemma TwoDigitPagesUnread(a: char, b: char)
    requires IsDigit(a) && IsDigit(b)
    ensures PagesOf("Typescripts, " + [a, b] + "pp.") == None
  {
    var text := "Typescripts, " + [a, b] + "pp.";
    assert |text| == 18;
    assert text[10] == 's' && text[11] == ',' && text[12] == ' ' && text[14] == b;
    forall k | 0 <= k <= |text| ensures PagesAt(text, k).None? {
      if 0 < k && k + 10 <= |text| {
        assert text[k] != 'T';
        assert text[k..k + 10][0] == text[k];
      }
    }
  }

  // ---------------------------------------------------------------------
  // From a div to the facts about its manuscript

  /** A div of the listing: `div.text`, `list(div.stripped_strings)`, and
      the stripped strings of its `<i>` elements in document order. */
  datatype Div = Div(text: string, strings: seq<string>, titles: seq<string>)

  /** `content[0]` on a div without strings. */
  datatype Error = IndexError

  /** What the rules read from one typescript div. */
  datatype Sheet = Sheet(author: Option<Name>, date: Option<string>, genre: Option<string>,
                         pages: Option<string>, titles: seq<string>)

  /** The per-div rules (queens_belfast_rdf.py:115-186): a div whose text
      does not mention "Typescript" is skipped; any other must have a first
      line, which gives the author, and a last line, which gives the date. */
  function Describe(div: Div): (r: Result<Option<Sheet>, Error>)
    ensures r == Success(None) <==> !Contains(div.text, "Typescript")
    ensures r.Failure? <==> Contains(div.text, "Typescript") && div.strings == []
    ensures r.Success? && r.value.Some? ==>
              var s := r.value.value;
              && s.author == NameMatch(div.strings[0])
              && s.date == DateOf(div.strings[|div.strings| - 1])
              && s.genre == GenreOf(div.strings[0], div.text)
              && s.pages == PagesOf(div.text)
              && s.titles == div.titles
  {
    if !Contains(div.text, "Typescript") then Success(None)
    else if div.strings == [] then Failure(IndexError)
    else
      var first := div.strings[0];
      var last := div.strings[|div.strings| - 1];
      Success(Some(Sheet(NameMatch(first), DateOf(last), GenreOf(first, div.text), PagesOf(div.text), div.titles)))
  }

  // ---------------------------------------------------------------------
  // The triples

  /** The author node: the known URI, or a fresh blank node numbered `id`. */
  function AuthorTerm(name: Name, id: nat): Term {
    var key := NameKey(name);
    if key in NameUris then IRI(NameUris[key]) else BNode(id)
  }

  function AuthorGraph(ms: Term, a: Term, name: Name): Graph {
    {(ms, Smush.SchemaAuthor, a), (a, RdfType, SchemaPerson), (a, SchemaName, Lit(FullName(name))),
     (a, Smush.SchemaFamilyName, Lit(name.family)), (a, Smush.SchemaGivenName, Lit(name.given))}
  }

  function PartGraph(ms: Term, title: string, part: Term): Graph {
    {(part, RdfType, BiboDocumentPart), (part, SchemaName, Lit(title)), (part, Smush.DcTitle, Lit(title)),
     (ms, Crawl.DcHasPart, part)}
  }

  /** One document part per title, the k-th numbered `n + k`. */
  function PartsGraph(ms: Term, titles: seq<string>, n: nat): Graph
    decreases |titles|
  {
    if titles == [] then {}
    else PartsGraph(ms, titles[..|titles| - 1], n) + PartGraph(ms, titles[|titles| - 1], BNode(n + |titles| - 1))
  }

  function Optional(s: Term, p: Term, v: Option<string>): Graph {
    if v.Some? then {(s, p, Lit(v.value))} else {}
  }

  function ManuscriptBase(coll: Term, ms: Term): Graph {
    {(coll, SchemaMentions, ms), (ms, RdfType, Smush.BiboManuscript)}
  }

  /** The author's triples and the next free node number. */
  function AuthorPart(ms: Term, author: Option<Name>, n: nat): (Graph, nat) {
    match author
    case None => ({}, n)
    case Some(name) =>
      var a := AuthorTerm(name, n);
      (AuthorGraph(ms, a, name), if a.BNode? then n + 1 else n)
  }

  /** The date, genre and page count, each when there is one. */
  function FactsGraph(ms: Term, s: Sheet): Graph {
    Optional(ms, DcDate, s.date) + Optional(ms, SchemaGenre, s.genre) + Optional(ms, BiboNumPages, s.pages)
  }

  /** The title triples and the next free node number. */
  function TitlePart(ms: Term, titles: seq<string>, n: nat): (Graph, nat) {
    if |titles| == 1 then ({(ms, SchemaName, Lit(titles[0]))}, n)
    else (PartsGraph(ms, titles, n), n + |titles|)
  }

  /** The triples of one manuscript whose node is numbered `n`, and the next
      free node number (queens_belfast_rdf.py:120-200). */
  function SheetGraph(coll: Term, s: Sheet, n: nat): (Graph, nat) {
    var ms := BNode(n);
    var people := AuthorPart(ms, s.author, n + 1);
    var named := TitlePart(ms, s.titles, people.1);
    (ManuscriptBase(coll, ms) + people.0 + FactsGraph(ms, s) + named.0, named.1)
  }

  /** The predicates a manuscript node can carry are distinct terms. */
  lemma ManuscriptPredicates()
    ensures RdfType !in {SchemaMentions, Smush.SchemaAuthor, DcDate, SchemaGenre, BiboNumPages, SchemaName, Crawl.DcHasPart}
    ensures SchemaMentions !in {Smush.SchemaAuthor, DcDate, SchemaGenre, BiboNumPages, SchemaName, Crawl.DcHasPart}
    ensures Smush.SchemaAuthor !in {DcDate, SchemaGenre, BiboNumPages, SchemaName, Crawl.DcHasPart}
    ensures DcDate !in {SchemaGenre, BiboNumPages, SchemaName, Crawl.DcHasPart}
    ensures SchemaGenre !in {BiboNumPages, SchemaName, Crawl.DcHasPart}
    ensures BiboNumPages !in {SchemaName, Crawl.DcHasPart}
    ensures SchemaName != Crawl.DcHasPart
  {
    NamespacesDiffer();
    SchemaTermsDiffer();
    PurlTermsDiffer();
  }

  /** rdf:type, the schema.org terms and the purl.org terms lie in
      different namespaces. */
  lemma NamespacesDiffer()
    ensures RdfType !in {SchemaMentions, Smush.SchemaAuthor, DcDate, SchemaGenre, BiboNumPages, SchemaName, Crawl.DcHasPart}
    ensures SchemaMentions !in {DcDate, BiboNumPages, Crawl.DcHasPart}
    ensures Smush.SchemaAuthor !in {DcDate, BiboNumPages, Crawl.DcHasPart}
    ensures SchemaGenre !in {DcDate, BiboNumPages, Crawl.DcHasPart}
    ensures SchemaName !in {DcDate, BiboNumPages, Crawl.DcHasPart}
  {
    assert RdfType.iri[7] == 'w';
    assert SchemaMentions.iri[7] == 's' && Smush.SchemaAuthor.iri[7] == 's';
    assert SchemaGenre.iri[7] == 's' && SchemaName.iri[7] == 's';
    assert DcDate.iri[7] == 'p' && Crawl.DcHasPart.iri[7] == 'p' && BiboNumPages.iri[7] == 'p';
  }

  lemma SchemaTermsDiffer()
    ensures SchemaMentions !in {Smush.SchemaAuthor, SchemaGenre, SchemaName}
    ensures Smush.SchemaAuthor !in {SchemaGenre, SchemaName}
    ensures SchemaGenre != SchemaName
  {
    assert SchemaMentions.iri[18] == 'm' && Smush.SchemaAuthor.iri[18] == 'a';
    assert SchemaGenre.iri[18] == 'g' && SchemaName.iri[18] == 'n';
  }

  lemma PurlTermsDiffer()
    ensures DcDate !in {BiboNumPages, Crawl.DcHasPart}
    ensures BiboNumPages != Crawl.DcHasPart
  {
    assert DcDate.iri[16] == 'd' && DcDate.iri[25] == 'd';
    assert Crawl.DcHasPart.iri[16] == 'd' && Crawl.DcHasPart.iri[25] == 'h';
    assert BiboNumPages.iri[16] == 'o';
  }

  /** A blank node, if `x` is one, numbered in `[lo, hi)`. */
  predicate NumberedIn(x: Term, lo: nat, hi: nat) {
    x.BNode? ==> lo <= x.id < hi
  }

  /** The document parts hang off the manuscript and bring only the nodes
      numbered `n` to `n + |titles|`. */
  lemma {:induction false} PartsGraphShape(ms: Term, titles: seq<string>, n: nat)
    requires ms.BNode? && ms.id < n
    ensures forall t :: t in PartsGraph(ms, titles, n) ==>
              && (t.0 == ms || NumberedIn(t.0, n, n + |titles|))
              && (t.0 == ms ==> t.1 == Crawl.DcHasPart)
              && !t.1.BNode?
              && NumberedIn(t.2, n, n + |titles|)
    decreases |titles|
  {
    if titles != [] {
      PartsGraphShape(ms, titles[..|titles| - 1], n);
    }
  }

  lemma UnionAssoc(a: Graph, b: Graph, c: Graph)
    ensures a + b + c == a + (b + c)
  {
  }

  /** One more title adds its part, numbered after the others. */
  lemma PartsGraphSnoc(ms: Term, titles: seq<string>, n: nat, i: nat)
    requires i < |titles|
    ensures PartsGraph(ms, titles[..i + 1], n) == PartsGraph(ms, titles[..i], n) + PartGraph(ms, titles[i], BNode(n + i))
  {
    assert titles[..i + 1][..i] == titles[..i];
    assert titles[..i + 1][i] == titles[i];
  }

  /** Adding the next part to a graph that holds the first `i` parts
      gives the graph that holds `i + 1`. */
  lemma PartsStep(g0: Graph, ms: Term, titles: seq<string>, n: nat, i: nat)
    requires i < |titles|
    ensures g0 + PartsGraph(ms, titles[..i + 1], n) == g0 + PartsGraph(ms, titles[..i], n) + PartGraph(ms, titles[i], BNode(n + i))
  {
    PartsGraphSnoc(ms, titles, n, i);
    UnionAssoc(g0, PartsGraph(ms, titles[..i], n), PartGraph(ms, titles[i], BNode(n + i)));
  }

  /** Each title of the list has its document part. */
  lemma {:induction false} PartsGraphTitles(ms: Term, titles: seq<string>, n: nat)
    ensures forall k :: 0 <= k < |titles| ==> PartGraph(ms, titles[k], BNode(n + k)) <= PartsGraph(ms, titles, n)
    decreases |titles|
  {
    if titles != [] {
      var init := titles[..|titles| - 1];
      PartsGraphTitles(ms, init, n);
      forall k | 0 <= k < |init| ensures titles[k] == init[k] { }
    }
  }

  lemma AuthorPartShape(ms: Term, author: Option<Name>, n: nat)
    requires ms.BNode? && ms.id < n
    ensures n <= AuthorPart(ms, author, n).1 <= n + 1
    ensures forall t :: t in AuthorPart(ms, author, n).0 ==>
              && (t.0 == ms || NumberedIn(t.0, n, AuthorPart(ms, author, n).1))
              && (t.0 == ms ==> t.1 == Smush.SchemaAuthor)
              && !t.1.BNode?
              && NumberedIn(t.2, n, AuthorPart(ms, author, n).1)
  {
  }

  lemma TitlePartShape(ms: Term, titles: seq<string>, n: nat)
    requires ms.BNode? && ms.id < n
    ensures n <= TitlePart(ms, titles, n).1
    ensures forall t :: t in TitlePart(ms, titles, n).0 ==>
              && (t.0 == ms || NumberedIn(t.0, n, TitlePart(ms, titles, n).1))
              && (t.0 == ms ==> t.1 == if |titles| == 1 then SchemaName else Crawl.DcHasPart)
              && !t.1.BNode?
              && NumberedIn(t.2, n, TitlePart(ms, titles, n).1)
  {
    if |titles| != 1 {
      PartsGraphShape(ms, titles, n);
    }
  }

  /** Every blank node the manuscript brings, other than the collection,
      is numbered from `n` up to the next free number. */
  lemma SheetFresh(coll: Term, s: Sheet, n: nat)
    ensures n < SheetGraph(coll, s, n).1
    ensures forall t :: t in SheetGraph(coll, s, n).0 ==> NumberedTriple(t, coll, n, SheetGraph(coll, s, n).1)
  {
    var ms := BNode(n);
    var people := AuthorPart(ms, s.author, n + 1);
    var named := TitlePart(ms, s.titles, people.1);
    AuthorPartShape(ms, s.author, n + 1);
    TitlePartShape(ms, s.titles, people.1);
    var hi := named.1;
    BaseNumbered(coll, n, hi);
    PartNumbered(people.0, coll, n, n + 1, people.1, hi);
    FactsNumbered(coll, s, n, hi);
    PartNumbered(named.0, coll, n, people.1, named.1, hi);
    UnionNumbered(ManuscriptBase(coll, ms), people.0, FactsGraph(ms, s), named.0, coll, n, hi);
  }

  /** The nodes of `t` other than the collection are numbered in `[lo, hi)`. */
  predicate NumberedTriple(t: Triple, coll: Term, lo: nat, hi: nat) {
    (t.0 == coll || NumberedIn(t.0, lo, hi)) && NumberedIn(t.1, lo, hi) && NumberedIn(t.2, lo, hi)
  }

  lemma BaseNumbered(coll: Term, n: nat, hi: nat)
    requires n < hi
    ensures forall t :: t in ManuscriptBase(coll, BNode(n)) ==> NumberedTriple(t, coll, n, hi)
  {
  }

  /** Triples hanging off the manuscript `BNode(n)` whose other nodes are
      numbered in `[lo, mid)` are numbered in `[n, hi)`. */
  lemma PartNumbered(part: Graph, coll: Term, n: nat, lo: nat, mid: nat, hi: nat)
    requires n < lo <= mid <= hi
    requires forall t :: t in part ==>
               && (t.0 == BNode(n) || NumberedIn(t.0, lo, mid))
               && !t.1.BNode?
               && NumberedIn(t.2, lo, mid)
    ensures forall t :: t in part ==> NumberedTriple(t, coll, n, hi)
  {
  }

  lemma UnionNumbered(a: Graph, b: Graph, c: Graph, d: Graph, coll: Term, n: nat, hi: nat)
    requires forall t :: t in a ==> NumberedTriple(t, coll, n, hi)
    requires forall t :: t in b ==> NumberedTriple(t, coll, n, hi)
    requires forall t :: t in c ==> NumberedTriple(t, coll, n, hi)
    requires forall t :: t in d ==> NumberedTriple(t, coll, n, hi)
    ensures forall t :: t in a + b + c + d ==> NumberedTriple(t, coll, n, hi)
  {
  }

  lemma FactsNumbered(coll: Term, s: Sheet, n: nat, hi: nat)
    requires n < hi
    ensures forall t :: t in FactsGraph(BNode(n), s) ==> NumberedTriple(t, coll, n, hi)
  {
  }

  /** The author (queens_belfast_rdf.py:129-147): when the first line names
      one, the manuscript's author is the known URI for "family, given" or
      else a fresh blank node, and the author always gets a type, a full
      name, a family name and a given name. */
  lemma SheetAuthor(coll: Term, s: Sheet, n: nat, name: Name)
    requires s.author == Some(name)
    ensures NameKey(name) in NameUris ==> (BNode(n), Smush.SchemaAuthor, IRI(NameUris[NameKey(name)])) in SheetGraph(coll, s, n).0
    ensures NameKey(name) !in NameUris ==> (BNode(n), Smush.SchemaAuthor, BNode(n + 1)) in SheetGraph(coll, s, n).0
    ensures AuthorGraph(BNode(n), AuthorTerm(name, n + 1), name) <= SheetGraph(coll, s, n).0
  {
  }

  /** Without a name on the first line the manuscript has no author. */
  lemma SheetNoAuthor(coll: Term, s: Sheet, n: nat)
    requires s.author.None?
    ensures forall a :: (BNode(n), Smush.SchemaAuthor, a) !in SheetGraph(coll, s, n).0
  {
    ManuscriptPredicates();
    TitlePartShape(BNode(n), s.titles, n + 1);
  }

  /** The titles (queens_belfast_rdf.py:188-191): a single title names the
      manuscript and there are no document parts. */
  lemma SheetOneTitle(coll: Term, s: Sheet, n: nat)
    requires |s.titles| == 1
    ensures (BNode(n), SchemaName, Lit(s.titles[0])) in SheetGraph(coll, s, n).0
    ensures forall o :: (BNode(n), Crawl.DcHasPart, o) !in SheetGraph(coll, s, n).0
  {
    var ms := BNode(n);
    var people := AuthorPart(ms, s.author, n + 1);
    ManuscriptPredicates();
    AuthorPartShape(ms, s.author, n + 1);
    forall o ensures (ms, Crawl.DcHasPart, o) !in SheetGraph(coll, s, n).0 {
      assert (ms, Crawl.DcHasPart, o) !in people.0;
    }
  }

  /** Any other number of titles (queens_belfast_rdf.py:193-200) leaves
      the manuscript without a name. */
  lemma SheetNoName(coll: Term, s: Sheet, n: nat)
    requires |s.titles| != 1
    ensures forall o :: (BNode(n), SchemaName, o) !in SheetGraph(coll, s, n).0
  {
    var ms := BNode(n);
    var people := AuthorPart(ms, s.author, n + 1);
    ManuscriptPredicates();
    AuthorPartShape(ms, s.author, n + 1);
    PartsGraphShape(ms, s.titles, people.1);
    forall o ensures (ms, SchemaName, o) !in SheetGraph(coll, s, n).0 {
      assert (ms, SchemaName, o) !in people.0;
      assert (ms, SchemaName, o) !in PartsGraph(ms, s.titles, people.1);
    }
  }

  /** ... and gives one document part per title, linked by dc:hasPart. */
  lemma SheetParts(coll: Term, s: Sheet, n: nat)
    requires |s.titles| != 1
    ensures forall k :: 0 <= k < |s.titles| ==>
              PartGraph(BNode(n), s.titles[k], BNode(AuthorPart(BNode(n), s.author, n + 1).1 + k)) <= SheetGraph(coll, s, n).0
  {
    PartsGraphTitles(BNode(n), s.titles, AuthorPart(BNode(n), s.author, n + 1).1);
  }

  /** So a div without titles gives neither a name nor parts. */
  lemma SheetNoTitles(coll: Term, s: Sheet, n: nat)
    requires s.titles == []
    ensures forall o :: (BNode(n), Crawl.DcHasPart, o) !in SheetGraph(coll, s, n).0
    ensures forall o :: (BNode(n), SchemaName, o) !in SheetGraph(coll, s, n).0
  {
    var ms := BNode(n);
    var people := AuthorPart(ms, s.author, n + 1);
    ManuscriptPredicates();
    AuthorPartShape(ms, s.author, n + 1);
    assert TitlePart(ms, s.titles, people.1).0 == {};
    forall o ensures (ms, Crawl.DcHasPart, o) !in SheetGraph(coll, s, n).0 {
      assert (ms, Crawl.DcHasPart, o) !in people.0;
    }
    SheetNoName(coll, s, n);
  }

  // ---------------------------------------------------------------------
  // The whole document

  /** The collection's own triples (queens_belfast_rdf.py:78-84). */
  function CollectionGraph(coll: Term, heading: string, about: string): Graph {
    {(coll, RdfType, ArchCollection), (coll, RdfType, SchemaCreativeWork), (coll, RdfType, DcmiCollection),
     (coll, SchemaName, Lit(heading)), (coll, SchemaDescription, Lit(about)),
     (coll, SchemaAbout, IRI(NameUris["Belfast Group"]))}
  }

  /** One pass of the div loop on the graph `g` with next node number `n`. */
  function DivStep(coll: Term, div: Div, g: Graph, n: nat): Result<(Graph, nat), Error> {
    var d :- Describe(div);
    if d.None? then Success((g, n))
    else
      var sheet := SheetGraph(coll, d.value, n);
      Success((g + sheet.0, sheet.1))
  }

  /** The div loop over `divs`, from the graph `g` and node number `n`. */
  function DivsGraph(coll: Term, divs: seq<Div>, g: Graph, n: nat): Result<(Graph, nat), Error>
    decreases |divs|
  {
    if divs == [] then Success((g, n))
    else
      var acc :- DivsGraph(coll, divs[..|divs| - 1], g, n);
      DivStep(coll, divs[|divs| - 1], acc.0, acc.1)
  }

  /** `generate_rdf` up to serialization: the collection is blank node 0. */
  function DocumentGraph(heading: string, about: string, divs: seq<Div>): Result<Graph, Error> {
    var coll := BNode(0);
    var acc :- DivsGraph(coll, divs, CollectionGraph(coll, heading, about), 1);
    Success(acc.0)
  }

  /** Running the loop over `a + b` is running it over `a`, then over `b`. */
  lemma {:induction false} DivsAppend(coll: Term, a: seq<Div>, b: seq<Div>, g: Graph, n: nat)
    ensures DivsGraph(coll, a + b, g, n) ==
              (match DivsGraph(coll, a, g, n)
               case Failure(e) => Failure(e)
               case Success(acc) => DivsGraph(coll, b, acc.0, acc.1))
    decreases |b|
  {
    if b == [] {
      assert a + b == a;
    } else {
      var init := b[..|b| - 1];
      assert (a + b)[..|a + b| - 1] == a + init;
      assert (a + b)[|a + b| - 1] == b[|b| - 1];
      DivsAppend(coll, a, init, g, n);
    }
  }

  /** A div that does not mention a typescript changes nothing, wherever it
      stands (queens_belfast_rdf.py:117-118). */
  lemma SkippedDiv(coll: Term, pre: seq<Div>, div: Div, post: seq<Div>, g: Graph, n: nat)
    requires !Contains(div.text, "Typescript")
    ensures DivsGraph(coll, pre + [div] + post, g, n) == DivsGraph(coll, pre + post, g, n)
  {
    DivsAppend(coll, pre + [div], post, g, n);
    DivsAppend(coll, pre, [div], g, n);
    DivsAppend(coll, pre, post, g, n);
    assert ([] + [div])[..0] == [];
  }

  /** The document fails exactly when some typescript div has no strings. */
  lemma {:induction false} DivsFailure(coll: Term, divs: seq<Div>, g: Graph, n: nat)
    ensures DivsGraph(coll, divs, g, n).Failure? <==>
              exists i :: 0 <= i < |divs| && Contains(divs[i].text, "Typescript") && divs[i].strings == []
    decreases |divs|
  {
    if divs != [] {
      var init := divs[..|divs| - 1];
      DivsFailure(coll, init, g, n);
      if exists i :: 0 <= i < |init| && Contains(init[i].text, "Typescript") && init[i].strings == [] {
        var i :| 0 <= i < |init| && Contains(init[i].text, "Typescript") && init[i].strings == [];
        assert divs[i] == init[i];
      }
      if exists i :: 0 <= i < |divs| && Contains(divs[i].text, "Typescript") && divs[i].strings == [] {
        var i :| 0 <= i < |divs| && Contains(divs[i].text, "Typescript") && divs[i].strings == [];
        if i < |init| {
          assert init[i] == divs[i];
        }
      }
    }
  }

  /** The loop only adds triples, and every triple it adds mentions no
      blank node but the collection and nodes numbered from `n` up to the
      next free number: no node number in use before the loop is reused. */
  lemma {:induction false} DivsGrow(coll: Term, divs: seq<Div>, g: Graph, n: nat)
    requires DivsGraph(coll, divs, g, n).Success?
    ensures g <= DivsGraph(coll, divs, g, n).value.0
    ensures n <= DivsGraph(coll, divs, g, n).value.1
    ensures forall t :: t in DivsGraph(coll, divs, g, n).value.0 && t !in g ==>
              NumberedTriple(t, coll, n, DivsGraph(coll, divs, g, n).value.1)
    decreases |divs|
  {
    if divs != [] {
      DivsGrow(coll, divs[..|divs| - 1], g, n);
      var acc := DivsGraph(coll, divs[..|divs| - 1], g, n).value;
      var d := Describe(divs[|divs| - 1]).value;
      if d.Some? {
        var sheet := SheetGraph(coll, d.value, acc.1);
        SheetFresh(coll, d.value, acc.1);
        WidenNumbered(acc.0 - g, coll, n, acc.1, n, sheet.1);
        WidenNumbered(sheet.0, coll, acc.1, sheet.1, n, sheet.1);
      }
    }
  }

  /** Numbering within `[lo, hi)` is numbering within any wider range. */
  lemma WidenNumbered(a: Graph, coll: Term, lo: nat, hi: nat, lo': nat, hi': nat)
    requires lo' <= lo && hi <= hi'
    requires forall t :: t in a ==> NumberedTriple(t, coll, lo, hi)
    ensures forall t :: t in a ==> NumberedTriple(t, coll, lo', hi')
  {
  }

  /** A generated document always describes the collection. */
  lemma DocumentHasCollection(heading: string, about: string, divs: seq<Div>)
    requires DocumentGraph(heading, about, divs).Success?
    ensures CollectionGraph(BNode(0), heading, about) <= DocumentGraph(heading, about, divs).value
  {
    DivsGrow(BNode(0), divs, CollectionGraph(BNode(0), heading, about), 1);
  }

  /** A typescript div whose first line reads "Family, Given ..." gets that
      author: the known URI or a fresh node, with type and names. */
  lemma DivAuthor(coll: Term, div: Div, g: Graph, n: nat, family: string, given: string, rest: string)
    requires Contains(div.text, "Typescript") && div.strings != []
    requires div.strings[0] == family + ", " + given + rest && NamePattern(family, given, rest)
    ensures DivStep(coll, div, g, n).Success?
    ensures var name := Name(family, RStrip(given, ' '));
            AuthorGraph(BNode(n), AuthorTerm(name, n + 1), name) <= DivStep(coll, div, g, n).value.0
  {
    NameMatchOf(family, given, rest);
    SheetAuthor(coll, Describe(div).value.value, n, Name(family, RStrip(given, ' ')));
  }

  /** A typescript div whose last line reads "Dated dd/mm/yyyy" is dated
      "yyyy-mm-dd". */
  lemma DivDated(coll: Term, div: Div, g: Graph, n: nat, d: string, m: string, y: string, rest: string)
    requires Contains(div.text, "Typescript") && div.strings != []
    requires DatePattern(d, m, y) && div.strings[|div.strings| - 1] == "Dated " + d + "/" + m + "/" + y + rest
    requires !Contains(div.strings[|div.strings| - 1], "Undated")
    ensures DivStep(coll, div, g, n).Success?
    ensures (BNode(n), DcDate, Lit(y + "-" + m + "-" + d)) in DivStep(coll, div, g, n).value.0
  {
    DateOfDated(div.strings[|div.strings| - 1], d, m, y, rest);
  }

  // ---------------------------------------------------------------------
  // The imperative generator

  /** The graph under construction and the counter that numbers fresh
      blank nodes. */
  class RdfBuilder {
    var graph: Graph
    var nextId: nat

    constructor ()
      ensures graph == {} && nextId == 0
    {
      graph := {};
      nextId := 0;
    }

    /** No blank node of the graph is numbered `nextId` or above. */
    predicate Valid()
      reads this
    {
      forall t :: t in graph ==> NumberedIn(t.0, 0, nextId) && NumberedIn(t.1, 0, nextId) && NumberedIn(t.2, 0, nextId)
    }

    /** `rdflib.BNode()`: a node the graph does not mention yet. */
    method NewNode() returns (b: Term)
      modifies this
      ensures b == BNode(old(nextId)) && nextId == old(nextId) + 1 && graph == old(graph)
      ensures old(Valid()) ==> Valid() && forall t :: t in graph ==> t.0 != b && t.1 != b && t.2 != b
    {
      b := BNode(nextId);
      nextId := nextId + 1;
    }

    /** The loop over several titles (queens_belfast_rdf.py:194-200). */
    method AddParts(ms: Term, titles: seq<string>)
      modifies this
      ensures graph == old(graph) + PartsGraph(ms, titles, old(nextId))
      ensures nextId == old(nextId) + |titles|
    {
      ghost var g0, n0 := graph, nextId;
      var i := 0;
      while i < |titles|
        invariant 0 <= i <= |titles|
        invariant graph == g0 + PartsGraph(ms, titles[..i], n0)
        invariant nextId == n0 + i
      {
        PartsStep(g0, ms, titles, n0, i);
        AddPart(ms, titles[i]);
        i := i + 1;
      }
      assert titles[..i] == titles;
    }

    /** One document part with its type, name and title
        (queens_belfast_rdf.py:195-200). */
    method AddPart(ms: Term, title: string)
      modifies this
      ensures graph == old(graph) + PartGraph(ms, title, BNode(old(nextId)))
      ensures nextId == old(nextId) + 1
    {
      var part := NewNode();
      graph := graph + PartGraph(ms, title, part);
    }

    /** The author triples (queens_belfast_rdf.py:136-147). */
    method AddAuthor(ms: Term, name: Name)
      modifies this
      ensures (graph, nextId) == (old(graph) + AuthorPart(ms, Some(name), old(nextId)).0, AuthorPart(ms, Some(name), old(nextId)).1)
    {
      var author;
      if NameKey(name) in NameUris {
        author := IRI(NameUris[NameKey(name)]);
      } else {
        author := NewNode();
      }
      graph := graph + AuthorGraph(ms, author, name);
    }

    /** The date, genre and page count (queens_belfast_rdf.py:151-181). */
    method AddFacts(ms: Term, s: Sheet)
      modifies this
      ensures graph == old(graph) + FactsGraph(ms, s) && nextId == old(nextId)
    {
      if s.date.Some? {
        graph := graph + {(ms, DcDate, Lit(s.date.value))};
      }
      if s.genre.Some? {
        graph := graph + {(ms, SchemaGenre, Lit(s.genre.value))};
      }
      if s.pages.Some? {
        graph := graph + {(ms, BiboNumPages, Lit(s.pages.value))};
      }
    }

    /** The titles (queens_belfast_rdf.py:183-200). */
    method AddTitles(ms: Term, titles: seq<string>)
      modifies this
      ensures (graph, nextId) == (old(graph) + TitlePart(ms, titles, old(nextId)).0, TitlePart(ms, titles, old(nextId)).1)
    {
      if |titles| == 1 {
        graph := graph + {(ms, SchemaName, Lit(titles[0]))};
      } else {
        AddParts(ms, titles);
      }
    }

    /** The triples of one typescript div (queens_belfast_rdf.py:120-200). */
    method AddSheet(coll: Term, s: Sheet) returns (ms: Term)
      modifies this
      ensures ms == BNode(old(nextId))
      ensures graph == old(graph) + SheetGraph(coll, s, old(nextId)).0
      ensures nextId == SheetGraph(coll, s, old(nextId)).1
    {
      ms := NewNode();
      graph := graph + ManuscriptBase(coll, ms);
      ghost var people := AuthorPart(ms, s.author, nextId);
      if s.author.Some? {
        AddAuthor(ms, s.author.value);
      }
      assert graph == old(graph) + ManuscriptBase(coll, ms) + people.0 && nextId == people.1;
      AddFacts(ms, s);
      ghost var named := TitlePart(ms, s.titles, nextId);
      AddTitles(ms, s.titles);
      assert graph == old(graph) + ManuscriptBase(coll, ms) + people.0 + FactsGraph(ms, s) + named.0;
      assert nextId == named.1;
    }

    /** One pass of the div loop (queens_belfast_rdf.py:115-200); `ok` is
        false when `content[0]` raised. */
    method AddDiv(coll: Term, div: Div) returns (ok: bool)
      modifies this
      ensures ok <==> DivStep(coll, div, old(graph), old(nextId)).Success?
      ensures ok ==> (graph, nextId) == DivStep(coll, div, old(graph), old(nextId)).value
      ensures old(Valid()) && NumberedIn(coll, 0, old(nextId)) ==> Valid() && NumberedIn(coll, 0, nextId)
    {
      var d := Describe(div);
      if d.Failure? {
        return false;
      }
      ok := true;
      if d.value.Some? {
        ghost var g0, n0 := graph, nextId;
        SheetFresh(coll, d.value.value, nextId);
        var _ := AddSheet(coll, d.value.value);
        if old(Valid()) && NumberedIn(coll, 0, n0) {
          SheetKeepsValid(g0, SheetGraph(coll, d.value.value, n0).0, coll, n0, nextId);
        }
      }
    }
  }

  /** A sheet numbered from `n` up, added to a graph numbered below `n`,
      leaves a graph numbered below the new counter. */
  lemma SheetKeepsValid(g: Graph, sheet: Graph, coll: Term, n: nat, hi: nat)
    requires n <= hi && NumberedIn(coll, 0, n)
    requires forall t :: t in g ==> NumberedIn(t.0, 0, n) && NumberedIn(t.1, 0, n) && NumberedIn(t.2, 0, n)
    requires forall t :: t in sheet ==> NumberedTriple(t, coll, n, hi)
    ensures forall t :: t in g + sheet ==> NumberedIn(t.0, 0, hi) && NumberedIn(t.1, 0, hi) && NumberedIn(t.2, 0, hi)
  {
  }

  /** `generate_rdf(file)` from the parsed listing: the heading, the "about"
      paragraph and the divs (queens_belfast_rdf.py:69-200). */
  method GenerateRdf(heading: string, about: string, divs: seq<Div>) returns (r: Result<Graph, Error>)
    ensures r == DocumentGraph(heading, about, divs)
  {
    var b := new RdfBuilder();
    var coll := b.NewNode();
    b.graph := CollectionGraph(coll, heading, about);
    var i := 0;
    while i < |divs|
      invariant 0 <= i <= |divs|
      invariant DivsGraph(coll, divs[..i], CollectionGraph(coll, heading, about), 1) == Success((b.graph, b.nextId))
      invariant coll == BNode(0)
      invariant b.Valid() && NumberedIn(coll, 0, b.nextId)
    {
      assert divs[..i + 1][..i] == divs[..i];
      var ok := b.AddDiv(coll, divs[i]);
      if !ok {
        DivsAppend(coll, divs[..i + 1], divs[i + 1..], CollectionGraph(coll, heading, about), 1);
        assert divs[..i + 1] + divs[i + 1..] == divs;
        return Failure(IndexError);
      }
      i := i + 1;
    }
    assert divs[..i] == divs;
    r := Success(b.graph);
  }

  /** `'%s.xml' % os.path.splitext(os.path.basename(file))[0]`
      (queens_belfast_rdf.py:204-205): the extension is dropped from the
      last dot on, unless nothing but dots comes before that dot. */
  function OutputName(file: string): string {
    var base := LastSegment(file);
    var d := LastIndexOf(base, '.');
    var root := if d > 0 && exists k :: 0 <= k < d && base[k] != '.' then base[..d] else base;
    root + ".xml"
  }

  /** The index of the last `c` in `s`, or -1. */
  function LastIndexOf(s: string, c: char): (r: int)
    ensures -1 <= r < |s|
    ensures r >= 0 ==> s[r] == c
    ensures forall k :: r < k < |s| ==> s[k] != c
  {
    if s == [] then -1
    else if s[|s| - 1] == c then |s| - 1
    else LastIndexOf(s[..|s| - 1], c)
  }

  /** `dir/stem.ext` is saved as `stem.xml` in the current directory. */
  lemma OutputNameOf(dir: string, stem: string, ext: string)
    requires stem != "" && stem[0] != '.' && '/' !in stem
    requires '/' !in ext && '.' !in ext
    ensures OutputName(dir + "/" + stem + "." + ext) == stem + ".xml"
  {
    var base := stem + "." + ext;
    assert dir + "/" + stem + "." + ext == (dir + "/") + base;
    assert forall k :: 0 <= k < |base| ==> base[k] != '/';
    LastSegmentOfName(dir + "/", base);
    LastDotOf(stem, ext);
    assert base[0] == stem[0];
    assert base[..|stem|] == stem;
  }

  lemma {:induction false} LastDotOf(stem: string, ext: string)
    requires '.' !in ext
    ensures LastIndexOf(stem + "." + ext, '.') == |stem|
    decreases |ext|
  {
    var base := stem + "." + ext;
    if ext == [] {
      assert base[|base| - 1] == '.';
    } else {
      var init := ext[..|ext| - 1];
      assert base[..|base| - 1] == stem + "." + init;
      assert base[|base| - 1] == ext[|ext| - 1];
      LastDotOf(stem, init);
    }
  }

  /** A name whose only dot leads it keeps the whole name. */
  lemma HiddenOutputName(dir: string, name: string)
    requires '/' !in name && '.' !in name
    ensures OutputName(dir + "/." + name) == "." + name + ".xml"
  {
    var base := "." + name;
    assert dir + "/." + name == (dir + "/") + base;
    assert forall k :: 0 <= k < |base| ==> base[k] != '/';
    LastSegmentOfName(dir + "/", base);
    assert base[0] == '.';
    forall k | 0 < k < |base| ensures base[k] != '.' {
      assert base[k] == name[k - 1];
    }
    assert LastIndexOf(base, '.') == 0;
  }

  lemma {:induction false} LastSegmentOfName(dir: string, base: string)
    requires dir != [] && dir[|dir| - 1] == '/'
    requires forall k :: 0 <= k < |base| ==> base[k] != '/'
    ensures LastSegment(dir + base) == base
    decreases |base|
  {
    if base == [] {
      assert dir + base == dir;
    } else {
      var init := base[..|base| - 1];
      assert (dir + base)[..|dir + base| - 1] == dir + init;
      LastSegmentOfName(dir, init);
      assert init + [base[|base| - 1]] == base;
    }
  }
}
