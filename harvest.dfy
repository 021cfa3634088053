/** belfastdata/harvest.py: the library harvester `HarvestRdf`, which keeps
    counts of the pages it tried, saved and failed on, and the part of
    `HarvestRelated` that names the files of related VIAF, GeoNames and
    DBpedia records. The network is the parameter `fetch`, `urlparse` the
    parameter `parse`. */
module Harvest {
  import opened Wrappers
  import opened Strings
  import opened Rdf
  import opened Urls
  import opened Crawl

  /** `'%s' % self.format`: the format name, or "None" when none was given. */
  function FormatText(format: Option<string>): string {
    if format.None? then "None" else format.value
  }

  /** `HarvestRdf.filename_from_url` as written: the `return` sits inside
      `if path:`, so a URL whose path is empty once stripped of slashes gets
      no file name at all. */
  function FilenameFromUrlAsWritten(baseDir: string, format: Option<string>, u: Url): (r: Option<string>)
    ensures r.None? <==> PathPart(u.path) == ""
    ensures r.Some? ==> r.value == FilenameFromUrl(baseDir, format, u)
  {
    var path := PathPart(u.path);
    if path != "" then Some(PathJoin(baseDir, HostPart(u.netloc) + "_" + path + "." + FormatText(format)))
    else None
  }

  /** `filename_from_url` with the `return` outside the `if`: the file
      `base_dir/filebase.format`. */
  function FilenameFromUrl(baseDir: string, format: Option<string>, u: Url): string {
    PathJoin(baseDir, FileBase(u) + "." + FormatText(format))
  }

  /** The file is `filebase.format` inside `base_dir`. */
  lemma FilenameInBaseDir(baseDir: string, format: Option<string>, u: Url)
    requires '/' !in u.netloc
    ensures StartsWith(FilenameFromUrl(baseDir, format, u), baseDir)
    ensures EndsWith(FilenameFromUrl(baseDir, format, u), FileBase(u) + "." + FormatText(format))
  {
    var b := FileBase(u) + "." + FormatText(format);
    FileBaseClean(u);
    if FileBase(u) != "" {
      assert b[0] == FileBase(u)[0];
    } else {
      assert b[0] == '.';
    }
  }

  /** The finding: a site root, with or without slashes, gets no name. */
  lemma AsWrittenRootHasNoName(baseDir: string, format: Option<string>, u: Url)
    requires forall k :: 0 <= k < |u.path| ==> u.path[k] == '/'
    ensures FilenameFromUrlAsWritten(baseDir, format, u) == None
    ensures FilenameFromUrl(baseDir, format, u) == PathJoin(baseDir, HostPart(u.netloc) + "." + FormatText(format))
  {
    PathPartEmpty(u.path);
  }

  /** What harvesting the page at `url` writes: its triples, in the file
      named after the URL, unless the page failed to load or had none. */
  function SavedFor(baseDir: string, format: Option<string>, url: string, fetch: string -> Fetch, parse: string -> Url): seq<(string, seq<Triple>)> {
    var page := fetch(url);
    if page.Loaded? && page.data != [] then [(FilenameFromUrl(baseDir, format, parse(url)), page.data)] else []
  }

  /** What harvesting the pages `urls` in turn writes, in order. */
  function SavedAll(baseDir: string, format: Option<string>, urls: seq<string>, fetch: string -> Fetch, parse: string -> Url): seq<(string, seq<Triple>)>
    decreases |urls|
  {
    if urls == [] then []
    else SavedAll(baseDir, format, urls[..|urls| - 1], fetch, parse) + SavedFor(baseDir, format, urls[|urls| - 1], fetch, parse)
  }

  /** A file is written exactly for each harvested page that loaded with
      some triples: it is named after that page's URL and holds them. */
  lemma {:induction false} SavedAllExactly(baseDir: string, format: Option<string>, urls: seq<string>, fetch: string -> Fetch, parse: string -> Url)
    ensures forall e :: e in SavedAll(baseDir, format, urls, fetch, parse) <==>
              exists u :: u in urls && fetch(u).Loaded? && fetch(u).data != []
                          && e == (FilenameFromUrl(baseDir, format, parse(u)), fetch(u).data)
    decreases |urls|
  {
    if urls != [] {
      var init := urls[..|urls| - 1];
      var last := urls[|urls| - 1];
      SavedAllExactly(baseDir, format, init, fetch, parse);
      assert urls == init + [last];
      forall e | e in SavedAll(baseDir, format, urls, fetch, parse)
        ensures exists u :: u in urls && fetch(u).Loaded? && fetch(u).data != []
                            && e == (FilenameFromUrl(baseDir, format, parse(u)), fetch(u).data)
      {
        if e !in SavedAll(baseDir, format, init, fetch, parse) {
          assert e in SavedFor(baseDir, format, last, fetch, parse);
          assert last in urls;
        }
      }
    }
  }

  /** Harvesting one more page writes what that page leaves behind. */
  lemma SavedAllSnoc(baseDir: string, format: Option<string>, urls: seq<string>, url: string, fetch: string -> Fetch, parse: string -> Url)
    ensures SavedAll(baseDir, format, urls + [url], fetch, parse)
            == SavedAll(baseDir, format, urls, fetch, parse) + SavedFor(baseDir, format, url, fetch, parse)
  {
    assert (urls + [url])[..|urls + [url]| - 1] == urls;
  }

  /** Processing one more URL adds its file and its error, if any, to
      what was logged since `p0`. */
  lemma LogAfterStep(baseDir: string, format: Option<string>, p0: seq<string>, p: seq<string>, url: string,
                     fetch: string -> Fetch, parse: string -> Url)
    requires p0 <= p
    ensures p0 <= p + [url]
    ensures SavedAll(baseDir, format, (p + [url])[|p0|..], fetch, parse)
            == SavedAll(baseDir, format, p[|p0|..], fetch, parse) + SavedFor(baseDir, format, url, fetch, parse)
    ensures ErrorCount((p + [url])[|p0|..], fetch)
            == ErrorCount(p[|p0|..], fetch) + (if fetch(url).LoadError? then 1 else 0)
  {
    assert (p + [url])[|p0|..] == p[|p0|..] + [url];
    SavedAllSnoc(baseDir, format, p[|p0|..], url, fetch, parse);
    ErrorCountSnoc(p[|p0|..], url, fetch);
  }

  lemma ErrorCountSnoc(urls: seq<string>, url: string, fetch: string -> Fetch)
    ensures ErrorCount(urls + [url], fetch) == ErrorCount(urls, fetch) + (if fetch(url).LoadError? then 1 else 0)
  {
    assert (urls + [url])[..|urls + [url]| - 1] == urls;
  }

  /** The state of one `HarvestRdf` (its class-level lists taken as the
      instance's own). */
  class HarvestRdf {
    var queue: seq<string>
    var processed: seq<string>
    var total: nat
    var harvested: nat
    var errors: nat
    /** Files written, in order: the name and the triples saved there. */
    var saved: seq<(string, seq<Triple>)>
    const findRelated: bool
    const baseDir: string
    const format: Option<string>

    /** `__init__` up to the call of `process_urls`. */
    constructor (urls: seq<string>, outputDir: string, findRelated: bool, format: Option<string>)
      ensures queue == urls && processed == [] && saved == []
      ensures total == 0 && harvested == 0 && errors == 0
      ensures this.findRelated == findRelated && baseDir == outputDir && this.format == format
    {
      queue := urls;
      processed := [];
      total := 0;
      harvested := 0;
      errors := 0;
      saved := [];
      this.findRelated := findRelated;
      baseDir := outputDir;
      this.format := format;
    }

    /** Every URL ever queued, in the order it was queued. */
    function Order(): seq<string>
      reads this
    {
      processed + queue
    }

    /** The two related-URL loops: append each admitted candidate. */
    method QueueAll(cands: seq<string>)
      modifies this
      ensures queue == Enqueue(old(queue), processed, cands)
      ensures processed == old(processed) && saved == old(saved)
      ensures total == old(total) && harvested == old(harvested) && errors == old(errors)
    {
      var i := 0;
      while i < |cands|
        invariant 0 <= i <= |cands|
        invariant Enqueue(queue, processed, cands[i..]) == Enqueue(old(queue), processed, cands)
        invariant processed == old(processed) && saved == old(saved)
        invariant total == old(total) && harvested == old(harvested) && errors == old(errors)
      {
        var c := cands[i];
        assert cands[i..][1..] == cands[i + 1..];
        if c !in queue && c !in processed {
          queue := queue + [c];
        }
        i := i + 1;
      }
      assert cands[i..] == [];
    }

    /** `harvest_rdf(url)` (harvest.py:72-134) once the page has been
        requested (`page`) and its file name worked out (`name`): a load
        error is counted, a page without triples is skipped, any other page
        is saved, counted and, when related pages are followed, its related
        URLs queued. */
    method HarvestPage(url: string, page: Fetch, name: string)
      modifies this
      ensures processed == old(processed) && total == old(total)
      ensures page.LoadError? ==>
                errors == old(errors) + 1 && harvested == old(harvested)
                && queue == old(queue) && saved == old(saved)
      ensures page.Loaded? && page.data == [] ==>
                errors == old(errors) && harvested == old(harvested)
                && queue == old(queue) && saved == old(saved)
      ensures page.Loaded? && page.data != [] ==>
                && errors == old(errors) && harvested == old(harvested) + 1
                && saved == old(saved) + [(name, page.data)]
                && queue == (if findRelated then QueueRelated(old(queue), processed, page.data, url) else old(queue))
      ensures old(queue) <= queue && old(saved) <= saved
      ensures NoDup(old(queue)) ==> NoDup(queue)
      ensures harvested + errors == old(harvested) + old(errors) + (if page.Loaded? && page.data == [] then 0 else 1)
      ensures |saved| - |old(saved)| == harvested - old(harvested)
    {
      match page
      case LoadError(_) =>
        errors := errors + 1;
      case Loaded(data) =>
        if data == [] {
          return;
        }
        saved := saved + [(name, data)];
        harvested := harvested + 1;
        if findRelated {
          QueueRelatedSound(queue, processed, data, url);
          QueueAll(HasPartUrls(data, url));
          QueueAll(RelatedLinkUrls(data));
        }
    }

    /** `harvest_rdf(url)` with the request and `urlparse` made: the page
        is saved under the name `filename_from_url` gives its URL. */
    method HarvestUrl(url: string, fetch: string -> Fetch, parse: string -> Url)
      modifies this
      ensures processed == old(processed) && total == old(total)
      ensures queue == AfterPage(old(queue), processed, url, fetch(url), findRelated)
      ensures saved == old(saved) + SavedFor(baseDir, format, url, fetch, parse)
      ensures errors == old(errors) + (if fetch(url).LoadError? then 1 else 0)
      ensures harvested == old(harvested) + |SavedFor(baseDir, format, url, fetch, parse)|
      ensures old(queue) <= queue
      ensures NoDup(old(queue)) ==> NoDup(queue)
    {
      HarvestPage(url, fetch(url), FilenameFromUrl(baseDir, format, parse(url)));
    }

    /** One turn of `process_urls` (harvest.py:53-56): pop the front URL,
        harvest it, count it and record it as processed. */
    method Step(fetch: string -> Fetch, parse: string -> Url)
      requires queue != []
      modifies this
      ensures processed == old(processed) + [old(queue)[0]]
      ensures total == old(total) + 1
      ensures queue == AfterPage(old(queue)[1..], old(processed), old(queue)[0], fetch(old(queue)[0]), findRelated)
      ensures saved == old(saved) + SavedFor(baseDir, format, old(queue)[0], fetch, parse)
      ensures errors == old(errors) + (if fetch(old(queue)[0]).LoadError? then 1 else 0)
      ensures harvested == old(harvested) + |SavedFor(baseDir, format, old(queue)[0], fetch, parse)|
      ensures old(Order()) <= Order()
      ensures NoDup(old(queue)) ==> NoDup(queue)
    {
      var url := queue[0];
      var rest := queue[1..];
      assert Order() == processed + [url] + rest;
      assert NoDup(queue) ==> NoDup(rest);
      queue := rest;
      HarvestUrl(url, fetch, parse);
      assert rest <= queue;
      total := total + 1;
      processed := processed + [url];
      assert Order() == old(processed) + [url] + queue;
      PrefixAfter(old(processed) + [url], rest, queue);
    }

    /** `process_urls` (harvest.py:41-70), for at most `maxSteps` pages: the
        queue is worked through from the front, every page tried is counted
        once in `total`, each page that loads with triples is saved under
        its URL's file name, and each page that fails is counted as an
        error. */
    method ProcessUrls(fetch: string -> Fetch, parse: string -> Url, maxSteps: nat) returns (steps: nat)
      modifies this
      ensures steps <= maxSteps
      ensures steps < maxSteps ==> queue == []
      ensures old(Order()) <= Order()
      ensures old(processed) <= processed
      ensures |processed| == |old(processed)| + steps
      ensures total == old(total) + steps
      ensures saved == old(saved) + SavedAll(baseDir, format, processed[|old(processed)|..], fetch, parse)
      ensures harvested == old(harvested) + |saved| - |old(saved)|
      ensures errors == old(errors) + ErrorCount(processed[|old(processed)|..], fetch)
      ensures NoDup(old(queue)) ==> NoDup(queue)
    {
      steps := 0;
      assert processed[|old(processed)|..] == [];
      while queue != [] && steps < maxSteps
        invariant steps <= maxSteps
        invariant old(Order()) <= Order()
        invariant old(processed) <= processed
        invariant |processed| == |old(processed)| + steps
        invariant total == old(total) + steps
        invariant saved == old(saved) + SavedAll(baseDir, format, processed[|old(processed)|..], fetch, parse)
        invariant harvested == old(harvested) + |saved| - |old(saved)|
        invariant errors == old(errors) + ErrorCount(processed[|old(processed)|..], fetch)
        invariant NoDup(old(queue)) ==> NoDup(queue)
        decreases maxSteps - steps
      {
        StepLogged(old(processed), old(saved), old(errors), fetch, parse);
        steps := steps + 1;
      }
    }

    /** `Step`, seen from the start of the loop: the files and errors
        since then stay those of the pages processed since then. */
    method StepLogged(ghost p0: seq<string>, ghost s0: seq<(string, seq<Triple>)>, ghost e0: nat,
                      fetch: string -> Fetch, parse: string -> Url)
      requires queue != [] && p0 <= processed
      requires saved == s0 + SavedAll(baseDir, format, processed[|p0|..], fetch, parse)
      requires errors == e0 + ErrorCount(processed[|p0|..], fetch)
      modifies this
      ensures processed == old(processed) + [old(queue)[0]] && total == old(total) + 1
      ensures p0 <= processed
      ensures saved == s0 + SavedAll(baseDir, format, processed[|p0|..], fetch, parse)
      ensures errors == e0 + ErrorCount(processed[|p0|..], fetch)
      ensures harvested - old(harvested) == |saved| - |old(saved)|
      ensures old(Order()) <= Order()
      ensures NoDup(old(queue)) ==> NoDup(queue)
    {
      ghost var p := processed;
      ghost var url := queue[0];
      Step(fetch, parse);
      LogAfterStep(baseDir, format, p0, p, url, fetch, parse);
    }
  }

  lemma PrefixAfter(p: seq<string>, a: seq<string>, b: seq<string>)
    requires a <= b
    ensures p + a <= p + b
  {
    assert (p + b)[..|p + a|] == p + b[..|a|];
  }

  // ---------------------------------------------------------------------
  // HarvestRelated: which records are fetched and where they are saved

  /** The sources, in the order they are harvested. */
  const Sources: seq<(string, string)> :=
    [("viaf", "http://viaf.org/"), ("geonames", "http://sws.geonames.org/"), ("dbpedia", "http://dbpedia.org/")]

  /** `regex(str(?uri), "^" + pattern)` for a pattern whose only special
      character is `.`, which matches any character but a newline. */
  predicate MatchesPrefix(s: string, pattern: string) {
    |pattern| <= |s|
    && forall i :: 0 <= i < |pattern| ==>
         if pattern[i] == '.' then s[i] != '\n' else s[i] == pattern[i]
  }

  /** A string that starts with the source's base URL is selected. */
  lemma PrefixMatches(s: string, pattern: string)
    requires StartsWith(s, pattern)
    ensures MatchesPrefix(s, pattern)
  {
    assert forall i :: 0 <= i < |pattern| ==> s[i] == s[..|pattern|][i] == pattern[i];
  }

  /** The `.` of the pattern is a wildcard: a look-alike host, with any
      character but a newline in place of the dot, is selected too. */
  lemma DotIsWildcard(c: char, rest: string)
    requires c != '\n'
    ensures MatchesPrefix("http://viaf" + [c] + "org/" + rest, "http://viaf.org/")
  {
    var s := "http://viaf" + [c] + "org/" + rest;
    assert s[..16] == "http://viaf" + [c] + "org/";
  }

  /** The distinct terms in subject or object position whose string matches
      the source pattern (blank nodes have no string and never match). */
  function SourceUris(g: Graph, pattern: string): (r: set<Term>)
    ensures forall t :: t in r <==>
              !t.BNode? && MatchesPrefix(Str(t), pattern)
              && ((exists p, o :: (t, p, o) in g) || (exists s, p :: (s, p, t) in g))
  {
    var subjects := set x | x in g :: x.0;
    var objects := set x | x in g :: x.2;
    var r := set t | t in subjects + objects && !t.BNode? && MatchesPrefix(Str(t), pattern);
    assert forall t :: (exists p, o :: (t, p, o) in g) ==> t in subjects;
    assert forall t :: (exists s, p :: (s, p, t) in g) ==> t in objects;
    r
  }

  /** `.encode('ascii', 'ignore')`: the non-ASCII characters dropped. */
  function AsciiOnly(s: string): (r: string)
    ensures forall i :: 0 <= i < |r| ==> r[i] < 128 as char && r[i] in s
    ensures forall i :: 0 <= i < |s| && s[i] < 128 as char ==> s[i] in r
    ensures |r| <= |s|
  {
    if s == [] then []
    else
      var rest := AsciiOnly(s[1..]);
      assert forall i :: 1 <= i < |s| ==> s[i] == s[1..][i - 1];
      (if s[0] < 128 as char then [s[0]] else []) + rest
  }

  /** The characters are kept in order: dropping distributes over
      concatenation, and a single character is kept exactly when it is
      ASCII. */
  lemma {:induction false} AsciiOnlyConcat(a: string, b: string)
    ensures AsciiOnly(a + b) == AsciiOnly(a) + AsciiOnly(b)
    decreases |a|
  {
    if a == [] {
      assert a + b == b;
    } else {
      assert (a + b)[0] == a[0];
      assert (a + b)[1..] == a[1..] + b;
      AsciiOnlyConcat(a[1..], b);
    }
  }

  lemma AsciiOnlyChar(c: char)
    ensures AsciiOnly([c]) == if c < 128 as char then [c] else []
  {
    assert [c][1..] == [];
  }

  /** `u.rstrip('/').split('/')[-1]` (harvest.py:221). */
  function BaseId(u: string): (r: string)
    ensures '/' !in r
  {
    LastSegment(RStrip(u, '/'))
  }

  /** The base id of `<path>/<id>` followed by any number of slashes is `id`. */
  lemma BaseIdOfPath(path: string, id: string, slashes: string)
    requires id != "" && '/' !in id
    requires forall k :: 0 <= k < |slashes| ==> slashes[k] == '/'
    ensures BaseId(path + "/" + id + slashes) == id
  {
    RStripSlashes(path + "/" + id, slashes);
    LastSegmentOf(path, id);
  }

  lemma {:induction false} RStripSlashes(s: string, slashes: string)
    requires s != [] && s[|s| - 1] != '/'
    requires forall k :: 0 <= k < |slashes| ==> slashes[k] == '/'
    ensures RStrip(s + slashes, '/') == s
    decreases |slashes|
  {
    if slashes == [] {
      assert s + slashes == s;
    } else {
      var shorter := slashes[..|slashes| - 1];
      assert (s + slashes)[..|s + slashes| - 1] == s + shorter;
      RStripSlashes(s, shorter);
    }
  }

  lemma {:induction false} LastSegmentOf(path: string, id: string)
    requires '/' !in id
    ensures LastSegment(path + "/" + id) == id
    decreases |id|
  {
    if id == [] {
      assert path + "/" + id == path + "/";
    } else {
      var shorter := id[..|id| - 1];
      assert (path + "/" + id)[..|path + "/" + id| - 1] == path + "/" + shorter;
      LastSegmentOf(path, shorter);
      assert shorter + [id[|id| - 1]] == id;
    }
  }

  /** Where a related page's data is saved: the file `<baseid>.rdf` in
      the directory `name` under `baseDir` (harvest.py:207, 221-223). */
  function RelatedFilename(baseDir: string, name: string, uri: Term): string {
    PathJoin(PathJoin(baseDir, name), BaseId(AsciiOnly(Str(uri))) + ".rdf")
  }

  /** The record lands in the source's directory, named after the last
      segment of its URI. */
  lemma RelatedFilenameShape(baseDir: string, name: string, uri: Term)
    requires !StartsWith(name, "/")
    ensures StartsWith(RelatedFilename(baseDir, name, uri), PathJoin(baseDir, name))
    ensures EndsWith(RelatedFilename(baseDir, name, uri), BaseId(AsciiOnly(Str(uri))) + ".rdf")
  {
    RecordNameNotRooted(BaseId(AsciiOnly(Str(uri))));
  }

  lemma RecordNameNotRooted(id: string)
    requires '/' !in id
    ensures !StartsWith(id + ".rdf", "/")
  {
    var b := id + ".rdf";
    if id != "" {
      assert b[0] == id[0];
    } else {
      assert b[0] == '.';
    }
  }

  /** A record `<path>/<id>/` of source `name` is saved as
      `<basedir>/<name>/<id>.rdf`; for VIAF, `http://viaf.org/viaf/<id>/`
      becomes `<basedir>/viaf/<id>.rdf`. */
  lemma RecordFile(baseDir: string, name: string, path: string, id: string)
    requires id != "" && '/' !in id
    requires forall k :: 0 <= k < |path + "/" + id + "/"| ==> (path + "/" + id + "/")[k] < 128 as char
    requires baseDir != "" && !EndsWith(baseDir, "/")
    requires name != "" && '/' !in name
    ensures RelatedFilename(baseDir, name, IRI(path + "/" + id + "/")) == baseDir + "/" + name + "/" + id + ".rdf"
  {
    RecordId(path, id);
    var dir := JoinPlain(baseDir, name);
    var f := JoinPlain(dir, id + ".rdf");
  }

  lemma RecordId(path: string, id: string)
    requires id != "" && '/' !in id
    requires forall k :: 0 <= k < |path + "/" + id + "/"| ==> (path + "/" + id + "/")[k] < 128 as char
    ensures BaseId(AsciiOnly(Str(IRI(path + "/" + id + "/")))) == id
  {
    AsciiOnlyKeepsAscii(path + "/" + id + "/");
    BaseIdOfPath(path, id, "/");
  }

  /** Joining two plain names puts one `/` between them, and the result
      ends as the second one does. */
  lemma JoinPlain(a: string, b: string) returns (r: string)
    requires a != "" && !EndsWith(a, "/")
    requires b != "" && b[0] != '/' && b[|b| - 1] != '/'
    ensures r == PathJoin(a, b) == a + "/" + b
    ensures r != "" && !EndsWith(r, "/")
  {
    assert !StartsWith(b, "/");
    r := a + "/" + b;
    assert r[|r| - 1] == b[|b| - 1];
  }

  lemma {:induction false} AsciiOnlyKeepsAscii(s: string)
    requires forall k :: 0 <= k < |s| ==> s[k] < 128 as char
    ensures AsciiOnly(s) == s
  {
    if s != [] {
      AsciiOnlyKeepsAscii(s[1..]);
    }
  }
}
