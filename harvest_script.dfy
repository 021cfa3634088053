/** scripts/harvest-rdf.py: harvest the RDFa of a start page and, with
    `--related`, of every page it leads to, saving each page's triples
    under a name derived from its URL. The script's module-level
    URL_QUEUE and PROCESSED_URLS are the fields of a `Harvester`; the
    network is the parameter `fetch`, `urlparse` the parameter `parse`. */
module HarvestScript {
  import opened Wrappers
  import opened Strings
  import opened Rdf
  import opened Urls
  import opened Crawl

  /** harvest-rdf.py's `filename_from_url`. */
  function FilenameFromUrl(u: Url): string {
    FileBase(u) + ".xml"
  }

  /** The name starts with the host part, which has no `.` or `:` left,
      ends in `.xml`, and has no `/` unless the network location had one. */
  lemma FilenameClean(u: Url)
    ensures EndsWith(FilenameFromUrl(u), ".xml")
    ensures StartsWith(FilenameFromUrl(u), HostPart(u.netloc))
    ensures '.' !in FilenameFromUrl(u)[..|u.netloc|] && ':' !in FilenameFromUrl(u)[..|u.netloc|]
    ensures '/' !in u.netloc ==> '/' !in FilenameFromUrl(u)
  {
    var r := FilenameFromUrl(u);
    HostPartClean(u.netloc);
    FileBaseClean(u);
    assert r[..|u.netloc|] == HostPart(u.netloc);
  }

  /** A path of slashes only (or no path) gives `host.xml`. */
  lemma FilenameOfBareHost(u: Url)
    requires forall k :: 0 <= k < |u.path| ==> u.path[k] == '/'
    ensures FilenameFromUrl(u) == HostPart(u.netloc) + ".xml"
  {
    PathPartEmpty(u.path);
  }

  /** Otherwise the name is `host_path.xml`, the path with `/` turned
      into `-` once the outer slashes are gone. */
  lemma FilenameOfPath(u: Url)
    requires exists k :: 0 <= k < |u.path| && u.path[k] != '/'
    ensures FilenameFromUrl(u) == HostPart(u.netloc) + "_" + PathPart(u.path) + ".xml"
    ensures PathPart(u.path) != ""
  {
    PathPartEmpty(u.path);
  }

  /** Leading and trailing slashes of the path do not change the name. */
  lemma FilenameIgnoresOuterSlashes(u: Url)
    ensures FilenameFromUrl(u.(path := "/" + u.path + "/")) == FilenameFromUrl(u)
  {
    PathPartIgnoresOuterSlashes(u.path);
  }

  /** What harvesting the page at `url` writes: its triples, in the file
      named after the URL, unless the page failed to load or had none. */
  function SavedFor(url: string, fetch: string -> Fetch, parse: string -> Url): seq<(string, seq<Triple>)> {
    var page := fetch(url);
    if page.Loaded? && page.data != [] then [(FilenameFromUrl(parse(url)), page.data)] else []
  }

  /** What harvesting the pages `urls` in turn writes, in order. */
  function SavedAll(urls: seq<string>, fetch: string -> Fetch, parse: string -> Url): seq<(string, seq<Triple>)>
    decreases |urls|
  {
    if urls == [] then []
    else SavedAll(urls[..|urls| - 1], fetch, parse) + SavedFor(urls[|urls| - 1], fetch, parse)
  }

  /** A file is written exactly for each processed page that loaded with
      some triples: it is named after that page's URL and holds them. */
  lemma {:induction false} SavedAllExactly(urls: seq<string>, fetch: string -> Fetch, parse: string -> Url)
    ensures forall e :: e in SavedAll(urls, fetch, parse) <==>
              exists u :: u in urls && fetch(u).Loaded? && fetch(u).data != []
                          && e == (FilenameFromUrl(parse(u)), fetch(u).data)
    decreases |urls|
  {
    if urls != [] {
      var init := urls[..|urls| - 1];
      var last := urls[|urls| - 1];
      SavedAllExactly(init, fetch, parse);
      assert urls == init + [last];
      forall e | e in SavedAll(urls, fetch, parse)
        ensures exists u :: u in urls && fetch(u).Loaded? && fetch(u).data != []
                            && e == (FilenameFromUrl(parse(u)), fetch(u).data)
      {
        if e !in SavedAll(init, fetch, parse) {
          assert e in SavedFor(last, fetch, parse);
          assert last in urls;
        }
      }
    }
  }

  lemma SavedAllSnoc(urls: seq<string>, url: string, fetch: string -> Fetch, parse: string -> Url)
    ensures SavedAll(urls + [url], fetch, parse) == SavedAll(urls, fetch, parse) + SavedFor(url, fetch, parse)
  {
    assert (urls + [url])[..|urls + [url]| - 1] == urls;
  }

  /** The state of one run of the script. */
  class Harvester {
    var queue: seq<string>
    var processed: seq<string>
    /** Files written, in order: the name and the triples saved there. */
    var saved: seq<(string, seq<Triple>)>
    /** The URL whose load failed and made the script exit. */
    var failed: Option<string>
    const findRelated: bool

    /** `URL_QUEUE.append(args.url)` after argparse has checked the URL
        with `AbsoluteUrl`. */
    constructor (url: string, findRelated: bool)
      ensures queue == [url] && processed == [] && saved == [] && failed == None
      ensures this.findRelated == findRelated
    {
      queue := [url];
      processed := [];
      saved := [];
      failed := None;
      this.findRelated := findRelated;
    }

    /** Every URL ever queued, in the order it was queued. */
    function Order(): seq<string>
      reads this
    {
      processed + (if failed.Some? then [failed.value] else []) + queue
    }

    /** The two related-URL loops: append each admitted candidate. */
    method QueueAll(cands: seq<string>)
      modifies this
      ensures queue == Enqueue(old(queue), processed, cands)
      ensures processed == old(processed) && saved == old(saved) && failed == old(failed)
    {
      var i := 0;
      while i < |cands|
        invariant 0 <= i <= |cands|
        invariant Enqueue(queue, processed, cands[i..]) == Enqueue(old(queue), processed, cands)
        invariant processed == old(processed) && saved == old(saved) && failed == old(failed)
      {
        var c := cands[i];
        assert cands[i..][1..] == cands[i + 1..];
        if c !in queue && c !in processed {
          queue := queue + [c];
        }
        i := i + 1;
      }
      assert cands[i..] == [];
    }

    /** `harvest_rdf(url, find_related)` (harvest-rdf.py:22-78) once the
        page at `url` has been requested (`page`) and its file name worked
        out (`name`): a load error ends the run, a page without triples is
        skipped, any other page is saved and, with `--related`, its
        related URLs queued. */
    method HarvestPage(url: string, page: Fetch, name: string)
      requires failed.None?
      modifies this
      ensures processed == old(processed)
      ensures page.LoadError? ==> failed == Some(url) && queue == old(queue) && saved == old(saved)
      ensures page.Loaded? && page.data == [] ==> failed == None && queue == old(queue) && saved == old(saved)
      ensures page.Loaded? && page.data != [] ==>
                && failed == None
                && saved == old(saved) + [(name, page.data)]
                && queue == (if findRelated then QueueRelated(old(queue), processed, page.data, url) else old(queue))
      ensures failed.Some? ==> failed == Some(url)
      ensures old(queue) <= queue && old(saved) <= saved
      ensures NoDup(old(queue)) ==> NoDup(queue)
      ensures forall i :: |old(saved)| <= i < |saved| ==> saved[i].1 != []
    {
      match page
      case LoadError(_) =>
        failed := Some(url);
      case Loaded(data) =>
        if data == [] {
          return;
        }
        saved := saved + [(name, data)];
        if findRelated {
          QueueRelatedSound(queue, processed, data, url);
          QueueAll(HasPartUrls(data, url));
          QueueAll(RelatedLinkUrls(data));
        }
    }

    /** `harvest_rdf(url)` with the request and `urlparse` made: the page
        is saved under the name `filename_from_url` gives its URL. */
    method HarvestUrl(url: string, fetch: string -> Fetch, parse: string -> Url)
      requires failed.None?
      modifies this
      ensures processed == old(processed)
      ensures failed.Some? <==> fetch(url).LoadError?
      ensures failed.Some? ==> failed == Some(url)
      ensures queue == AfterPage(old(queue), processed, url, fetch(url), findRelated)
      ensures saved == old(saved) + SavedFor(url, fetch, parse)
      ensures old(queue) <= queue
      ensures NoDup(old(queue)) ==> NoDup(queue)
    {
      HarvestPage(url, fetch(url), FilenameFromUrl(parse(url)));
    }

    /** One turn of the main loop (harvest-rdf.py:116-118): pop the front
        URL, harvest it, and record it as processed unless the harvest
        ended the run. */
    method Step(fetch: string -> Fetch, parse: string -> Url)
      requires failed.None? && queue != []
      modifies this
      ensures fetch(old(queue)[0]).LoadError? <==> failed.Some?
      ensures failed.None? ==> processed == old(processed) + [old(queue)[0]]
      ensures failed.Some? ==> processed == old(processed) && failed == Some(old(queue)[0])
      ensures queue == AfterPage(old(queue)[1..], old(processed), old(queue)[0], fetch(old(queue)[0]), findRelated)
      ensures saved == old(saved) + SavedFor(old(queue)[0], fetch, parse)
      ensures old(Order()) <= Order()
      ensures NoDup(old(queue)) ==> NoDup(queue)
    {
      ghost var before := Order();
      assert before == processed + queue;
      var url := queue[0];
      PopKeepsNoDup(queue);
      queue := queue[1..];
      HarvestUrl(url, fetch, parse);
      if failed.None? {
        processed := processed + [url];
      }
      assert Order() == old(processed) + [url] + queue;
      PopOrder(old(processed), old(queue), queue);
      assert before <= Order();
    }

    /** `Step`, seen from the start of the loop: the files written since
        then stay those of the pages processed since then (a page that
        fails to load writes none). */
    method StepLogged(ghost p0: seq<string>, ghost s0: seq<(string, seq<Triple>)>, fetch: string -> Fetch, parse: string -> Url)
      requires failed.None? && queue != [] && p0 <= processed
      requires saved == s0 + SavedAll(processed[|p0|..], fetch, parse)
      modifies this
      ensures fetch(old(queue)[0]).LoadError? <==> failed.Some?
      ensures failed.None? ==> processed == old(processed) + [old(queue)[0]]
      ensures failed.Some? ==> processed == old(processed) && failed == Some(old(queue)[0])
      ensures p0 <= processed
      ensures saved == s0 + SavedAll(processed[|p0|..], fetch, parse)
      ensures old(Order()) <= Order()
      ensures NoDup(old(queue)) ==> NoDup(queue)
    {
      ghost var done := processed[|p0|..];
      ghost var url := queue[0];
      Step(fetch, parse);
      if failed.None? {
        assert processed[|p0|..] == done + [url];
        SavedAllSnoc(done, url, fetch, parse);
      }
    }

    /** The main loop (harvest-rdf.py:115-118), for at most `maxSteps`
        pages: the queue is worked through from the front until it is
        empty or a page fails to load, and each processed page that loads
        with triples is saved under its URL's file name. */
    method Run(fetch: string -> Fetch, parse: string -> Url, maxSteps: nat) returns (steps: nat)
      requires failed.None?
      modifies this
      ensures steps <= maxSteps
      ensures old(Order()) <= Order()
      ensures old(processed) <= processed
      ensures |processed| + (if failed.Some? then 1 else 0) == |old(processed)| + steps
      ensures failed.None? && steps < maxSteps ==> queue == []
      ensures failed.Some? ==> fetch(failed.value).LoadError?
      ensures saved == old(saved) + SavedAll(processed[|old(processed)|..], fetch, parse)
      ensures NoDup(old(queue)) ==> NoDup(queue)
    {
      steps := 0;
      assert processed[|old(processed)|..] == [];
      while queue != [] && failed.None? && steps < maxSteps
        invariant steps <= maxSteps
        invariant old(Order()) <= Order()
        invariant old(processed) <= processed
        invariant |processed| + (if failed.Some? then 1 else 0) == |old(processed)| + steps
        invariant failed.Some? ==> fetch(failed.value).LoadError?
        invariant saved == old(saved) + SavedAll(processed[|old(processed)|..], fetch, parse)
        invariant NoDup(old(queue)) ==> NoDup(queue)
        decreases maxSteps - steps
      {
        StepLogged(old(processed), old(saved), fetch, parse);
        steps := steps + 1;
      }
    }
  }

  lemma PopKeepsNoDup(q: seq<string>)
    requires q != []
    ensures NoDup(q) ==> NoDup(q[1..])
  {
  }

  /** Popping the front URL and then appending to the rest keeps
      everything queued so far, in order. */
  lemma PopOrder(p: seq<string>, q0: seq<string>, q: seq<string>)
    requires q0 != [] && q0[1..] <= q
    ensures p + q0 <= p + [q0[0]] + q
  {
    assert p + q0 == p + [q0[0]] + q0[1..];
    assert (p + [q0[0]] + q)[..|p + q0|] == p + [q0[0]] + q[..|q0| - 1];
  }
}
