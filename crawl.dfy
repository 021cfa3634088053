/** Related-URL discovery and queueing, shared by scripts/harvest-rdf.py and
    belfastdata/harvest.py: after a page is saved, the objects of its
    dc:hasPart triples (about the page itself) and of all its
    schema:relatedLink triples are appended to the crawl queue. */
module Crawl {
  import opened Rdf
  import opened Strings

  const DcHasPart := IRI(DC + "hasPart")
  const SchemaRelatedLink := IRI(SCHEMA_ORG + "relatedLink")

  /** The outcome of requesting and parsing a page: an exception, or the
      triples in the order the store yields them. */
  datatype Fetch = LoadError(reason: string) | Loaded(data: seq<Triple>)

  /** A subject describes the page at `url` when it is that URL, or is
      declared owl:sameAs it in the page's data. */
  predicate DescribesPage(data: seq<Triple>, subj: Term, url: string) {
    subj == IRI(url) || (subj, OwlSameAs, IRI(url)) in data
  }

  /** The dc:hasPart objects of the page, over the triples `part` of `all`. */
  function HasPartsIn(all: seq<Triple>, part: seq<Triple>, url: string): (r: seq<string>)
    ensures forall u :: u in r <==>
              exists i :: 0 <= i < |part| && part[i].1 == DcHasPart && DescribesPage(all, part[i].0, url) && u == Str(part[i].2)
  {
    if part == [] then []
    else
      var t := part[0];
      var rest := HasPartsIn(all, part[1..], url);
      assert forall i :: 1 <= i < |part| ==> part[i] == part[1..][i - 1];
      if t.1 == DcHasPart && DescribesPage(all, t.0, url) then [Str(t.2)] + rest else rest
  }

  /** The hasPart URLs queued for the page at `url` (harvest.py:109-116). */
  function HasPartUrls(data: seq<Triple>, url: string): seq<string> {
    HasPartsIn(data, data, url)
  }

  /** Every schema:relatedLink object, whatever its subject (harvest.py:119-130). */
  function RelatedLinkUrls(data: seq<Triple>): (r: seq<string>)
    ensures forall u :: u in r <==>
              exists i :: 0 <= i < |data| && data[i].1 == SchemaRelatedLink && u == Str(data[i].2)
  {
    if data == [] then []
    else
      var rest := RelatedLinkUrls(data[1..]);
      assert forall i :: 1 <= i < |data| ==> data[i] == data[1..][i - 1];
      if data[0].1 == SchemaRelatedLink then [Str(data[0].2)] + rest else rest
  }

  /** A hasPart triple is followed only when its subject is the page; any
      relatedLink triple is followed. */
  lemma RelatedSelection(data: seq<Triple>, url: string, s: Term, o: Term)
    ensures (s, DcHasPart, o) in data && DescribesPage(data, s, url) ==> Str(o) in HasPartUrls(data, url)
    ensures (s, SchemaRelatedLink, o) in data ==> Str(o) in RelatedLinkUrls(data)
  {
    if (s, DcHasPart, o) in data {
      var i :| 0 <= i < |data| && data[i] == (s, DcHasPart, o);
    }
    if (s, SchemaRelatedLink, o) in data {
      var i :| 0 <= i < |data| && data[i] == (s, SchemaRelatedLink, o);
    }
  }

  /** A hasPart object of some other resource is not followed on its own
      account: the only hasPart URLs are those of triples about the page. */
  lemma HasPartNeedsPage(data: seq<Triple>, url: string, u: string)
    requires u in HasPartUrls(data, url)
    ensures exists s, o :: (s, DcHasPart, o) in data && DescribesPage(data, s, url) && u == Str(o)
  {
    var i :| 0 <= i < |data| && data[i].1 == DcHasPart && DescribesPage(data, data[i].0, url) && u == Str(data[i].2);
    assert data[i] in data;
  }

  predicate NoDup(s: seq<string>) {
    forall i, j :: 0 <= i < j < |s| ==> s[i] != s[j]
  }

  /** "add to queue if not already queued or processed", as intended. */
  predicate Admit(queue: seq<string>, processed: seq<string>, c: string) {
    c !in queue && c !in processed
  }

  /** `related_url not in URL_QUEUE or PROCESSED_URLS`, as written: Python
      reads it as `(related_url not in URL_QUEUE) or bool(PROCESSED_URLS)`. */
  predicate AdmitAsWritten(queue: seq<string>, processed: seq<string>, c: string) {
    c !in queue || processed != []
  }

  /** Appending each candidate in turn that the intended test admits. */
  function Enqueue(queue: seq<string>, processed: seq<string>, cands: seq<string>): (r: seq<string>)
    ensures queue <= r
    decreases |cands|
  {
    if cands == [] then queue
    else
      var c := cands[0];
      var next := if Admit(queue, processed, c) then queue + [c] else queue;
      Enqueue(next, processed, cands[1..])
  }

  /** Everything appended is a candidate that was neither queued nor
      processed. */
  lemma {:induction false} EnqueueAppendsFresh(queue: seq<string>, processed: seq<string>, cands: seq<string>)
    ensures forall k :: |queue| <= k < |Enqueue(queue, processed, cands)| ==>
              var u := Enqueue(queue, processed, cands)[k];
              u in cands && u !in queue && u !in processed
    decreases |cands|
  {
    if cands != [] {
      var c := cands[0];
      var next := if Admit(queue, processed, c) then queue + [c] else queue;
      EnqueueAppendsFresh(next, processed, cands[1..]);
      var r := Enqueue(queue, processed, cands);
      forall k | |queue| <= k < |r| ensures r[k] in cands && r[k] !in queue && r[k] !in processed {
        if k < |next| {
          assert r[k] == next[k] == c;
        } else {
          assert r[k] in cands[1..];
          assert r[k] !in next;
        }
      }
    }
  }

  /** No candidate is lost: each ends up queued or was processed. */
  lemma {:induction false} EnqueueCovers(queue: seq<string>, processed: seq<string>, cands: seq<string>)
    ensures forall c :: c in cands ==> c in Enqueue(queue, processed, cands) || c in processed
    decreases |cands|
  {
    if cands != [] {
      var c := cands[0];
      var next := if Admit(queue, processed, c) then queue + [c] else queue;
      EnqueueCovers(next, processed, cands[1..]);
      assert c in next || c in processed;
      assert forall x :: x in next ==> x in Enqueue(queue, processed, cands);
    }
  }

  /** A queue without repeats stays without repeats. */
  lemma {:induction false} EnqueueNoDup(queue: seq<string>, processed: seq<string>, cands: seq<string>)
    requires NoDup(queue)
    ensures NoDup(Enqueue(queue, processed, cands))
    decreases |cands|
  {
    if cands != [] {
      var c := cands[0];
      var next := if Admit(queue, processed, c) then queue + [c] else queue;
      assert NoDup(next);
      EnqueueNoDup(next, processed, cands[1..]);
    }
  }

  /** The same loop with the test as written. */
  function EnqueueAsWritten(queue: seq<string>, processed: seq<string>, cands: seq<string>): (r: seq<string>)
    ensures queue <= r
    decreases |cands|
  {
    if cands == [] then queue
    else
      var c := cands[0];
      var next := if AdmitAsWritten(queue, processed, c) then queue + [c] else queue;
      EnqueueAsWritten(next, processed, cands[1..])
  }

  /** Once anything has been processed, the test as written admits every
      candidate, duplicates and already harvested pages included. */
  lemma {:induction false} AsWrittenAdmitsAll(queue: seq<string>, processed: seq<string>, cands: seq<string>)
    requires processed != []
    ensures EnqueueAsWritten(queue, processed, cands) == queue + cands
    decreases |cands|
  {
    if cands != [] {
      AsWrittenAdmitsAll(queue + [cands[0]], processed, cands[1..]);
      assert queue + [cands[0]] + cands[1..] == queue + cands;
    }
  }

  /** Before anything is processed, the test as written is the intended one. */
  lemma {:induction false} AsWrittenAgreesInitially(queue: seq<string>, cands: seq<string>)
    ensures EnqueueAsWritten(queue, [], cands) == Enqueue(queue, [], cands)
    decreases |cands|
  {
    if cands != [] {
      var next := if cands[0] !in queue then queue + [cands[0]] else queue;
      AsWrittenAgreesInitially(next, cands[1..]);
    }
  }

  /** The finding: a page already harvested is queued again. */
  lemma AsWrittenRequeuesProcessed(page: string)
    ensures EnqueueAsWritten([], [page], [page]) == [page]
    ensures Enqueue([], [page], [page]) == []
  {
    AsWrittenAdmitsAll([], [page], [page]);
  }

  /** What a saved page adds to the queue: first its hasPart URLs, then
      its relatedLink URLs. */
  function QueueRelated(queue: seq<string>, processed: seq<string>, data: seq<Triple>, url: string): seq<string> {
    Enqueue(Enqueue(queue, processed, HasPartUrls(data, url)), processed, RelatedLinkUrls(data))
  }

  /** The queue once the page at `url` has been harvested: only a saved
      page, harvested with related pages followed, queues anything. */
  function AfterPage(queue: seq<string>, processed: seq<string>, url: string, page: Fetch, findRelated: bool): seq<string> {
    if findRelated && page.Loaded? && page.data != [] then QueueRelated(queue, processed, page.data, url) else queue
  }

  /** How many of the pages `urls` failed to load. */
  function ErrorCount(urls: seq<string>, fetch: string -> Fetch): (r: nat)
    ensures r <= |urls|
    ensures r == 0 <==> forall i :: 0 <= i < |urls| ==> !fetch(urls[i]).LoadError?
    decreases |urls|
  {
    if urls == [] then 0
    else
      var init := urls[..|urls| - 1];
      assert forall i :: 0 <= i < |init| ==> init[i] == urls[i];
      ErrorCount(init, fetch) + (if fetch(urls[|urls| - 1]).LoadError? then 1 else 0)
  }

  /** Queueing keeps the queue free of repeats and misses no related page
      that is neither queued nor processed. */
  lemma QueueRelatedSound(queue: seq<string>, processed: seq<string>, data: seq<Triple>, url: string)
    ensures queue <= QueueRelated(queue, processed, data, url)
    ensures NoDup(queue) ==> NoDup(QueueRelated(queue, processed, data, url))
    ensures forall u :: u in HasPartUrls(data, url) + RelatedLinkUrls(data) ==>
              u in QueueRelated(queue, processed, data, url) || u in processed
    ensures forall u :: u in QueueRelated(queue, processed, data, url) ==>
              u in queue || u in HasPartUrls(data, url) + RelatedLinkUrls(data)
  {
    var parts := HasPartUrls(data, url);
    var links := RelatedLinkUrls(data);
    var mid := Enqueue(queue, processed, parts);
    var r := Enqueue(mid, processed, links);
    EnqueueCovers(queue, processed, parts);
    EnqueueCovers(mid, processed, links);
    EnqueueAppendsFresh(queue, processed, parts);
    EnqueueAppendsFresh(mid, processed, links);
    if NoDup(queue) {
      EnqueueNoDup(queue, processed, parts);
      EnqueueNoDup(mid, processed, links);
    }
    assert forall u :: u in mid ==> u in r;
    forall u | u in r ensures u in queue || u in parts + links {
      var k :| 0 <= k < |r| && r[k] == u;
      if k >= |mid| {
        assert u in links;
      } else if k >= |queue| {
        assert mid[k] == u;
        assert u in parts;
      } else {
        assert mid[k] == u && queue[k] == u;
      }
    }
  }
}
