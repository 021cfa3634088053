# Belfast Group data: a Dafny model

This project models the data-preparation tools of the Belfast Group
linked-data project (ecds-archives/belfast-group-data) and proves
properties about them. The tools:

- **harvest** RDFa from archival web pages and follow their related links.
  There is a script version and a library version, which also keeps
  counts. Both name the saved files after the page URL.
- **fetch** related VIAF, GeoNames and DBpedia records into per-source
  directories.
- **generate** RDF for the Queen's University Belfast collection from its
  HTML listing.
- **"smush"** duplicate descriptions of each Belfast Group sheet. Every
  group-sheet manuscript gets a content-derived identifier: an md5 hash of
  its author and of its titles, sorted and slugified. The graph is then
  rewritten so that copies of one sheet share that identifier. There is a
  library version, and a stand-alone script whose copy has diverged.
- **convert** the RDF into a labelled network graph for Gephi.

RDF is modelled directly:

- terms are IRIs, numbered blank nodes and plain literals;
- a graph is a set of triples;
- rdflib's `graph.value` is a function that picks the least matching
  object;
- RDF lists are read the way rdflib's `Collection` iterates them, and a
  cycle among the `rdf:rest` links is an error.

Parameters stand in for what the model cannot see:

- the network is a parameter `fetch` giving each URL's outcome;
- `urlparse` is a parameter `parse`;
- md5 is a parameter `md5` from the hashed text to the hex digest;
- BeautifulSoup's view of a listing `div` is a value holding its text, its
  stripped strings and its italic strings.

Code that changes state step by step is modelled imperatively, using
classes whose methods are proved against specification functions:

- the two harvest loops (`HarvestScript.Harvester`, `Harvest.HarvestRdf`);
- the RDF builder of the Queen's generator (`Queens.RdfBuilder`, counting
  fresh blank nodes);
- the network builder (`Gexf.NetworkBuilder`);
- the smushing loops (`Smush.SmushWith`).

Files:

- `wrappers.dfy`: Option and Result.
- `strings.dfy`: Python string operations.
- `rdf.dfy`: terms, graphs and `graph.value`.
- `slugify.dfy`: Django's `slugify` on ASCII.
- `smush.dfy`: belfastdata/clean.py.
- `smush_script.dfy`: scripts/smush-rdf.py.
- `urls.dfy`: URLs and file-name rules.
- `crawl.dfy`: related-URL discovery and queueing.
- `harvest_script.dfy`: scripts/harvest-rdf.py.
- `harvest.dfy`: belfastdata/harvest.py.
- `queens.dfy`: scripts/queens_belfast_rdf.py.
- `gexf.dfy`: scripts/rdf2gexf.py.

## Model

| member | source | states |
|---|---|---|
| Rdf.Value | belfastdata/clean.py:21 | `graph.value(s, p)` is `None` exactly when no triple `(s, p, _)` exists, and otherwise one of the matching objects |
| Rdf.ValueUnique | belfastdata/clean.py:21 | when `(s, p, o)` is the only match, `graph.value` returns `o` |
| Rdf.ValueLocal | belfastdata/clean.py:21 | `graph.value` depends only on the triples with that subject and predicate |
| Rdf.TruthyIffNonEmpty | belfastdata/clean.py:24 | a term is true in Python exactly when its string is non-empty |
| Slug.Slugify | belfastdata/clean.py:42 | a slug holds only lower-case letters, digits, `_` and `-` |
| Slug.Collapse | belfastdata/clean.py:42 | every character left is a `-` or a non-space, non-dash character of the input |
| Slug.SlugifyIgnoresCase | belfastdata/clean.py:41-42 | slugifying the lower-cased title gives the same slug |
| Slug.SlugifyIgnoresPunctuation | belfastdata/clean.py:41-42 | deleting a character outside word, space and dash characters leaves the slug unchanged |
| Slug.SlugifyExample | belfastdata/clean.py:41-42 | "The Group!" and "the group" have one slug |
| Smush.ListItemsOfList | belfastdata/clean.py:34-35 | a well-formed RDF list yields its items in rdf:first/rdf:rest order |
| Smush.ListCycleFails | belfastdata/clean.py:34-35 | a list cell whose rest is itself raises rdflib's recursive-list error |
| Smush.Fingerprint | belfastdata/clean.py:37-69 | no identifier exactly when there are no titles and no true author key; any identifier lies in the group-sheet md5 namespace |
| Smush.FingerprintIsHashOfSortedSlugs | belfastdata/clean.py:42-69 | the identifier is the md5 of the author text, a space, and the sorted slugs joined by spaces |
| Smush.OneTitleFingerprint | belfastdata/clean.py:37-69 | a single title gives the md5 of the author text, a space and that title's slug |
| Smush.FingerprintPermutation | belfastdata/clean.py:37-42 | title order does not matter: permuted titles give the same identifier |
| Smush.FingerprintIgnoresCase | belfastdata/clean.py:41-42 | titles that differ only in letter case give the same identifier |
| Smush.NoSignalIff | belfastdata/clean.py:59-61 | `calculate_uri` returns `None` exactly when there are no titles and no true author key |
| Smush.NoTitleNoAuthor | belfastdata/clean.py:59-61 | a manuscript with neither a title nor an author is left alone |
| Smush.BlankAuthorBothNames | belfastdata/clean.py:46-55 | a blank-node author with both names is keyed "family, given" |
| Smush.BlankAuthorMissingName | belfastdata/clean.py:52-66 | a blank-node author missing a name counts as no author and is hashed as "anonymous" |
| Smush.FalsyTitleIsAbsent | belfastdata/clean.py:24 | a false title value (an empty literal) gives no titles |
| Smush.ListTitleIsExpanded | belfastdata/clean.py:29-35 | a true title that is not a literal is read as an RDF list of titles |
| Smush.SameContentSameUri | belfastdata/clean.py:37-69 | manuscripts with equal author keys and the same titles in any order get the same identifier, whichever graphs they are in |
| Smush.CrossDocumentMerge | belfastdata/clean.py:44-69 | one sheet described in two files gets `md5("family, given slug")` in both |
| Smush.CalculateUriFailsOnCycle | belfastdata/clean.py:18-69 | the only exception `calculate_uri` raises is the recursive-list error |
| Smush.ManuscriptsWith | belfastdata/clean.py:83-93 | the query finds exactly the manuscripts mentioned by a document about the Belfast Group |
| Smush.QueryAsWrittenMissesSchemaOrg | belfastdata/clean.py:83-93 | with `schema:` bound to XML Schema the query finds nothing in schema.org data; bound to schema.org it finds the manuscript |
| Smush.Substitution | belfastdata/clean.py:106-110 | `new_uris` maps exactly the found manuscripts whose identifier is not `None`, each to that identifier |
| Smush.SubstitutionTargets | belfastdata/clean.py:106-110 | every new identifier lies in the group-sheet namespace |
| Smush.RewriteKeepsPredicates | belfastdata/clean.py:119-122 | the rewrite never changes a predicate |
| Smush.RewriteKeepsUnmapped | belfastdata/clean.py:119-122 | a triple that touches no mapped manuscript survives unchanged |
| Smush.RewriteRemovesMapped | belfastdata/clean.py:119-122 | a mapped manuscript disappears from the rewritten graph unless something is mapped onto it |
| Smush.RewriteIdentity | belfastdata/clean.py:119-122 | with an empty map the rewrite is the identity |
| Smush.RewriteIdempotent | belfastdata/clean.py:119-122 | rewriting twice equals rewriting once when no identifier is itself a key |
| Smush.CopyBindings | belfastdata/clean.py:112-115 | the output graph gets exactly the input's namespace bindings |
| Smush.RewriteTriples | belfastdata/clean.py:117-122 | the loop builds exactly the rewritten graph |
| Smush.SmushWith | belfastdata/clean.py:98-128 | no manuscripts: the file is untouched; a failing fingerprint: that exception escapes; otherwise the output is the rewrite by the substitution map, with the bindings; a second run on that output is taken up by `Smush.RerunRewritesNothing` |
| Smush.ProcessFile | belfastdata/clean.py:71-128 | `process_file` with clean.py's `calculate_uri` and with the corrected schema.org query (see Findings): the outcomes of `Smush.SmushWith`, and the only failure is the recursive-list error |
| Smush.RerunRewritesNothing | belfastdata/clean.py:98-128 | running `process_file` again on its own output, when every fingerprint succeeded and the identifiers are separated (no two manuscripts share one, none was a node already, manuscripts are objects only of schema:mentions), succeeds on every manuscript and leaves the graph unchanged |
| Smush.CalculateUriAfter | belfastdata/clean.py:18-69 | after such a rewrite a manuscript's identifier, computed under its new name, is the one it had before |
| Smush.ManuscriptsAfter | belfastdata/clean.py:83-93 | every manuscript found in the rewritten graph is a manuscript of the original graph under its new name |
| Smush.ValueAfter | belfastdata/clean.py:21 | after such a rewrite a term keeps its `graph.value` under every predicate but schema:mentions |
| Smush.WalkAfter | belfastdata/clean.py:34-35 | after such a rewrite every RDF list reads the same |
| Smush.RewriteFixed | belfastdata/clean.py:119-122 | a map sending every key to itself rewrites nothing |
| SmushScript.ScriptTitles | scripts/smush-rdf.py:26-42 | the script's titles come from `graph.value(DC.title)`: no titles when that is absent, the literal when it is one, and otherwise a NameError for `rdfcollection` |
| SmushScript.ProcessFile | scripts/smush-rdf.py:81-136 | the script's `process_file` with the corrected schema.org query (see Findings): the same outcomes as the library's, with the script's fingerprint; it fails, with the NameError, exactly when manuscripts exist and the title value is not a literal |
| SmushScript.ScriptIgnoresOwnTitle | scripts/smush-rdf.py:27-31 | two manuscripts of one graph with equal author keys always get the same identifier |
| SmushScript.ScriptListTitleFails | scripts/smush-rdf.py:37-42 | a non-literal title value raises NameError |
| SmushScript.ScriptCountsEmptyTitle | scripts/smush-rdf.py:30-34 | an empty literal still counts as a title, so an identifier is computed |
| SmushScript.ScriptDropsTitle | scripts/smush-rdf.py:27-31 | a manuscript with a title and no author is skipped by the script, but fingerprinted from its title by the library |
| Urls.AbsoluteUrl | scripts/harvest-rdf.py:81-87 | refused exactly when the scheme or the network location is missing, with "An absolute URL is required"; otherwise the URL starts with `scheme://netloc` |
| Urls.AbsoluteUrlKeepsPath | scripts/harvest-rdf.py:81-87 | an accepted URL with a rooted path comes back unchanged |
| Urls.HostPart | scripts/harvest-rdf.py:94-95 | the host keeps its length, with `.` turned into `_` and `:` into `-` |
| Urls.PathPart | scripts/harvest-rdf.py:96-97 | the path part has no `/` |
| Urls.PathPartShape | scripts/harvest-rdf.py:96-97 | the path part is the path without its outer runs of `/`, inner `/` turned into `-` |
| Urls.PathPartEmpty | scripts/harvest-rdf.py:97-99 | the path part is empty exactly when the path is only slashes |
| Urls.PathPartIgnoresOuterSlashes | scripts/harvest-rdf.py:96-97 | extra slashes at either end of the path do not change it |
| Urls.HostPartClean | scripts/harvest-rdf.py:94-95 | the host part has no `.` or `:`, and no `/` unless the host had one |
| Urls.FileBaseClean | scripts/harvest-rdf.py:94-100 | the file base has no `/` unless the host had one |
| Urls.PathJoin | belfastdata/harvest.py:148 | `os.path.join`: an absolute second part replaces the first; otherwise the result starts with the first and ends with the second |
| Urls.PathJoinInDirectory | belfastdata/harvest.py:148 | a relative name is joined to its directory with a single `/` |
| HarvestScript.FilenameClean | scripts/harvest-rdf.py:90-101 | the file name starts with the cleaned host, ends in `.xml`, and has no `.` or `:` in the host part |
| HarvestScript.FilenameOfBareHost | scripts/harvest-rdf.py:97-101 | a URL whose path is only slashes gives `host.xml` |
| HarvestScript.FilenameOfPath | scripts/harvest-rdf.py:97-101 | any other URL gives `host_path.xml`, with a non-empty path part |
| HarvestScript.FilenameIgnoresOuterSlashes | scripts/harvest-rdf.py:96-101 | leading and trailing slashes of the path do not change the name |
| Crawl.HasPartsIn | scripts/harvest-rdf.py:54-57 | the hasPart URLs are exactly the objects of dc:hasPart triples whose subject is the page or owl:sameAs it |
| Crawl.RelatedLinkUrls | scripts/harvest-rdf.py:63-71 | the related-link URLs are exactly the objects of all schema:relatedLink triples |
| Crawl.RelatedSelection | belfastdata/harvest.py:109-130 | a hasPart triple about the page and any relatedLink triple yield a candidate |
| Crawl.HasPartNeedsPage | belfastdata/harvest.py:109-112 | a hasPart candidate always comes from a triple about the page itself |
| Crawl.Enqueue | scripts/harvest-rdf.py:58-59 | queueing, with the intended test, only appends |
| Crawl.EnqueueAppendsFresh | belfastdata/harvest.py:113-115 | everything appended is a candidate that was neither queued nor processed |
| Crawl.EnqueueCovers | belfastdata/harvest.py:113-115 | every candidate ends up queued or was already processed |
| Crawl.EnqueueNoDup | belfastdata/harvest.py:113-115 | a queue without repeats stays without repeats |
| Crawl.EnqueueAsWritten | belfastdata/harvest.py:114-128 | queueing, with the test as written, only appends |
| Crawl.AsWrittenAdmitsAll | belfastdata/harvest.py:114-128 | once anything is processed, the test as written appends every candidate |
| Crawl.AsWrittenAgreesInitially | scripts/harvest-rdf.py:58-72 | before anything is processed, the test as written behaves as intended |
| Crawl.AsWrittenRequeuesProcessed | scripts/harvest-rdf.py:58-72 | an already harvested page is queued again under the test as written but not under the intended one |
| Crawl.QueueRelatedSound | belfastdata/harvest.py:104-130 | queueing the related pages keeps the old queue as a prefix, adds no repeats, misses no new candidate and adds nothing else |
| Crawl.ErrorCount | belfastdata/harvest.py:80-83 | the number of URLs whose request fails, zero exactly when none fails |
| HarvestScript.Harvester.constructor | scripts/harvest-rdf.py:113 | the run starts with the checked URL alone in the queue |
| HarvestScript.Harvester.QueueAll | scripts/harvest-rdf.py:54-74 | the loop appends exactly what `Enqueue` admits and changes nothing else |
| HarvestScript.Harvester.HarvestPage | scripts/harvest-rdf.py:22-78 | a load error sets the failed URL; an empty page changes nothing; any other page is saved and, with `--related`, its related URLs are queued |
| HarvestScript.Harvester.HarvestUrl | scripts/harvest-rdf.py:20-78 | with the intended queue test (see Findings): the run fails, on `url`, exactly when the request fails; otherwise a page with triples is saved as `(filename_from_url(url), triples)` and, with `--related`, the queue becomes the intended `Enqueue` of its related URLs; nothing else changes |
| HarvestScript.SavedAllExactly | scripts/harvest-rdf.py:42-45 | the files saved for a list of URLs are exactly one `(filename_from_url(u), triples)` per URL `u` that loaded with triples |
| HarvestScript.Harvester.Step | scripts/harvest-rdf.py:115-118 | the front URL is popped and harvested: the run fails on it exactly when its request fails, and otherwise it is appended to the processed list; the new queue is the rest of the queue after that page's related URLs are queued; its file, if any, is appended to the saved files |
| HarvestScript.Harvester.Run | scripts/harvest-rdf.py:115-118 | the loop stops with an empty queue or on the first load error, which is the failed URL's; each step processes one URL or fails on it; the files saved are exactly those of the URLs processed, in order |
| HarvestScript.Harvester.StepLogged | scripts/harvest-rdf.py:115-118 | one turn of the loop keeps the saved files equal to those of the URLs processed since the loop began |
| Harvest.FilenameFromUrlAsWritten | belfastdata/harvest.py:136-148 | as written, no name exactly when the stripped path is empty; otherwise the intended name |
| Harvest.FilenameInBaseDir | belfastdata/harvest.py:136-148 | the file is `filebase.format` inside the base directory |
| Harvest.AsWrittenRootHasNoName | belfastdata/harvest.py:145-148 | a site root gets no file name as written, while the intended name is `host.format` |
| Harvest.HarvestRdf.constructor | belfastdata/harvest.py:28-37 | the queue holds the given URLs, and every counter starts at zero |
| Harvest.HarvestRdf.QueueAll | belfastdata/harvest.py:109-130 | the loop appends exactly what `Enqueue` admits and changes nothing else |
| Harvest.HarvestRdf.HarvestPage | belfastdata/harvest.py:72-134 | a load error adds one error; an empty page changes nothing; any other page is saved, adds one harvest and queues its related URLs when asked |
| Harvest.HarvestRdf.HarvestUrl | belfastdata/harvest.py:72-100 | with the corrected file name (see Findings): a failed request adds one error; a page with triples is saved as `(filename_from_url(url), triples)` and adds one harvest; with `find_related` the queue becomes the intended `Enqueue` of its related URLs; `processed` and `total` do not change |
| Harvest.SavedAllExactly | belfastdata/harvest.py:95-100 | the files saved for a list of URLs are exactly one `(filename_from_url(u), triples)` per URL `u` that loaded with triples |
| Harvest.HarvestRdf.Step | belfastdata/harvest.py:52-56 | the front URL is popped, harvested, counted in `total` and appended to the processed list; the new queue is the rest of the queue after its related URLs are queued; its file, if any, is appended and counted, and a failed request is counted as an error |
| Harvest.HarvestRdf.ProcessUrls | belfastdata/harvest.py:41-70 | the loop empties the queue; `total` counts every URL tried; the saved files are exactly those of the URLs processed, in order, `harvested` counts them, and `errors` counts the processed URLs whose request failed |
| Harvest.HarvestRdf.StepLogged | belfastdata/harvest.py:52-56 | one turn of the loop keeps the saved files and the error count equal to those of the URLs processed since the loop began |
| Harvest.PrefixMatches | belfastdata/harvest.py:190-198 | a URI that starts with the source's base URL matches the filter |
| Harvest.DotIsWildcard | belfastdata/harvest.py:196 | the `.` of the pattern matches any character but a newline, so a look-alike host such as `viaf<c>org` matches too |
| Harvest.SourceUris | belfastdata/harvest.py:190-198 | the query yields exactly the distinct subjects and objects whose string matches the source pattern |
| Harvest.AsciiOnly | belfastdata/harvest.py:205 | every character kept is an ASCII character of the input, and every ASCII character of the input is kept |
| Harvest.AsciiOnlyConcat | belfastdata/harvest.py:205 | the encoding distributes over concatenation, so the ASCII characters keep their order |
| Harvest.AsciiOnlyChar | belfastdata/harvest.py:205 | a single character is kept exactly when it is ASCII |
| Harvest.AsciiOnlyKeepsAscii | belfastdata/harvest.py:205 | an all-ASCII string is unchanged |
| Harvest.BaseId | belfastdata/harvest.py:221 | the base id has no `/` |
| Harvest.BaseIdOfPath | belfastdata/harvest.py:221 | the base id of `path/id` followed by slashes is `id` |
| Harvest.RelatedFilenameShape | belfastdata/harvest.py:207-223 | a record's file lies in the source directory and is named `<baseid>.rdf` |
| Harvest.RecordFile | belfastdata/harvest.py:205-223 | the record `<path>/<id>/` is saved as `<basedir>/<name>/<id>.rdf` |
| Queens.NameMatch | scripts/queens_belfast_rdf.py:129-132 | a matched family name is two or more letters with a capital first; a matched given name starts with a capital and has no trailing space |
| Queens.NameMatchOf | scripts/queens_belfast_rdf.py:129-132 | a line `Family, Given rest` matches with those names, the given name right-stripped |
| Queens.NameMatchSound | scripts/queens_belfast_rdf.py:28 | every match is of that form |
| Queens.DateMatch | scripts/queens_belfast_rdf.py:153-158 | a matched date is `yyyy-mm-dd` |
| Queens.DatedLine | scripts/queens_belfast_rdf.py:153-158 | a line `Dated dd/mm/yyyy...` gives `yyyy-mm-dd` |
| Queens.DateMatchSound | scripts/queens_belfast_rdf.py:29 | every date match is of that form |
| Queens.YearMatch | scripts/queens_belfast_rdf.py:160-162 | a matched year is four digits |
| Queens.YearLine | scripts/queens_belfast_rdf.py:160-162 | `Dates`, a space, non-digits and four digits give those digits |
| Queens.YearMatchSound | scripts/queens_belfast_rdf.py:30 | every year match is of that form |
| Queens.DateOf | scripts/queens_belfast_rdf.py:151-167 | an "Undated" line gives no date; any date is a full ISO date or a four-digit year |
| Queens.DateOfDated | scripts/queens_belfast_rdf.py:152-158 | a full date wins when the line has one |
| Queens.DateOfYear | scripts/queens_belfast_rdf.py:159-162 | a `Dates ... yyyy` line gives the year |
| Queens.GenreOf | scripts/queens_belfast_rdf.py:171-174 | the genre is poetry exactly when the lower-cased first line contains "poem"; any genre is poetry or short story |
| Queens.PoemAnyCase | scripts/queens_belfast_rdf.py:171-172 | "poem" in any letter case in the first line makes the div poetry, whatever the rest says |
| Queens.ShortStoryAnyCase | scripts/queens_belfast_rdf.py:173-174 | otherwise "short story" or "short stories" in any case makes it a short story |
| Queens.PagesFrom | scripts/queens_belfast_rdf.py:179 | the search finds nothing exactly when no position matches, and otherwise returns the leftmost match |
| Queens.PagesOf | scripts/queens_belfast_rdf.py:179-181 | no page count exactly when the pattern matches at no position; otherwise the single digit of the leftmost match |
| Queens.OneDigitPages | scripts/queens_belfast_rdf.py:31 | any "Typescript, dp..." or "Typescripts, dp..." after text with no capital T gives the digit d |
| Queens.TwoDigitPagesUnread | scripts/queens_belfast_rdf.py:31 | a two-digit count is not read at all |
| Queens.Describe | scripts/queens_belfast_rdf.py:115-186 | a div without "Typescript" is skipped; a typescript div without strings raises IndexError; otherwise the author, date, genre, pages and titles come from the first line, the last line, the text and the italics |
| Queens.ManuscriptPredicates | scripts/queens_belfast_rdf.py:20-25 | the predicates a manuscript carries are distinct IRIs |
| Queens.PartsGraphShape | scripts/queens_belfast_rdf.py:194-200 | document parts bring only fresh nodes and attach to the manuscript by dc:hasPart |
| Queens.PartsGraphTitles | scripts/queens_belfast_rdf.py:194-200 | each title has its own document part with type, name and title |
| Queens.AuthorPartShape | scripts/queens_belfast_rdf.py:136-147 | the author triples use at most one fresh node and attach to the manuscript by schema:author |
| Queens.TitlePartShape | scripts/queens_belfast_rdf.py:188-200 | the title triples attach by schema:name for one title and by dc:hasPart otherwise |
| Queens.SheetFresh | scripts/queens_belfast_rdf.py:120-200 | every blank node a manuscript brings, apart from the collection, is fresh |
| Queens.SheetAuthor | scripts/queens_belfast_rdf.py:129-147 | a named author is the known VIAF URI or a fresh node, with type, full name, family and given name |
| Queens.SheetNoAuthor | scripts/queens_belfast_rdf.py:129-130 | without a name match the manuscript has no author |
| Queens.SheetOneTitle | scripts/queens_belfast_rdf.py:188-191 | a single title names the manuscript, with no document parts |
| Queens.SheetNoName | scripts/queens_belfast_rdf.py:193-200 | any other number of titles leaves the manuscript unnamed |
| Queens.SheetParts | scripts/queens_belfast_rdf.py:193-200 | any other number of titles gives one document part per title |
| Queens.SheetNoTitles | scripts/queens_belfast_rdf.py:183-200 | a div without titles gives neither a name nor parts |
| Queens.DivsAppend | scripts/queens_belfast_rdf.py:115 | the div loop over `a + b` is the loop over `a` followed by the loop over `b` |
| Queens.SkippedDiv | scripts/queens_belfast_rdf.py:117-118 | a div without "Typescript" changes nothing, wherever it stands |
| Queens.DivsFailure | scripts/queens_belfast_rdf.py:115-126 | the document fails exactly when some typescript div has no strings |
| Queens.DivsGrow | scripts/queens_belfast_rdf.py:115-200 | the loop only adds triples, and every triple it adds mentions no blank node but the collection and those numbered from the loop's first free number up, so no node in use before is reused |
| Queens.DocumentHasCollection | scripts/queens_belfast_rdf.py:78-84 | a generated document always describes the collection: its three types, name, description and topic |
| Queens.DivAuthor | scripts/queens_belfast_rdf.py:125-147 | a typescript div whose first line reads `Family, Given` gets that author |
| Queens.DivDated | scripts/queens_belfast_rdf.py:151-167 | a typescript div whose last line reads `Dated dd/mm/yyyy` is dated `yyyy-mm-dd` |
| Queens.RdfBuilder.constructor | scripts/queens_belfast_rdf.py:72 | the graph starts empty, with no node numbers used |
| Queens.RdfBuilder.NewNode | scripts/queens_belfast_rdf.py:121 | a fresh blank node takes the next number and, in a valid builder, is mentioned by no triple of the graph |
| Queens.RdfBuilder.AddParts | scripts/queens_belfast_rdf.py:194-200 | the loop adds exactly the document parts, one fresh node per title |
| Queens.RdfBuilder.AddPart | scripts/queens_belfast_rdf.py:196-200 | one pass adds exactly one part under the next fresh node |
| Queens.RdfBuilder.AddAuthor | scripts/queens_belfast_rdf.py:136-147 | adds exactly the author triples |
| Queens.RdfBuilder.AddFacts | scripts/queens_belfast_rdf.py:164-181 | adds exactly the date, genre and page triples that exist |
| Queens.RdfBuilder.AddTitles | scripts/queens_belfast_rdf.py:183-200 | adds exactly the title triples |
| Queens.RdfBuilder.AddSheet | scripts/queens_belfast_rdf.py:120-200 | adds exactly one manuscript's triples, under a fresh node |
| Queens.RdfBuilder.AddDiv | scripts/queens_belfast_rdf.py:115-200 | one pass of the loop: fails exactly on a typescript div without strings, otherwise it is the specified step; a builder whose graph and collection use only numbers below the counter stays so |
| Queens.GenerateRdf | scripts/queens_belfast_rdf.py:69-200 | the loop builds exactly the specified document graph, or fails as it does, keeping every blank node numbered below the counter |
| Queens.LastIndexOf | scripts/queens_belfast_rdf.py:204 | the index of the last dot, or -1 |
| Queens.OutputNameOf | scripts/queens_belfast_rdf.py:204-205 | `dir/stem.ext` is saved as `stem.xml` |
| Queens.HiddenOutputName | scripts/queens_belfast_rdf.py:204-205 | a name whose only dot leads it keeps the whole name |
| Gexf.SplitUri | scripts/rdf2gexf.py:66 | a split gives a non-empty namespace and a local name that together make the URI |
| Gexf.SplitUriOf | scripts/rdf2gexf.py:66 | a namespace ending outside name characters, followed by a local name, splits into the two |
| Gexf.SplitUriFails | scripts/rdf2gexf.py:66 | a URI with no name start after its last separator cannot be split |
| Gexf.LocalOf | scripts/rdf2gexf.py:66 | the local name ends the URI; a failure is the "Can't split" exception |
| Gexf.BestLabel | scripts/rdf2gexf.py:18-32 | no label exactly when there is no true title, name or type; any label is non-empty; the only failure is a split failure |
| Gexf.LabelPreference | scripts/rdf2gexf.py:21-32 | the title comes before the name, and the name before the type's local name |
| Gexf.TypedResourceLabelled | scripts/rdf2gexf.py:29-32 | a resource whose types are true and split always gets a label |
| Gexf.AddNode | scripts/rdf2gexf.py:54 | `add_node` adds the node, sets its label and leaves every other node alone |
| Gexf.AddEdge | scripts/rdf2gexf.py:78 | `add_edge` adds missing ends with no attributes and appends one labelled edge |
| Gexf.Labelled | scripts/rdf2gexf.py:50-54 | a node is added exactly when it has a label, which becomes its label attribute |
| Gexf.Classification | scripts/rdf2gexf.py:66-78 | a literal of a known subject, or a type, becomes an attribute and adds no edge; anything else adds one edge labelled with the predicate's local name |
| Gexf.RecordClassification | scripts/rdf2gexf.py:66-78 | once both ends are labelled, an attribute triple keeps the edges and sets its subject's attribute to the literal or the type's local name; any other triple appends exactly one edge named by the predicate's local name |
| Gexf.TypeTripleHasNode | scripts/rdf2gexf.py:48-74 | a type triple's subject is a node by the time its attribute is set |
| Gexf.UnlabelledSubjectLiteralEdge | scripts/rdf2gexf.py:48-78 | a literal property of an unlabelled new subject becomes an edge to a literal node |
| Gexf.TripleStepGrows | scripts/rdf2gexf.py:46-78 | one pass keeps every node and edge, and every edge keeps joining nodes |
| Gexf.NetOfClosed | scripts/rdf2gexf.py:46-78 | the loop keeps every edge between nodes |
| Gexf.NetOfFailsAfter | scripts/rdf2gexf.py:46-78 | once the loop raises, the run ends with that exception |
| Gexf.NetworkBuilder.constructor | scripts/rdf2gexf.py:43 | the network starts empty |
| Gexf.NetworkBuilder.AddLabelled | scripts/rdf2gexf.py:50-54 | adds the node with its best label, or fails as `get_best_label` does |
| Gexf.NetworkBuilder.LabelTripleEnds | scripts/rdf2gexf.py:48-63 | labels the subject and then the object exactly as the specified step does |
| Gexf.NetworkBuilder.Record | scripts/rdf2gexf.py:66-78 | records the triple as an attribute or an edge exactly as the specified step does |
| Gexf.NetworkBuilder.AddTriple | scripts/rdf2gexf.py:46-78 | one pass is exactly the specified step |
| Gexf.ProcessFiles | scripts/rdf2gexf.py:35-81 | the network is exactly the fold of the steps over the triples, and every edge joins nodes |

## Left out

- I/O is not modelled: reading and parsing files, HTTP requests,
  serialization, printing, progress bars and argparse. A fetched page is a
  `Fetch` value, a saved file is a `(name, triples)` entry, and the argparse
  check is `Urls.AbsoluteUrl`.
- RDF parsing and serialization, typed literals, language tags and rdflib's
  namespace bindings are not modelled. The bindings are an opaque map
  copied by `Smush.CopyBindings`.
- `Rdf.Value`: rdflib returns whichever match its store yields first. The
  model returns the least match in a fixed order. Lemmas that depend on it
  require a single match.
- rdflib's `is not` identity tests (`pred is not RDF.type` in
  scripts/rdf2gexf.py:56) are read as inequality. A parsed predicate is
  likely a different object from `RDF.type`, so the script may also
  label the objects of type triples.
- `Slug.Slugify`: the NFKD normalisation and the ASCII encoding are left
  out. The model works on ASCII, with Python 2's ASCII `\w` and `\s`.
- `Strings.Lower`: lower-cases only ASCII letters, where Python also
  handles non-ASCII letters.
- `Gexf.SplitUri`: Unicode categories become ASCII letters and digits, and
  the special case for the XML namespace is not modelled.
- `Smush.ListItems`: rdflib's `Collection` is read through `Graph.items`.
  Its refusal of non-list nodes is not modelled.
- The md5 digest is a parameter, so collisions are not considered.
- `HarvestScript.Harvester.Run` and `Harvest.HarvestRdf.ProcessUrls` take a
  bound `maxSteps`, because the crawl need not terminate. The contracts
  speak of the steps taken.
- `Harvest.HarvestRdf`: the queue and processed list are class attributes
  shared by all instances in Python. Here they are instance fields. The
  verbosity, the format's use as a serializer option and the final report
  are not modelled.
- `HarvestRelated.run`: only the source selection, the ASCII encoding and
  the file names are modelled (`Harvest.SourceUris`, `Harvest.AsciiOnly`,
  `Harvest.RelatedFilename`). The download loop, the re-parsing of files
  already downloaded and the file-existence checks depend on the file
  system and the network.
- scripts/queens_belfast_rdf.py: BeautifulSoup is not modelled. A div is
  given as its text, its stripped strings and its italic strings. rdflib's
  random blank-node ids are numbered by a counter.
- scripts/rdf2gexf.py: the triples come in the store's order, as a
  sequence. The GEXF writer and the networkx internals are not modelled.
- belfastdata/rdfns.py does not define `BELFAST_GROUP_URI`, which clean.py
  imports. The model uses the value smush-rdf.py gives it.
- The Python 2 `unicode` and `str` conversions are the identity on these
  strings.
- SmushWith: running on its own output is proved to change nothing only
  under the conditions of `Smush.RerunRewritesNothing`. The hashed text
  joins the author key and the title slugs with spaces, so two different
  manuscripts can hash alike: author "Smith, John paul" with title "x"
  and author "Smith, John" with the titles "paul" and "x" both hash
  "Smith, John paul x". Such a pair shares one identifier, and a second
  run may then rewrite again.
- Smush.ProcessFile and SmushScript.ProcessFile use the corrected query,
  with `schema:` bound to schema.org. As written, the query finds no
  manuscripts in schema.org data, and both leave every file untouched
  (`Smush.QueryAsWrittenMissesSchemaOrg`).
- HarvestScript.Harvester and Harvest.HarvestRdf queue related URLs with
  the intended test (`Crawl.Enqueue`). As written, the test requeues
  pages already processed (`Crawl.AsWrittenRequeuesProcessed`).
- Harvest.HarvestRdf.HarvestUrl uses the corrected file name. As written,
  a site root has no file name (`Harvest.AsWrittenRootHasNoName`), so
  `open(None, 'w')` raises a TypeError that ends `process_urls`. That
  exception is not modelled.
- Gexf.ProcessFiles takes the triples as a sequence that may repeat a
  triple. rdflib's store never yields a triple twice; a repeated triple
  would add a second edge.

## Findings

| source | as written | input that shows it | evidently intended | confidence | as-written member | corrected member |
|---|---|---|---|---|---|---|
| belfastdata/clean.py:83-93 | the SPARQL prefix `schema:` is bound to `rdflib.XSD` (and so in scripts/smush-rdf.py:92-102) | any file using schema:about and schema:mentions | `schema:` bound to schema.org | not executed | Smush.ManuscriptsAsWritten, Smush.QueryAsWrittenMissesSchemaOrg | Smush.Manuscripts |
| belfastdata/harvest.py:114-128 | `related_url not in self.URL_QUEUE or self.PROCESSED_URLS`, which admits every URL once anything is processed | a second page that links back to the first, already processed page | not queued and not processed | not executed | Crawl.EnqueueAsWritten, Crawl.AsWrittenRequeuesProcessed | Crawl.Enqueue |
| belfastdata/harvest.py:145-148 | `return` is indented inside `if path:` | `http://example.org/`, whose stripped path is empty | the name `host.format` | not executed | Harvest.FilenameFromUrlAsWritten, Harvest.AsWrittenRootHasNoName | Harvest.FilenameFromUrl |
| scripts/smush-rdf.py:30-31 | the title is read with `graph.value(DC.title)`, the rdf:value of the predicate itself | a manuscript with a title and no author | the manuscript's own dc:title | not executed | SmushScript.CalculateUri, SmushScript.ScriptDropsTitle | Smush.CalculateUri |
