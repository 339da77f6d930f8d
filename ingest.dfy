/**
  The ingestion pipeline of the ingestion script: read the page URLs listed in the
  sitemap, extract each page's text, chunk it, and store every non-blank chunk as a
  point under the next value of one global id counter, counting successes and
  failures.

  The network is not modelled: fetching and parsing the sitemap, recreating the
  collection, extracting a page's text and embedding-plus-upserting a point are
  parameters of the pipeline (oracles).
 */
module Ingest {
  import opened Wrappers
  import opened PyStr
  import opened Chunker

  /** A child element of the sitemap's root; `loc` is what looking up its `<loc>` child gives. */
  datatype SitemapEntry = SitemapEntry(loc: Option<LocTag>)

  /** A `<loc>` element; its `text` is None when the element is empty. */
  datatype LocTag = LocTag(text: Option<string>)

  /** The payload stored with a point. */
  datatype Payload = Payload(url: string, text: string, chunkId: nat)

  /** A point as handed to the vector store; its embedding vector is left abstract. */
  datatype Point = Point(id: nat, payload: Payload)

  /** A non-blank chunk waiting to be stored, with the URL of the page it came from. */
  datatype PendingChunk = PendingChunk(text: string, url: string)

  /** The totals printed at the end of a completed run. */
  datatype Report = Report(urlsFound: nat, stored: nat, failed: nat, idsUsed: nat)

  /** A run either aborts in its top-level handler or completes with a report. */
  datatype Outcome = Fatal | Completed(report: Report)

  // ---------------------------------------------------------------------------
  // get_all_urls

  /** The text of each child's `<loc>`, in document order, for the children that have one. */
  function LocTexts(entries: seq<SitemapEntry>): seq<Option<string>>
    decreases |entries|
  {
    if entries == [] then []
    else
      var last := entries[|entries| - 1];
      LocTexts(entries[..|entries| - 1]) + (if last.loc.Some? then [last.loc.value.text] else [])
  }

  /** `get_all_urls` after parsing: collect the `<loc>` text of every child that has a `<loc>`. */
  method GetAllUrls(entries: seq<SitemapEntry>) returns (urls: seq<Option<string>>)
    ensures urls == LocTexts(entries)
    ensures |urls| <= |entries|
  {
    urls := [];
    for i := 0 to |entries|
      invariant urls == LocTexts(entries[..i])
    {
      assert entries[..i + 1][..i] == entries[..i];
      var locTag := entries[i].loc;
      if locTag.Some? {
        urls := urls + [locTag.value.text];
      }
    }
    assert entries[..|entries|] == entries;
    LocTextsLength(entries);
  }

  /** Each child contributes at most one URL. */
  lemma {:induction false} LocTextsLength(entries: seq<SitemapEntry>)
    ensures |LocTexts(entries)| <= |entries|
    decreases |entries|
  {
    if entries != [] {
      LocTextsLength(entries[..|entries| - 1]);
    }
  }

  /** Collecting over two runs of children is collecting over each, in order. */
  lemma {:induction false} LocTextsAppend(a: seq<SitemapEntry>, b: seq<SitemapEntry>)
    ensures LocTexts(a + b) == LocTexts(a) + LocTexts(b)
    decreases |b|
  {
    if b != [] {
      var b' := b[..|b| - 1];
      assert (a + b)[..|a + b| - 1] == a + b';
      LocTextsAppend(a, b');
    } else {
      assert a + b == a;
    }
  }

  /** A URL is listed exactly when some child has a `<loc>` with that text. */
  lemma {:induction false} LocTextsMembers(entries: seq<SitemapEntry>, u: Option<string>)
    ensures u in LocTexts(entries) <==>
      exists i :: 0 <= i < |entries| && entries[i].loc == Some(LocTag(u))
    decreases |entries|
  {
    if entries != [] {
      var init := entries[..|entries| - 1];
      LocTextsMembers(init, u);
      if exists i :: 0 <= i < |init| && init[i].loc == Some(LocTag(u)) {
        var i :| 0 <= i < |init| && init[i].loc == Some(LocTag(u));
        assert entries[i] == init[i];
      }
      if exists i :: 0 <= i < |entries| && entries[i].loc == Some(LocTag(u)) {
        var i :| 0 <= i < |entries| && entries[i].loc == Some(LocTag(u));
        if i < |init| {
          assert init[i] == entries[i];
        }
      }
    }
  }

  /** When every child has a `<loc>`, the URLs are their texts, position by position. */
  lemma {:induction false} LocTextsAllPresent(entries: seq<SitemapEntry>)
    requires forall i :: 0 <= i < |entries| ==> entries[i].loc.Some?
    ensures |LocTexts(entries)| == |entries|
    ensures forall i :: 0 <= i < |entries| ==> LocTexts(entries)[i] == entries[i].loc.value.text
    decreases |entries|
  {
    if entries != [] {
      LocTextsAllPresent(entries[..|entries| - 1]);
    }
  }

  // ---------------------------------------------------------------------------
  // save_chunk_to_qdrant

  /** The point `save_chunk_to_qdrant(chunk, chunk_id, url)` upserts. */
  function ChunkPoint(chunk: string, chunkId: nat, url: string): (p: Point)
    ensures p.id == p.payload.chunkId == chunkId
    ensures p.payload.text == chunk && p.payload.url == url
  {
    Point(chunkId, Payload(url, chunk, chunkId))
  }

  // ---------------------------------------------------------------------------
  // ingest_book

  /** `not ch or len(ch.strip()) == 0`: the chunks the pipeline skips without using an id. */
  predicate IsBlankChunk(c: string)
  {
    c == [] || |Strip(c)| == 0
  }

  /** The non-blank chunks of one page, in order, paired with the page's URL. */
  function Keep(chunks: seq<string>, url: string): seq<PendingChunk>
    decreases |chunks|
  {
    if chunks == [] then []
    else
      var last := chunks[|chunks| - 1];
      Keep(chunks[..|chunks| - 1], url) + (if IsBlankChunk(last) then [] else [PendingChunk(last, url)])
  }

  /**
    What one sitemap URL contributes. A missing URL makes the page fetch raise, which
    the per-URL handler catches; no text (None or empty) is skipped.
   */
  function UrlWork(url: Option<string>, extract: string -> Option<string>): seq<PendingChunk>
  {
    match url
    case None => []
    case Some(u) =>
      var text := extract(u);
      if text == None || text.value == [] then [] else Keep(Chunks(text.value, DefaultMaxChars), u)
  }

  /** All chunks the pipeline tries to store, in processing order. */
  function Pending(urls: seq<Option<string>>, extract: string -> Option<string>): seq<PendingChunk>
    decreases |urls|
  {
    if urls == [] then []
    else Pending(urls[..|urls| - 1], extract) + UrlWork(urls[|urls| - 1], extract)
  }

  /** The points handed to the store when the pending chunks get ids 1, 2, 3, ... in order. */
  function Numbered(work: seq<PendingChunk>): (points: seq<Point>)
    ensures |points| == |work|
    decreases |work|
  {
    if work == [] then []
    else
      var last := work[|work| - 1];
      Numbered(work[..|work| - 1]) + [ChunkPoint(last.text, |work|, last.url)]
  }

  /** How many of `points` the store accepted. */
  function CountStored(points: seq<Point>, store: Point -> bool): nat
    decreases |points|
  {
    if points == [] then 0
    else CountStored(points[..|points| - 1], store) + (if store(points[|points| - 1]) then 1 else 0)
  }

  /** How many of `points` the store rejected. */
  function CountFailed(points: seq<Point>, store: Point -> bool): nat
    decreases |points|
  {
    if points == [] then 0
    else CountFailed(points[..|points| - 1], store) + (if store(points[|points| - 1]) then 0 else 1)
  }

  /**
    `ingest_book`. `sitemap` is the parsed sitemap, or None when fetching or parsing it
    raised; `collectionCreated` says whether recreating the collection succeeded;
    `extract` is `extract_text_from_url` (None when it raised or found nothing);
    `store` says whether embedding and upserting a point succeeded. Returns the
    outcome and every point handed to the store, in order.
   */
  method IngestBook(sitemap: Option<seq<SitemapEntry>>, collectionCreated: bool,
                    extract: string -> Option<string>, store: Point -> bool)
    returns (outcome: Outcome, attempts: seq<Point>)
    ensures sitemap == None || !collectionCreated ==> outcome == Fatal && attempts == []
    ensures sitemap != None && collectionCreated ==>
      var urls := LocTexts(sitemap.value);
      && attempts == Numbered(Pending(urls, extract))
      && outcome == Completed(Report(|urls|, CountStored(attempts, store), CountFailed(attempts, store), |attempts|))
    ensures outcome.Completed? ==> outcome.report.stored + outcome.report.failed == outcome.report.idsUsed
  {
    if sitemap == None {
      return Fatal, [];
    }
    var urls := GetAllUrls(sitemap.value);
    if !collectionCreated {
      return Fatal, [];
    }
    var globalId := 1;
    var totalChunks := 0;
    var failedChunks := 0;
    attempts := [];
    for i := 0 to |urls|
      invariant attempts == Numbered(Pending(urls[..i], extract))
      invariant globalId == |attempts| + 1
      invariant totalChunks == CountStored(attempts, store)
      invariant failedChunks == CountFailed(attempts, store)
      invariant totalChunks + failedChunks == globalId - 1
    {
      ghost var before := Pending(urls[..i], extract);
      UrlStep(urls, i, extract);
      if urls[i] == None {
        continue;
      }
      var url := urls[i].value;
      var text := extract(url);
      if text == None || text.value == [] {
        continue;
      }
      var chunks := ChunkText(text, DefaultMaxChars);
      attempts, globalId, totalChunks, failedChunks :=
        StorePageChunks(chunks, url, store, before, attempts, globalId, totalChunks, failedChunks);
      assert Keep(chunks, url) == UrlWork(urls[i], extract);
    }
    assert urls[..|urls|] == urls;
    return Completed(Report(|urls|, totalChunks, failedChunks, globalId - 1)), attempts;
  }

  /** One step of the URL loop: the URL's own work is appended; a URL with no work changes nothing. */
  lemma UrlStep(urls: seq<Option<string>>, i: int, extract: string -> Option<string>)
    requires 0 <= i < |urls|
    ensures Pending(urls[..i + 1], extract) == Pending(urls[..i], extract) + UrlWork(urls[i], extract)
    ensures UrlWork(urls[i], extract) == [] ==> Pending(urls[..i + 1], extract) == Pending(urls[..i], extract)
  {
    assert urls[..i + 1][..i] == urls[..i];
    assert Pending(urls[..i], extract) + [] == Pending(urls[..i], extract);
  }

  /**
    The inner loop of `ingest_book` over one page's chunks: skip blank chunks, store
    each other chunk under the current id, count the outcome and advance the id.
    `done` is the work already numbered before this page.
   */
  method StorePageChunks(chunks: seq<string>, url: string, store: Point -> bool, ghost done: seq<PendingChunk>,
                         attempts0: seq<Point>, globalId0: nat, total0: nat, failed0: nat)
    returns (attempts: seq<Point>, globalId: nat, total: nat, failed: nat)
    requires attempts0 == Numbered(done)
    requires globalId0 == |attempts0| + 1
    requires total0 == CountStored(attempts0, store) && failed0 == CountFailed(attempts0, store)
    requires total0 + failed0 == globalId0 - 1
    ensures attempts == Numbered(done + Keep(chunks, url))
    ensures globalId == |attempts| + 1
    ensures total == CountStored(attempts, store) && failed == CountFailed(attempts, store)
    ensures total + failed == globalId - 1
  {
    attempts, globalId, total, failed := attempts0, globalId0, total0, failed0;
    ghost var work := done;
    assert Keep(chunks[..0], url) == [];
    assert done + [] == done;
    for j := 0 to |chunks|
      invariant work == done + Keep(chunks[..j], url)
      invariant attempts == Numbered(work)
      invariant globalId == |attempts| + 1
      invariant total == CountStored(attempts, store)
      invariant failed == CountFailed(attempts, store)
      invariant total + failed == globalId - 1
    {
      PageStep(done, chunks, j, url);
      var ch := chunks[j];
      if IsBlankChunk(ch) {
        continue;
      }
      attempts, globalId, total, failed := SaveAndCount(ch, url, store, work, attempts, globalId, total, failed);
      work := work + [PendingChunk(ch, url)];
    }
    assert chunks[..|chunks|] == chunks;
  }

  /**
    One iteration of the page loop for a chunk that is not blank: hand the chunk to the
    store under the current id, count the outcome and advance the id. `work` is what
    has been numbered so far.
   */
  method SaveAndCount(ch: string, url: string, store: Point -> bool, ghost work: seq<PendingChunk>,
                   attempts0: seq<Point>, globalId0: nat, total0: nat, failed0: nat)
    returns (attempts: seq<Point>, globalId: nat, total: nat, failed: nat)
    requires attempts0 == Numbered(work) && globalId0 == |attempts0| + 1
    requires total0 == CountStored(attempts0, store) && failed0 == CountFailed(attempts0, store)
    requires total0 + failed0 == globalId0 - 1
    ensures attempts == Numbered(work + [PendingChunk(ch, url)]) && globalId == |attempts| + 1
    ensures total == CountStored(attempts, store) && failed == CountFailed(attempts, store)
    ensures total + failed == globalId - 1
  {
    var point := ChunkPoint(ch, globalId0, url);
    var success := store(point);
    NumberedSnoc(work, PendingChunk(ch, url));
    CountsSnoc(attempts0, point, store);
    attempts := attempts0 + [point];
    total, failed := total0, failed0;
    if success {
      total := total + 1;
    } else {
      failed := failed + 1;
    }
    globalId := globalId0 + 1;
  }

  /** One step of the page loop: a blank chunk adds no work, any other chunk adds itself. */
  lemma PageStep(done: seq<PendingChunk>, chunks: seq<string>, j: int, url: string)
    requires 0 <= j < |chunks|
    ensures done + Keep(chunks[..j + 1], url)
      == if IsBlankChunk(chunks[j]) then done + Keep(chunks[..j], url)
         else done + Keep(chunks[..j], url) + [PendingChunk(chunks[j], url)]
  {
    KeepSnoc(chunks, j, url);
    var kept := Keep(chunks[..j], url);
    if IsBlankChunk(chunks[j]) {
      assert kept + [] == kept;
    } else {
      ConcatAssoc(done, kept, [PendingChunk(chunks[j], url)]);
    }
  }

  /** Looking at one more chunk keeps it exactly when it is not blank. */
  lemma KeepSnoc(chunks: seq<string>, j: int, url: string)
    requires 0 <= j < |chunks|
    ensures Keep(chunks[..j + 1], url)
      == Keep(chunks[..j], url) + (if IsBlankChunk(chunks[j]) then [] else [PendingChunk(chunks[j], url)])
  {
    assert chunks[..j + 1][..j] == chunks[..j];
  }

  /** Each point handed to the store adds one to exactly one of the two counters. */
  lemma CountsSnoc(points: seq<Point>, p: Point, store: Point -> bool)
    ensures CountStored(points + [p], store) == CountStored(points, store) + (if store(p) then 1 else 0)
    ensures CountFailed(points + [p], store) == CountFailed(points, store) + (if store(p) then 0 else 1)
  {
    assert (points + [p])[..|points|] == points;
  }

  /** Every point handed to the store is counted once, as stored or as failed. */
  lemma {:induction false} CountsAddUp(points: seq<Point>, store: Point -> bool)
    ensures CountStored(points, store) + CountFailed(points, store) == |points|
    decreases |points|
  {
    if points != [] {
      CountsAddUp(points[..|points| - 1], store);
    }
  }

  /** Numbering one more chunk appends one point with the next id. */
  lemma NumberedSnoc(work: seq<PendingChunk>, w: PendingChunk)
    ensures Numbered(work + [w]) == Numbered(work) + [ChunkPoint(w.text, |work| + 1, w.url)]
  {
    assert (work + [w])[..|work|] == work;
  }

  // ---------------------------------------------------------------------------
  // Properties of the run

  /** Point `k` carries id `k + 1`, its payload's `chunk_id` equals that id, and its text and URL are the chunk's. */
  lemma {:induction false} NumberedIds(work: seq<PendingChunk>)
    ensures forall k :: 0 <= k < |work| ==> Numbered(work)[k] == ChunkPoint(work[k].text, k + 1, work[k].url)
    decreases |work|
  {
    if work != [] {
      var init := work[..|work| - 1];
      NumberedIds(init);
      forall k | 0 <= k < |init| ensures Numbered(work)[k] == ChunkPoint(work[k].text, k + 1, work[k].url) {
        assert Numbered(work)[k] == Numbered(init)[k];
        assert init[k] == work[k];
      }
    }
  }

  /** The ids are distinct and increase with processing order. */
  lemma IdsIncrease(work: seq<PendingChunk>, k: int, l: int)
    requires 0 <= k < l < |work|
    ensures 0 < Numbered(work)[k].id < Numbered(work)[l].id
  {
    NumberedIds(work);
  }

  /** A kept chunk is a non-blank chunk of the page, tagged with the page's URL. */
  predicate KeptFrom(w: PendingChunk, chunks: seq<string>, url: string)
  {
    w.url == url && !IsBlankChunk(w.text) && w.text in chunks
  }

  /** `Keep` keeps only non-blank chunks of the page, and drops everything exactly when every chunk is blank. */
  lemma {:induction false} KeepSpec(chunks: seq<string>, url: string)
    ensures forall k :: 0 <= k < |Keep(chunks, url)| ==> KeptFrom(Keep(chunks, url)[k], chunks, url)
    ensures Keep(chunks, url) == [] <==> forall i :: 0 <= i < |chunks| ==> IsBlankChunk(chunks[i])
    decreases |chunks|
  {
    if chunks != [] {
      var init := chunks[..|chunks| - 1];
      KeepSpec(init, url);
      var kept := Keep(chunks, url);
      forall k | 0 <= k < |kept| ensures KeptFrom(kept[k], chunks, url) {
        if k < |Keep(init, url)| {
          assert kept[k] == Keep(init, url)[k];
          assert KeptFrom(kept[k], init, url);
          var i :| 0 <= i < |init| && init[i] == kept[k].text;
          assert chunks[i] == init[i];
        } else {
          assert kept[k].text == chunks[|chunks| - 1];
        }
      }
      if forall i :: 0 <= i < |chunks| ==> IsBlankChunk(chunks[i]) {
        forall i | 0 <= i < |init| ensures IsBlankChunk(init[i]) {
          assert init[i] == chunks[i];
        }
      }
      if kept == [] {
        forall i | 0 <= i < |chunks| ensures IsBlankChunk(chunks[i]) {
          if i < |init| {
            assert chunks[i] == init[i];
          }
        }
      }
    }
  }

  /** Processing two runs of URLs is processing each, one after the other. */
  lemma {:induction false} PendingAppend(a: seq<Option<string>>, b: seq<Option<string>>, extract: string -> Option<string>)
    ensures Pending(a + b, extract) == Pending(a, extract) + Pending(b, extract)
    decreases |b|
  {
    if b == [] {
      assert a + b == a;
    } else {
      var b' := b[..|b| - 1];
      assert (a + b)[..|a + b| - 1] == a + b';
      PendingAppend(a, b', extract);
      ConcatAssoc(Pending(a, extract), Pending(b', extract), UrlWork(b[|b| - 1], extract));
    }
  }

  /**
    A URL that is missing, whose extraction fails or whose text is empty uses no id:
    the chunks of the pages after it are numbered as if it were not in the sitemap.
   */
  lemma SkippedUrlUsesNoId(a: seq<Option<string>>, u: Option<string>, b: seq<Option<string>>,
                           extract: string -> Option<string>)
    requires u == None || extract(u.value) == None || extract(u.value) == Some([])
    ensures Numbered(Pending(a + [u] + b, extract)) == Numbered(Pending(a + b, extract))
  {
    PendingAppend(a + [u], b, extract);
    PendingAppend(a, [u], extract);
    PendingAppend(a, b, extract);
    assert [u][..0] == [];
    assert Pending([u], extract) == [] + UrlWork(u, extract);
    assert Pending(a, extract) + [] == Pending(a, extract);
  }

  /** A stored chunk: non-empty, at most the chunk budget long, stripped, and from a listed URL. */
  predicate WellFormedWork(w: PendingChunk, urls: seq<Option<string>>)
  {
    0 < |w.text| <= DefaultMaxChars && IsStripped(w.text) && Some(w.url) in urls
  }

  /** Every chunk handed to the store is a non-empty stripped chunk of at most 1200 characters from a listed URL. */
  lemma {:induction false} PendingWellFormed(urls: seq<Option<string>>, extract: string -> Option<string>)
    ensures forall k :: 0 <= k < |Pending(urls, extract)| ==> WellFormedWork(Pending(urls, extract)[k], urls)
    decreases |urls|
  {
    if urls != [] {
      var init := urls[..|urls| - 1];
      var u := urls[|urls| - 1];
      PendingWellFormed(init, extract);
      var here := UrlWork(u, extract);
      if here != [] {
        var text := extract(u.value).value;
        var chunks := Chunks(text, DefaultMaxChars);
        KeepSpec(chunks, u.value);
        ChunksBounded(text, DefaultMaxChars);
        ChunksStripped(text, DefaultMaxChars);
        forall k | 0 <= k < |here| ensures WellFormedWork(here[k], urls) {
          assert KeptFrom(here[k], chunks, u.value);
          var i :| 0 <= i < |chunks| && chunks[i] == here[k].text;
        }
      }
      var all := Pending(urls, extract);
      var earlier := Pending(init, extract);
      forall k | 0 <= k < |all| ensures WellFormedWork(all[k], urls) {
        if k < |earlier| {
          assert all[k] == earlier[k];
          assert WellFormedWork(earlier[k], init);
          var i :| 0 <= i < |init| && init[i] == Some(earlier[k].url);
          assert urls[i] == init[i];
        } else {
          assert all[k] == here[k - |earlier|];
        }
      }
    }
  }
}
