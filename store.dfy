/** The persisted store of utils.py: a vector index (modelled by its vector count) and the
    parallel metadata list, the ingestion step `add_document` and the retrieval join of
    `retrieve`. */
module Store {
  import opened Text
  import opened Chunker

  /** One element of `metadata.json`: `{"text": ..., "source": ..., "hash": ...}`. */
  datatype Entry = Entry(text: string, source: string, hash: string)

  /** A loaded store: `index.ntotal` and the metadata list. */
  datatype Snapshot = Snapshot(count: nat, metadata: seq<Entry>)

  /** What the two files under `store/` hold: either a readable index and metadata
      pair, or something `load_store` cannot use (a file missing or unparsable). */
  datatype Files = Unreadable | Stored(snapshot: Snapshot)

  /** One search result: the id the index returned and its similarity score. */
  datatype Candidate = Candidate(id: int, score: real)

  /** `{"score": float(score), **metadata[i]}`. */
  datatype Hit = Hit(score: real, text: string, source: string, hash: string)

  /** What `retrieve` ends with: the hits, or the `IndexError` Python raises on a
      negative id below `-len(metadata)`. */
  datatype Retrieved = Hits(hits: seq<Hit>) | IndexError(id: int)

  const EmptySnapshot: Snapshot := Snapshot(0, [])

  /** The index and metadata are positionally aligned. */
  predicate Aligned(s: Snapshot) {
    s.count == |s.metadata|
  }

  /** What `load_store` returns for the given files. */
  function Loaded(files: Files): Snapshot {
    if files.Stored? then files.snapshot else EmptySnapshot
  }

  /** `{m["hash"] for m in metadata}`. */
  function HashSet(metadata: seq<Entry>): set<string> {
    set e | e in metadata :: e.hash
  }

  lemma HashSetAppend(a: seq<Entry>, b: seq<Entry>)
    ensures HashSet(a + b) == HashSet(a) + HashSet(b)
  {
    assert forall e :: e in a + b <==> e in a || e in b;
  }

  // ---------------------------------------------------------------------------
  // Deduplication and append (add_document)
  // ---------------------------------------------------------------------------

  /** The entries the loop of `add_document` collects in `new_meta`: one per chunk whose
      hash is not in `existing`, which is computed once before the loop, so two equal
      chunks of the same document are both kept. */
  function NewEntries(chunks: seq<string>, existing: set<string>, source: string,
                      hash: string -> string): (r: seq<Entry>)
    ensures |r| <= |chunks|
  {
    if chunks == [] then []
    else
      var h := hash(chunks[0]);
      var rest := NewEntries(chunks[1..], existing, source, hash);
      if h !in existing then [Entry(chunks[0], source, h)] + rest else rest
  }

  /** Each new entry's text is a chunk, its source is the call's source, its hash is the
      hash of its text, and that hash was not stored before the call. */
  lemma {:induction false} NewEntriesSound(chunks: seq<string>, existing: set<string>,
                                           source: string, hash: string -> string)
    ensures forall e :: e in NewEntries(chunks, existing, source, hash) ==>
              e.text in chunks && e.source == source && e.hash == hash(e.text) && e.hash !in existing
  {
    if chunks != [] {
      var rest := chunks[1..];
      NewEntriesSound(rest, existing, source, hash);
      assert chunks == [chunks[0]] + rest;
      forall e | e in NewEntries(chunks, existing, source, hash)
        ensures e.text in chunks && e.source == source && e.hash == hash(e.text) && e.hash !in existing
      {
        if e != Entry(chunks[0], source, hash(chunks[0])) {
          assert e in NewEntries(rest, existing, source, hash);
        }
      }
    }
  }

  /** Every chunk whose hash is not already stored gets an entry. */
  lemma {:induction false} NewEntriesComplete(chunks: seq<string>, existing: set<string>,
                                              source: string, hash: string -> string)
    ensures forall c :: c in chunks && hash(c) !in existing ==>
              Entry(c, source, hash(c)) in NewEntries(chunks, existing, source, hash)
  {
    if chunks != [] {
      NewEntriesComplete(chunks[1..], existing, source, hash);
      assert chunks == [chunks[0]] + chunks[1..];
    }
  }

  /** The new entries follow chunk order. */
  lemma {:induction false} NewEntriesAppend(a: seq<string>, b: seq<string>, existing: set<string>,
                                            source: string, hash: string -> string)
    ensures NewEntries(a + b, existing, source, hash)
            == NewEntries(a, existing, source, hash) + NewEntries(b, existing, source, hash)
  {
    if a == [] {
      assert a + b == b;
    } else {
      assert (a + b)[1..] == a[1..] + b;
      NewEntriesAppend(a[1..], b, existing, source, hash);
    }
  }

  lemma NewEntriesStep(chunks: seq<string>, i: nat, existing: set<string>, source: string,
                       hash: string -> string)
    requires i < |chunks|
    ensures NewEntries(chunks[..i + 1], existing, source, hash)
            == NewEntries(chunks[..i], existing, source, hash)
               + (if hash(chunks[i]) !in existing then [Entry(chunks[i], source, hash(chunks[i]))] else [])
  {
    assert chunks[..i + 1] == chunks[..i] + [chunks[i]];
    NewEntriesAppend(chunks[..i], [chunks[i]], existing, source, hash);
    assert [chunks[i]][1..] == [];
  }

  /** When every chunk's hash is already stored there is nothing to add. */
  lemma {:induction false} NothingNew(chunks: seq<string>, existing: set<string>,
                                      source: string, hash: string -> string)
    requires forall c :: c in chunks ==> hash(c) in existing
    ensures NewEntries(chunks, existing, source, hash) == []
  {
    if chunks != [] {
      assert chunks[0] in chunks;
      NothingNew(chunks[1..], existing, source, hash);
    }
  }

  /** Equal chunks within one call are not deduplicated against each other. */
  lemma KeepsRepeatWithinCall(c: string, existing: set<string>, source: string,
                              hash: string -> string)
    requires hash(c) !in existing
    ensures |NewEntries([c, c], existing, source, hash)| == 2
  {
    assert [c, c][1..] == [c];
    assert [c][1..] == [];
  }

  /** The store after `add_document` appends the new entries of `chunks`: unchanged when
      there are none (the early return), otherwise the new entries after the old ones
      and the same number of vectors added to the index. */
  function AfterAdd(s: Snapshot, chunks: seq<string>, source: string,
                    hash: string -> string): Snapshot
  {
    var added := NewEntries(chunks, HashSet(s.metadata), source, hash);
    if added == [] then s else Snapshot(s.count + |added|, s.metadata + added)
  }

  /** `add_document` only appends: the old metadata is a prefix of the new one, the index
      grows by exactly the number of appended entries, none of which carries a hash that
      was stored before, and each of which is one of the chunks with its own hash. */
  lemma AddAppendsOnly(s: Snapshot, chunks: seq<string>, source: string, hash: string -> string)
    ensures var s' := AfterAdd(s, chunks, source, hash);
            && s.metadata <= s'.metadata
            && s'.count - s.count == |s'.metadata| - |s.metadata| <= |chunks|
            && forall k :: |s.metadata| <= k < |s'.metadata| ==>
                 && s'.metadata[k].hash !in HashSet(s.metadata)
                 && s'.metadata[k].text in chunks
                 && s'.metadata[k].source == source
                 && s'.metadata[k].hash == hash(s'.metadata[k].text)
  {
    var added := NewEntries(chunks, HashSet(s.metadata), source, hash);
    var s' := AfterAdd(s, chunks, source, hash);
    NewEntriesSound(chunks, HashSet(s.metadata), source, hash);
    forall k | |s.metadata| <= k < |s'.metadata|
      ensures s'.metadata[k] in added
    {
      assert s'.metadata[k] == added[k - |s.metadata|];
    }
  }

  /** When every chunk is already stored (or there are no chunks) `add_document` returns
      early and the store is unchanged. */
  lemma NothingNewLeavesStore(s: Snapshot, chunks: seq<string>, source: string,
                              hash: string -> string)
    requires forall c :: c in chunks ==> hash(c) in HashSet(s.metadata)
    ensures AfterAdd(s, chunks, source, hash) == s
  {
    NothingNew(chunks, HashSet(s.metadata), source, hash);
  }

  /** An aligned store stays aligned. */
  lemma AddKeepsAligned(s: Snapshot, chunks: seq<string>, source: string, hash: string -> string)
    requires Aligned(s)
    ensures Aligned(AfterAdd(s, chunks, source, hash))
  {
  }

  /** Ingesting the same chunks twice stores the same as ingesting them once. */
  lemma AddIdempotent(s: Snapshot, chunks: seq<string>, source: string, hash: string -> string)
    ensures AfterAdd(AfterAdd(s, chunks, source, hash), chunks, source, hash)
            == AfterAdd(s, chunks, source, hash)
  {
    var added := NewEntries(chunks, HashSet(s.metadata), source, hash);
    var s' := AfterAdd(s, chunks, source, hash);
    HashSetAppend(s.metadata, added);
    NewEntriesComplete(chunks, HashSet(s.metadata), source, hash);
    forall c | c in chunks ensures hash(c) in HashSet(s'.metadata) {
      if hash(c) !in HashSet(s.metadata) {
        assert Entry(c, source, hash(c)) in added;
      }
    }
    NothingNew(chunks, HashSet(s'.metadata), source, hash);
  }

  // ---------------------------------------------------------------------------
  // The retrieval join (retrieve)
  // ---------------------------------------------------------------------------

  function HitOf(e: Entry, score: real): Hit {
    Hit(score, e.text, e.source, e.hash)
  }

  /** The position Python's `metadata[i]` reads for an id in `-n <= i < n`. */
  function Position(n: nat, i: int): (k: nat)
    requires -(n as int) <= i < n
    ensures k < n && (i >= 0 ==> k == i) && (i < 0 ==> k == n + i)
  {
    if i >= 0 then i else n + i
  }

  /** The join of `retrieve` as written: an id passes the guard `i < len(metadata)`, and
      `metadata[i]` then indexes from the end when `i` is negative and raises `IndexError`
      below `-len(metadata)`. */
  function Join(metadata: seq<Entry>, cands: seq<Candidate>): Retrieved {
    if cands == [] then Hits([])
    else
      var c := cands[0];
      if c.id >= |metadata| then Join(metadata, cands[1..])
      else if c.id < -|metadata| then IndexError(c.id)
      else
        var e := metadata[Position(|metadata|, c.id)];
        match Join(metadata, cands[1..])
        case Hits(rest) => Hits([HitOf(e, c.score)] + rest)
        case IndexError(i) => IndexError(i)
  }

  /** The join raises exactly when some id lies below `-len(metadata)`. */
  lemma {:induction false} JoinFailsIff(metadata: seq<Entry>, cands: seq<Candidate>)
    ensures Join(metadata, cands).IndexError? <==> exists c :: c in cands && c.id < -|metadata|
  {
    if cands != [] {
      JoinFailsIff(metadata, cands[1..]);
      assert cands == [cands[0]] + cands[1..];
    }
  }

  /** Every hit of a successful join comes from a search candidate whose id passed the
      guard, carrying that candidate's score and the fields of the entry its id reads. */
  lemma {:induction false} JoinHitsFromCandidates(metadata: seq<Entry>, cands: seq<Candidate>)
    requires Join(metadata, cands).Hits?
    ensures |Join(metadata, cands).hits| <= |cands|
    ensures forall h :: h in Join(metadata, cands).hits ==>
              exists c :: c in cands && -|metadata| <= c.id < |metadata|
                          && h == HitOf(metadata[Position(|metadata|, c.id)], c.score)
  {
    if cands != [] {
      JoinHitsFromCandidates(metadata, cands[1..]);
      assert cands == [cands[0]] + cands[1..];
    }
  }

  /** Joining a concatenation of search results: the first failure wins, otherwise the
      hits of the two parts in order. */
  lemma {:induction false} JoinAppend(metadata: seq<Entry>, a: seq<Candidate>, b: seq<Candidate>)
    ensures Join(metadata, a + b) ==
            match Join(metadata, a)
            case IndexError(i) => IndexError(i)
            case Hits(h) =>
              match Join(metadata, b)
              case IndexError(j) => IndexError(j)
              case Hits(h') => Hits(h + h')
  {
    if a == [] {
      assert a + b == b;
    } else {
      assert (a + b)[1..] == a[1..] + b;
      JoinAppend(metadata, a[1..], b);
    }
  }

  /** The join with the guard `0 <= i < len(metadata)`: only ids of stored entries. */
  function JoinInRange(metadata: seq<Entry>, cands: seq<Candidate>): (r: seq<Hit>)
    ensures |r| <= |cands|
    ensures forall h :: h in r ==>
              exists c :: c in cands && 0 <= c.id < |metadata| && h == HitOf(metadata[c.id], c.score)
  {
    if cands == [] then []
    else
      var c := cands[0];
      var rest := JoinInRange(metadata, cands[1..]);
      if 0 <= c.id < |metadata| then [HitOf(metadata[c.id], c.score)] + rest else rest
  }

  /** Every candidate with a stored id yields its hit. */
  lemma {:induction false} JoinInRangeComplete(metadata: seq<Entry>, cands: seq<Candidate>)
    ensures forall c :: c in cands && 0 <= c.id < |metadata| ==>
              HitOf(metadata[c.id], c.score) in JoinInRange(metadata, cands)
  {
    if cands != [] {
      JoinInRangeComplete(metadata, cands[1..]);
      assert cands == [cands[0]] + cands[1..];
    }
  }

  /** The guarded join keeps the search order. */
  lemma {:induction false} JoinInRangeAppend(metadata: seq<Entry>, a: seq<Candidate>, b: seq<Candidate>)
    ensures JoinInRange(metadata, a + b) == JoinInRange(metadata, a) + JoinInRange(metadata, b)
  {
    if a == [] {
      assert a + b == b;
    } else {
      assert (a + b)[1..] == a[1..] + b;
      JoinInRangeAppend(metadata, a[1..], b);
    }
  }

  /** On non-negative ids the join as written and the guarded join agree. */
  lemma {:induction false} JoinAgreesOnNonNegativeIds(metadata: seq<Entry>, cands: seq<Candidate>)
    requires forall c :: c in cands ==> c.id >= 0
    ensures Join(metadata, cands) == Hits(JoinInRange(metadata, cands))
  {
    if cands != [] {
      assert cands[0] in cands;
      JoinAgreesOnNonNegativeIds(metadata, cands[1..]);
    }
  }

  /** The index pads a search for more neighbours than it holds with the id -1; the join
      as written turns each such filler into a copy of the last stored entry, while the
      guarded join drops it. */
  lemma FillerIdRepeatsLastEntry(metadata: seq<Entry>, score: real)
    requires |metadata| > 0
    ensures Join(metadata, [Candidate(-1, score)]) == Hits([HitOf(metadata[|metadata| - 1], score)])
    ensures JoinInRange(metadata, [Candidate(-1, score)]) == []
  {
    assert [Candidate(-1, score)][1..] == [];
  }

  /** What `retrieve` returns for a loaded store: nothing when the index is empty,
      otherwise the join of what the search oracle gives for the query. */
  function RetrieveResult(s: Snapshot, query: string, topK: nat,
                          search: (string, nat) -> seq<Candidate>): Retrieved
  {
    if s.count == 0 then Hits([]) else Join(s.metadata, search(query, topK))
  }

  /** The loop of `add_document` that collects `new_texts` and `new_meta`. */
  method CollectNewEntries(sentences: seq<string>, existing: set<string>, source: string,
                           hash: string -> string)
    returns (newTexts: seq<string>, newMeta: seq<Entry>)
    ensures newMeta == NewEntries(sentences, existing, source, hash)
    ensures |newTexts| == |newMeta|
    ensures forall k :: 0 <= k < |newMeta| ==> newTexts[k] == newMeta[k].text
  {
    newTexts := [];
    newMeta := [];
    for i := 0 to |sentences|
      invariant newMeta == NewEntries(sentences[..i], existing, source, hash)
      invariant |newTexts| == |newMeta|
      invariant forall k :: 0 <= k < |newMeta| ==> newTexts[k] == newMeta[k].text
    {
      var h := hash(sentences[i]);
      if h !in existing {
        newTexts := newTexts + [sentences[i]];
        newMeta := newMeta + [Entry(sentences[i], source, h)];
      }
      NewEntriesStep(sentences, i, existing, source, hash);
    }
    assert sentences[..|sentences|] == sentences;
  }

  // ---------------------------------------------------------------------------
  // The store on disk and the two operations on it
  // ---------------------------------------------------------------------------

  /** The `store/` directory. Each operation loads it, works on the loaded copy and, when
      something changed, saves the copy back. */
  class Store {
    var files: Files

    constructor (files0: Files)
      ensures files == files0
    {
      files := files0;
    }

    /** `load_store`: the stored pair when it is readable, otherwise a fresh empty store,
        which is written to disk at once. */
    method LoadStore() returns (s: Snapshot)
      modifies this
      ensures s == Loaded(old(files))
      ensures files == Stored(s)
      ensures old(files).Stored? ==> files == old(files)
    {
      if files.Stored? {
        s := files.snapshot;
      } else {
        s := Snapshot(0, []);
        files := Stored(s);
      }
    }

    /** `save_store`: writes the index and the metadata. */
    method SaveStore(s: Snapshot)
      modifies this
      ensures files == Stored(s)
    {
      files := Stored(s);
    }

    /** `add_document(text, source)` with `hash_text` given as `hash`: the document's
        chunks are handed to the store. */
    method AddDocument(text: string, source: string, hash: string -> string)
      modifies this
      ensures files == Stored(AfterAdd(Loaded(old(files)), Chunks(text), source, hash))
    {
      AddChunks(Chunks(text), source, hash);
    }

    /** The store half of `add_document`: load, skip the chunks whose hash is stored,
        return early when nothing is new, otherwise append and save. */
    method AddChunks(sentences: seq<string>, source: string, hash: string -> string)
      modifies this
      ensures files == Stored(AfterAdd(Loaded(old(files)), sentences, source, hash))
    {
      var s := LoadStore();
      var existing := HashSet(s.metadata);
      var newTexts, newMeta := CollectNewEntries(sentences, existing, source, hash);
      if newTexts == [] {
        assert AfterAdd(s, sentences, source, hash) == s by {
          assert newMeta == [];
        }
        return;
      }
      var count := s.count + |newTexts|;
      var metadata := s.metadata + newMeta;
      assert AfterAdd(s, sentences, source, hash) == Snapshot(count, metadata);
      SaveStore(Snapshot(count, metadata));
    }

    /** `retrieve(query, top_k)` with the embedding and the index search given as the
        oracle `search`. */
    method Retrieve(query: string, topK: nat, search: (string, nat) -> seq<Candidate>)
      returns (results: Retrieved)
      modifies this
      ensures files == Stored(Loaded(old(files)))
      ensures results == RetrieveResult(Loaded(old(files)), query, topK, search)
    {
      var s := LoadStore();
      if s.count == 0 {
        return Hits([]);
      }
      var cands := search(query, topK);
      var hits: seq<Hit> := [];
      for i := 0 to |cands|
        invariant files == Stored(s)
        invariant Join(s.metadata, cands[..i]) == Hits(hits)
      {
        var c := cands[i];
        assert cands[..i + 1] == cands[..i] + [c];
        JoinAppend(s.metadata, cands[..i], [c]);
        if c.id < |s.metadata| {
          if c.id < -|s.metadata| {
            assert cands == cands[..i] + cands[i..];
            JoinAppend(s.metadata, cands[..i], cands[i..]);
            return IndexError(c.id);
          }
          var e := s.metadata[Position(|s.metadata|, c.id)];
          hits := hits + [HitOf(e, c.score)];
        }
      }
      assert cands[..|cands|] == cands;
      results := Hits(hits);
    }
  }
}
