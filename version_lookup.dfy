/** Per-segment lookup of a document's slot and version by its identifier.

    A segment is a dense, 0-based sequence of documents; each document has an
    identifier (a byte string, the `_id` field) and a 64-bit version (the
    `_version` doc values). Because a segment is append-only, one identifier
    may occur at several slots. A lookup answers with the highest-numbered
    slot that carries the identifier AND is live, together with that slot's
    version; it answers nothing when no occurrence is live. */
module VersionLookup {
  import opened Wrappers

  type Bytes = seq<bv8>

  /** A Java `long`. */
  type Int64 = x: int | -0x8000_0000_0000_0000 <= x < 0x8000_0000_0000_0000

  datatype Doc = Doc(id: Bytes, version: Int64)

  /** What a successful lookup returns: the slot inside the segment and its version. */
  datatype DocIdAndVersion = DocIdAndVersion(docId: nat, version: Int64)

  /** Liveness of a slot; `None` (a null `Bits`) means every slot is live. */
  predicate IsLive(live: Option<seq<bool>>, d: nat)
  {
    match live
    case None => true
    case Some(bits) => d < |bits| && bits[d]
  }

  /** Slot `d` is a live occurrence of `id`. */
  predicate LiveMatch(docs: seq<Doc>, id: Bytes, live: Option<seq<bool>>, d: nat)
  {
    d < |docs| && docs[d].id == id && IsLive(live, d)
  }

  /** The highest live occurrence of `id` among the slots below `n`. */
  function LastLiveSlot(docs: seq<Doc>, id: Bytes, live: Option<seq<bool>>, n: nat): (r: Option<nat>)
    requires n <= |docs|
    ensures r.Some? ==> r.value < n && LiveMatch(docs, id, live, r.value)
    ensures r.Some? ==> forall j :: r.value < j < n ==> !LiveMatch(docs, id, live, j)
    ensures r.None? <==> forall j :: 0 <= j < n ==> !LiveMatch(docs, id, live, j)
  {
    if n == 0 then None
    else if LiveMatch(docs, id, live, n - 1) then Some(n - 1)
    else LastLiveSlot(docs, id, live, n - 1)
  }

  /** The answer of a per-segment lookup: the last live occurrence of `id`,
      paired with the version stored at that slot. */
  function LastLiveMatch(docs: seq<Doc>, id: Bytes, live: Option<seq<bool>>): (r: Option<DocIdAndVersion>)
    ensures r.Some? ==> r.value.docId < |docs|
    ensures r.Some? ==> docs[r.value.docId].id == id && IsLive(live, r.value.docId)
    ensures r.Some? ==> r.value.version == docs[r.value.docId].version
    ensures r.Some? ==> forall j :: r.value.docId < j < |docs| ==> !LiveMatch(docs, id, live, j)
    ensures r.None? <==> forall j :: 0 <= j < |docs| ==> !LiveMatch(docs, id, live, j)
  {
    match LastLiveSlot(docs, id, live, |docs|)
    case None => None
    case Some(d) => Some(DocIdAndVersion(d, docs[d].version))
  }

  /** The last live occurrence is the only slot that is a live occurrence with
      no live occurrence above it. */
  lemma LastLiveSlotUnique(docs: seq<Doc>, id: Bytes, live: Option<seq<bool>>, n: nat, d: nat)
    requires n <= |docs| && d < n
    ensures LastLiveSlot(docs, id, live, n) == Some(d) <==>
              LiveMatch(docs, id, live, d) && forall j :: d < j < n ==> !LiveMatch(docs, id, live, j)
  {
  }

  /** Both directions of the characterisation of a lookup's answer. */
  lemma LastLiveMatchCharacterised(docs: seq<Doc>, id: Bytes, live: Option<seq<bool>>, d: nat)
    requires d < |docs|
    ensures LastLiveMatch(docs, id, live) == Some(DocIdAndVersion(d, docs[d].version)) <==>
              LiveMatch(docs, id, live, d) && forall j :: d < j < |docs| ==> !LiveMatch(docs, id, live, j)
  {
    LastLiveSlotUnique(docs, id, live, |docs|, d);
  }

  /** Clearing the liveness bit of a slot that is not the answer leaves the answer unchanged. */
  lemma ClearOtherSlotKeepsAnswer(docs: seq<Doc>, id: Bytes, bits: seq<bool>, c: nat)
    requires |bits| == |docs| && c < |bits|
    requires LastLiveSlot(docs, id, Some(bits), |docs|) != Some(c)
    ensures LastLiveSlot(docs, id, Some(bits[c := false]), |docs|) == LastLiveSlot(docs, id, Some(bits), |docs|)
  {
    var after := Some(bits[c := false]);
    match LastLiveSlot(docs, id, Some(bits), |docs|)
    case None =>
      forall j | 0 <= j < |docs| ensures !LiveMatch(docs, id, after, j) {
        assert !LiveMatch(docs, id, Some(bits), j);
      }
    case Some(d) =>
      assert LiveMatch(docs, id, after, d);
      forall j | d < j < |docs| ensures !LiveMatch(docs, id, after, j) {
        assert !LiveMatch(docs, id, Some(bits), j);
      }
      LastLiveSlotUnique(docs, id, after, |docs|, d);
  }

  /** Clearing the liveness bit of the answer falls back to the last live
      occurrence strictly below it (an earlier live duplicate, if any). */
  lemma ClearAnswerFallsBack(docs: seq<Doc>, id: Bytes, bits: seq<bool>, d: nat)
    requires |bits| == |docs|
    requires LastLiveSlot(docs, id, Some(bits), |docs|) == Some(d)
    ensures LastLiveSlot(docs, id, Some(bits[d := false]), |docs|) == LastLiveSlot(docs, id, Some(bits), d)
  {
    var after := Some(bits[d := false]);
    match LastLiveSlot(docs, id, Some(bits), d)
    case None =>
      forall j | 0 <= j < |docs| ensures !LiveMatch(docs, id, after, j) {
        if j < d {
          assert !LiveMatch(docs, id, Some(bits), j);
        } else if j > d {
          assert !LiveMatch(docs, id, Some(bits), j);
        }
      }
    case Some(e) =>
      assert LiveMatch(docs, id, after, e);
      forall j | e < j < |docs| ensures !LiveMatch(docs, id, after, j) {
        if j < d {
          assert !LiveMatch(docs, id, Some(bits), j);
        } else if j > d {
          assert !LiveMatch(docs, id, Some(bits), j);
        }
      }
      LastLiveSlotUnique(docs, id, after, |docs|, e);
  }

  /** Setting the liveness bit of slot `s` makes `s` the answer exactly when it
      is an occurrence of `id` above the previous answer; otherwise nothing changes. */
  lemma SetSlotLive(docs: seq<Doc>, id: Bytes, bits: seq<bool>, s: nat)
    requires |bits| == |docs| && s < |bits|
    ensures var before := LastLiveSlot(docs, id, Some(bits), |docs|);
            LastLiveSlot(docs, id, Some(bits[s := true]), |docs|) ==
              if docs[s].id == id && (before.None? || before.value < s) then Some(s) else before
  {
    var before := LastLiveSlot(docs, id, Some(bits), |docs|);
    var after := Some(bits[s := true]);
    if docs[s].id == id && (before.None? || before.value < s) {
      assert LiveMatch(docs, id, after, s);
      forall j | s < j < |docs| ensures !LiveMatch(docs, id, after, j) {
        assert !LiveMatch(docs, id, Some(bits), j);
      }
      LastLiveSlotUnique(docs, id, after, |docs|, s);
    } else if before.None? {
      assert forall j :: 0 <= j < |docs| ==> !LiveMatch(docs, id, after, j) by {
        forall j | 0 <= j < |docs| ensures !LiveMatch(docs, id, after, j) {
          assert !LiveMatch(docs, id, Some(bits), j);
        }
      }
    } else {
      var d := before.value;
      assert LiveMatch(docs, id, after, d);
      forall j | d < j < |docs| ensures !LiveMatch(docs, id, after, j) {
        assert !LiveMatch(docs, id, Some(bits), j);
      }
      LastLiveSlotUnique(docs, id, after, |docs|, d);
    }
  }

  // ---------------------------------------------------------------------
  // The terms index: identifier -> ascending occurrence slots (postings)
  // ---------------------------------------------------------------------

  /** The slots below `n` that carry `id`, in ascending order. */
  function Occurrences(docs: seq<Doc>, id: Bytes, n: nat): seq<nat>
    requires n <= |docs|
  {
    if n == 0 then []
    else Occurrences(docs, id, n - 1) + (if docs[n - 1].id == id then [n - 1] else [])
  }

  /** The occurrence list holds exactly the slots below `n` that carry `id`,
      each once, in strictly ascending order. */
  lemma {:induction false} OccurrencesExact(docs: seq<Doc>, id: Bytes, n: nat)
    requires n <= |docs|
    ensures var r := Occurrences(docs, id, n);
            (forall k :: 0 <= k < |r| ==> r[k] < n && docs[r[k]].id == id) &&
            (forall j :: 0 <= j < n && docs[j].id == id ==> j in r) &&
            (forall k, l :: 0 <= k < l < |r| ==> r[k] < r[l])
  {
    if n > 0 {
      OccurrencesExact(docs, id, n - 1);
    }
  }

  /** One unfolding of `Occurrences`, kept as a separate lemma only as a hint
      that keeps the proof of `IndexesStep` small for the prover. */
  lemma OccurrencesStep(docs: seq<Doc>, id: Bytes, n: nat)
    requires n < |docs|
    ensures Occurrences(docs, id, n + 1) == Occurrences(docs, id, n) + (if docs[n].id == id then [n] else [])
  {
  }

  /** `postings` is the terms index of the first `n` documents: exactly the
      identifiers that occur, each with its non-empty ascending slot list. */
  ghost predicate Indexes(postings: map<Bytes, seq<nat>>, docs: seq<Doc>, n: nat)
    requires n <= |docs|
  {
    (forall id :: id in postings ==> postings[id] == Occurrences(docs, id, n) && postings[id] != []) &&
    (forall id :: id !in postings ==> Occurrences(docs, id, n) == [])
  }

  /** The index with `slot` appended to the postings of `id`. */
  function AddPosting(postings: map<Bytes, seq<nat>>, id: Bytes, slot: nat): map<Bytes, seq<nat>>
  {
    postings[id := (if id in postings then postings[id] else []) + [slot]]
  }

  /** Appending slot `n` to the postings of its identifier extends the index by one document. */
  lemma IndexesStep(postings: map<Bytes, seq<nat>>, docs: seq<Doc>, n: nat)
    requires n < |docs| && Indexes(postings, docs, n)
    ensures Indexes(AddPosting(postings, docs[n].id, n), docs, n + 1)
  {
    var after := AddPosting(postings, docs[n].id, n);
    forall x | x in after ensures after[x] == Occurrences(docs, x, n + 1) && after[x] != [] {
      OccurrencesStep(docs, x, n);
    }
    forall x | x !in after ensures Occurrences(docs, x, n + 1) == [] {
      OccurrencesStep(docs, x, n);
    }
  }

  /** The terms index of the first `n` documents, one slot added at a time. */
  ghost function IndexOf(docs: seq<Doc>, n: nat): map<Bytes, seq<nat>>
    requires n <= |docs|
  {
    if n == 0 then map[] else AddPosting(IndexOf(docs, n - 1), docs[n - 1].id, n - 1)
  }

  /** Adding the documents' slots one at a time yields their terms index. */
  lemma {:induction false} IndexOfIndexes(docs: seq<Doc>, n: nat)
    requires n <= |docs|
    ensures Indexes(IndexOf(docs, n), docs, n)
  {
    if n > 0 {
      IndexOfIndexes(docs, n - 1);
      IndexesStep(IndexOf(docs, n - 1), docs, n - 1);
    }
  }

  /** Builds the terms index of a segment in one pass over its documents.
      Lucene writes this terms dictionary when the segment is flushed; the
      model derives it here because a segment is given as its documents. */
  method BuildPostings(docs: seq<Doc>) returns (postings: map<Bytes, seq<nat>>)
    ensures Indexes(postings, docs, |docs|)
  {
    postings := map[];
    var i := 0;
    while i < |docs|
      invariant 0 <= i <= |docs|
      invariant postings == IndexOf(docs, i)
    {
      postings := AddPosting(postings, docs[i].id, i);
      i := i + 1;
    }
    IndexOfIndexes(docs, |docs|);
  }

  /** The last live slot of an ascending slot list, as a walk over the
      postings that keeps the most recent live slot finds it. */
  function KeepLastLive(slots: seq<nat>, live: Option<seq<bool>>): (r: Option<nat>)
    ensures r.Some? ==> r.value in slots && IsLive(live, r.value)
    ensures r.Some? ==> exists k :: 0 <= k < |slots| && slots[k] == r.value &&
                          forall k' :: k < k' < |slots| ==> !IsLive(live, slots[k'])
    ensures r.None? <==> forall k :: 0 <= k < |slots| ==> !IsLive(live, slots[k])
  {
    if slots == [] then None
    else if IsLive(live, slots[|slots| - 1]) then Some(slots[|slots| - 1])
    else KeepLastLive(slots[..|slots| - 1], live)
  }

  /** Walking the postings of `id` and keeping the last live slot gives the
      last live occurrence of `id`. */
  lemma {:induction false} WalkFindsLastLiveSlot(docs: seq<Doc>, id: Bytes, live: Option<seq<bool>>, n: nat)
    requires n <= |docs|
    ensures KeepLastLive(Occurrences(docs, id, n), live) == LastLiveSlot(docs, id, live, n)
  {
    if n > 0 {
      var prior := Occurrences(docs, id, n - 1);
      WalkFindsLastLiveSlot(docs, id, live, n - 1);
      if docs[n - 1].id == id {
        assert Occurrences(docs, id, n) == prior + [n - 1];
        assert (prior + [n - 1])[..|prior|] == prior;
      } else {
        assert Occurrences(docs, id, n) == prior;
      }
    }
  }

  /** The view of a liveness bitset that the specification functions take. */
  function Liveness(liveDocs: array?<bool>): (r: Option<seq<bool>>)
    reads liveDocs
    ensures r.None? <==> liveDocs == null
    ensures liveDocs != null ==> forall d :: 0 <= d < liveDocs.Length ==> (IsLive(r, d) <==> liveDocs[d])
  {
    if liveDocs == null then None else Some(liveDocs[..])
  }

  /** Walks a postings list in ascending order, skipping deleted slots and
      keeping the last slot seen. */
  method WalkPostings(slots: seq<nat>, liveDocs: array?<bool>) returns (d: Option<nat>)
    requires liveDocs != null ==> forall k :: 0 <= k < |slots| ==> slots[k] < liveDocs.Length
    ensures d == KeepLastLive(slots, Liveness(liveDocs))
  {
    ghost var live := Liveness(liveDocs);
    d := None;
    var k := 0;
    while k < |slots|
      invariant 0 <= k <= |slots|
      invariant d == KeepLastLive(slots[..k], live)
    {
      var s := slots[k];
      assert slots[..k + 1][..k] == slots[..k];
      if liveDocs == null || liveDocs[s] {
        d := Some(s);
      }
      k := k + 1;
    }
    assert slots[..k] == slots;
  }

  /** A lookup structure built once over one segment and reused for any
      number of lookups against it. The segment and its terms index never
      change; the liveness bitset is an argument of every lookup. */
  class PerThreadIdAndVersionLookup {
    const docs: seq<Doc>
    const postings: map<Bytes, seq<nat>>

    ghost predicate Valid()
    {
      Indexes(postings, docs, |docs|)
    }

    constructor (segment: seq<Doc>)
      ensures Valid() && docs == segment
    {
      var index := BuildPostings(segment);
      docs := segment;
      postings := index;
    }

    /** The slot of the last live occurrence of `id`: seek the identifier in
        the terms index, then walk its postings in ascending order, skipping
        deleted slots and keeping the last one seen. */
    method GetDocId(id: Bytes, liveDocs: array?<bool>) returns (d: Option<nat>)
      requires Valid()
      requires liveDocs != null ==> liveDocs.Length == |docs|
      ensures d == LastLiveSlot(docs, id, Liveness(liveDocs), |docs|)
    {
      d := None;
      if id in postings {
        assert postings[id] == Occurrences(docs, id, |docs|);
        OccurrencesExact(docs, id, |docs|);
        d := WalkPostings(postings[id], liveDocs);
      }
      WalkFindsLastLiveSlot(docs, id, Liveness(liveDocs), |docs|);
    }

    /** The slot and version of the last live occurrence of `id`, or `None`
        when `id` does not occur or none of its occurrences is live. */
    method LookupVersion(id: Bytes, liveDocs: array?<bool>) returns (r: Option<DocIdAndVersion>)
      requires Valid()
      requires liveDocs != null ==> liveDocs.Length == |docs|
      ensures r == LastLiveMatch(docs, id, Liveness(liveDocs))
    {
      var d := GetDocId(id, liveDocs);
      match d
      case None =>
        r := None;
      case Some(docId) =>
        r := Some(DocIdAndVersion(docId, docs[docId].version));
    }
  }
}
