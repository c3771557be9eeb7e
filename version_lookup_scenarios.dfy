/** The two per-segment lookup scenarios: one segment holding a single
    document, and one segment holding the same document added twice. Each
    builds the lookup once and reuses it; the two-document scenario also
    changes a liveness bitset in place between lookups. The postconditions
    are the answers expected of them. */
module VersionLookupScenarios {
  import opened Wrappers
  import opened VersionLookup

  /** The identifier "6" as UTF-8 bytes. */
  const Six: Bytes := [0x36]
  /** The identifier "7" as UTF-8 bytes. */
  const Seven: Bytes := [0x37]

  /** A bitset of `n` slots with every slot deleted. */
  method MatchNoBits(n: nat) returns (bits: array<bool>)
    ensures fresh(bits) && bits.Length == n
    ensures forall d :: 0 <= d < n ==> !bits[d]
  {
    bits := new bool[n](_ => false);
  }

  /** One document "6" at version 87: found at slot 0 with everything live,
      "7" is not found, and "6" is not found once its slot is deleted. */
  method SingleDocument() returns (found: Option<DocIdAndVersion>, absent: Option<DocIdAndVersion>,
                                   deleted: Option<DocIdAndVersion>)
    ensures found == Some(DocIdAndVersion(0, 87))
    ensures absent == None
    ensures deleted == None
  {
    var lookup := new PerThreadIdAndVersionLookup([Doc(Six, 87)]);
    found := lookup.LookupVersion(Six, null);
    absent := lookup.LookupVersion(Seven, null);
    var none := MatchNoBits(1);
    assert none[..] == [false];
    deleted := lookup.LookupVersion(Six, none);
  }

  /** The same document "6" at version 87 added twice (slots 0 and 1). With
      everything live the later slot wins; with only slot 1 live it is still
      slot 1; with only slot 0 live the earlier live duplicate is the answer;
      with both deleted there is no answer. */
  method TwoDocuments() returns (allLive: Option<DocIdAndVersion>, firstDeleted: Option<DocIdAndVersion>,
                                 secondDeleted: Option<DocIdAndVersion>, bothDeleted: Option<DocIdAndVersion>)
    ensures allLive == Some(DocIdAndVersion(1, 87))
    ensures firstDeleted == Some(DocIdAndVersion(1, 87))
    ensures secondDeleted == Some(DocIdAndVersion(0, 87))
    ensures bothDeleted == None
  {
    var doc := Doc(Six, 87);
    var lookup := new PerThreadIdAndVersionLookup([doc, doc]);
    allLive := lookup.LookupVersion(Six, null);

    var live := new bool[2](_ => false);
    live[1] := true;
    assert live[..] == [false, true];
    firstDeleted := lookup.LookupVersion(Six, live);

    // Clearing the answer's bit falls back below it, where nothing is live;
    // setting slot 0 then makes it the answer.
    ghost var onlySecond := live[..];
    live[1] := false;
    ghost var noneLive := live[..];
    assert noneLive == onlySecond[1 := false];
    ClearAnswerFallsBack([doc, doc], Six, onlySecond, 1);
    live[0] := true;
    assert live[..] == noneLive[0 := true];
    SetSlotLive([doc, doc], Six, noneLive, 0);
    secondDeleted := lookup.LookupVersion(Six, live);

    var none := MatchNoBits(2);
    assert none[..] == [false, false];
    bothDeleted := lookup.LookupVersion(Six, none);
  }

  /** A lookup object reused across calls answers the same arguments the
      same way: its answer depends on nothing but the segment it was built
      over, the identifier and the liveness bits. */
  method LookupTwice(lookup: PerThreadIdAndVersionLookup, id: Bytes, liveDocs: array?<bool>)
    returns (first: Option<DocIdAndVersion>, second: Option<DocIdAndVersion>)
    requires lookup.Valid()
    requires liveDocs != null ==> liveDocs.Length == |lookup.docs|
    ensures first == second
  {
    first := lookup.LookupVersion(id, liveDocs);
    second := lookup.LookupVersion(id, liveDocs);
  }
}
