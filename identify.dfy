/** The `identify` step of the capture loop: turn the search results for one
    cropped face into a reported candidate, a guest save, or nothing. */
module Identify {
  import opened Errors
  import opened FaceKeys

  /** One search hit: the matched face's external id (maybe absent) and the
      similarity the service scored. */
  datatype FaceMatch = FaceMatch(externalImageId: Option<string>, similarity: real)

  /** `faceSimilarity`: a parsed key and its similarity. */
  datatype FaceSimilarity = FaceSimilarity(key: FaceKey, similarity: real)

  /** What one hit contributes to `results`: nothing when its id is absent or
      does not parse, otherwise the parsed key with the hit's similarity. */
  function Candidate(f: FaceMatch): (r: seq<FaceSimilarity>)
    ensures |r| <= 1
    ensures |r| == 1 <==> f.externalImageId.Some? && '_' in f.externalImageId.value
    ensures |r| == 1 ==>
              r[0].similarity == f.similarity &&
              Format(r[0].key) == f.externalImageId.value && '_' !in r[0].key.name
  {
    match f.externalImageId
    case None => []
    case Some(id) =>
      var parsed := ParseFaceKey(id);
      if parsed.err != Nil then [] else [FaceSimilarity(parsed.key, f.similarity)]
  }

  /** `results` before sorting: the usable hits, in search order. */
  function Candidates(matches: seq<FaceMatch>): (r: seq<FaceSimilarity>)
    ensures |r| <= |matches|
  {
    if matches == [] then []
    else Candidates(matches[..|matches| - 1]) + Candidate(matches[|matches| - 1])
  }

  /** One more hit: what it adds to `results`. */
  lemma CandidatesStep(matches: seq<FaceMatch>, i: nat)
    requires i < |matches|
    ensures Candidates(matches[..i + 1]) == Candidates(matches[..i]) + Candidate(matches[i])
  {
    assert matches[..i + 1][..i] == matches[..i];
  }

  /** The loop that builds `results`. */
  method CollectCandidates(matches: seq<FaceMatch>) returns (results: seq<FaceSimilarity>)
    ensures results == Candidates(matches)
  {
    results := [];
    var i := 0;
    while i < |matches|
      invariant 0 <= i <= |matches|
      invariant results == Candidates(matches[..i])
    {
      var f := matches[i];
      CandidatesStep(matches, i);
      i := i + 1;
      if f.externalImageId.None? {
        continue;
      }
      var parsed := ParseFaceKey(f.externalImageId.value);
      if parsed.err != Nil {
        continue;
      }
      results := results + [FaceSimilarity(parsed.key, f.similarity)];
    }
    assert matches[..|matches|] == matches;
  }

  /** A candidate comes from some hit. */
  lemma {:induction false} CandidateSource(matches: seq<FaceMatch>, c: FaceSimilarity) returns (i: nat)
    requires c in Candidates(matches)
    ensures i < |matches| && Candidate(matches[i]) == [c]
  {
    var n := |matches|;
    var front := matches[..n - 1];
    assert matches == front + [matches[n - 1]];
    assert Candidates(matches) == Candidates(front) + Candidate(matches[n - 1]);
    if c in Candidates(front) {
      i := CandidateSource(front, c);
      assert front[i] == matches[i];
    } else {
      i := n - 1;
    }
  }

  /** The candidates split along the hits. */
  lemma {:induction false} CandidatesAppend(a: seq<FaceMatch>, b: seq<FaceMatch>)
    ensures Candidates(a + b) == Candidates(a) + Candidates(b)
    decreases |b|
  {
    if b == [] {
      assert a + b == a;
    } else {
      assert (a + b)[..|a + b| - 1] == a + b[..|b| - 1];
      CandidatesAppend(a, b[..|b| - 1]);
    }
  }

  /** Every hit's candidate is kept. */
  lemma CandidateKept(matches: seq<FaceMatch>, i: nat)
    requires i < |matches|
    ensures Candidate(matches[i]) == [] || Candidate(matches[i])[0] in Candidates(matches)
  {
    var e := Candidate(matches[i]);
    assert matches == matches[..i + 1] + matches[i + 1..];
    CandidatesAppend(matches[..i + 1], matches[i + 1..]);
    CandidatesStep(matches, i);
    if e != [] {
      assert e[0] in Candidates(matches[..i + 1]);
    }
  }

  /** A candidate survives exactly when some hit has an id that formats it. */
  lemma CandidatesMembers(matches: seq<FaceMatch>, c: FaceSimilarity)
    ensures c in Candidates(matches) <==> exists i :: 0 <= i < |matches| && Candidate(matches[i]) == [c]
  {
    if c in Candidates(matches) {
      var i := CandidateSource(matches, c);
    } else {
      forall i | 0 <= i < |matches| ensures Candidate(matches[i]) != [c] {
        CandidateKept(matches, i);
        assert Candidate(matches[i]) == [] || Candidate(matches[i])[0] != c;
      }
    }
  }

  /** `bySimilarity.Less(i, j)`. */
  predicate Less(a: array<FaceSimilarity>, i: int, j: int): (b: bool)
    requires 0 <= i < a.Length && 0 <= j < a.Length
    reads a
    ensures b ==> i != j
    ensures b ==> !(a[j].similarity < a[i].similarity)
  {
    a[i].similarity < a[j].similarity
  }

  /** `bySimilarity.Swap(i, j)`. */
  method Swap(a: array<FaceSimilarity>, i: int, j: int)
    requires 0 <= i < a.Length && 0 <= j < a.Length
    modifies a
    ensures a[..] == old(a[..])[i := old(a[j])][j := old(a[i])]
    ensures multiset(a[..]) == old(multiset(a[..]))
  {
    a[i], a[j] := a[j], a[i];
  }

  /** Non-decreasing similarity: what sorting with `Less` establishes. */
  predicate SortedBySimilarity(s: seq<FaceSimilarity>) {
    forall p, q :: 0 <= p < q < |s| ==> s[p].similarity <= s[q].similarity
  }

  /** `sort.Sort(bySimilarity(a))`, as Go's insertion sort over `Less` and `Swap`
      (the algorithm Go uses for up to twelve elements). Ties may end up in any
      order: only the order of similarities and the elements are promised. */
  method Sort(a: array<FaceSimilarity>)
    modifies a
    ensures SortedBySimilarity(a[..])
    ensures multiset(a[..]) == old(multiset(a[..]))
  {
    var n := a.Length;
    var i := 1;
    while i < n
      invariant 1 <= i
      invariant SortedBySimilarity(a[..if i < n then i else n])
      invariant multiset(a[..]) == old(multiset(a[..]))
    {
      var j := i;
      while j > 0 && Less(a, j, j - 1)
        invariant 0 <= j <= i < n
        invariant forall p, q :: 0 <= p < q <= i && q != j ==> a[p].similarity <= a[q].similarity
        invariant multiset(a[..]) == old(multiset(a[..]))
      {
        Swap(a, j, j - 1);
        j := j - 1;
      }
      i := i + 1;
    }
  }

  /** `results` after `sort.Sort(bySimilarity(results))`: the same candidates,
      least similar first. */
  method Rank(results: seq<FaceSimilarity>) returns (ranked: seq<FaceSimilarity>)
    ensures SortedBySimilarity(ranked) && multiset(ranked) == multiset(results)
  {
    var a := new FaceSimilarity[|results|](i requires 0 <= i < |results| => results[i]);
    assert a[..] == results;
    Sort(a);
    ranked := a[..];
  }

  /** The ends of a ranking are candidates, the least and the most similar. */
  lemma RankedEnds(results: seq<FaceSimilarity>, ranked: seq<FaceSimilarity>)
    requires SortedBySimilarity(ranked) && multiset(ranked) == multiset(results) && |ranked| > 0
    ensures ranked[0] in results && ranked[|ranked| - 1] in results
    ensures forall c :: c in results ==> ranked[0].similarity <= c.similarity <= ranked[|ranked| - 1].similarity
  {
    assert ranked[0] in multiset(ranked);
    assert ranked[|ranked| - 1] in multiset(ranked);
    forall c | c in results
      ensures ranked[0].similarity <= c.similarity <= ranked[|ranked| - 1].similarity
    {
      assert c in multiset(ranked);
    }
  }

  /** What `identify` did for one crop. */
  datatype Outcome = Outcome(err: Error, savedGuest: bool, reported: Option<FaceSimilarity>)

  /** `identify(crop, idx)` given the SearchFacesByImage outcome. `savedGuest`
      says whether SaveGuest was called (its own error is only logged);
      `reported` is the `results[0]` the code logs as identified. */
  method Identify(search: Result<seq<FaceMatch>>) returns (r: Outcome)
    ensures search.Err? ==> r == Outcome(Failure(search.error), false, None)
    ensures search == Ok([]) ==> r == Outcome(Nil, true, None)
    ensures search.Ok? && search.value != [] && Candidates(search.value) == [] ==>
      r == Outcome(Nil, false, None)
    ensures search.Ok? && Candidates(search.value) != [] ==>
      r.err == Nil && !r.savedGuest && r.reported.Some? &&
      r.reported.value in Candidates(search.value) &&
      forall c :: c in Candidates(search.value) ==> r.reported.value.similarity <= c.similarity
  {
    if search.Err? {
      return Outcome(Failure(search.error), false, None);
    }
    var matches := search.value;
    if |matches| == 0 {
      return Outcome(Nil, true, None);
    }
    var results := CollectCandidates(matches);
    if |results| == 0 {
      return Outcome(Nil, false, None);
    }
    var ranked := Rank(results);
    RankedEnds(results, ranked);
    return Outcome(Nil, false, Some(ranked[0]));
  }

  /** The reported candidate is the least similar one: for hits scored 80 and
      95 the 80 is reported, never the 95. */
  method LeastSimilarIsReported() returns (r: Outcome)
    ensures r.reported == Some(FaceSimilarity(FaceKey("x", "1"), 80.0))
  {
    var x := FaceMatch(Some("x_1"), 80.0);
    var y := FaceMatch(Some("y_1"), 95.0);
    var cx := FaceSimilarity(FaceKey("x", "1"), 80.0);
    var cy := FaceSimilarity(FaceKey("y", "1"), 95.0);
    ParseFormatRoundTrip(cx.key);
    ParseFormatRoundTrip(cy.key);
    assert Format(cx.key) == "x_1" && Format(cy.key) == "y_1";
    assert Candidate(x) == [cx] && Candidate(y) == [cy];
    assert [x, y][..1] == [x] && [x][..0] == [];
    assert Candidates([x]) == [cx];
    assert Candidates([x, y]) == [cx, cy];
    r := Identify(Ok([x, y]));
  }

  /** `identify` as evidently meant: the same steps, but the candidate reported
      is the most similar one, the last after the ascending sort. */
  method IdentifyMostSimilar(search: Result<seq<FaceMatch>>) returns (r: Outcome)
    ensures search.Err? ==> r == Outcome(Failure(search.error), false, None)
    ensures search == Ok([]) ==> r == Outcome(Nil, true, None)
    ensures search.Ok? && search.value != [] && Candidates(search.value) == [] ==>
      r == Outcome(Nil, false, None)
    ensures search.Ok? && Candidates(search.value) != [] ==>
      r.err == Nil && !r.savedGuest && r.reported.Some? &&
      r.reported.value in Candidates(search.value) &&
      forall c :: c in Candidates(search.value) ==> c.similarity <= r.reported.value.similarity
  {
    if search.Err? {
      return Outcome(Failure(search.error), false, None);
    }
    var matches := search.value;
    if |matches| == 0 {
      return Outcome(Nil, true, None);
    }
    var results := CollectCandidates(matches);
    if |results| == 0 {
      return Outcome(Nil, false, None);
    }
    var ranked := Rank(results);
    RankedEnds(results, ranked);
    return Outcome(Nil, false, Some(ranked[|ranked| - 1]));
  }

  /** With the correction, hits scored 80 and 95 report the 95. */
  method MostSimilarIsReported() returns (r: Outcome)
    ensures r.reported == Some(FaceSimilarity(FaceKey("y", "1"), 95.0))
  {
    var x := FaceMatch(Some("x_1"), 80.0);
    var y := FaceMatch(Some("y_1"), 95.0);
    var cx := FaceSimilarity(FaceKey("x", "1"), 80.0);
    var cy := FaceSimilarity(FaceKey("y", "1"), 95.0);
    ParseFormatRoundTrip(cx.key);
    ParseFormatRoundTrip(cy.key);
    assert Format(cx.key) == "x_1" && Format(cy.key) == "y_1";
    assert Candidate(x) == [cx] && Candidate(y) == [cy];
    assert [x, y][..1] == [x] && [x][..0] == [];
    assert Candidates([x]) == [cx];
    assert Candidates([x, y]) == [cx, cy];
    r := IdentifyMostSimilar(Ok([x, y]));
  }
}
