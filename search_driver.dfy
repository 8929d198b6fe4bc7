/** The search around the greedy attempt: the subjects are merged, ordered
    by size, by conflict degree and by the caller's shuffles; one attempt is
    run per order; the results are ranked, results with the same placement
    are dropped, and at most ten are kept. */
module SearchDriver {
  import opened Types
  import opened Strings
  import opened Seqs
  import opened GreedyAssigner
  import opened AttemptProperties
  import opened SubjectMerger

  /** Results kept at most. */
  const ShortlistSize: nat := 10

  // ---------------------------------------------------------------------
  // Conflict scores

  /** How many students of `xs` also appear in `ys`. */
  function SharedCount(xs: seq<string>, ys: seq<string>): nat {
    if |xs| == 0 then 0 else (if xs[0] in ys then 1 else 0) + SharedCount(xs[1..], ys)
  }

  /** The students `a` shares with every subject of `others` named differently. */
  function ScoreAgainst(a: SubjectStats, others: seq<SubjectStats>): nat {
    if |others| == 0 then 0
    else
      var b := others[|others| - 1];
      ScoreAgainst(a, others[..|others| - 1]) + (if a.name == b.name then 0 else SharedCount(a.students, b.students))
  }

  /** The score map after the first `n` subjects have entered theirs. */
  function ScoresUpTo(all: seq<SubjectStats>, n: nat): map<string, nat>
    requires n <= |all|
  {
    if n == 0 then map[] else ScoresUpTo(all, n - 1)[all[n - 1].name := ScoreAgainst(all[n - 1], all)]
  }

  function ScoresMap(all: seq<SubjectStats>): map<string, nat> {
    ScoresUpTo(all, |all|)
  }

  /** `scores.get(name) || 0` */
  function ScoreOf(scores: map<string, nat>, name: string): nat {
    if name in scores then scores[name] else 0
  }

  lemma {:induction false} SharedCountZero(xs: seq<string>, ys: seq<string>)
    ensures SharedCount(xs, ys) == 0 <==> forall x :: x in xs ==> x !in ys
  {
    if |xs| > 0 {
      SharedCountZero(xs[1..], ys);
      assert xs == [xs[0]] + xs[1..];
    }
  }

  /** A subject scores zero exactly when it shares no student with any
      subject of another name. */
  lemma {:induction false} ScoreZeroIff(a: SubjectStats, others: seq<SubjectStats>)
    ensures ScoreAgainst(a, others) == 0 <==>
      forall k, x :: 0 <= k < |others| && others[k].name != a.name && x in a.students ==> x !in others[k].students
  {
    if |others| > 0 {
      var init, b := others[..|others| - 1], others[|others| - 1];
      ScoreZeroIff(a, init);
      SharedCountZero(a.students, b.students);
      if ScoreAgainst(a, others) == 0 {
        forall k, x | 0 <= k < |others| && others[k].name != a.name && x in a.students ensures x !in others[k].students {
          if k < |init| {
            assert others[k] == init[k];
          }
        }
      }
    }
  }

  predicate DistinctNames(all: seq<SubjectStats>) {
    forall i, j :: 0 <= i < j < |all| ==> all[i].name != all[j].name
  }

  lemma {:induction false} ScoresUpToFacts(all: seq<SubjectStats>, n: nat)
    requires n <= |all| && DistinctNames(all)
    ensures forall name :: name in ScoresUpTo(all, n) <==> exists k :: 0 <= k < n && all[k].name == name
    ensures forall k :: 0 <= k < n ==> ScoresUpTo(all, n)[all[k].name] == ScoreAgainst(all[k], all)
  {
    if n > 0 {
      ScoresUpToFacts(all, n - 1);
    }
  }

  /** With distinct names, every subject's entry is its score. */
  lemma ScoresMapFacts(all: seq<SubjectStats>)
    requires DistinctNames(all)
    ensures forall k :: 0 <= k < |all| ==> all[k].name in ScoresMap(all) && ScoresMap(all)[all[k].name] == ScoreAgainst(all[k], all)
  {
    ScoresUpToFacts(all, |all|);
  }

  /** The nested loops that fill the score map. */
  method ConflictScores(processedStats: seq<SubjectStats>) returns (conflictScores: map<string, nat>)
    ensures conflictScores == ScoresMap(processedStats)
  {
    conflictScores := map[];
    for n := 0 to |processedStats|
      invariant conflictScores == ScoresUpTo(processedStats, n)
    {
      var subA := processedStats[n];
      var score := 0;
      for m := 0 to |processedStats|
        invariant score == ScoreAgainst(subA, processedStats[..m])
      {
        var subB := processedStats[m];
        assert processedStats[..m + 1][..m] == processedStats[..m];
        if subA.name != subB.name {
          var shared := SharedCount(subA.students, subB.students);
          score := score + shared;
        }
      }
      assert processedStats[..|processedStats|] == processedStats;
      conflictScores := conflictScores[subA.name := score];
    }
  }

  // ---------------------------------------------------------------------
  // Orders

  /** Higher conflict score first, then larger subjects first. */
  function ConflictLe(scores: map<string, nat>): (SubjectStats, SubjectStats) -> bool {
    (a: SubjectStats, b: SubjectStats) =>
      var sa, sb := ScoreOf(scores, a.name), ScoreOf(scores, b.name);
      sa > sb || (sa == sb && a.count >= b.count)
  }

  function ByCount(processed: seq<SubjectStats>): seq<SubjectStats> {
    SortBy(processed, CountDescLe)
  }

  function ByConflict(processed: seq<SubjectStats>): seq<SubjectStats> {
    SortBy(processed, ConflictLe(ScoresMap(processed)))
  }

  lemma ConflictLeIsPreorder(scores: map<string, nat>)
    ensures TotalPreorder(ConflictLe(scores))
  {
  }

  /** The size order is a rearrangement of the subjects, largest first. */
  lemma ByCountOrdered(processed: seq<SubjectStats>)
    ensures var r := ByCount(processed);
      multiset(r) == multiset(processed) &&
      forall i, j :: 0 <= i < j < |r| ==> r[i].count >= r[j].count
  {
    CountDescLeIsPreorder();
    SortBySorted(processed, CountDescLe);
  }

  /** The conflict order is a rearrangement of the subjects, by score and
      then by size, both descending. */
  lemma ByConflictOrdered(processed: seq<SubjectStats>)
    ensures var r, scores := ByConflict(processed), ScoresMap(processed);
      multiset(r) == multiset(processed) &&
      forall i, j :: 0 <= i < j < |r| ==>
        ScoreOf(scores, r[i].name) > ScoreOf(scores, r[j].name) ||
        (ScoreOf(scores, r[i].name) == ScoreOf(scores, r[j].name) && r[i].count >= r[j].count)
  {
    var scores := ScoresMap(processed);
    ConflictLeIsPreorder(scores);
    SortBySorted(processed, ConflictLe(scores));
    var r := ByConflict(processed);
    forall i, j | 0 <= i < j < |r| ensures ConflictLe(scores)(r[i], r[j]) {
    }
  }

  // ---------------------------------------------------------------------
  // Ranking

  /** The id of the last slot, or 0 when none is used. */
  function MaxSlotId(r: ScheduleResult): nat {
    if |r.slots| > 0 then r.slots[|r.slots| - 1].id else 0
  }

  /** Fewer unassignable subjects, then fewer days, then a lower last slot. */
  predicate RankLe(a: ScheduleResult, b: ScheduleResult) {
    |a.unassignable| < |b.unassignable| ||
    (|a.unassignable| == |b.unassignable| &&
      (a.totalDays < b.totalDays || (a.totalDays == b.totalDays && MaxSlotId(a) <= MaxSlotId(b))))
  }

  lemma RankLeIsPreorder()
    ensures TotalPreorder(RankLe)
  {
  }

  // ---------------------------------------------------------------------
  // Signatures

  /** `${subject}:${slotId}` */
  function ExamKey(e: ScheduledExam): string {
    e.subject + ":" + NatToString(e.slotId)
  }

  /** The key names the exam's subject and slot: the slot's digits hold no
      colon, so the last colon of the key separates the two. */
  lemma ExamKeyInjective(e: ScheduledExam, f: ScheduledExam)
    ensures ExamKey(e) == ExamKey(f) <==> e.subject == f.subject && e.slotId == f.slotId
  {
    if ExamKey(e) == ExamKey(f) {
      var de, df := NatToString(e.slotId), NatToString(f.slotId);
      var k := ExamKey(e);
      assert k == e.subject + ":" + de == f.subject + ":" + df;
      DigitsTail(e.subject, f.subject, de, df);
      DigitsTail(f.subject, e.subject, df, de);
      assert de == k[|k| - |de|..] == df;
      NatToStringValue(e.slotId);
      NatToStringValue(f.slotId);
      assert e.subject == k[..|k| - |de| - 1] == f.subject;
    }
  }

  /** A colon and digits after it: a longer digit tail would swallow the colon. */
  lemma DigitsTail(a: string, b: string, da: string, db: string)
    requires a + ":" + da == b + ":" + db
    requires forall i :: 0 <= i < |db| ==> IsDecDigit(db[i])
    ensures |da| >= |db|
  {
    assert (a + ":" + da)[|a|] == ':';
  }

  function Keys(s: seq<ScheduledExam>): seq<string> {
    Map(s, ExamKey)
  }

  /** The exam keys in string order, joined with `|`. */
  function Signature(r: ScheduleResult): string {
    Join(SortBy(Keys(r.schedule), StringLe), "|")
  }

  lemma StringLeIsLinear()
    ensures TotalPreorder(StringLe) && Antisymmetric(StringLe)
  {
    forall a, b ensures StringLe(a, b) || StringLe(b, a) {
      StringLeTotal(a, b);
    }
    forall a, b, c | StringLe(a, b) && StringLe(b, c) ensures StringLe(a, c) {
      StringLeTransitive(a, b, c);
    }
    forall a, b | StringLe(a, b) && StringLe(b, a) ensures a == b {
      StringLeAntisymmetric(a, b);
    }
  }

  /** The signature does not depend on the order of the exams. */
  lemma SignatureIgnoresOrder(r: ScheduleResult, q: ScheduleResult)
    requires multiset(r.schedule) == multiset(q.schedule)
    ensures Signature(r) == Signature(q)
  {
    MapPermutation(r.schedule, q.schedule, ExamKey);
    StringLeIsLinear();
    var a, b := SortBy(Keys(r.schedule), StringLe), SortBy(Keys(q.schedule), StringLe);
    SortBySorted(Keys(r.schedule), StringLe);
    SortBySorted(Keys(q.schedule), StringLe);
    SortedUnique(a, b, StringLe);
  }

  // ---------------------------------------------------------------------
  // First result per signature

  predicate HasSignature(rs: seq<ScheduleResult>, sig: ScheduleResult -> string, key: string) {
    exists k :: 0 <= k < |rs| && sig(rs[k]) == key
  }

  /** The results whose signature under `sig` has not been seen before, in order. */
  function FirstBySignature(rs: seq<ScheduleResult>, sig: ScheduleResult -> string): seq<ScheduleResult> {
    if |rs| == 0 then []
    else
      var kept, last := FirstBySignature(rs[..|rs| - 1], sig), rs[|rs| - 1];
      if HasSignature(kept, sig, sig(last)) then kept else kept + [last]
  }

  /** The kept results have distinct signatures, every signature of the input
      is kept, and each kept result is the first of its signature in the input. */
  lemma {:induction false} FirstBySignatureFacts(rs: seq<ScheduleResult>, sig: ScheduleResult -> string)
    ensures forall i, j :: 0 <= i < j < |FirstBySignature(rs, sig)| ==>
      sig(FirstBySignature(rs, sig)[i]) != sig(FirstBySignature(rs, sig)[j])
    ensures forall key :: HasSignature(FirstBySignature(rs, sig), sig, key) <==> HasSignature(rs, sig, key)
    ensures forall k :: 0 <= k < |FirstBySignature(rs, sig)| ==> FirstOfSignature(rs, sig, FirstBySignature(rs, sig)[k])
  {
    if |rs| > 0 {
      var init, last := rs[..|rs| - 1], rs[|rs| - 1];
      FirstBySignatureFacts(init, sig);
      var prev := FirstBySignature(init, sig);
      var kept := FirstBySignature(rs, sig);
      InitLast(rs);
      HasSignatureSnoc(init, sig, last);
      if !HasSignature(prev, sig, sig(last)) {
        HasSignatureSnoc(prev, sig, last);
      }
      forall k | 0 <= k < |kept| ensures FirstOfSignature(rs, sig, kept[k]) {
        if k < |prev| {
          assert kept[k] == prev[k];
          FirstOfSignatureSnoc(init, sig, last, prev[k]);
        } else {
          LastIsFirstOfSignature(init, sig, last);
        }
      }
    }
  }

  /** `r` occurs in `rs` at a position before which no result has its signature. */
  predicate FirstOfSignature(rs: seq<ScheduleResult>, sig: ScheduleResult -> string, r: ScheduleResult) {
    exists p :: 0 <= p < |rs| && rs[p] == r && forall q :: 0 <= q < p ==> sig(rs[q]) != sig(r)
  }

  lemma HasSignatureSnoc(rs: seq<ScheduleResult>, sig: ScheduleResult -> string, r: ScheduleResult)
    ensures forall key :: HasSignature(rs + [r], sig, key) <==> HasSignature(rs, sig, key) || sig(r) == key
  {
    var t := rs + [r];
    forall key ensures HasSignature(t, sig, key) <==> HasSignature(rs, sig, key) || sig(r) == key {
      if HasSignature(rs, sig, key) {
        var k :| 0 <= k < |rs| && sig(rs[k]) == key;
        assert sig(t[k]) == key;
      }
      if sig(r) == key {
        assert sig(t[|rs|]) == key;
      }
      if HasSignature(t, sig, key) && sig(r) != key {
        var k :| 0 <= k < |t| && sig(t[k]) == key;
        assert sig(rs[k]) == key;
      }
    }
  }

  lemma FirstOfSignatureSnoc(rs: seq<ScheduleResult>, sig: ScheduleResult -> string, last: ScheduleResult, r: ScheduleResult)
    requires FirstOfSignature(rs, sig, r)
    ensures FirstOfSignature(rs + [last], sig, r)
  {
    var p :| 0 <= p < |rs| && rs[p] == r && forall q :: 0 <= q < p ==> sig(rs[q]) != sig(r);
    var t := rs + [last];
    assert t[p] == r;
    assert forall q :: 0 <= q < p ==> t[q] == rs[q];
  }

  lemma LastIsFirstOfSignature(rs: seq<ScheduleResult>, sig: ScheduleResult -> string, last: ScheduleResult)
    requires !HasSignature(rs, sig, sig(last))
    ensures FirstOfSignature(rs + [last], sig, last)
  {
    var t := rs + [last];
    assert t[|rs|] == last;
    forall q | 0 <= q < |rs| ensures sig(t[q]) != sig(last) {
      assert t[q] == rs[q];
    }
  }

  /** The kept results are taken from the input in order. */
  lemma {:induction false} FirstBySignatureSorted(rs: seq<ScheduleResult>, sig: ScheduleResult -> string, le: (ScheduleResult, ScheduleResult) -> bool)
    requires Sorted(rs, le)
    ensures Sorted(FirstBySignature(rs, sig), le)
    ensures forall k :: 0 <= k < |FirstBySignature(rs, sig)| ==> FirstBySignature(rs, sig)[k] in rs
  {
    if |rs| > 0 {
      var init, last := rs[..|rs| - 1], rs[|rs| - 1];
      FirstBySignatureSorted(init, sig, le);
      var prev := FirstBySignature(init, sig);
      forall k | 0 <= k < |prev| ensures le(prev[k], last) && prev[k] in rs {
        var p :| 0 <= p < |init| && init[p] == prev[k];
        assert rs[p] == prev[k];
      }
    }
  }

  /** Keeping the first results per signature of a prefix gives a prefix. */
  lemma {:induction false} FirstBySignaturePrefix(rs: seq<ScheduleResult>, sig: ScheduleResult -> string, n: nat)
    requires n <= |rs|
    ensures |FirstBySignature(rs[..n], sig)| <= |FirstBySignature(rs, sig)|
    ensures FirstBySignature(rs[..n], sig) == FirstBySignature(rs, sig)[..|FirstBySignature(rs[..n], sig)|]
    decreases |rs|
  {
    if n < |rs| {
      var init := rs[..|rs| - 1];
      assert init[..n] == rs[..n];
      FirstBySignaturePrefix(init, sig, n);
    } else {
      assert rs[..n] == rs;
    }
  }

  /** Once ten results are kept from a prefix, they are the first ten kept from the whole. */
  lemma TakeOfPrefix(rs: seq<ScheduleResult>, sig: ScheduleResult -> string, n: nat)
    requires n <= |rs| && |FirstBySignature(rs[..n], sig)| == ShortlistSize
    ensures FirstBySignature(rs[..n], sig) == Take(FirstBySignature(rs, sig), ShortlistSize)
  {
    FirstBySignaturePrefix(rs, sig, n);
  }

  /** Recording the signature of a kept result keeps the seen set in step. */
  lemma SeenStep(seen: set<string>, kept: seq<ScheduleResult>, sig: ScheduleResult -> string, r: ScheduleResult)
    requires forall key :: key in seen <==> HasSignature(kept, sig, key)
    ensures forall key :: key in seen + {sig(r)} <==> HasSignature(kept + [r], sig, key)
  {
    HasSignatureSnoc(kept, sig, r);
  }

  /** One more result is kept exactly when its signature is new. */
  lemma FirstBySignatureStep(rs: seq<ScheduleResult>, sig: ScheduleResult -> string, n: nat)
    requires n < |rs|
    ensures HasSignature(FirstBySignature(rs[..n], sig), sig, sig(rs[n])) ==>
      FirstBySignature(rs[..n + 1], sig) == FirstBySignature(rs[..n], sig)
    ensures !HasSignature(FirstBySignature(rs[..n], sig), sig, sig(rs[n])) ==>
      FirstBySignature(rs[..n + 1], sig) == FirstBySignature(rs[..n], sig) + [rs[n]]
  {
    assert rs[..n + 1][..n] == rs[..n];
  }

  /** The loop with a set of seen signatures and an early exit at ten results. */
  method KeepDistinct(candidates: seq<ScheduleResult>) returns (uniqueCandidates: seq<ScheduleResult>)
    ensures uniqueCandidates == Take(FirstBySignature(candidates, Signature), ShortlistSize)
  {
    uniqueCandidates := [];
    var seenSignatures: set<string> := {};
    var n := 0;
    while n < |candidates|
      invariant n <= |candidates|
      invariant uniqueCandidates == FirstBySignature(candidates[..n], Signature)
      invariant |uniqueCandidates| < ShortlistSize
      invariant forall key :: key in seenSignatures <==> HasSignature(uniqueCandidates, Signature, key)
    {
      var cand := candidates[n];
      var signature := Signature(cand);
      FirstBySignatureStep(candidates, Signature, n);
      if signature !in seenSignatures {
        SeenStep(seenSignatures, uniqueCandidates, Signature, cand);
        seenSignatures := seenSignatures + {signature};
        uniqueCandidates := uniqueCandidates + [cand];
      }
      n := n + 1;
      if |uniqueCandidates| >= ShortlistSize {
        TakeOfPrefix(candidates, Signature, n);
        return;
      }
    }
    assert candidates[..n] == candidates;
  }

  // ---------------------------------------------------------------------
  // The whole search

  function AttemptsOf(orders: seq<seq<SubjectStats>>, duration: Duration): seq<ScheduleResult> {
    if |orders| == 0 then []
    else AttemptsOf(orders[..|orders| - 1], duration) + [AttemptResult(orders[|orders| - 1], duration)]
  }

  /** The size order, the conflict order, then each shuffle, one attempt each. */
  function Candidates(processed: seq<SubjectStats>, duration: Duration, shuffles: seq<seq<SubjectStats>>): seq<ScheduleResult> {
    [AttemptResult(ByCount(processed), duration), AttemptResult(ByConflict(processed), duration)] + AttemptsOf(shuffles, duration)
  }

  /** All candidates, best first. */
  function Ranked(subjectStats: seq<SubjectStats>, duration: Duration, shuffles: seq<seq<SubjectStats>>): seq<ScheduleResult> {
    SortBy(Candidates(GroupMath(subjectStats), duration, shuffles), RankLe)
  }

  function Shortlist(subjectStats: seq<SubjectStats>, duration: Duration, shuffles: seq<seq<SubjectStats>>): seq<ScheduleResult> {
    Take(FirstBySignature(Ranked(subjectStats, duration, shuffles), Signature), ShortlistSize)
  }

  /** A result that respects the hard constraints and accounts for every
      subject exactly once: its name is scheduled or listed as unassignable. */
  ghost predicate Sound(r: ScheduleResult, processed: seq<SubjectStats>, duration: Duration) {
    HardConstraints(r.schedule, duration) && |r.schedule| + |r.unassignable| == |processed| &&
    multiset(ExamNames(r.schedule)) + multiset(r.unassignable) == multiset(SubjectNames(processed))
  }

  lemma AttemptSound(order: seq<SubjectStats>, processed: seq<SubjectStats>, duration: Duration)
    requires multiset(order) == multiset(processed)
    ensures Sound(AttemptResult(order, duration), processed, duration)
  {
    AttemptRespectsConstraints(order, duration);
    AttemptCoverage(order, duration);
    SubjectNamesPermutation(order, processed);
    assert |order| == |multiset(order)| == |multiset(processed)| == |processed|;
  }

  lemma {:induction false} AttemptsOfSound(orders: seq<seq<SubjectStats>>, processed: seq<SubjectStats>, duration: Duration)
    requires forall k :: 0 <= k < |orders| ==> multiset(orders[k]) == multiset(processed)
    ensures forall k :: 0 <= k < |AttemptsOf(orders, duration)| ==> Sound(AttemptsOf(orders, duration)[k], processed, duration)
    ensures |AttemptsOf(orders, duration)| == |orders|
  {
    if |orders| > 0 {
      AttemptsOfSound(orders[..|orders| - 1], processed, duration);
      AttemptSound(orders[|orders| - 1], processed, duration);
    }
  }

  lemma CandidatesSound(processed: seq<SubjectStats>, duration: Duration, shuffles: seq<seq<SubjectStats>>)
    requires forall k :: 0 <= k < |shuffles| ==> multiset(shuffles[k]) == multiset(processed)
    ensures forall c :: c in Candidates(processed, duration, shuffles) ==> Sound(c, processed, duration)
  {
    ByCountOrdered(processed);
    ByConflictOrdered(processed);
    AttemptSound(ByCount(processed), processed, duration);
    AttemptSound(ByConflict(processed), processed, duration);
    AttemptsOfSound(shuffles, processed, duration);
    var first := [AttemptResult(ByCount(processed), duration), AttemptResult(ByConflict(processed), duration)];
    var rest := AttemptsOf(shuffles, duration);
    forall c | c in first + rest ensures Sound(c, processed, duration) {
      if c !in first {
        assert c in rest;
      }
    }
  }

  /** The candidates, once ranked, are sorted best first; there are at least two. */
  lemma RankedSorted(subjectStats: seq<SubjectStats>, duration: Duration, shuffles: seq<seq<SubjectStats>>)
    ensures |Ranked(subjectStats, duration, shuffles)| >= 2
    ensures Sorted(Ranked(subjectStats, duration, shuffles), RankLe)
  {
    RankLeIsPreorder();
    SortBySorted(Candidates(GroupMath(subjectStats), duration, shuffles), RankLe);
  }

  /** Keeping the first of each signature of a non-empty ranked sequence, at
      most ten of them, keeps at least one and keeps the ranking. */
  lemma ShortlistOfRanked(ranked: seq<ScheduleResult>)
    requires |ranked| > 0 && Sorted(ranked, RankLe)
    ensures var r := Take(FirstBySignature(ranked, Signature), ShortlistSize);
      1 <= |r| <= ShortlistSize && Sorted(r, RankLe)
  {
    var kept := FirstBySignature(ranked, Signature);
    FirstBySignatureSorted(ranked, Signature, RankLe);
    FirstBySignatureFacts(ranked, Signature);
    assert HasSignature(ranked, Signature, Signature(ranked[0]));
    assert |kept| >= 1;
  }

  /** Between one and ten results, ranked best first. */
  lemma ShortlistRanked(subjectStats: seq<SubjectStats>, duration: Duration, shuffles: seq<seq<SubjectStats>>)
    ensures 1 <= |Shortlist(subjectStats, duration, shuffles)| <= ShortlistSize
    ensures Sorted(Shortlist(subjectStats, duration, shuffles), RankLe)
  {
    RankedSorted(subjectStats, duration, shuffles);
    ShortlistOfRanked(Ranked(subjectStats, duration, shuffles));
  }

  /** No two results share a signature, and each result is the first of its
      signature in ranked order. */
  lemma ShortlistDistinct(subjectStats: seq<SubjectStats>, duration: Duration, shuffles: seq<seq<SubjectStats>>)
    ensures forall i, j :: 0 <= i < j < |Shortlist(subjectStats, duration, shuffles)| ==>
      Signature(Shortlist(subjectStats, duration, shuffles)[i]) != Signature(Shortlist(subjectStats, duration, shuffles)[j])
    ensures forall k :: 0 <= k < |Shortlist(subjectStats, duration, shuffles)| ==>
      FirstOfSignature(Ranked(subjectStats, duration, shuffles), Signature, Shortlist(subjectStats, duration, shuffles)[k])
  {
    var ranked := Ranked(subjectStats, duration, shuffles);
    var kept := FirstBySignature(ranked, Signature);
    var r := Shortlist(subjectStats, duration, shuffles);
    FirstBySignatureFacts(ranked, Signature);
    forall i, j | 0 <= i < j < |r| ensures Signature(r[i]) != Signature(r[j]) {
      assert r[i] == kept[i] && r[j] == kept[j];
    }
    forall k | 0 <= k < |r| ensures FirstOfSignature(ranked, Signature, r[k]) {
      assert r[k] == kept[k];
    }
  }

  /** Every result respects the hard constraints and accounts for every merged subject. */
  lemma ShortlistSound(subjectStats: seq<SubjectStats>, duration: Duration, shuffles: seq<seq<SubjectStats>>)
    requires forall k :: 0 <= k < |shuffles| ==> multiset(shuffles[k]) == multiset(GroupMath(subjectStats))
    ensures forall k :: 0 <= k < |Shortlist(subjectStats, duration, shuffles)| ==>
      Sound(Shortlist(subjectStats, duration, shuffles)[k], GroupMath(subjectStats), duration)
  {
    var processed := GroupMath(subjectStats);
    var candidates := Candidates(processed, duration, shuffles);
    var ranked := Ranked(subjectStats, duration, shuffles);
    var kept := FirstBySignature(ranked, Signature);
    var results := Shortlist(subjectStats, duration, shuffles);
    RankLeIsPreorder();
    SortBySorted(candidates, RankLe);
    FirstBySignatureSorted(ranked, Signature, RankLe);
    CandidatesSound(processed, duration, shuffles);
    forall k | 0 <= k < |results| ensures Sound(results[k], processed, duration) {
      assert results[k] == kept[k];
      assert kept[k] in ranked;
      assert kept[k] in multiset(candidates);
    }
  }

  /** The two fixed orders and each shuffle, one attempt each. */
  method CollectCandidates(processedStats: seq<SubjectStats>, duration: Duration, shuffles: seq<seq<SubjectStats>>)
    returns (candidates: seq<ScheduleResult>)
    ensures candidates == Candidates(processedStats, duration, shuffles)
  {
    var byCount := SortBy(processedStats, CountDescLe);
    var conflictScores := ConflictScores(processedStats);
    var byConflict := SortBy(processedStats, ConflictLe(conflictScores));

    assert byCount == ByCount(processedStats);
    assert byConflict == ByConflict(processedStats);
    var first := RunSchedulerAttempt(byCount, duration);
    var second := RunSchedulerAttempt(byConflict, duration);
    candidates := [first, second];
    var restarts := RunShuffles(shuffles, duration);
    candidates := candidates + restarts;
  }

  /** The restart loop: one attempt per shuffled order. */
  method RunShuffles(shuffles: seq<seq<SubjectStats>>, duration: Duration) returns (attempts: seq<ScheduleResult>)
    ensures attempts == AttemptsOf(shuffles, duration)
  {
    attempts := [];
    for i := 0 to |shuffles|
      invariant attempts == AttemptsOf(shuffles[..i], duration)
    {
      var shuffled := shuffles[i];
      var attempt := RunSchedulerAttempt(shuffled, duration);
      assert shuffles[..i + 1][..i] == shuffles[..i];
      attempts := attempts + [attempt];
    }
    assert shuffles[..|shuffles|] == shuffles;
  }

  /** The search as the source runs it, with the shuffled orders supplied by
      the caller in place of the random restarts. */
  method GenerateSchedule(subjectStats: seq<SubjectStats>, duration: Duration, shuffles: seq<seq<SubjectStats>>)
    returns (results: seq<ScheduleResult>)
    requires forall k :: 0 <= k < |shuffles| ==> multiset(shuffles[k]) == multiset(GroupMath(subjectStats))
    ensures results == Shortlist(subjectStats, duration, shuffles)
    ensures 1 <= |results| <= ShortlistSize && Sorted(results, RankLe)
    ensures forall i, j :: 0 <= i < j < |results| ==> Signature(results[i]) != Signature(results[j])
    ensures forall k :: 0 <= k < |results| ==> Sound(results[k], GroupMath(subjectStats), duration)
  {
    var processedStats := GroupMath(subjectStats);
    var candidates := CollectCandidates(processedStats, duration, shuffles);
    candidates := SortBy(candidates, RankLe);
    results := KeepDistinct(candidates);
    ShortlistRanked(subjectStats, duration, shuffles);
    ShortlistDistinct(subjectStats, duration, shuffles);
    ShortlistSound(subjectStats, duration, shuffles);
  }
}
