/** Best-match equation scoring (score_equations in
    fastapi-backend/core/evaluators.py). The embedding service and the dot
    product of two embeddings are one oracle: `sim` gives the similarity of two
    formatted "<equation>. Description: <description>" strings. */
module Evaluators {
  import opened Records

  /** A best similarity at or above this value counts as a match. */
  const MatchThreshold: real := 0.90

  const DescriptionSeparator: string := ". Description: "

  type Similarity = (string, string) -> real

  /** The fields score_equations reads from every record (a KeyError otherwise). */
  predicate HasFields(rec: Record) {
    EquationKey in rec && DescriptionKey in rec
  }

  predicate AllHaveFields(recs: seq<Record>) {
    forall i :: 0 <= i < |recs| ==> HasFields(recs[i])
  }

  /** The text that is embedded for a record. */
  function Query(rec: Record): string
    requires HasFields(rec)
  {
    rec[EquationKey] + DescriptionSeparator + rec[DescriptionKey]
  }

  // ----------------------------------------------------------- distinct equations

  /** master_unique_extractions: the set of master equation strings. */
  function UniqueEquations(master: seq<Record>): set<string>
    requires AllHaveFields(master)
    decreases |master|
  {
    if master == [] then {}
    else
      var init := master[..|master| - 1];
      assert forall i :: 0 <= i < |init| ==> init[i] == master[i];
      UniqueEquations(init) + {master[|master| - 1][EquationKey]}
  }

  /** The distinct equations are exactly the equation strings of the master records. */
  lemma {:induction false} UniqueEquationsMembers(master: seq<Record>, x: string)
    requires AllHaveFields(master)
    ensures x in UniqueEquations(master) <==> exists i :: 0 <= i < |master| && master[i][EquationKey] == x
    decreases |master|
  {
    if master != [] {
      var init := master[..|master| - 1];
      assert forall i :: 0 <= i < |init| ==> init[i] == master[i];
      UniqueEquationsMembers(init, x);
      if exists i :: 0 <= i < |master| && master[i][EquationKey] == x {
        var i :| 0 <= i < |master| && master[i][EquationKey] == x;
        if i < |init| { assert init[i] == master[i]; }
      }
    }
  }

  /** Repeating a master equation does not change the denominator. */
  lemma DuplicateDoesNotInflate(master: seq<Record>, k: nat)
    requires AllHaveFields(master) && k < |master|
    ensures UniqueEquations(master + [master[k]]) == UniqueEquations(master)
  {
    var longer := master + [master[k]];
    assert AllHaveFields(longer) by {
      forall i | 0 <= i < |longer| ensures HasFields(longer[i]) {
        if i < |master| { assert longer[i] == master[i]; }
      }
    }
    forall x ensures x in UniqueEquations(longer) <==> x in UniqueEquations(master) {
      UniqueEquationsMembers(longer, x);
      UniqueEquationsMembers(master, x);
      if x in UniqueEquations(longer) {
        var i :| 0 <= i < |longer| && longer[i][EquationKey] == x;
        if i < |master| { assert longer[i] == master[i]; } else { assert longer[i] == master[k]; }
      }
      if x in UniqueEquations(master) {
        var i :| 0 <= i < |master| && master[i][EquationKey] == x;
        assert longer[i] == master[i];
      }
    }
  }

  // ------------------------------------------------------------------ best match

  /** The state of the inner scan: the best similarity so far and the position
      of the student record that gave it (None while nothing beat 0). */
  datatype Best = Best(score: real, index: Option<nat>)

  /** The inner loop of score_equations over the student records: start from 0
      and take a candidate only when it is strictly better. */
  function BestMatch(query: string, students: seq<Record>, sim: Similarity): (b: Best)
    requires AllHaveFields(students)
    ensures b.index.Some? ==> b.index.value < |students|
    decreases |students|
  {
    if students == [] then Best(0.0, None)
    else
      var last := |students| - 1;
      var init := students[..last];
      assert forall j :: 0 <= j < last ==> init[j] == students[j];
      var prev := BestMatch(query, init, sim);
      var s := sim(query, Query(students[last]));
      if s > prev.score then Best(s, Some(last)) else prev
  }

  /** The best similarity is the maximum of 0 and all similarities, attained by
      the FIRST student record that reaches it; no candidate is chosen exactly
      when no similarity is positive (in particular when there are no student
      records). */
  lemma {:induction false} BestMatchIsFirstMaximum(query: string, students: seq<Record>, sim: Similarity)
    requires AllHaveFields(students)
    ensures var b := BestMatch(query, students, sim);
      && b.score >= 0.0
      && (forall j :: 0 <= j < |students| ==> sim(query, Query(students[j])) <= b.score)
      && (b.index.None? <==> forall j :: 0 <= j < |students| ==> sim(query, Query(students[j])) <= 0.0)
      && (b.index.None? ==> b.score == 0.0)
      && (b.index.Some? ==>
            && b.score > 0.0
            && sim(query, Query(students[b.index.value])) == b.score
            && forall j :: 0 <= j < b.index.value ==> sim(query, Query(students[j])) < b.score)
    decreases |students|
  {
    if students != [] {
      var last := |students| - 1;
      var init := students[..last];
      assert forall j :: 0 <= j < last ==> init[j] == students[j];
      BestMatchIsFirstMaximum(query, init, sim);
    }
  }

  // ---------------------------------------------------------------- master scan

  datatype FeedbackEntry = FeedbackEntry(
    equation: string,
    description: string,
    bestSimilarity: real,
    closestMatch: Option<string>)

  predicate IsMatched(m: Record, students: seq<Record>, sim: Similarity)
    requires HasFields(m) && AllHaveFields(students)
  {
    BestMatch(Query(m), students, sim).score >= MatchThreshold
  }

  /** The feedback entry for an unmatched master record. */
  function EntryFor(m: Record, students: seq<Record>, sim: Similarity): FeedbackEntry
    requires HasFields(m) && AllHaveFields(students)
  {
    var b := BestMatch(Query(m), students, sim);
    FeedbackEntry(m[EquationKey], m[DescriptionKey], b.score,
                  if b.index.Some? then Some(students[b.index.value][EquationKey]) else None)
  }

  /** A feedback entry carries the master record's own equation and description
      and its best similarity; it names no closest match exactly when no student
      record has positive similarity. */
  lemma EntryForMeaning(m: Record, students: seq<Record>, sim: Similarity)
    requires HasFields(m) && AllHaveFields(students)
    ensures var e := EntryFor(m, students, sim);
      && e.equation == m[EquationKey] && e.description == m[DescriptionKey]
      && e.bestSimilarity == BestMatch(Query(m), students, sim).score
      && (e.closestMatch.None? <==> forall j :: 0 <= j < |students| ==> sim(Query(m), Query(students[j])) <= 0.0)
      && (e.closestMatch.Some? ==>
            exists j :: 0 <= j < |students|
              && e.closestMatch.value == students[j][EquationKey]
              && sim(Query(m), Query(students[j])) == e.bestSimilarity
              && forall k :: 0 <= k < j ==> sim(Query(m), Query(students[k])) < e.bestSimilarity)
  {
    var b := BestMatch(Query(m), students, sim);
    BestMatchIsFirstMaximum(Query(m), students, sim);
    if b.index.Some? {
      var j := b.index.value;
      assert students[j][EquationKey] == EntryFor(m, students, sim).closestMatch.value;
    }
  }

  /** The running state of the outer loop: matched equation strings and the feedback so far. */
  datatype Tally = Tally(matched: set<string>, feedback: seq<FeedbackEntry>)

  /** The outer loop of score_equations over the master records, in order. */
  function MatchAll(master: seq<Record>, students: seq<Record>, sim: Similarity): Tally
    requires AllHaveFields(master) && AllHaveFields(students)
    decreases |master|
  {
    if master == [] then Tally({}, [])
    else
      var last := |master| - 1;
      var init := master[..last];
      assert forall i :: 0 <= i < last ==> init[i] == master[i];
      var t := MatchAll(init, students, sim);
      var m := master[last];
      if IsMatched(m, students, sim) then Tally(t.matched + {m[EquationKey]}, t.feedback)
      else Tally(t.matched, t.feedback + [EntryFor(m, students, sim)])
  }

  /** An equation string is in the matched set exactly when some master record
      carrying it reaches the threshold. */
  lemma {:induction false} MatchedIffSomeRecordMatches(master: seq<Record>, students: seq<Record>, sim: Similarity, x: string)
    requires AllHaveFields(master) && AllHaveFields(students)
    ensures x in MatchAll(master, students, sim).matched <==>
              exists i :: 0 <= i < |master| && master[i][EquationKey] == x && IsMatched(master[i], students, sim)
    decreases |master|
  {
    if master != [] {
      var last := |master| - 1;
      var init := master[..last];
      assert forall i :: 0 <= i < last ==> init[i] == master[i];
      MatchedIffSomeRecordMatches(init, students, sim, x);
      if exists i :: 0 <= i < |master| && master[i][EquationKey] == x && IsMatched(master[i], students, sim) {
        var i :| 0 <= i < |master| && master[i][EquationKey] == x && IsMatched(master[i], students, sim);
        if i < last { assert init[i] == master[i]; }
      }
    }
  }

  /** matched_equations only ever receives master equation strings. */
  lemma MatchedAreMasterEquations(master: seq<Record>, students: seq<Record>, sim: Similarity)
    requires AllHaveFields(master) && AllHaveFields(students)
    ensures MatchAll(master, students, sim).matched <= UniqueEquations(master)
    ensures |MatchAll(master, students, sim).matched| <= |UniqueEquations(master)|
  {
    var matched := MatchAll(master, students, sim).matched;
    var unique := UniqueEquations(master);
    forall x | x in matched ensures x in unique {
      MatchedIffSomeRecordMatches(master, students, sim, x);
      UniqueEquationsMembers(master, x);
    }
    assert unique == matched + (unique - matched);
  }

  /** Reference definition of the feedback matrix, read front to back: one entry
      per unmatched master record, in master order. */
  function Unmatched(master: seq<Record>, students: seq<Record>, sim: Similarity): seq<FeedbackEntry>
    requires AllHaveFields(master) && AllHaveFields(students)
  {
    if master == [] then []
    else
      (if IsMatched(master[0], students, sim) then [] else [EntryFor(master[0], students, sim)])
      + Unmatched(master[1..], students, sim)
  }

  lemma {:induction false} UnmatchedAppend(master: seq<Record>, m: Record, students: seq<Record>, sim: Similarity)
    requires AllHaveFields(master) && HasFields(m) && AllHaveFields(students)
    ensures AllHaveFields(master + [m])
    ensures Unmatched(master + [m], students, sim) ==
              Unmatched(master, students, sim)
              + (if IsMatched(m, students, sim) then [] else [EntryFor(m, students, sim)])
    decreases |master|
  {
    var longer := master + [m];
    assert forall i :: 0 <= i < |master| ==> longer[i] == master[i];
    assert longer[|master|] == m;
    if master == [] {
      assert longer == [m];
      assert longer[1..] == [];
    } else {
      var rest := master[1..];
      assert forall i :: 0 <= i < |rest| ==> rest[i] == master[i + 1];
      assert longer[0] == master[0];
      assert longer[1..] == rest + [m];
      UnmatchedAppend(rest, m, students, sim);
    }
  }

  /** The feedback matrix lists the unmatched master records, one entry each, in master order. */
  lemma {:induction false} FeedbackInMasterOrder(master: seq<Record>, students: seq<Record>, sim: Similarity)
    requires AllHaveFields(master) && AllHaveFields(students)
    ensures MatchAll(master, students, sim).feedback == Unmatched(master, students, sim)
    decreases |master|
  {
    if master != [] {
      var last := |master| - 1;
      var init := master[..last];
      assert forall i :: 0 <= i < last ==> init[i] == master[i];
      FeedbackInMasterOrder(init, students, sim);
      UnmatchedAppend(init, master[last], students, sim);
      assert init + [master[last]] == master;
    }
  }

  /** With no student records nothing matches: every master record gets an
      entry with similarity 0 and no closest match. */
  lemma {:induction false} NoStudentsAllUnmatched(master: seq<Record>, sim: Similarity)
    requires AllHaveFields(master)
    ensures |Unmatched(master, [], sim)| == |master|
    ensures forall i :: 0 <= i < |master| ==>
              Unmatched(master, [], sim)[i] ==
                FeedbackEntry(master[i][EquationKey], master[i][DescriptionKey], 0.0, None)
    decreases |master|
  {
    if master != [] {
      assert forall i :: 0 <= i < |master| - 1 ==> master[1..][i] == master[i + 1];
      NoStudentsAllUnmatched(master[1..], sim);
    }
  }

  // ------------------------------------------------------------------ the score

  datatype MatchResult = MatchResult(
    score: nat,
    totalMasterEquations: nat,
    finalEquationScore: real,
    feedbackMatrix: seq<FeedbackEntry>)

  /** len(matched) / total, defined as 0 when there is nothing to divide by. */
  function EquationScore(matched: nat, total: nat): (r: real)
    ensures total == 0 ==> r == 0.0
    ensures total > 0 ==> r * total as real == matched as real
    ensures matched <= total ==> 0.0 <= r <= 1.0
  {
    if total > 0 then matched as real / total as real else 0.0
  }

  /** The distinct master equations carried by at least one master record whose
      best similarity reaches the threshold. */
  function MatchedEquations(master: seq<Record>, students: seq<Record>, sim: Similarity): set<string>
    requires AllHaveFields(master) && AllHaveFields(students)
  {
    set x | x in UniqueEquations(master)
              && exists i :: 0 <= i < |master| && master[i][EquationKey] == x && IsMatched(master[i], students, sim)
  }

  /** The scan's matched set is exactly that set. */
  lemma MatchAllMatchesMatchedEquations(master: seq<Record>, students: seq<Record>, sim: Similarity)
    requires AllHaveFields(master) && AllHaveFields(students)
    ensures MatchAll(master, students, sim).matched == MatchedEquations(master, students, sim)
  {
    forall x ensures x in MatchAll(master, students, sim).matched <==> x in MatchedEquations(master, students, sim) {
      MatchedIffSomeRecordMatches(master, students, sim, x);
      UniqueEquationsMembers(master, x);
    }
  }

  /** What score_equations returns, or the KeyError it raises when a master or
      student record lacks "equation" or "description". */
  function ScoreEquationsSpec(master: seq<Record>, students: seq<Record>, sim: Similarity)
    : (r: Result<MatchResult, Error>)
    ensures r.Failure? <==> !AllHaveFields(master) || !AllHaveFields(students)
    ensures r.Failure? ==> r.error == MissingField
    ensures r.Success? ==>
              && r.value.totalMasterEquations == |UniqueEquations(master)|
              && r.value.score <= r.value.totalMasterEquations
              && 0.0 <= r.value.finalEquationScore <= 1.0
              && (r.value.totalMasterEquations == 0 ==> r.value.finalEquationScore == 0.0)
              && r.value.feedbackMatrix == Unmatched(master, students, sim)
    ensures r.Success? ==> r.value.score == |MatchedEquations(master, students, sim)|
    ensures r.Success? ==> r.value.finalEquationScore == EquationScore(r.value.score, r.value.totalMasterEquations)
  {
    if !AllHaveFields(master) || !AllHaveFields(students) then Failure(MissingField)
    else
      var t := MatchAll(master, students, sim);
      var total := |UniqueEquations(master)|;
      MatchedAreMasterEquations(master, students, sim);
      MatchAllMatchesMatchedEquations(master, students, sim);
      FeedbackInMasterOrder(master, students, sim);
      Success(MatchResult(|t.matched|, total, EquationScore(|t.matched|, total), t.feedback))
  }

  /** A single master and a single student record match exactly when their
      similarity is at least 0.90 (so exactly 0.90 matches). */
  lemma SinglePairThreshold(m: Record, s: Record, sim: Similarity)
    requires HasFields(m) && HasFields(s)
    ensures ScoreEquationsSpec([m], [s], sim).Success?
    ensures ScoreEquationsSpec([m], [s], sim).value.score ==
              if sim(Query(m), Query(s)) >= MatchThreshold then 1 else 0
  {
    var v := sim(Query(m), Query(s));
    assert [s][..0] == [];
    assert BestMatch(Query(m), [s], sim).score == if v > 0.0 then v else 0.0;
    assert IsMatched(m, [s], sim) <==> v >= MatchThreshold;
    assert [m][..0] == [];
    assert MatchAll([m], [s], sim).matched == if v >= MatchThreshold then {m[EquationKey]} else {};
  }

  /** The inner loop of score_equations: scan every student record, keeping
      the strictly greatest similarity seen, starting from 0. */
  method FindBestMatch(query: string, students: seq<Record>, sim: Similarity) returns (b: Best)
    requires AllHaveFields(students)
    ensures b == BestMatch(query, students, sim)
  {
    var bestScore: real := 0.0;
    var bestIndex: Option<nat> := None;
    for j := 0 to |students|
      invariant Best(bestScore, bestIndex) == BestMatch(query, students[..j], sim)
    {
      assert students[..j + 1][..j] == students[..j];
      var s := sim(query, Query(students[j]));
      if s > bestScore {
        bestScore, bestIndex := s, Some(j);
      }
    }
    assert students[..|students|] == students;
    return Best(bestScore, bestIndex);
  }

  /** The first loop of score_equations: collect the distinct master equations,
      raising a KeyError at the first record without "equation" or "description". */
  method CollectUniqueEquations(master: seq<Record>) returns (r: Result<set<string>, Error>)
    ensures r.Success? <==> AllHaveFields(master)
    ensures r.Success? ==> r.value == UniqueEquations(master)
    ensures r.Failure? ==> r.error == MissingField
  {
    var unique: set<string> := {};
    for i := 0 to |master|
      invariant AllHaveFields(master[..i])
      invariant unique == UniqueEquations(master[..i])
    {
      if !HasFields(master[i]) {
        return Failure(MissingField);
      }
      assert master[..i + 1][..i] == master[..i];
      unique := unique + {master[i][EquationKey]};
    }
    assert master[..|master|] == master;
    return Success(unique);
  }

  /** The second loop of score_equations: every student record is read for its
      "equation" and "description". */
  method CheckStudentFields(students: seq<Record>) returns (ok: bool)
    ensures ok == AllHaveFields(students)
  {
    for i := 0 to |students|
      invariant AllHaveFields(students[..i])
    {
      if !HasFields(students[i]) {
        return false;
      }
    }
    assert students[..|students|] == students;
    return true;
  }

  /** score_equations: the distinct master equations, the field check on the
      student records, then for each master record the best student match and
      either a recorded match or a feedback entry. */
  method ScoreEquations(master: seq<Record>, students: seq<Record>, sim: Similarity)
    returns (r: Result<MatchResult, Error>)
    ensures r == ScoreEquationsSpec(master, students, sim)
  {
    var unique := CollectUniqueEquations(master);
    if unique.Failure? {
      return Failure(MissingField);
    }
    var ok := CheckStudentFields(students);
    if !ok {
      return Failure(MissingField);
    }
    var matched: set<string> := {};
    var total := |unique.value|;
    var feedback: seq<FeedbackEntry> := [];
    for i := 0 to |master|
      invariant Tally(matched, feedback) == MatchAll(master[..i], students, sim)
    {
      assert master[..i + 1][..i] == master[..i];
      var m := master[i];
      var query := Query(m);
      var best := FindBestMatch(query, students, sim);
      var bestScore, bestIndex := best.score, best.index;
      if bestScore >= MatchThreshold {
        matched := matched + {m[EquationKey]};
      } else {
        var closest := if bestIndex.Some? then Some(students[bestIndex.value][EquationKey]) else None;
        feedback := feedback + [FeedbackEntry(m[EquationKey], m[DescriptionKey], bestScore, closest)];
      }
    }
    assert master[..|master|] == master;
    var finalScore := if total > 0 then |matched| as real / total as real else 0.0;
    r := Success(MatchResult(|matched|, total, finalScore, feedback));
  }
}
