/** Description substitution (replace_equations_with_descriptions in
    fastapi-backend/core/utils.py): every record's equation text is searched
    for in the answer, literally and ignoring case, and each occurrence is
    replaced by the record's natural-language description. Records are applied
    one after another, each on the text the previous one produced. */
module Utils {
  import opened Records
  import opened Text

  // ------------------------------------------------------ literal re.sub

  /** `pattern` occurs at position i of `text`, up to case. */
  predicate MatchesAt(text: string, i: nat, pattern: string) {
    i + |pattern| <= |text| && EqualIgnoringCase(text[i..i + |pattern|], pattern)
  }

  predicate Occurs(text: string, pattern: string) {
    exists i: nat :: i + |pattern| <= |text| && MatchesAt(text, i, pattern)
  }

  /** re.sub(re.escape(pattern), d, text, flags=re.IGNORECASE) for a non-empty
      pattern: scan left to right, replacing each non-overlapping match. */
  function ReplaceAll(text: string, pattern: string, d: string): string
    requires pattern != []
    decreases |text|
  {
    if |text| < |pattern| then text
    else if MatchesAt(text, 0, pattern) then d + ReplaceAll(text[|pattern|..], pattern, d)
    else [text[0]] + ReplaceAll(text[1..], pattern, d)
  }

  /** re.sub with an empty pattern: the empty string matches before every
      character and at the end, so `d` is inserted at each of those places. */
  function InsertEverywhere(text: string, d: string): (r: string)
    ensures |r| == |text| + (|text| + 1) * |d|
    ensures r[..|d|] == d && r[|r| - |d|..] == d
  {
    if text == [] then d
    else
      var rest := InsertEverywhere(text[1..], d);
      assert (|text| - 1 + 1) * |d| == |text| * |d|;
      d + [text[0]] + rest
  }

  /** At offset o, `r` holds `d` followed by the character c. */
  predicate BlockAt(r: string, o: nat, d: string, c: char) {
    o + |d| < |r| && r[o .. o + |d|] == d && r[o + |d|] == c
  }

  /** `r` is `d` and the first character of `text`, then the same layout for
      the rest of the text, closed by a final `d`. */
  predicate Interleaved(r: string, text: string, d: string)
    decreases |text|
  {
    if text == [] then r == d
    else |d| < |r| && r[..|d|] == d && r[|d|] == text[0] && Interleaved(r[|d| + 1..], text[1..], d)
  }

  lemma {:induction false} InsertEverywhereInterleaves(text: string, d: string)
    ensures Interleaved(InsertEverywhere(text, d), text, d)
    decreases |text|
  {
    if text != [] {
      var head := d + [text[0]];
      var rest := InsertEverywhere(text[1..], d);
      assert InsertEverywhere(text, d) == head + rest;
      InsertEverywhereInterleaves(text[1..], d);
      assert (head + rest)[..|d|] == d;
      assert (head + rest)[|d| + 1..] == rest;
    }
  }

  lemma {:induction false} InterleavedBlock(r: string, text: string, d: string, i: nat)
    requires Interleaved(r, text, d) && i < |text|
    ensures BlockAt(r, BlockOffset(i, |d| + 1), d, text[i])
    decreases i
  {
    if i > 0 {
      var rest := r[|d| + 1..];
      InterleavedBlock(rest, text[1..], d, i - 1);
      assert text[i] == text[1..][i - 1];
      SliceAfterPrefix(r[..|d| + 1], rest, BlockOffset(i - 1, |d| + 1), |d|);
      assert r == r[..|d| + 1] + rest;
    }
  }

  /** In an interleaved string, block i sits at offset i * (|d| + 1). */
  lemma InterleavedLayout(r: string, text: string, d: string)
    requires Interleaved(r, text, d)
    ensures forall i :: 0 <= i < |text| ==> BlockAt(r, i * (|d| + 1), d, text[i])
  {
    forall i | 0 <= i < |text|
      ensures BlockAt(r, i * (|d| + 1), d, text[i])
    {
      InterleavedBlock(r, text, d, i);
      BlockOffsetIsProduct(i, |d| + 1);
    }
  }

  /** The layout of the result: block i, at offset i * (|d| + 1), is `d`
      followed by the i-th character of the text (and a final `d` closes it). */
  lemma InsertEverywhereLayout(text: string, d: string)
    ensures forall i :: 0 <= i < |text| ==> BlockAt(InsertEverywhere(text, d), i * (|d| + 1), d, text[i])
  {
    var r := InsertEverywhere(text, d);
    InsertEverywhereInterleaves(text, d);
    InterleavedLayout(r, text, d);
  }

  /** i blocks of width w, laid end to end. */
  function BlockOffset(i: nat, w: nat): nat {
    if i == 0 then 0 else BlockOffset(i - 1, w) + w
  }

  lemma {:induction false} BlockOffsetIsProduct(i: nat, w: nat)
    ensures BlockOffset(i, w) == i * w
  {
    if i > 0 {
      BlockOffsetIsProduct(i - 1, w);
      MultiplyStep(i, w);
    }
  }

  lemma SliceAfterPrefix(a: string, b: string, p: nat, n: nat)
    requires p + n < |b|
    ensures (a + b)[|a| + p .. |a| + p + n] == b[p .. p + n]
    ensures (a + b)[|a| + p + n] == b[p + n]
  {
  }

  lemma MultiplyStep(i: int, w: int)
    ensures i * w == (i - 1) * w + w
  {
  }

  /** re.sub(re.escape(pattern), d, text, flags=re.IGNORECASE) */
  function Substitute(text: string, pattern: string, d: string): string {
    if pattern == [] then InsertEverywhere(text, d) else ReplaceAll(text, pattern, d)
  }

  /** A text in which the pattern does not occur is returned unchanged. */
  lemma {:induction false} SubstituteNoOccurrence(text: string, pattern: string, d: string)
    requires !Occurs(text, pattern)
    ensures pattern != [] && Substitute(text, pattern, d) == text
    decreases |text|
  {
    assert pattern != [] by {
      assert MatchesAt(text, 0, []);
    }
    if |text| >= |pattern| {
      assert !MatchesAt(text, 0, pattern);
      var rest := text[1..];
      forall i: nat | i + |pattern| <= |rest| ensures !MatchesAt(rest, i, pattern) {
        assert rest[i..i + |pattern|] == text[i + 1..i + 1 + |pattern|];
        assert !MatchesAt(text, i + 1, pattern);
      }
      SubstituteNoOccurrence(rest, pattern, d);
    }
  }

  /** str.split on the pattern (up to case), left to right: the pieces of text
      between non-overlapping matches. There is always at least one piece. */
  function SplitOn(text: string, pattern: string): (pieces: seq<string>)
    requires pattern != []
    ensures |pieces| >= 1
    decreases |text|
  {
    if |text| < |pattern| then [text]
    else if MatchesAt(text, 0, pattern) then [[]] + SplitOn(text[|pattern|..], pattern)
    else
      var rest := SplitOn(text[1..], pattern);
      [[text[0]] + rest[0]] + rest[1..]
  }

  /** `pieces` are the text between the leftmost non-overlapping matches of
      `pattern`: the first piece runs up to the first match, the matched span
      follows it, and the remaining pieces decompose what comes after that
      span; no match starts inside a piece, and the last piece holds none. */
  predicate Decomposes(text: string, pattern: string, pieces: seq<string>)
    decreases |pieces|
  {
    && |pieces| >= 1
    && if |pieces| == 1 then text == pieces[0] && !Occurs(text, pattern)
       else
         var k := |pieces[0]|;
         && k + |pattern| <= |text|
         && text[..k] == pieces[0]
         && MatchesAt(text, k, pattern)
         && (forall q: nat :: q < k ==> !MatchesAt(text, q, pattern))
         && Decomposes(text[k + |pattern|..], pattern, pieces[1..])
  }

  /** A match at position q + 1 of the text is a match at q of its tail. */
  lemma MatchesAtShift(text: string, q: nat, pattern: string)
    requires text != []
    ensures MatchesAt(text, q + 1, pattern) <==> MatchesAt(text[1..], q, pattern)
  {
    if q + 1 + |pattern| <= |text| {
      assert text[q + 1..q + 1 + |pattern|] == text[1..][q..q + |pattern|];
    }
  }

  /** The split scan produces exactly that decomposition. */
  lemma {:induction false} SplitOnDecomposes(text: string, pattern: string)
    requires pattern != []
    ensures Decomposes(text, pattern, SplitOn(text, pattern))
    decreases |text|
  {
    if |text| < |pattern| {
      assert !Occurs(text, pattern);
    } else if MatchesAt(text, 0, pattern) {
      SplitOnDecomposes(text[|pattern|..], pattern);
      assert SplitOn(text, pattern)[1..] == SplitOn(text[|pattern|..], pattern);
    } else {
      SplitOnDecomposes(text[1..], pattern);
      DecomposesExtendFirst(text, pattern, SplitOn(text[1..], pattern));
    }
  }

  /** A character at which no match starts joins the first piece of the tail. */
  lemma DecomposesExtendFirst(text: string, pattern: string, rest: seq<string>)
    requires text != [] && !MatchesAt(text, 0, pattern)
    requires Decomposes(text[1..], pattern, rest)
    ensures Decomposes(text, pattern, [[text[0]] + rest[0]] + rest[1..])
  {
    var tail := text[1..];
    var pieces := [[text[0]] + rest[0]] + rest[1..];
    forall q: nat | q < |pieces[0]| || |pieces| == 1
      ensures !MatchesAt(text, q, pattern)
    {
      if q > 0 {
        MatchesAtShift(text, q - 1, pattern);
      }
    }
    if |rest| == 1 {
      assert text == [text[0]] + tail;
    } else {
      var k := |rest[0]|;
      assert text[..k + 1] == [text[0]] + tail[..k];
      MatchesAtShift(text, k, pattern);
      assert text[k + 1 + |pattern|..] == tail[k + |pattern|..];
      assert pieces[1..] == rest[1..];
    }
  }

  /** str.join: the pieces with `d` between each two. */
  function Join(pieces: seq<string>, d: string): string
    requires |pieces| >= 1
  {
    if |pieces| == 1 then pieces[0] else pieces[0] + d + Join(pieces[1..], d)
  }

  /** Replacing every match is splitting on the matches and joining the pieces
      with the description: nothing but the matched spans changes. */
  lemma {:induction false} ReplaceAllIsSplitJoin(text: string, pattern: string, d: string)
    requires pattern != []
    ensures ReplaceAll(text, pattern, d) == Join(SplitOn(text, pattern), d)
    decreases |text|
  {
    if |text| >= |pattern| {
      if MatchesAt(text, 0, pattern) {
        var rest := text[|pattern|..];
        ReplaceAllIsSplitJoin(rest, pattern, d);
        var pieces := [[]] + SplitOn(rest, pattern);
        assert pieces[1..] == SplitOn(rest, pattern);
        assert Join(pieces, d) == [] + d + Join(SplitOn(rest, pattern), d);
      } else {
        var tail := SplitOn(text[1..], pattern);
        ReplaceAllIsSplitJoin(text[1..], pattern, d);
        JoinExtendFirst(text[0], tail, d);
      }
    }
  }

  lemma JoinExtendFirst(c: char, pieces: seq<string>, d: string)
    requires |pieces| >= 1
    ensures Join([[c] + pieces[0]] + pieces[1..], d) == [c] + Join(pieces, d)
  {
    var extended := [[c] + pieces[0]] + pieces[1..];
    assert extended[1..] == pieces[1..];
  }

  // -------------------------------------------------------- the record fold

  /** eq.get('raw_equation') or eq['equation']: the raw equation when it is
      present and non-empty, otherwise the equation (None: a KeyError). */
  function SearchText(rec: Record): Option<string> {
    if RawEquationKey in rec && rec[RawEquationKey] != [] then Some(rec[RawEquationKey])
    else if EquationKey in rec then Some(rec[EquationKey])
    else None
  }

  /** The record has the fields one substitution step reads. */
  predicate Usable(rec: Record) {
    SearchText(rec).Some? && DescriptionKey in rec
  }

  /** The literal search pattern of a record: its search text without surrounding whitespace. */
  function Pattern(rec: Record): string
    requires Usable(rec)
  {
    Strip(SearchText(rec).value, IsWhitespace)
  }

  /** One iteration of the loop: substitute one record's description into the text. */
  function Step(text: string, rec: Record): Result<string, Error> {
    if !Usable(rec) then Failure(MissingField)
    else Success(Substitute(text, Pattern(rec), rec[DescriptionKey]))
  }

  /** The loop as a fold over the records from the first to the last. */
  function SubstituteAll(text: string, recs: seq<Record>): Result<string, Error>
    decreases |recs|
  {
    if recs == [] then Success(text)
    else
      match SubstituteAll(text, recs[..|recs| - 1])
      case Failure(e) => Failure(e)
      case Success(t) => Step(t, recs[|recs| - 1])
  }

  /** The first record is applied to the original text and the remaining
      records to what it produced. */
  lemma {:induction false} SubstituteAllFirstStep(text: string, rec: Record, rest: seq<Record>)
    ensures SubstituteAll(text, [rec] + rest) ==
              match Step(text, rec)
              case Failure(e) => Failure(e)
              case Success(t) => SubstituteAll(t, rest)
    decreases |rest|
  {
    if rest == [] {
      assert [rec] + rest == [rec];
      assert [rec][..0] == [];
    } else {
      var init := rest[..|rest| - 1];
      assert ([rec] + rest)[..|rest|] == [rec] + init;
      assert ([rec] + rest)[|rest|] == rest[|rest| - 1];
      SubstituteAllFirstStep(text, rec, init);
    }
  }

  /** The substitution fails, with a KeyError, exactly when some record lacks a
      field it reads. */
  lemma {:induction false} SubstituteAllFails(text: string, recs: seq<Record>)
    ensures SubstituteAll(text, recs).Failure? <==> exists i :: 0 <= i < |recs| && !Usable(recs[i])
    ensures SubstituteAll(text, recs).Failure? ==> SubstituteAll(text, recs).error == MissingField
    decreases |recs|
  {
    if recs != [] {
      var init := recs[..|recs| - 1];
      var last := |recs| - 1;
      assert forall i :: 0 <= i < |init| ==> init[i] == recs[i];
      SubstituteAllFails(text, init);
      match SubstituteAll(text, init)
      case Failure(_) =>
        var i :| 0 <= i < |init| && !Usable(init[i]);
        assert !Usable(recs[i]);
      case Success(t) =>
        assert SubstituteAll(text, recs) == Step(t, recs[last]);
        assert Step(t, recs[last]).Failure? <==> !Usable(recs[last]);
        assert forall i :: 0 <= i < last ==> Usable(recs[i]);
    }
  }

  /** When no record's pattern occurs in the text, the text comes back unchanged. */
  lemma {:induction false} SubstituteAllNoOccurrence(text: string, recs: seq<Record>)
    requires forall i :: 0 <= i < |recs| ==> Usable(recs[i]) && !Occurs(text, Pattern(recs[i]))
    ensures SubstituteAll(text, recs) == Success(text)
    decreases |recs|
  {
    if recs != [] {
      var init := recs[..|recs| - 1];
      assert forall i :: 0 <= i < |init| ==> init[i] == recs[i];
      SubstituteAllNoOccurrence(text, init);
      var last := recs[|recs| - 1];
      SubstituteNoOccurrence(text, Pattern(last), last[DescriptionKey]);
    }
  }

  /** replace_equations_with_descriptions */
  method ReplaceEquationsWithDescriptions(text: string, equations: seq<Record>) returns (r: Result<string, Error>)
    ensures r == SubstituteAll(text, equations)
  {
    var current := text;
    for i := 0 to |equations|
      invariant SubstituteAll(text, equations[..i]) == Success(current)
    {
      assert equations[..i + 1][..i] == equations[..i];
      var eq := equations[i];
      var original := SearchText(eq);
      if original.None? || DescriptionKey !in eq {
        SubstituteAllFails(text, equations);
        return Failure(MissingField);
      }
      var pattern := Strip(original.value, IsWhitespace);
      current := Substitute(current, pattern, eq[DescriptionKey]);
    }
    assert equations[..|equations|] == equations;
    return Success(current);
  }
}
