/** Post-processing of the equation-extraction service's output
    (fastapi-backend/core/extractors.py): cleaning the raw reply, the
    empty/non-empty decision taken before JSON parsing, equation normalisation,
    and the in-place pass that normalises every extracted record. The language
    model call and json.loads are oracles: the raw replies arrive as arguments
    and parsing is the function `parse`. */
module Extractors {
  import opened Records
  import opened Text

  /** SUPERSCRIPT TWO, the one character the normalizer rewrites. */
  const SuperscriptTwo: char := '\U{B2}'

  const JsonFence: string := "```json"
  const Fence: string := "```"

  // ---------------------------------------------------------------- cleaning

  /** clean_llm_output: strip whitespace, drop a leading "```json" and a trailing
      "```", strip stray backticks, strip whitespace again. */
  function CleanLlmOutput(output: string): (r: string)
    ensures BareEnds(r, IsWhitespace)
  {
    var trimmed := Strip(output, IsWhitespace);
    var unfenced := RemoveSuffix(RemovePrefix(trimmed, JsonFence), Fence);
    Strip(Strip(unfenced, IsBacktick), IsWhitespace)
  }

  /** A reply with no surrounding whitespace or backticks passes through untouched. */
  lemma CleanBareOutputUnchanged(output: string)
    requires BareEnds(output, IsWhitespace) && BareEnds(output, IsBacktick)
    ensures CleanLlmOutput(output) == output
  {
    assert !(JsonFence <= output) by {
      if output != [] { assert JsonFence[0] == '`'; }
    }
  }

  /** Removing the fence markers from a fenced text leaves what was inside. */
  lemma Unfence(inner: string)
    ensures RemoveSuffix(RemovePrefix(JsonFence + inner + Fence, JsonFence), Fence) == inner
  {
    var fenced := JsonFence + inner + Fence;
    assert fenced[|JsonFence|..] == inner + Fence;
    assert JsonFence <= fenced;
    var rest := inner + Fence;
    assert rest[|rest| - |Fence|..] == Fence;
    assert rest[..|rest| - |Fence|] == inner;
  }

  /** A payload wrapped in a "```json" code fence, with any whitespace around
      and inside the fence, comes back exactly. */
  lemma {:induction false} CleanUnwrapsCodeFence(w0: string, w1: string, payload: string, w2: string, w3: string)
    requires AllWhitespace(w0) && AllWhitespace(w1) && AllWhitespace(w2) && AllWhitespace(w3)
    requires payload != [] && BareEnds(payload, IsWhitespace) && BareEnds(payload, IsBacktick)
    ensures CleanLlmOutput(w0 + JsonFence + w1 + payload + w2 + Fence + w3) == payload
  {
    var inner := w1 + payload + w2;
    assert w0 + JsonFence + w1 + payload + w2 + Fence + w3 == w0 + (JsonFence + inner + Fence) + w3;
    StripFenced(w0, inner, w3);
    Unfence(inner);
    InnerHasBareBackticks(w1, payload, w2);
    StripPadded(w1, payload, w2, IsWhitespace);
  }

  /** Surrounding whitespace comes off a fenced text and nothing else does. */
  lemma StripFenced(w0: string, inner: string, w3: string)
    requires AllWhitespace(w0) && AllWhitespace(w3)
    ensures Strip(w0 + (JsonFence + inner + Fence) + w3, IsWhitespace) == JsonFence + inner + Fence
  {
    var fenced := JsonFence + inner + Fence;
    assert fenced[0] == '`' && fenced[|fenced| - 1] == '`';
    StripPadded(w0, fenced, w3, IsWhitespace);
  }

  lemma InnerHasBareBackticks(w1: string, payload: string, w2: string)
    requires AllWhitespace(w1) && AllWhitespace(w2)
    requires payload != [] && BareEnds(payload, IsBacktick)
    ensures BareEnds(w1 + payload + w2, IsBacktick)
  {
    var inner := w1 + payload + w2;
    if w1 == [] { assert inner[0] == payload[0]; } else { assert inner[0] == w1[0]; }
    if w2 == [] {
      assert inner[|inner| - 1] == payload[|payload| - 1];
    } else {
      assert inner[|inner| - 1] == w2[|w2| - 1];
    }
  }

  // ------------------------------------------------------- extract_equations

  /** What json.loads can hand back: a list of objects, or any other JSON value. */
  datatype Json = JsonArray(items: seq<Record>) | JsonOther

  /** The parsing oracle's verdict on one cleaned reply. */
  datatype Parse = Parsed(value: Json) | Malformed

  datatype Extractions = Extractions(master: Json, student: Json)

  /** `not s.strip()` */
  predicate IsBlank(s: string) {
    Strip(s, IsWhitespace) == []
  }

  /** The decision logic of extract_equations after the two service calls: a
      blank master reply is fatal, a blank student reply means no equations, and
      a reply that does not parse is fatal on either side. */
  function ExtractEquations(masterOutput: string, studentOutput: string, parse: string -> Parse)
    : (r: Result<Extractions, Error>)
    ensures CleanLlmOutput(masterOutput) == [] ==> r == Failure(EmptyMasterOutput)
    ensures CleanLlmOutput(masterOutput) != [] && parse(CleanLlmOutput(masterOutput)).Malformed?
            ==> r == Failure(MalformedJson)
    ensures r.Success? ==> parse(CleanLlmOutput(masterOutput)) == Parsed(r.value.master)
    ensures CleanLlmOutput(studentOutput) == [] ==>
              (r.Success? <==> CleanLlmOutput(masterOutput) != [] && parse(CleanLlmOutput(masterOutput)).Parsed?)
    ensures CleanLlmOutput(studentOutput) == [] && r.Success? ==> r.value.student == JsonArray([])
    ensures CleanLlmOutput(studentOutput) != [] && r.Success?
            ==> parse(CleanLlmOutput(studentOutput)) == Parsed(r.value.student)
    ensures CleanLlmOutput(masterOutput) != [] && parse(CleanLlmOutput(masterOutput)).Parsed?
            && CleanLlmOutput(studentOutput) != []
            ==> (r.Success? <==> parse(CleanLlmOutput(studentOutput)).Parsed?)
    ensures CleanLlmOutput(masterOutput) != [] && parse(CleanLlmOutput(masterOutput)).Parsed?
            && CleanLlmOutput(studentOutput) != [] && parse(CleanLlmOutput(studentOutput)).Malformed?
            ==> r == Failure(MalformedJson)
  {
    var master := CleanLlmOutput(masterOutput);
    var student := CleanLlmOutput(studentOutput);
    if IsBlank(master) then Failure(EmptyMasterOutput)
    else match parse(master)
      case Malformed => Failure(MalformedJson)
      case Parsed(masterJson) =>
        if IsBlank(student) then Success(Extractions(masterJson, JsonArray([])))
        else match parse(student)
          case Malformed => Failure(MalformedJson)
          case Parsed(studentJson) => Success(Extractions(masterJson, studentJson))
  }

  // ----------------------------------------------------------- normalisation

  function ExpandChar(c: char): string {
    if c == SuperscriptTwo then "^2" else [c]
  }

  function KeepChar(c: char): string {
    if IsWhitespace(c) then [] else [c]
  }

  /** eq.replace("²", "^2") */
  function ExpandSuperscriptTwo(s: string): (r: string)
    ensures SuperscriptTwo !in r
    ensures NoWhitespace(s) ==> NoWhitespace(r)
    ensures SuperscriptTwo !in s ==> r == s
  {
    if s == [] then [] else ExpandChar(s[0]) + ExpandSuperscriptTwo(s[1..])
  }

  /** re.sub(r"\s+", "", eq): keep exactly the non-whitespace characters, in order. */
  function RemoveWhitespace(s: string): (r: string)
    ensures NoWhitespace(r)
    ensures forall c :: c in r ==> c in s
    ensures NoWhitespace(s) ==> r == s
  {
    if s == [] then [] else KeepChar(s[0]) + RemoveWhitespace(s[1..])
  }

  /** normalize_equation: the result is free of whitespace and of "²", and a
      string is left alone exactly when it already is. */
  function NormalizeEquation(eq: string): (r: string)
    ensures NoWhitespace(r) && SuperscriptTwo !in r
    ensures r == eq <==> NoWhitespace(eq) && SuperscriptTwo !in eq
  {
    RemoveWhitespace(ExpandSuperscriptTwo(eq))
  }

  lemma NormalizeIdempotent(eq: string)
    ensures NormalizeEquation(NormalizeEquation(eq)) == NormalizeEquation(eq)
  {
  }

  lemma {:induction false} ExpandConcat(a: string, b: string)
    ensures ExpandSuperscriptTwo(a + b) == ExpandSuperscriptTwo(a) + ExpandSuperscriptTwo(b)
  {
    if a != [] {
      var ab := a + b;
      assert ab[0] == a[0];
      assert ab[1..] == a[1..] + b;
      ExpandConcat(a[1..], b);
      calc {
        ExpandSuperscriptTwo(ab);
        ExpandChar(a[0]) + ExpandSuperscriptTwo(a[1..] + b);
        ExpandChar(a[0]) + (ExpandSuperscriptTwo(a[1..]) + ExpandSuperscriptTwo(b));
        (ExpandChar(a[0]) + ExpandSuperscriptTwo(a[1..])) + ExpandSuperscriptTwo(b);
      }
    } else {
      assert a + b == b;
    }
  }

  lemma {:induction false} RemoveWhitespaceConcat(a: string, b: string)
    ensures RemoveWhitespace(a + b) == RemoveWhitespace(a) + RemoveWhitespace(b)
  {
    if a != [] {
      var ab := a + b;
      assert ab[0] == a[0];
      assert ab[1..] == a[1..] + b;
      RemoveWhitespaceConcat(a[1..], b);
      calc {
        RemoveWhitespace(ab);
        KeepChar(a[0]) + RemoveWhitespace(a[1..] + b);
        KeepChar(a[0]) + (RemoveWhitespace(a[1..]) + RemoveWhitespace(b));
        (KeepChar(a[0]) + RemoveWhitespace(a[1..])) + RemoveWhitespace(b);
      }
    } else {
      assert a + b == b;
    }
  }

  /** Normalisation works character by character, so it commutes with concatenation. */
  lemma {:induction false} NormalizeConcat(a: string, b: string)
    ensures NormalizeEquation(a + b) == NormalizeEquation(a) + NormalizeEquation(b)
  {
    ExpandConcat(a, b);
    RemoveWhitespaceConcat(ExpandSuperscriptTwo(a), ExpandSuperscriptTwo(b));
  }

  /** Each "²" is replaced by "^2" in place, and the text around it is expanded independently. */
  lemma SpliceSuperscriptTwo(a: string, b: string)
    ensures ExpandSuperscriptTwo(a + [SuperscriptTwo] + b)
            == ExpandSuperscriptTwo(a) + "^2" + ExpandSuperscriptTwo(b)
  {
    ExpandConcat(a + [SuperscriptTwo], b);
    ExpandConcat(a, [SuperscriptTwo]);
    assert [SuperscriptTwo][1..] == [];
    assert ExpandSuperscriptTwo([SuperscriptTwo]) == "^2";
  }

  /** normalize_equation turns "²" into "^2" wherever it stands. */
  lemma NormalizeSpliceSuperscriptTwo(a: string, b: string)
    ensures NormalizeEquation(a + [SuperscriptTwo] + b)
            == NormalizeEquation(a) + "^2" + NormalizeEquation(b)
  {
    NormalizeConcat(a + [SuperscriptTwo], b);
    NormalizeConcat(a, [SuperscriptTwo]);
    NormalizeChar(SuperscriptTwo);
  }

  /** On one character the normaliser gives "^2" for "²", nothing for
      whitespace and the character itself otherwise; with NormalizeConcat this
      determines it on every string. */
  lemma NormalizeChar(c: char)
    ensures NormalizeEquation([c]) ==
              if c == SuperscriptTwo then "^2" else if IsWhitespace(c) then [] else [c]
  {
    assert [c][1..] == [];
    assert ExpandSuperscriptTwo([c]) == ExpandChar(c);
    if c == SuperscriptTwo {
      assert "^2"[1..] == "2";
      assert "2"[1..] == [];
      assert RemoveWhitespace("2") == "2";
    }
  }

  // ------------------------------------------------------ process_extractions

  /** One iteration of process_extractions: a record with an "equation" keeps the
      original under "raw_equation" and gets the normalised form under
      "equation"; every other key is untouched; a record without "equation" is
      skipped. */
  function ProcessRecord(rec: Record, normalize: string -> string): (r: Record)
    ensures EquationKey in rec ==>
              && r.Keys == rec.Keys + {RawEquationKey}
              && r[RawEquationKey] == rec[EquationKey]
              && r[EquationKey] == normalize(rec[EquationKey])
              && forall k :: k in rec && k != EquationKey && k != RawEquationKey ==> r[k] == rec[k]
    ensures EquationKey !in rec ==> r == rec
  {
    if EquationKey in rec then
      var withRaw := rec[RawEquationKey := rec[EquationKey]];
      withRaw[EquationKey := normalize(withRaw[EquationKey])]
    else rec
  }

  /** The argument of process_extractions: a Python list of dictionaries, which
      the pass updates in place, or any other value, which it rejects. */
  datatype Payload = ListPayload(items: array<Record>) | NonListPayload

  function Footprint(extractions: Payload): set<object> {
    if extractions.ListPayload? then {extractions.items} else {}
  }

  /** process_extractions: every record is processed where it stands; the list
      keeps its length and order. */
  method ProcessExtractions(extractions: Payload, normalize: string -> string) returns (r: Result<(), Error>)
    modifies Footprint(extractions)
    ensures extractions.NonListPayload? ==> r == Failure(NotAList)
    ensures extractions.ListPayload? ==> r == Success(())
    ensures extractions.ListPayload? ==>
              forall i :: 0 <= i < extractions.items.Length ==>
                extractions.items[i] == ProcessRecord(old(extractions.items[i]), normalize)
  {
    if extractions.NonListPayload? {
      return Failure(NotAList);
    }
    var a := extractions.items;
    for i := 0 to a.Length
      invariant forall k :: 0 <= k < i ==> a[k] == ProcessRecord(old(a[k]), normalize)
      invariant forall k :: i <= k < a.Length ==> a[k] == old(a[k])
    {
      var eq := a[i];
      if EquationKey in eq {
        a[i] := eq[RawEquationKey := eq[EquationKey]];
        a[i] := a[i][EquationKey := normalize(a[i][EquationKey])];
      }
    }
    return Success(());
  }
}
