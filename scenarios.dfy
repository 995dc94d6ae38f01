/**
 * Concrete replies of the generation service and what the script makes of
 * them, for any decoder that reads the fragments the way RFC 8259 says.
 * The general lemmas first take the lines as unknowns; the examples then
 * only check facts about the literal lines. Each example names its lines
 * as parameters fixed by a `requires`, so that the proof reasons about the
 * lines by name and does not unfold `Strip` and `Split` character by
 * character on the literals.
 */
module Scenarios {
  import opened Wrappers
  import opened Text
  import opened Json
  import opened Reassembly
  import Request

  /** A fragment line as the service emits it: not empty, no newline, no
      whitespace at either end. */
  predicate Clean(x: string) {
    x != [] && '\n' !in x && !IsSpace(x[0]) && !IsSpace(x[|x| - 1])
  }

  /** An object whose `response` member is `text`. */
  function Fragment(text: string): JsonValue {
    JObject(map["response" := JString(text)])
  }

  /** Two clean lines separated by one newline split into exactly those lines. */
  lemma TwoLinePieces(x: string, y: string)
    requires Clean(x) && Clean(y)
    ensures Pieces(x + "\n" + y) == [x, y]
  {
    var b := x + "\n" + y;
    assert b[0] == x[0] && b[|b| - 1] == y[|y| - 1];
    StripUnpadded(b);
    assert Join([x, y]) == b;
    SplitJoin([x, y]);
  }

  /** Two clean lines separated by an empty line split into three lines. */
  lemma GapLinePieces(x: string, y: string)
    requires Clean(x) && Clean(y)
    ensures Pieces(x + "\n\n" + y) == [x, [], y]
  {
    var b := x + "\n\n" + y;
    assert b[0] == x[0] && b[|b| - 1] == y[|y| - 1];
    StripUnpadded(b);
    assert Join([[], y]) == [] + "\n" + y;
    assert Join([x, [], y]) == x + "\n" + Join([[], y]);
    assert Join([x, [], y]) == b;
    SplitJoin([x, [], y]);
  }

  /** A clean line decoding to a value with a usable `response` member adds
      that member's text. */
  lemma FragmentStep(x: string, tx: string, parse: Parser)
    requires Clean(x)
    requires parse(x).Ok? && ResponseOf(parse(x).value) == Some(tx)
    ensures StepOf(parse)(x) == Ok(tx)
  {
    assert !AllSpace(x) by { assert !IsSpace(x[0]); }
    ContributionMeaning(x, parse);
  }

  /** A clean line that does not decode, or whose `response` member cannot
      be used, stops the loop; only a malformed line is a decode fault. */
  lemma BadLineStep(y: string, parse: Parser)
    requires Clean(y)
    requires parse(y).Err? || ResponseOf(parse(y).value).None?
    ensures StepOf(parse)(y) == Err(if parse(y) == Err(Malformed) then DecodeFault else OtherFault)
  {
    assert !AllSpace(y) by { assert !IsSpace(y[0]); }
    ContributionMeaning(y, parse);
  }

  /** An empty line adds nothing. */
  lemma EmptyLineStep(parse: Parser)
    ensures StepOf(parse)([]) == Ok([])
  {
    ContributionMeaning([], parse);
  }

  /** Two lines that both get through add their texts in order. */
  lemma FoldPair(x: string, y: string, tx: string, ty: string, step: LineStep)
    requires step(x) == Ok(tx) && step(y) == Ok(ty)
    ensures Fold([x, y], step) == Ok(tx + ty)
  {
    var lines := [x, y];
    FoldSnoc(lines, 0, step);
    FoldSnoc(lines, 1, step);
    assert lines[..0] == [] && lines[..2] == lines;
    assert [] + tx == tx;
  }

  /** A second line that stops the loop decides the result, although the
      first one got through. */
  lemma FoldPairFails(x: string, y: string, tx: string, f: Fault, step: LineStep)
    requires step(x) == Ok(tx) && step(y) == Err(f)
    ensures Fold([x, y], step) == Err(f)
  {
    var lines := [x, y];
    FoldSnoc(lines, 0, step);
    FoldSnoc(lines, 1, step);
    assert lines[..0] == [] && lines[..2] == lines;
  }

  /** An empty line between two lines that get through adds nothing. */
  lemma FoldAroundBlank(x: string, y: string, tx: string, ty: string, step: LineStep)
    requires step(x) == Ok(tx) && step([]) == Ok([]) && step(y) == Ok(ty)
    ensures Fold([x, [], y], step) == Ok(tx + ty)
  {
    var lines := [x, [], y];
    FoldSnoc(lines, 0, step);
    FoldSnoc(lines, 1, step);
    FoldSnoc(lines, 2, step);
    assert lines[..0] == [] && lines[..3] == lines;
    assert [] + tx + [] == tx;
  }

  /** Two fragment lines are written as their texts, concatenated with no
      separator and no newline added. */
  lemma TwoFragmentsWritten(x: string, y: string, tx: string, ty: string, parse: Parser)
    requires Clean(x) && Clean(y)
    requires parse(x).Ok? && ResponseOf(parse(x).value) == Some(tx)
    requires parse(y).Ok? && ResponseOf(parse(y).value) == Some(ty)
    ensures ScriptOutcome(200, x + "\n" + y, parse) == Written(tx + ty)
  {
    TwoLinePieces(x, y);
    FragmentStep(x, tx, parse);
    FragmentStep(y, ty, parse);
    FoldPair(x, y, tx, ty, StepOf(parse));
  }

  /** An empty line between two fragment lines changes nothing. */
  lemma GapFragmentsWritten(x: string, y: string, tx: string, ty: string, parse: Parser)
    requires Clean(x) && Clean(y)
    requires parse(x).Ok? && ResponseOf(parse(x).value) == Some(tx)
    requires parse(y).Ok? && ResponseOf(parse(y).value) == Some(ty)
    ensures ScriptOutcome(200, x + "\n\n" + y, parse) == Written(tx + ty)
  {
    GapLinePieces(x, y);
    FragmentStep(x, tx, parse);
    FragmentStep(y, ty, parse);
    EmptyLineStep(parse);
    FoldAroundBlank(x, y, tx, ty, StepOf(parse));
  }

  /** A second line that is not acceptable fails the run even though the
      first line got through: its decoding decides the kind of error. */
  lemma SecondLineFails(x: string, y: string, tx: string, parse: Parser)
    requires Clean(x) && Clean(y)
    requires parse(x).Ok? && ResponseOf(parse(x).value) == Some(tx)
    requires parse(y).Err? || ResponseOf(parse(y).value).None?
    ensures ScriptOutcome(200, x + "\n" + y, parse) ==
      if parse(y) == Err(Malformed) then DecodeError else OtherError
  {
    var f := if parse(y) == Err(Malformed) then DecodeFault else OtherFault;
    FragmentStep(x, tx, parse);
    BadLineStep(y, parse);
    FoldPairFails(x, y, tx, f, StepOf(parse));
    TwoLinePieces(x, y);
    assert Reassemble(x + "\n" + y, parse) == Err(f);
  }

  // ------------------------------------------------------------------
  // The examples.
  // ------------------------------------------------------------------

  /** `{"response":"a"}`, an empty line and `{"response":"b"}` give "ab". */
  lemma BlankLineBetweenFragments(lineA: string, lineB: string, parse: Parser)
    requires lineA == "{\"response\":\"a\"}" && lineB == "{\"response\":\"b\"}"
    requires parse(lineA) == Ok(Fragment("a"))
    requires parse(lineB) == Ok(Fragment("b"))
    ensures ScriptOutcome(200, lineA + "\n\n" + lineB, parse) == Written("ab")
  {
    assert Clean(lineA) && Clean(lineB);
    GapFragmentsWritten(lineA, lineB, "a", "b", parse);
  }

  /** `{"response":"Hello"}` and `{"response":" World"}` give "Hello World". */
  lemma HelloWorld(lineHello: string, lineWorld: string, parse: Parser)
    requires lineHello == "{\"response\":\"Hello\"}" && lineWorld == "{\"response\":\" World\"}"
    requires parse(lineHello) == Ok(Fragment("Hello"))
    requires parse(lineWorld) == Ok(Fragment(" World"))
    ensures ScriptOutcome(200, lineHello + "\n" + lineWorld, parse) == Written("Hello World")
  {
    assert Clean(lineHello) && Clean(lineWorld);
    TwoFragmentsWritten(lineHello, lineWorld, "Hello", " World", parse);
  }

  /** `{"x":1}` has no `response` member: it contributes nothing and is no error. */
  lemma MissingResponseIsEmpty(lineA: string, lineOther: string, parse: Parser)
    requires lineA == "{\"response\":\"a\"}" && lineOther == "{\"x\":1}"
    requires parse(lineA) == Ok(Fragment("a"))
    requires parse(lineOther) == Ok(JObject(map["x" := JNumber("1")]))
    ensures ScriptOutcome(200, lineA + "\n" + lineOther, parse) == Written("a")
  {
    assert Clean(lineA) && Clean(lineOther);
    TwoFragmentsWritten(lineA, lineOther, "a", [], parse);
  }

  /** A cut-off second line discards the "a" accumulated before it. */
  lemma DecodeErrorDiscardsEarlierText(lineA: string, lineCut: string, parse: Parser)
    requires lineA == "{\"response\":\"a\"}" && lineCut == "{\"response\":"
    requires parse(lineA) == Ok(Fragment("a"))
    requires parse(lineCut) == Err(Malformed)
    ensures ScriptOutcome(200, lineA + "\n" + lineCut, parse) == DecodeError
  {
    assert Clean(lineA) && Clean(lineCut);
    SecondLineFails(lineA, lineCut, "a", parse);
  }

  /** A numeric `response` member is an error other than a decode error. */
  lemma NonStringResponseIsOtherError(lineA: string, lineNumber: string, parse: Parser)
    requires lineA == "{\"response\":\"a\"}" && lineNumber == "{\"response\":5}"
    requires parse(lineA) == Ok(Fragment("a"))
    requires parse(lineNumber) == Ok(JObject(map["response" := JNumber("5")]))
    ensures ScriptOutcome(200, lineA + "\n" + lineNumber, parse) == OtherError
  {
    assert Clean(lineA) && Clean(lineNumber);
    SecondLineFails(lineA, lineNumber, "a", parse);
  }

  /** A JSON array is not an object: `.get` fails and nothing is written. */
  lemma ArrayLineIsOtherError(lineA: string, lineArray: string, parse: Parser)
    requires lineA == "{\"response\":\"a\"}" && lineArray == "[1]"
    requires parse(lineA) == Ok(Fragment("a"))
    requires parse(lineArray) == Ok(JArray([JNumber("1")]))
    ensures ScriptOutcome(200, lineA + "\n" + lineArray, parse) == OtherError
  {
    assert Clean(lineA) && Clean(lineArray);
    SecondLineFails(lineA, lineArray, "a", parse);
  }

  /** A short prompt: "Review:" and "int x;" give "Review: int x;". */
  lemma ReviewPrompt()
    ensures Request.Prompt("Review:", "int x;") == "Review: int x;"
  {
  }
}
