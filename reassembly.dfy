/**
 * The response-stream reassembler of main.py. The body of the reply of
 * the local text-generation service is newline-delimited JSON: the body is
 * stripped, split on '\n', every non-blank line is decoded, and the
 * `response` member of each decoded object is appended to the generated
 * text. The first line that cannot be decoded or used aborts the run and
 * nothing is written; only a completed loop reaches the write of output.md.
 */
module Reassembly {
  import opened Wrappers
  import opened Text
  import opened Json

  /** Why the script's try block is left early. */
  datatype Fault =
    | DecodeFault  // json.JSONDecodeError, caught by the first handler
    | OtherFault   // any other exception, caught by the generic handler

  /** What one run of the script leaves behind. */
  datatype Outcome =
    | Written(text: string)   // `text` is handed to the write of output.md
    | DecodeError             // logged; no file written
    | OtherError              // logged; no file written
    | HttpError(status: int)  // logged; reassembly never started

  // ------------------------------------------------------------------
  // What an accepted line contributes, stated without the loop.
  // ------------------------------------------------------------------

  /** The text `json_obj.get('response', '')` hands to `+=`: the empty
      string when the member is absent, None when `.get` fails (the value
      is not an object) or `+=` fails (the member is not a string). */
  function ResponseOf(v: JsonValue): (r: Option<string>) {
    match v
    case JObject(fields) =>
      if "response" !in fields then Some([])
      else if fields["response"].JString? then Some(fields["response"].s)
      else None
    case _ => None
  }

  /** A line the loop gets past: blank, or decoding to a value whose
      `response` member is a string or absent. */
  predicate Acceptable(line: string, parse: Parser) {
    AllSpace(line) || (parse(line).Ok? && ResponseOf(parse(line).value).Some?)
  }

  /** The response text of an acceptable non-blank line. */
  function ResponseText(line: string, parse: Parser): (t: string) {
    match parse(line)
    case Ok(v) => ResponseOf(v).GetOr([])
    case Err(_) => []
  }

  /** The lines that are not whitespace-only, in their original order. */
  function NonBlank(lines: seq<string>): (r: seq<string>)
    ensures |r| <= |lines|
    ensures forall i | 0 <= i < |r| :: !AllSpace(r[i])
  {
    if lines == [] then []
    else
      var last := lines[|lines| - 1];
      var front := lines[..|lines| - 1];
      assert lines == front + [last];
      NonBlank(front) + (if AllSpace(last) then [] else [last])
  }

  /** Every line that is not whitespace-only is kept. */
  lemma {:induction false} NonBlankKeepsNonBlank(lines: seq<string>)
    ensures forall l | l in lines && !AllSpace(l) :: l in NonBlank(lines)
  {
    if lines != [] {
      var front := lines[..|lines| - 1];
      var last := lines[|lines| - 1];
      NonBlankKeepsNonBlank(front);
      assert lines == front + [last];
      assert NonBlank(lines) == NonBlank(front) + (if AllSpace(last) then [] else [last]);
      forall l | l in lines && !AllSpace(l) ensures l in NonBlank(lines) {
        if l !in front {
          assert l == last;
        }
      }
    }
  }

  /** The response text of every line, line by line. */
  function Responses(lines: seq<string>, parse: Parser): (ts: seq<string>) {
    seq(|lines|, i requires 0 <= i < |lines| => ResponseText(lines[i], parse))
  }

  /** The strings of `ss` concatenated in order. */
  function Concat(ss: seq<string>): (r: string) {
    if ss == [] then [] else Concat(ss[..|ss| - 1]) + ss[|ss| - 1]
  }

  // ------------------------------------------------------------------
  // The loop, one line at a time.
  // ------------------------------------------------------------------

  /** What one line adds to the accumulator, or why it stops the loop. */
  function Contribution(line: string, parse: Parser): (r: Result<string, Fault>)
    ensures r.Ok? <==> Acceptable(line, parse)
  {
    if Strip(line) == [] then Ok([])
    else
      match parse(line)
      case Err(Malformed) => Err(DecodeFault)
      case Err(OtherDecodeFailure) => Err(OtherFault)
      case Ok(v) =>
        match ResponseOf(v)
        case Some(t) => Ok(t)
        case None => Err(OtherFault)
  }

  /** A blank line adds nothing, an object without `response` adds the
      empty string, any other acceptable line adds its response text, and
      only an undecodable line is a decode error. */
  lemma ContributionMeaning(line: string, parse: Parser)
    ensures AllSpace(line) ==> Contribution(line, parse) == Ok([])
    ensures Contribution(line, parse).Ok? && !AllSpace(line) ==>
      Contribution(line, parse).value == ResponseText(line, parse)
    ensures parse(line).Ok? && parse(line).value.JObject? && "response" !in parse(line).value.fields
      ==> Contribution(line, parse) == Ok([])
    ensures Contribution(line, parse) == Err(DecodeFault) <==>
      !AllSpace(line) && parse(line) == Err(Malformed)
  {
  }

  /** What each line does to the accumulator. */
  type LineStep = string -> Result<string, Fault>

  /** The step of the reassembler for a given decoder. */
  function StepOf(parse: Parser): (step: LineStep) {
    line => Contribution(line, parse)
  }

  /** The accumulator after the loop has gone through `lines`, or the
      fault of the first line that stopped it. */
  function Fold(lines: seq<string>, step: LineStep): (r: Result<string, Fault>) {
    if lines == [] then Ok([])
    else
      match Fold(lines[..|lines| - 1], step)
      case Err(f) => Err(f)
      case Ok(acc) =>
        match step(lines[|lines| - 1])
        case Err(f) => Err(f)
        case Ok(t) => Ok(acc + t)
  }

  /** The lines of a body: `body.strip().split('\n')`. They hold no
      newline and joining them with newlines gives back the stripped body. */
  function Pieces(body: string): (lines: seq<string>)
    ensures |lines| >= 1
    ensures forall i | 0 <= i < |lines| :: '\n' !in lines[i]
    ensures Join(lines) == Strip(body)
  {
    JoinSplit(Strip(body));
    Split(Strip(body))
  }

  /** Reassembly of a whole body. */
  function Reassemble(body: string, parse: Parser): (r: Result<string, Fault>) {
    Fold(Pieces(body), StepOf(parse))
  }

  /** The outcome of the script for the status and body of the reply. */
  function ScriptOutcome(status: int, body: string, parse: Parser): (outcome: Outcome)
    ensures outcome.HttpError? <==> status != 200
    ensures outcome.HttpError? ==> outcome.status == status
  {
    if status != 200 then HttpError(status)
    else
      match Reassemble(body, parse)
      case Ok(t) => Written(t)
      case Err(DecodeFault) => DecodeError
      case Err(OtherFault) => OtherError
  }

  // ------------------------------------------------------------------
  // The script.
  // ------------------------------------------------------------------

  /** The loop over the lines of the body: the accumulator after `i`
      lines is the fold over those lines, and the first failing line ends
      the loop with its fault. */
  method ReassembleLoop(body: string, parse: Parser) returns (r: Result<string, Fault>)
    ensures r == Reassemble(body, parse)
  {
    var jsonObjects := Split(Strip(body));
    var generated := "";
    ghost var step := StepOf(parse);
    for i := 0 to |jsonObjects|
      invariant Fold(jsonObjects[..i], step) == Ok(generated)
    {
      var jsonStr := jsonObjects[i];
      FoldSnoc(jsonObjects, i, step);
      assert step(jsonStr) == Contribution(jsonStr, parse);
      if Strip(jsonStr) != [] {
        var decoded := parse(jsonStr);
        if decoded.Err? {
          assert step(jsonStr) == Err(if decoded.error == Malformed then DecodeFault else OtherFault);
          FoldFailurePersists(jsonObjects, i + 1, step);
          return Err(if decoded.error == Malformed then DecodeFault else OtherFault);
        }
        var obj := decoded.value;
        if !obj.JObject? {
          // `.get` is not defined on anything but a dict
          assert step(jsonStr) == Err(OtherFault);
          FoldFailurePersists(jsonObjects, i + 1, step);
          return Err(OtherFault);
        }
        var got := if "response" in obj.fields then obj.fields["response"] else JString([]);
        if !got.JString? {
          // `+=` of a str and a non-str
          assert step(jsonStr) == Err(OtherFault);
          FoldFailurePersists(jsonObjects, i + 1, step);
          return Err(OtherFault);
        }
        assert step(jsonStr) == Ok(got.s);
        generated := generated + got.s;
      } else {
        assert step(jsonStr) == Ok([]);
        assert generated + [] == generated;
      }
    }
    assert jsonObjects[..|jsonObjects|] == jsonObjects;
    return Ok(generated);
  }

  /** The top-level block: reassembly runs only on status 200, and the
      text is written only once the loop has finished. */
  method Run(status: int, body: string, parse: Parser) returns (outcome: Outcome)
    ensures status != 200 ==> outcome == HttpError(status)
    ensures outcome == ScriptOutcome(status, body, parse)
  {
    if status == 200 {
      var r := ReassembleLoop(body, parse);
      match r
      case Ok(t) =>
        outcome := Written(t);
      case Err(DecodeFault) =>
        outcome := DecodeError;
      case Err(OtherFault) =>
        outcome := OtherError;
    } else {
      outcome := HttpError(status);
    }
  }

  // ------------------------------------------------------------------
  // Properties of the fold, for any step.
  // ------------------------------------------------------------------

  /** Folding two runs of lines one after the other: the second run only
      matters when the first one got through, and then its text follows. */
  lemma {:induction false} FoldAppend(a: seq<string>, b: seq<string>, step: LineStep)
    ensures Fold(a + b, step) ==
      match Fold(a, step)
      case Err(f) => Err(f)
      case Ok(x) =>
        match Fold(b, step)
        case Err(f) => Err(f)
        case Ok(y) => Ok(x + y)
  {
    if b == [] {
      assert a + b == a;
      match Fold(a, step)
      case Err(f) =>
      case Ok(x) => assert x + [] == x;
    } else {
      var front := b[..|b| - 1];
      var last := b[|b| - 1];
      assert (a + b)[..|a + b| - 1] == a + front;
      assert (a + b)[|a + b| - 1] == last;
      FoldAppend(a, front, step);
      match Fold(a, step)
      case Err(f) =>
      case Ok(x) =>
        match Fold(front, step)
        case Err(f) =>
        case Ok(y) =>
          match step(last)
          case Err(f) =>
          case Ok(t) => assert x + y + t == x + (y + t);
    }
  }

  /** One more line through the loop. */
  lemma FoldSnoc(lines: seq<string>, i: nat, step: LineStep)
    requires i < |lines|
    ensures Fold(lines[..i + 1], step) ==
      match Fold(lines[..i], step)
      case Err(f) => Err(f)
      case Ok(acc) =>
        match step(lines[i])
        case Err(f) => Err(f)
        case Ok(t) => Ok(acc + t)
  {
    assert lines[..i + 1][..i] == lines[..i];
  }

  /** Fail-fast: once a prefix of the lines has failed, the lines after it
      change nothing. */
  lemma FoldFailurePersists(lines: seq<string>, k: nat, step: LineStep)
    requires k <= |lines|
    requires Fold(lines[..k], step).Err?
    ensures Fold(lines, step) == Fold(lines[..k], step)
  {
    assert lines == lines[..k] + lines[k..];
    FoldAppend(lines[..k], lines[k..], step);
  }

  /** The fold gets through exactly when every line's step does. */
  lemma {:induction false} FoldOkIff(lines: seq<string>, step: LineStep)
    ensures Fold(lines, step).Ok? <==> forall i | 0 <= i < |lines| :: step(lines[i]).Ok?
  {
    if lines != [] {
      var front := lines[..|lines| - 1];
      FoldOkIff(front, step);
      assert forall i | 0 <= i < |front| :: front[i] == lines[i];
    }
  }

  /** The first line whose step fails decides the fault, whatever follows. */
  lemma FoldFailsAtFirst(lines: seq<string>, k: nat, step: LineStep)
    requires k < |lines|
    requires forall i | 0 <= i < k :: step(lines[i]).Ok?
    requires step(lines[k]).Err?
    ensures Fold(lines, step) == step(lines[k])
  {
    assert lines[..k + 1][..k] == lines[..k];
    FoldOkIff(lines[..k], step);
    FoldFailurePersists(lines, k + 1, step);
  }

  // ------------------------------------------------------------------
  // Properties of the reassembler's fold.
  // ------------------------------------------------------------------

  /** The loop gets through exactly when every line is acceptable. */
  lemma FoldSucceedsIff(lines: seq<string>, parse: Parser)
    ensures Fold(lines, StepOf(parse)).Ok? <==> forall i | 0 <= i < |lines| :: Acceptable(lines[i], parse)
  {
    FoldOkIff(lines, StepOf(parse));
  }

  /** On success the generated text is the in-order concatenation of the
      `response` texts of the non-blank lines. */
  lemma {:induction false} FoldText(lines: seq<string>, parse: Parser)
    requires Fold(lines, StepOf(parse)).Ok?
    ensures Fold(lines, StepOf(parse)).value == Concat(Responses(NonBlank(lines), parse))
  {
    if lines != [] {
      var front := lines[..|lines| - 1];
      var last := lines[|lines| - 1];
      FoldText(front, parse);
      ContributionMeaning(last, parse);
      var nb := NonBlank(front);
      if !AllSpace(last) {
        assert NonBlank(lines) == nb + [last];
        ConcatResponsesSnoc(nb, last, parse);
      } else {
        assert NonBlank(lines) == nb;
      }
    }
  }

  lemma ConcatResponsesSnoc(lines: seq<string>, last: string, parse: Parser)
    ensures Concat(Responses(lines + [last], parse)) == Concat(Responses(lines, parse)) + ResponseText(last, parse)
  {
    var rs := Responses(lines, parse);
    assert Responses(lines + [last], parse) == rs + [ResponseText(last, parse)];
    assert (rs + [ResponseText(last, parse)])[..|rs|] == rs;
  }

  /** Fail-fast: the first line that is not acceptable decides the fault,
      whatever follows it and however many lines before it were fine. */
  lemma FoldFailsAtFirstFault(lines: seq<string>, k: nat, parse: Parser)
    requires k < |lines|
    requires forall i | 0 <= i < k :: Acceptable(lines[i], parse)
    requires !Acceptable(lines[k], parse)
    ensures Fold(lines, StepOf(parse)) == Err(if parse(lines[k]) == Err(Malformed) then DecodeFault else OtherFault)
  {
    ContributionMeaning(lines[k], parse);
    FoldFailsAtFirst(lines, k, StepOf(parse));
  }

  /** Blank lines contribute nothing and do not disturb the order of the
      others: the fold over the lines equals the fold over the non-blank ones. */
  lemma {:induction false} BlankLinesIgnored(lines: seq<string>, parse: Parser)
    ensures Fold(NonBlank(lines), StepOf(parse)) == Fold(lines, StepOf(parse))
  {
    if lines != [] {
      var front := lines[..|lines| - 1];
      var last := lines[|lines| - 1];
      BlankLinesIgnored(front, parse);
      ContributionMeaning(last, parse);
      if AllSpace(last) {
        assert NonBlank(lines) == NonBlank(front);
        match Fold(front, StepOf(parse))
        case Err(f) =>
        case Ok(acc) => assert acc + [] == acc;
      } else {
        var nb := NonBlank(front);
        assert NonBlank(lines) == nb + [last];
        assert (nb + [last])[..|nb|] == nb;
      }
    }
  }

  // ------------------------------------------------------------------
  // Properties of the whole body and of the script.
  // ------------------------------------------------------------------

  /** Whitespace around the body (a trailing newline, say) does not change
      the reassembly. */
  lemma SurroundingWhitespaceIgnored(w1: string, body: string, w2: string, parse: Parser)
    requires AllSpace(w1) && AllSpace(w2)
    ensures Reassemble(w1 + body + w2, parse) == Reassemble(body, parse)
  {
    StripPadded(w1, body, w2);
  }

  /** An empty or whitespace-only body writes the empty string. */
  lemma BlankBodyWritesEmpty(body: string, parse: Parser)
    requires AllSpace(body)
    ensures ScriptOutcome(200, body, parse) == Written([])
  {
    assert Strip(body) == [];
    assert Pieces(body) == [[]];
    assert Pieces(body)[..0] == [];
    ContributionMeaning([], parse);
    assert Fold([], StepOf(parse)) == Ok([]);
    assert StepOf(parse)([]) == Ok([]);
    assert [] + [] == "";
  }

  /** The script writes a file exactly when the status is 200 and every
      line is acceptable, and what it writes is the in-order concatenation
      of the `response` texts of the non-blank lines of the stripped body. */
  lemma WrittenIff(status: int, body: string, parse: Parser)
    ensures ScriptOutcome(status, body, parse).Written? <==>
      status == 200 && forall i | 0 <= i < |Pieces(body)| :: Acceptable(Pieces(body)[i], parse)
    ensures ScriptOutcome(status, body, parse).Written? ==>
      ScriptOutcome(status, body, parse).text == Concat(Responses(NonBlank(Pieces(body)), parse))
  {
    FoldSucceedsIff(Pieces(body), parse);
    if Fold(Pieces(body), StepOf(parse)).Ok? {
      FoldText(Pieces(body), parse);
    }
  }

  /** Fail-fast at the level of the script: the first unacceptable line
      decides between a decode error and any other error, and nothing is
      written even though the lines before it were accumulated. */
  lemma FirstBadLineDecides(body: string, k: nat, parse: Parser)
    requires k < |Pieces(body)|
    requires forall i | 0 <= i < k :: Acceptable(Pieces(body)[i], parse)
    requires !Acceptable(Pieces(body)[k], parse)
    ensures ScriptOutcome(200, body, parse) ==
      if parse(Pieces(body)[k]) == Err(Malformed) then DecodeError else OtherError
  {
    FoldFailsAtFirstFault(Pieces(body), k, parse);
  }
}
