/**
 * The request payload the script posts to the local generation service:
 * a fixed model and token limit, and a prompt made of the instructions,
 * one space and the code under review.
 */
module Request {

  /** The JSON body of the POST request (the sampling temperature is not modelled). */
  datatype Payload = Payload(model: string, prompt: string, maxTokens: nat)

  const Model: string := "codellama"
  const MaxTokens: nat := 100

  /** The prompt: the instructions, then exactly one space, then the code,
      each copied unchanged. */
  function Prompt(instructions: string, code: string): (p: string)
    ensures |p| == |instructions| + 1 + |code|
    ensures p[..|instructions|] == instructions
    ensures p[|instructions|] == ' '
    ensures p[|instructions| + 1..] == code
  {
    instructions + " " + code
  }

  /** Knowing how long the instructions are, the prompt gives back both
      the instructions and the code: nothing is lost or altered. */
  lemma PromptRecoverable(i1: string, c1: string, i2: string, c2: string)
    requires |i1| == |i2|
    requires Prompt(i1, c1) == Prompt(i2, c2)
    ensures i1 == i2 && c1 == c2
  {
    var p := Prompt(i1, c1);
    assert i1 == p[..|i1|] == i2;
    assert c1 == p[|i1| + 1..] == c2;
  }

  /** The payload of the one request the script makes. */
  function BuildPayload(instructions: string, code: string): (p: Payload)
    ensures p.model == Model && p.maxTokens == MaxTokens
    ensures p.prompt == Prompt(instructions, code)
  {
    Payload(Model, instructions + " " + code, MaxTokens)
  }
}
