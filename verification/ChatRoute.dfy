/** The chat endpoint's context window: the text of a message, the token
    estimate, and the truncation that keeps the newest messages fitting a
    character budget. */
module ChatRoute {
  import opened Wrappers
  import opened ChatTypes
  import Strings

  const MaxContextChars := 100000

  /** One part of a message. `input` and `output` hold the JSON text of a
      tool part's input and output when the part has them. */
  datatype Part = Part(isText: bool, text: string, input: Option<string>, output: Option<string>)

  datatype Message = Message(role: Role, parts: seq<Part>)

  /** `Math.ceil(text.length / 4)`. */
  function EstimateTokens(text: string): (r: nat)
    ensures 4 * r >= |text| && 4 * r < |text| + 4
  {
    (|text| + 3) / 4
  }

  /** The text a part contributes: its text, else its input, else its
      output, else nothing. */
  function PartText(p: Part): string {
    if p.isText then p.text
    else if p.input.Some? then p.input.value
    else if p.output.Some? then p.output.value
    else ""
  }

  function PartTexts(parts: seq<Part>): (r: seq<string>)
    ensures |r| == |parts| && forall k :: 0 <= k < |r| ==> r[k] == PartText(parts[k])
  {
    seq(|parts|, k requires 0 <= k < |parts| => PartText(parts[k]))
  }

  /** `getMessageText`: the parts' texts joined with single spaces, as long
      as those texts plus one space between every two parts. */
  function MessageText(m: Message): (r: string)
    ensures |r| == TotalLength(PartTexts(m.parts)) + (if m.parts == [] then 0 else |m.parts| - 1)
    ensures |m.parts| == 1 ==> r == PartText(m.parts[0])
  {
    JoinLength(PartTexts(m.parts));
    Strings.Join(PartTexts(m.parts), " ")
  }

  function TotalLength(xs: seq<string>): nat {
    if xs == [] then 0 else |xs[0]| + TotalLength(xs[1..])
  }

  /** Joining with a one-character separator adds one character between
      every two pieces. */
  lemma {:induction false} JoinLength(xs: seq<string>)
    ensures |Strings.Join(xs, " ")| == TotalLength(xs) + (if xs == [] then 0 else |xs| - 1)
  {
    if |xs| > 1 {
      JoinLength(xs[1..]);
    }
  }

  /** The summed text length of a list of messages. */
  function Chars(ms: seq<Message>): nat {
    if ms == [] then 0 else |MessageText(ms[0])| + Chars(ms[1..])
  }

  lemma {:induction false} CharsPrepend(m: Message, ms: seq<Message>)
    ensures Chars([m] + ms) == |MessageText(m)| + Chars(ms)
  {
    assert ([m] + ms)[1..] == ms;
  }

  /** `truncateMessages`: walks from the newest message back, keeping each
      while the kept text still fits `maxChars`, and always keeps the newest
      one. The result is the newest `|result|` messages in their order; it
      is empty only for no messages; it fits the budget unless it is the
      newest message alone; and the message before it would not have fit. */
  method TruncateMessages(messages: seq<Message>, maxChars: int) returns (result: seq<Message>)
    ensures |result| <= |messages| && result == messages[|messages| - |result|..]
    ensures (result == []) <==> (messages == [])
    ensures Chars(result) <= maxChars || |result| <= 1
    ensures 0 < |result| < |messages| ==>
      Chars(result) + |MessageText(messages[|messages| - |result| - 1])| > maxChars
  {
    var totalChars := 0;
    result := [];
    var i := |messages| - 1;
    while i >= 0
      invariant -1 <= i < |messages|
      invariant result == messages[i + 1..]
      invariant totalChars == Chars(result)
      invariant totalChars <= maxChars || |result| <= 1
      decreases i
    {
      var msgChars := |MessageText(messages[i])|;
      if totalChars + msgChars > maxChars && |result| > 0 {
        break;
      }
      CharsPrepend(messages[i], result);
      assert [messages[i]] + messages[i + 1..] == messages[i..];
      totalChars := totalChars + msgChars;
      result := [messages[i]] + result;
      i := i - 1;
    }
  }
}
