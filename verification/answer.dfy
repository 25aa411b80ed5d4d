/**
 * Extraction of the assistant's answer from what the host's `ask` call
 * resolves to, which is either a string or an object carrying the text in
 * its `response` property.
 */
module Answer {
  import opened Wrappers

  /** The value of the reply object's `response` property when it is present. */
  datatype Field = TextField(text: string) | OtherField

  /**
   * What `ask` resolves to: a string; an object, whose `response` property
   * may be missing; or any other value (null, undefined, a number, a boolean).
   */
  datatype Reply = TextReply(text: string) | ObjectReply(response: Option<Field>) | OtherReply

  /** The reply carries its answer as text, either directly or in `response`. */
  predicate CarriesText(reply: Reply) {
    reply.TextReply? || (reply.ObjectReply? && reply.response.Some? && reply.response.value.TextField?)
  }

  /**
   * The answer: a string reply as it is, else a string `response`, else
   * nothing (`null`).
   */
  function ExtractAnswer(reply: Reply): (r: Option<string>)
    ensures r.Some? <==> CarriesText(reply)
    ensures reply.TextReply? ==> r == Some(reply.text)
    ensures reply.ObjectReply? && CarriesText(reply) ==> r == Some(reply.response.value.text)
  {
    match reply
    case TextReply(text) => Some(text)
    case ObjectReply(Some(TextField(text))) => Some(text)
    case _ => None
  }

  /**
   * `if (answer) write(answer)`: the text written to the chat, present
   * exactly when the answer exists and is not the empty string.
   */
  function WrittenAnswer(reply: Reply): (r: Option<string>)
    ensures r.Some? <==> ExtractAnswer(reply).Some? && ExtractAnswer(reply).value != ""
    ensures r.Some? ==> r == ExtractAnswer(reply) && r.value != ""
  {
    match ExtractAnswer(reply)
    case Some(answer) => if answer != "" then Some(answer) else None
    case None => None
  }
}
