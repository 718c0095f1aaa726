/** The decoded form of the JSON objects the voting programs exchange over the broker. */
module Wire {

  datatype Option<+T> = None | Some(value: T) {
    /** `data.get(key, default)` */
    function GetOr(default: T): T {
      match this
      case Some(v) => v
      case None => default
    }
  }

  /** A decoded message payload: one optional field per key any of the programs reads or
      writes. A key that is absent from the JSON object is `None`; `choix` is the alternative
      spelling of `choices` that the voting client also accepts. */
  datatype Payload = Payload(
    question: Option<string>,
    choices: Option<seq<string>>,
    choix: Option<seq<string>>,
    reponse: Option<string>,
    pseudo: Option<string>,
    timestamp: Option<real>)

  /** The object `{}` with no keys. */
  const EmptyPayload := Payload(None, None, None, None, None, None)

  /** `{"question": question, "choices": choices}`, the announcement of a poll. */
  function QuestionPayload(question: string, choices: seq<string>): Payload {
    EmptyPayload.(question := Some(question), choices := Some(choices))
  }
}
