/** The failures a run of the client can end in, with the text the binary
    writes for each (`main` prints an error with `{:#}`, which shows every
    context layer, outermost first, separated by `": "`). Messages of foreign
    errors (I/O, TLS, DNS) are not modelled. */
module Errors {
  import opened Text

  datatype Error =
    | TokenFlagEmpty                       // `--token` trimmed to nothing
    | StdinUnreadable                      // reading the token from stdin failed
    | StdinEmpty                           // stdin trimmed to nothing
    | NoTokenFound(names: seq<string>)     // no environment variable is set
    | ClientTokenEmpty                     // the client was given an empty token
    | RequestFailed                        // transport failure, no response
    | BodyUnreadable                       // a response arrived but its body could not be read
    | Api(status: nat, message: string)    // a non-2xx response
    | CurrentConfigMissing(field: string)  // the merge source lacks a field
    | Aborted                              // the user declined a confirmation
    | WithContext(context: string, cause: Error)
  {
    /** The text `{:#}` prints for this error: never empty, and for a context
        layer the context, `": "`, then the text of the error it wraps. */
    function Message(): (r: string)
      ensures r != []
      ensures this.WithContext? ==>
                && OccursAt(r, this.context + ": ", 0)
                && r[|this.context| + 2..] == this.cause.Message()
    {
      match this
      case TokenFlagEmpty => "--token value must not be empty"
      case StdinUnreadable => "failed to read token from stdin"
      case StdinEmpty => "stdin was empty; expected a token"
      case NoTokenFound(names) => "No MotherDuck token found. Set one of: " + Join(names, ", ")
      case ClientTokenEmpty => "MotherDuck API token must not be empty"
      case RequestFailed => "request failed"
      case BodyUnreadable => "failed to read response body"
      case Api(status, message) => "API error (" + Decimal(status) + "): " + message
      case CurrentConfigMissing(field) => "current config missing " + field
      case Aborted => "aborted"
      case WithContext(context, cause) => context + ": " + cause.Message()
    }
  }

  /** An API error's text carries both the status number and the message, the
      two things a user needs to tell one failure from another. */
  lemma ApiMessageNamesStatusAndMessage(status: nat, message: string)
    ensures var m := Api(status, message).Message();
            && m[..11] == "API error ("
            && Contains(m, Decimal(status))
            && Contains(m, message)
            && m[|m| - |message|..] == message
  {
    var d := Decimal(status);
    var m := Api(status, message).Message();
    assert m == "API error (" + d + "): " + message;
    assert OccursAt(m, d, 11);
    assert OccursAt(m, message, |m| - |message|);
  }

  /** A status number is recoverable from an API error's text: the digits
      between the opening parenthesis and `"): "` read back as the status. */
  lemma ApiMessageStatusReadable(status: nat, message: string)
    ensures var m, d := Api(status, message).Message(), Decimal(status);
            && m[11..11 + |d|] == d
            && m[11 + |d|..14 + |d|] == "): "
            && DecimalValue(m[11..11 + |d|]) == status
  {
    var d := Decimal(status);
    var m := Api(status, message).Message();
    assert m == "API error (" + d + "): " + message;
    assert m[11..11 + |d|] == d;
    assert m[11 + |d|..14 + |d|] == "): ";
    DecimalRoundTrip(status);
  }
}
