/** The advisory names of the protocol. Nothing in the codec checks a message
    against them; the response deriver looks three of the header names up. */
module Names {
  // Kinds
  const Event := "EVENT"
  const Failure := "FAILURE"

  // Statuses of an Event
  const Ok := "Ok"
  const Accepted := "Accepted"
  const NoContent := "No-Content"

  // Statuses of a Failure
  const BadRequest := "Bad-Request"
  const InternalError := "Internal-Error"
  const NotFound := "Not-Found"
  const Forbidded := "Forbidded"
  const Unauthorized := "Unauthorized"
  const Timeout := "Timeout"

  // Header names
  const ContentType := "Content-Type"
  const CorrelationId := "Correlation-Id"
  const Date := "Date"
  const From := "From"
  const Trace := "Trace"
  const Payload := "Payload"
}

/** The values the codec produces and consumes. */
module Messages {
  import opened Wrappers
  import Names

  /** A parsed message. The kind is whatever alphabetic token the intro line
      carries, and the body is text (bytes are modelled as characters). */
  datatype Message = Message(
    version: string,
    kind: string,
    status: Option<string>,
    action: string,
    headers: map<string, string>,
    body: Option<string>)

  /** A message under construction, filled in place. Only the operations
      the codec calls are modelled; a new builder has kind EVENT and no
      status, action, headers or body. */
  class MessageBuilder {
    var kind: string
    var status: Option<string>
    var action: Option<string>
    var headers: map<string, string>
    var body: Option<string>

    constructor ()
      ensures kind == Names.Event && status == None && action == None
      ensures headers == map[] && body == None
    {
      kind := Names.Event;
      status := None;
      action := None;
      headers := map[];
      body := None;
    }

    /** event(): kind EVENT without a status. */
    method Event()
      modifies this
      ensures kind == Names.Event && status == None
      ensures action == old(action) && headers == old(headers) && body == old(body)
    {
      kind := Names.Event;
      status := None;
    }

    method WithAction(action: string)
      modifies this
      ensures this.action == Some(action)
      ensures kind == old(kind) && status == old(status) && headers == old(headers) && body == old(body)
    {
      this.action := Some(action);
    }

    /** Sets one header, replacing an earlier value of the same name. */
    method WithHeader(name: string, value: string)
      modifies this
      ensures headers == old(headers)[name := value]
      ensures kind == old(kind) && status == old(status) && action == old(action) && body == old(body)
    {
      headers := headers[name := value];
    }
  }
}
