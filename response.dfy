/** Samp.response: the reply to a message, with kind EVENT, the same action,
    the correlation and sender headers copied, and the trace extended. */
module Responses {
  import opened Wrappers
  import opened Messages
  import opened TracePaths
  import Names

  /** The hop recorded when a reply names none. */
  const Unknown := "?"

  /** The headers a reply to a message with `source` headers carries. */
  function ReplyHeaders(source: map<string, string>, tracePath: Option<string>): (r: map<string, string>)
    ensures r.Keys <= {Names.CorrelationId, Names.From, Names.Trace}
    ensures Names.CorrelationId in r <==> Names.CorrelationId in source
    ensures Names.CorrelationId in r ==> r[Names.CorrelationId] == source[Names.CorrelationId]
    ensures Names.From in r <==> Names.From in source
    ensures Names.From in r ==> r[Names.From] == source[Names.From]
    ensures Names.Trace in r <==> Names.Trace in source || tracePath.Some?
    ensures Names.Trace in source ==> r[Names.Trace] == AppendTracePath(source[Names.Trace], tracePath.GetOr(Unknown))
    ensures Names.Trace !in source && tracePath.Some? ==> r[Names.Trace] == tracePath.value
  {
    var withId := if Names.CorrelationId in source
                  then map[Names.CorrelationId := source[Names.CorrelationId]] else map[];
    var withFrom := if Names.From in source then withId[Names.From := source[Names.From]] else withId;
    if Names.Trace in source then withFrom[Names.Trace := AppendTracePath(source[Names.Trace], tracePath.GetOr(Unknown))]
    else if tracePath.Some? then withFrom[Names.Trace := tracePath.value]
    else withFrom
  }

  /** The private response(message, Optional tracePath): fills a new builder
      step by step. */
  method Derive(message: Message, tracePath: Option<string>) returns (b: MessageBuilder)
    ensures fresh(b)
    ensures b.kind == Names.Event && b.status == None && b.action == Some(message.action) && b.body == None
    ensures b.headers == ReplyHeaders(message.headers, tracePath)
  {
    b := new MessageBuilder();
    b.Event();
    b.WithAction(message.action);
    if Names.CorrelationId in message.headers {
      b.WithHeader(Names.CorrelationId, message.headers[Names.CorrelationId]);
    }
    if Names.From in message.headers {
      b.WithHeader(Names.From, message.headers[Names.From]);
    }
    if Names.Trace in message.headers {
      b.WithHeader(Names.Trace, AppendTracePath(message.headers[Names.Trace], tracePath.GetOr(Unknown)));
    } else if tracePath.Some? {
      b.WithHeader(Names.Trace, tracePath.value);
    }
  }

  /** response(message): no hop of its own. */
  method Response(message: Message) returns (b: MessageBuilder)
    ensures fresh(b)
    ensures b.kind == Names.Event && b.status == None && b.action == Some(message.action) && b.body == None
    ensures b.headers == ReplyHeaders(message.headers, None)
  {
    b := Derive(message, None);
  }

  /** response(message, tracePath) */
  method ResponseWithTrace(message: Message, tracePath: string) returns (b: MessageBuilder)
    ensures fresh(b)
    ensures b.kind == Names.Event && b.status == None && b.action == Some(message.action) && b.body == None
    ensures b.headers == ReplyHeaders(message.headers, Some(tracePath))
  {
    b := Derive(message, Some(tracePath));
  }

  /** Read back with tracePaths, the trace of a reply to `source` is the
      source's hops and then the new hop ("?" when none is named), or the new
      hop alone when the source had no trace. The source trace must not end
      in a dot and the hop must be non-empty and free of "...", or the split
      would merge or drop pieces. */
  lemma ReplyHops(source: Message, reply: Message, tracePath: Option<string>)
    requires reply.headers == ReplyHeaders(source.headers, tracePath)
    requires Names.Trace in source.headers ==> !EndsWithDot(source.headers[Names.Trace])
    requires tracePath.Some? ==> tracePath.value != "" && !ContainsDelim(tracePath.value)
    ensures TracePaths.TracePaths(reply) ==
            if Names.Trace in source.headers then TracePaths.TracePaths(source) + [tracePath.GetOr(Unknown)]
            else if tracePath.Some? then [tracePath.value]
            else []
  {
    if Names.Trace in source.headers {
      var hop := tracePath.GetOr(Unknown);
      assert !ContainsDelim(hop) by {
        if tracePath.None? {
          assert forall i :: 0 <= i < |Unknown| ==> !DelimAt(Unknown, i);
        }
      }
      SplitAppend(source.headers[Names.Trace], hop);
    }
  }
}
