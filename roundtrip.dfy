/** parse after format: what format writes is read back by parse, with the
    version fixed at 1.0 and the body re-terminated. */
module RoundTrip {
  import opened Wrappers
  import opened Chars
  import opened Lines
  import opened Grammar
  import opened Messages
  import opened Parser
  import opened Formatter

  /** The fields format can write so that parse reads them back: an
      alphabetic kind, a [-\w]+ status, an action without line terminators
      or leading white space, non-empty colon-free header names without line
      breaks, and header values without line terminators or leading white
      space. */
  ghost predicate Transmissible(kind: string, status: Option<string>, action: string,
                                headers: map<string, string>)
  {
    && IntroFields(Intro(Version, kind, status, action))
    && WellFormedHeaders(headers)
  }

  lemma VersionChars()
    ensures |Version| > 0 && AllIn(Version, VersionChar)
  {
    assert forall i :: 0 <= i < |Version| ==> Version[i] in "1.0";
  }

  /** parse reads the fields of format's intro line back. */
  lemma IntroReads(kind: string, status: Option<string>, action: string)
    requires IntroFields(Intro(Version, kind, status, action))
    ensures MatchIntro(IntroText(kind, status, action)) == Some(Intro(Version, kind, status, action))
  {
    VersionChars();
    assert AllIn(" ", Space);
    IntroComplete(Version, " ", kind, status, " ", action);
    assert SpanLen(action, Space) == 0;
    assert action[0..] == action;
  }

  /** format's intro line is a single line. */
  lemma IntroOneLine(kind: string, status: Option<string>, action: string)
    requires IntroFields(Intro(Version, kind, status, action))
    ensures NoLineBreaks(IntroText(kind, status, action))
  {
    VersionChars();
    AllInNoLineBreaks(Version, VersionChar);
    AllInNoLineBreaks(kind, Alpha);
    var suffix := StatusSuffix(status);
    assert NoLineBreaks(suffix) by {
      if status.Some? {
        AllInNoLineBreaks(status.value, StatusChar);
        NoLineBreaksAppend("/", status.value);
      }
    }
    NoTerminatorsNoLineBreaks(action);
    NoLineBreaksAppend(" ", action);
    NoLineBreaksAppend(suffix, " " + action);
    NoLineBreaksAppend(kind, suffix + (" " + action));
    NoLineBreaksAppend(" ", kind + (suffix + (" " + action)));
    NoLineBreaksAppend(Version, " " + (kind + (suffix + (" " + action))));
    NoLineBreaksAppend("SAMP/", Version + (" " + (kind + (suffix + (" " + action)))));
  }

  /** A header line format writes is one non-empty line that parse reads back
      as the same name and value. */
  lemma HeaderReads(name: string, value: string)
    requires FieldShape(Field(name, value)) && NoLineBreaks(name)
    ensures NoLineBreaks(HeaderLine(name, " ", value)) && HeaderLine(name, " ", value) != ""
    ensures MatchHeader(HeaderLine(name, " ", value)) == Some(Field(name, value))
  {
    assert AllIn(" ", Space);
    HeaderComplete(name, " ", value);
    assert SpanLen(value, Space) == 0;
    assert value[0..] == value;
    NoTerminatorsNoLineBreaks(value);
    NoLineBreaksAppend(" ", value);
    NoLineBreaksAppend(":", " " + value);
    NoLineBreaksAppend(name, ":" + (" " + value));
  }

  /** The map restricted to some keys. */
  ghost function Restrict(headers: map<string, string>, keys: seq<string>): map<string, string>
    requires forall k :: k in keys ==> k in headers
  {
    map k | k in keys :: headers[k]
  }

  lemma RestrictSnoc(headers: map<string, string>, keys: seq<string>, k: string)
    requires k in headers && forall x :: x in keys ==> x in headers
    ensures Restrict(headers, keys + [k]) == Restrict(headers, keys)[k := headers[k]]
  {
  }

  /** The header lines for some keys are read back as the map restricted to
      those keys. */
  lemma {:induction false} HeaderLinesRead(headers: map<string, string>, keys: seq<string>)
    requires WellFormedHeaders(headers)
    requires forall k :: k in keys ==> k in headers
    ensures Headers(HeaderLines(headers, keys)) == Restrict(headers, keys)
    decreases |keys|
  {
    if keys != [] {
      var n := |keys| - 1;
      var init, last := keys[..n], keys[n];
      assert keys == init + [last];
      HeaderLinesRead(headers, init);
      var line := HeaderLine(last, " ", headers[last]);
      HeaderLinesSnoc(headers, init, last);
      HeadersStep(HeaderLines(headers, init), line);
      HeaderReads(last, headers[last]);
      RestrictSnoc(headers, init, last);
    }
  }

  /** The header lines format writes: each one line, none empty. */
  lemma HeaderLinesShape(headers: map<string, string>, keys: seq<string>)
    requires WellFormedHeaders(headers)
    requires forall k :: k in keys ==> k in headers
    ensures forall i :: 0 <= i < |keys| ==>
              NoLineBreaks(HeaderLines(headers, keys)[i]) && HeaderLines(headers, keys)[i] != ""
  {
    forall i | 0 <= i < |keys|
      ensures NoLineBreaks(HeaderLines(headers, keys)[i]) && HeaderLines(headers, keys)[i] != ""
    {
      HeaderReads(keys[i], headers[keys[i]]);
    }
  }

  lemma RestrictAll(headers: map<string, string>, keys: seq<string>)
    requires forall k :: k in headers <==> k in keys
    ensures Restrict(headers, keys) == headers
  {
  }

  /** parse(format(kind, status, action, headers, body)) gives version 1.0,
      the same kind, status, action and headers, and the body as readLine
      reads it and the parser re-terminates it. */
  lemma ParseFormat(kind: string, status: Option<string>, action: string,
                    headers: map<string, string>, body: Option<string>)
    requires Transmissible(kind, status, action, headers)
    ensures Parsed(Formatted(kind, status, action, headers, body))
         == Success(Message(Version, kind, status, action, headers, BodyOf(ReadLines(body.GetOr("")))))
  {
    var intro := IntroText(kind, status, action);
    var keys := SortedKeys(headers.Keys);
    var block := HeaderLines(headers, keys);
    IntroReads(kind, status, action);
    IntroOneLine(kind, status, action);
    HeaderLinesShape(headers, keys);
    ParseLayout(intro, block, body.GetOr(""));
    HeaderLinesRead(headers, keys);
    RestrictAll(headers, keys);
  }

  /** For a body without carriage returns the body comes back absent when
      empty, as written when it ends in "\n", and with "\n" added otherwise. */
  lemma ParseFormatNoCarriageReturn(kind: string, status: Option<string>, action: string,
                                    headers: map<string, string>, body: Option<string>)
    requires Transmissible(kind, status, action, headers)
    requires body.Some? ==> '\r' !in body.value
    ensures Parsed(Formatted(kind, status, action, headers, body))
         == Success(Message(Version, kind, status, action, headers, Reterminated(body.GetOr(""))))
  {
    ParseFormat(kind, status, action, headers, body);
    BodyNormalization(body.GetOr(""));
  }

  /** format after a successful parse writes text that parses to the same
      message, except that the version becomes 1.0. */
  lemma FormatParse(message: string)
    requires Parsed(message).Success?
    ensures var m := Parsed(message).value;
            Parsed(Formatted(m.kind, m.status, m.action, m.headers, m.body)) == Success(m.(version := Version))
  {
    var m := Parsed(message).value;
    ParsedWellFormed(message);
    VersionChars();
    assert Transmissible(m.kind, m.status, m.action, m.headers);
    if m.body.Some? {
      var ls :| ls != [] && (forall k :: 0 <= k < |ls| ==> NoLineBreaks(ls[k])) && m.body.value == Terminated(ls);
      TerminatedNoCarriageReturn(ls);
    }
    ParseFormatNoCarriageReturn(m.kind, m.status, m.action, m.headers, m.body);
  }
}
