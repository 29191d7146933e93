/** The two line patterns of the codec, written as explicit matchers:

      intro:  SAMP/([0-9.]+)\s+([a-zA-Z]+)((?:/[-\w]+)?)\s+(.*)
      header: ([^:]+):\s+(.*)

    Both are applied with Matcher.matches, so the whole line must match. Each
    matcher is paired with a reference definition of the language its pattern
    denotes (IntroMatches, HeaderMatches) and proved to accept exactly that
    language, and to pick the groups a greedy backtracking matcher picks. */
module Grammar {
  import opened Wrappers
  import opened Chars

  /** Length of the longest prefix of s whose characters are all in cls: how
      far a greedy `cls+` reaches. */
  function SpanLen(s: string, cls: CharClass): (n: nat)
    ensures n <= |s|
    ensures forall i :: 0 <= i < n ==> InClass(cls, s[i])
    ensures n < |s| ==> !InClass(cls, s[n])
  {
    if s == [] || !InClass(cls, s[0]) then 0 else 1 + SpanLen(s[1..], cls)
  }

  lemma SplitAt(s: string, n: nat)
    requires n <= |s|
    ensures s == s[..n] + s[n..]
  {
  }

  lemma DropAppend(x: string, y: string, k: nat)
    requires k <= |y|
    ensures (x + y)[|x| + k..] == y[k..]
  {
  }

  lemma NoTerminatorsSuffix(s: string, k: nat)
    requires k <= |s| && NoTerminators(s)
    ensures NoTerminators(s[k..])
  {
    assert forall i :: 0 <= i < |s| - k ==> s[k..][i] == s[k + i];
  }

  /** The span is a prefix of class characters. */
  lemma SpanPrefix(s: string, cls: CharClass)
    ensures AllIn(s[..SpanLen(s, cls)], cls)
  {
    var n := SpanLen(s, cls);
    assert forall i :: 0 <= i < n ==> s[..n][i] == s[i];
  }

  /** A run of class characters is consumed whole, and the span continues
      into what follows. */
  lemma {:induction false} SpanLenAppend(x: string, y: string, cls: CharClass)
    requires AllIn(x, cls)
    ensures SpanLen(x + y, cls) == |x| + SpanLen(y, cls)
    decreases |x|
  {
    if x == [] {
      assert x + y == y;
    } else {
      assert (x + y)[0] == x[0];
      assert (x + y)[1..] == x[1..] + y;
      SpanLenAppend(x[1..], y, cls);
    }
  }

  /** A span stops at a non-class character or at the end. */
  lemma SpanLenStops(x: string, y: string, cls: CharClass)
    requires AllIn(x, cls)
    requires y == [] || !InClass(cls, y[0])
    ensures SpanLen(x + y, cls) == |x|
  {
    SpanLenAppend(x, y, cls);
  }

  // ---------------------------------------------------------------- intro line

  /** The four groups of the intro pattern, with the status group's slash
      removed and an empty status group read as absent. */
  datatype Intro = Intro(version: string, kind: string, status: Option<string>, action: string)

  /** The text of the optional status group. */
  function StatusSuffix(status: Option<string>): string {
    match status
    case None => ""
    case Some(s) => "/" + s
  }

  ghost predicate ValidStatus(status: Option<string>) {
    status.Some? ==> |status.value| > 0 && AllIn(status.value, StatusChar)
  }

  /** The pieces of a line in the language of the intro pattern. */
  ghost predicate IntroParts(version: string, ws1: string, kind: string, status: Option<string>,
                             ws2: string, action: string)
  {
    && |version| > 0 && AllIn(version, VersionChar)
    && |ws1| > 0 && AllIn(ws1, Space)
    && |kind| > 0 && AllIn(kind, Alpha)
    && ValidStatus(status)
    && |ws2| > 0 && AllIn(ws2, Space)
    && NoTerminators(action)
  }

  function IntroLine(version: string, ws1: string, kind: string, status: Option<string>,
                     ws2: string, action: string): string
  {
    "SAMP/" + (version + (ws1 + (kind + (StatusSuffix(status) + (ws2 + action)))))
  }

  /** The language of the intro pattern. */
  ghost predicate IntroMatches(line: string) {
    exists version, ws1, kind, status, ws2, action ::
      IntroParts(version, ws1, kind, status, ws2, action) &&
      line == IntroLine(version, ws1, kind, status, ws2, action)
  }

  /** Groups that a match can yield: the greedy \s+ before the action leaves
      the action without leading white space. */
  ghost predicate IntroFields(i: Intro) {
    && |i.version| > 0 && AllIn(i.version, VersionChar)
    && |i.kind| > 0 && AllIn(i.kind, Alpha)
    && ValidStatus(i.status)
    && NoTerminators(i.action)
    && (i.action == [] || !IsSpace(i.action[0]))
  }

  /** The last \s+ and the (.*) group. */
  function MatchAction(version: string, kind: string, status: Option<string>, s: string): (r: Option<Intro>)
    ensures r.Some? ==> r.value.version == version && r.value.kind == kind && r.value.status == status
    ensures r.Some? ==> NoTerminators(r.value.action) && (r.value.action == [] || !IsSpace(r.value.action[0]))
  {
    var w := SpanLen(s, Space);
    if w == 0 || !NoTerminators(s[w..]) then None
    else Some(Intro(version, kind, status, s[w..]))
  }

  /** The optional group (?:/[-\w]+)? and what follows it. Its two
      alternatives cannot both apply: one starts with '/', the other needs
      white space next. */
  function MatchStatus(version: string, kind: string, s: string): (r: Option<Intro>)
    ensures r.Some? ==> r.value.version == version && r.value.kind == kind && ValidStatus(r.value.status)
    ensures r.Some? ==> NoTerminators(r.value.action) && (r.value.action == [] || !IsSpace(r.value.action[0]))
  {
    if s != [] && s[0] == '/' then
      var t := SpanLen(s[1..], StatusChar);
      if t == 0 then None
      else MatchAction(version, kind, Some(s[1..][..t]), s[1..][t..])
    else MatchAction(version, kind, None, s)
  }

  /** \s+([a-zA-Z]+) and what follows it. */
  function MatchKind(version: string, s: string): (r: Option<Intro>)
    ensures r.Some? ==> r.value.version == version && |r.value.kind| > 0 && AllIn(r.value.kind, Alpha)
    ensures r.Some? ==> ValidStatus(r.value.status) && NoTerminators(r.value.action)
    ensures r.Some? ==> r.value.action == [] || !IsSpace(r.value.action[0])
  {
    var w := SpanLen(s, Space);
    var rest := s[w..];
    var k := SpanLen(rest, Alpha);
    if w == 0 || k == 0 then None
    else MatchStatus(version, rest[..k], rest[k..])
  }

  /** ([0-9\.]+) and what follows it. */
  function MatchVersion(s: string): (r: Option<Intro>)
    ensures r.Some? ==> IntroFields(r.value)
  {
    var v := SpanLen(s, VersionChar);
    if v == 0 then None else MatchKind(s[..v], s[v..])
  }

  /** introPattern.matcher(line).matches(), with its groups. */
  function MatchIntro(line: string): (r: Option<Intro>)
    ensures r.Some? ==> IntroFields(r.value)
  {
    if |line| < 5 || line[..5] != "SAMP/" then None
    else MatchVersion(line[5..])
  }

  lemma MatchActionAt(version: string, kind: string, status: Option<string>, s: string, w: nat, action: string)
    requires SpanLen(s, Space) == w && w > 0 && s[w..] == action && NoTerminators(action)
    ensures MatchAction(version, kind, status, s) == Some(Intro(version, kind, status, action))
  {
  }

  lemma MatchActionComplete(version: string, kind: string, status: Option<string>, ws: string, action: string)
    requires |ws| > 0 && AllIn(ws, Space) && NoTerminators(action)
    ensures MatchAction(version, kind, status, ws + action)
         == Some(Intro(version, kind, status, action[SpanLen(action, Space)..]))
  {
    var k := SpanLen(action, Space);
    SpanLenAppend(ws, action, Space);
    DropAppend(ws, action, k);
    NoTerminatorsSuffix(action, k);
    MatchActionAt(version, kind, status, ws + action, |ws| + k, action[k..]);
  }

  /** A status group followed by what the action part matches. */
  lemma MatchStatusSlash(version: string, kind: string, s: string, st: string, tail: string)
    requires s != [] && s[0] == '/' && SpanLen(s[1..], StatusChar) == |st| && |st| > 0
    requires s[1..][..|st|] == st && s[1..][|st|..] == tail
    ensures MatchStatus(version, kind, s) == MatchAction(version, kind, Some(st), tail)
  {
  }

  /** Without a slash the status group is empty. */
  lemma MatchStatusNoSlash(version: string, kind: string, s: string)
    requires s == [] || s[0] != '/'
    ensures MatchStatus(version, kind, s) == MatchAction(version, kind, None, s)
  {
  }

  lemma MatchStatusComplete(version: string, kind: string, status: Option<string>, ws: string, action: string)
    requires ValidStatus(status) && |ws| > 0 && AllIn(ws, Space) && NoTerminators(action)
    ensures MatchStatus(version, kind, StatusSuffix(status) + (ws + action))
         == Some(Intro(version, kind, status, action[SpanLen(action, Space)..]))
  {
    MatchActionComplete(version, kind, status, ws, action);
    if status.Some? {
      StatusPresent(status.value, ws + action);
      MatchStatusSlash(version, kind, StatusSuffix(status) + (ws + action), status.value, ws + action);
    } else {
      assert StatusSuffix(status) + (ws + action) == ws + action;
      assert (ws + action)[0] == ws[0];
      MatchStatusNoSlash(version, kind, ws + action);
    }
  }

  /** With a status, the optional group takes the slash and the whole token. */
  lemma StatusPresent(st: string, tail: string)
    requires |st| > 0 && AllIn(st, StatusChar)
    requires tail != [] && IsSpace(tail[0])
    ensures var s := StatusSuffix(Some(st)) + tail;
            s != [] && s[0] == '/' && SpanLen(s[1..], StatusChar) == |st| &&
            s[1..][..|st|] == st && s[1..][|st|..] == tail
  {
    var s := StatusSuffix(Some(st)) + tail;
    assert s[1..] == st + tail;
    SpanLenStops(st, tail, StatusChar);
  }

  lemma MatchKindComplete(version: string, ws1: string, kind: string, status: Option<string>,
                          ws2: string, action: string)
    requires IntroParts(version, ws1, kind, status, ws2, action)
    ensures MatchKind(version, ws1 + (kind + (StatusSuffix(status) + (ws2 + action))))
         == Some(Intro(version, kind, status, action[SpanLen(action, Space)..]))
  {
    var afterKind := StatusSuffix(status) + (ws2 + action);
    var afterSpace := kind + afterKind;
    assert afterKind[0] == if status.Some? then '/' else ws2[0];
    SpanLenStops(ws1, afterSpace, Space);
    assert (ws1 + afterSpace)[|ws1|..] == afterSpace;
    SpanLenStops(kind, afterKind, Alpha);
    assert afterSpace[|kind|..] == afterKind && afterSpace[..|kind|] == kind;
    MatchStatusComplete(version, kind, status, ws2, action);
  }

  /** Every line of the pattern's language matches, with the groups the
      pattern assigns (the action loses any white space the greedy \s+ takes). */
  lemma IntroComplete(version: string, ws1: string, kind: string, status: Option<string>,
                      ws2: string, action: string)
    requires IntroParts(version, ws1, kind, status, ws2, action)
    ensures MatchIntro(IntroLine(version, ws1, kind, status, ws2, action))
         == Some(Intro(version, kind, status, action[SpanLen(action, Space)..]))
  {
    var afterVersion := ws1 + (kind + (StatusSuffix(status) + (ws2 + action)));
    var afterMagic := version + afterVersion;
    var line := IntroLine(version, ws1, kind, status, ws2, action);
    assert line[..5] == "SAMP/" && line[5..] == afterMagic;
    SpanLenStops(version, afterVersion, VersionChar);
    assert afterMagic[|version|..] == afterVersion && afterMagic[..|version|] == version;
    MatchKindComplete(version, ws1, kind, status, ws2, action);
  }

  lemma MatchActionSound(version: string, kind: string, status: Option<string>, s: string)
    returns (ws: string)
    requires MatchAction(version, kind, status, s).Some?
    ensures |ws| > 0 && AllIn(ws, Space) && s == ws + MatchAction(version, kind, status, s).value.action
  {
    var w := SpanLen(s, Space);
    ws := s[..w];
    assert s == ws + s[w..];
  }

  /** A string starting with '/' is the slash, a token, and what follows. */
  lemma SlashSplit(s: string, t: nat)
    requires s != [] && s[0] == '/' && t <= |s| - 1
    ensures s == StatusSuffix(Some(s[1..][..t])) + s[1..][t..]
  {
    assert s[1..] == s[1..][..t] + s[1..][t..];
    assert s == [s[0]] + s[1..];
  }

  lemma MatchStatusSound(version: string, kind: string, s: string) returns (ws: string)
    requires MatchStatus(version, kind, s).Some?
    ensures var i := MatchStatus(version, kind, s).value;
            |ws| > 0 && AllIn(ws, Space) && s == StatusSuffix(i.status) + (ws + i.action)
  {
    if s != [] && s[0] == '/' {
      var t := SpanLen(s[1..], StatusChar);
      var rest := s[1..][t..];
      ws := MatchActionSound(version, kind, Some(s[1..][..t]), rest);
      SlashSplit(s, t);
    } else {
      ws := MatchActionSound(version, kind, None, s);
      assert StatusSuffix(None) + s == s;
    }
  }

  /** A successful kind match is a status match after the white space and
      the kind. */
  lemma MatchKindStatus(version: string, s: string) returns (ws1: string, k: nat)
    requires MatchKind(version, s).Some?
    ensures 0 < |ws1| <= |s| && AllIn(ws1, Space) && k <= |s| - |ws1|
    ensures s == ws1 + s[|ws1|..]
    ensures MatchStatus(version, s[|ws1|..][..k], s[|ws1|..][k..]) == MatchKind(version, s)
  {
    ws1 := SpaceSplit(s);
    k := SpanLen(s[|ws1|..], Alpha);
  }

  /** The pieces of a successful status match, named by its result. */
  lemma StatusPieces(version: string, kind: string, tail: string, i: Intro) returns (ws2: string)
    requires MatchStatus(version, kind, tail) == Some(i)
    ensures i.kind == kind && |ws2| > 0 && AllIn(ws2, Space)
    ensures tail == StatusSuffix(i.status) + (ws2 + i.action)
  {
    ws2 := MatchStatusSound(version, kind, tail);
  }

  lemma Regroup(s: string, ws1: string, k: nat, tail: string)
    requires |ws1| + k <= |s| && s == ws1 + s[|ws1|..] && tail == s[|ws1|..][k..]
    ensures s == ws1 + (s[|ws1|..][..k] + tail)
  {
    var rest := s[|ws1|..];
    assert rest == rest[..k] + rest[k..];
  }

  lemma MatchKindSound(version: string, s: string) returns (ws1: string, ws2: string)
    requires MatchKind(version, s).Some?
    ensures var i := MatchKind(version, s).value;
            |ws1| > 0 && AllIn(ws1, Space) && |ws2| > 0 && AllIn(ws2, Space) &&
            s == ws1 + (i.kind + (StatusSuffix(i.status) + (ws2 + i.action)))
  {
    var i := MatchKind(version, s).value;
    var k;
    ws1, k := MatchKindStatus(version, s);
    var kind, tail := s[|ws1|..][..k], s[|ws1|..][k..];
    ws2 := StatusPieces(version, kind, tail, i);
    Regroup(s, ws1, k, tail);
  }

  /** A successful intro match is a version match of what follows "SAMP/". */
  lemma MatchIntroVersion(line: string)
    requires MatchIntro(line).Some?
    ensures |line| >= 5 && line == "SAMP/" + line[5..] && MatchVersion(line[5..]) == MatchIntro(line)
  {
    assert line == line[..5] + line[5..];
  }

  /** A successful version match is a kind match after the version. */
  lemma MatchVersionKind(s: string) returns (v: nat)
    requires MatchVersion(s).Some?
    ensures v <= |s| && s == MatchVersion(s).value.version + s[v..]
    ensures MatchKind(s[..v], s[v..]) == MatchVersion(s)
  {
    v := SpanLen(s, VersionChar);
    SplitAt(s, v);
  }

  /** Every match lies in the pattern's language, and the groups are the
      pieces of that decomposition. */
  lemma IntroSound(line: string)
    requires MatchIntro(line).Some?
    ensures var i := MatchIntro(line).value;
            exists ws1, ws2 :: IntroParts(i.version, ws1, i.kind, i.status, ws2, i.action) &&
                               line == IntroLine(i.version, ws1, i.kind, i.status, ws2, i.action)
  {
    var i := MatchIntro(line).value;
    MatchIntroVersion(line);
    var s := line[5..];
    var v := MatchVersionKind(s);
    var ws1, ws2 := MatchKindSound(s[..v], s[v..]);
    assert s[v..] == ws1 + (i.kind + (StatusSuffix(i.status) + (ws2 + i.action)));
    assert IntroParts(i.version, ws1, i.kind, i.status, ws2, i.action);
  }

  /** The matcher accepts exactly the language of the intro pattern. */
  lemma IntroMatchesIff(line: string)
    ensures MatchIntro(line).Some? <==> IntroMatches(line)
  {
    if MatchIntro(line).Some? {
      IntroSound(line);
    }
    if IntroMatches(line) {
      var version, ws1, kind, status, ws2, action :|
        IntroParts(version, ws1, kind, status, ws2, action) &&
        line == IntroLine(version, ws1, kind, status, ws2, action);
      IntroComplete(version, ws1, kind, status, ws2, action);
    }
  }

  // --------------------------------------------------------------- header line

  /** The two groups of the header pattern. */
  datatype Field = Field(name: string, value: string)

  ghost predicate HeaderParts(name: string, ws: string, value: string) {
    && |name| > 0 && AllIn(name, NonColon)
    && |ws| > 0 && AllIn(ws, Space)
    && NoTerminators(value)
  }

  function HeaderLine(name: string, ws: string, value: string): string {
    name + (":" + (ws + value))
  }

  /** The language of the header pattern. */
  ghost predicate HeaderMatches(line: string) {
    exists name, ws, value :: HeaderParts(name, ws, value) && line == HeaderLine(name, ws, value)
  }

  /** Groups that a header match can yield. */
  ghost predicate FieldShape(f: Field) {
    && |f.name| > 0 && AllIn(f.name, NonColon)
    && NoTerminators(f.value)
    && (f.value == [] || !IsSpace(f.value[0]))
  }

  /** headerPattern.matcher(line).matches(), with its groups: the name runs
      to the first colon. */
  function MatchHeader(line: string): (r: Option<Field>)
    ensures r.Some? ==> FieldShape(r.value)
    ensures r.Some? && NoLineBreaks(line) ==> NoLineBreaks(r.value.name)
  {
    var n := SpanLen(line, NonColon);
    if n == 0 || n == |line| then None
    else
      var rest := line[n + 1..];
      var w := SpanLen(rest, Space);
      if w == 0 || !NoTerminators(rest[w..]) then None
      else Some(Field(line[..n], rest[w..]))
  }

  /** The name span of a header line stops at its first colon. */
  lemma HeaderNameSpan(name: string, rest: string)
    requires |name| > 0 && AllIn(name, NonColon)
    ensures var line := name + (":" + rest);
            SpanLen(line, NonColon) == |name| && |name| < |line| &&
            line[..|name|] == name && line[|name| + 1..] == rest
  {
    SpanLenStops(name, ":" + rest, NonColon);
    var line := name + (":" + rest);
    assert line[..|name|] == name;
    assert line[|name| + 1..] == rest;
  }

  /** The white space span before the value takes the separator and any white
      space the value starts with. */
  lemma HeaderValueSpan(ws: string, value: string)
    requires |ws| > 0 && AllIn(ws, Space) && NoTerminators(value)
    ensures var rest := ws + value; var w := SpanLen(rest, Space);
            w > 0 && rest[w..] == value[SpanLen(value, Space)..] && NoTerminators(rest[w..])
  {
    var rest := ws + value;
    SpanLenAppend(ws, value, Space);
    assert rest[|ws| + SpanLen(value, Space)..] == value[SpanLen(value, Space)..];
  }

  lemma HeaderComplete(name: string, ws: string, value: string)
    requires HeaderParts(name, ws, value)
    ensures MatchHeader(HeaderLine(name, ws, value)) == Some(Field(name, value[SpanLen(value, Space)..]))
  {
    HeaderNameSpan(name, ws + value);
    HeaderValueSpan(ws, value);
  }

  lemma ColonSplit(line: string, n: nat)
    requires n < |line| && line[n] == ':'
    ensures line == line[..n] + (":" + line[n + 1..])
  {
    assert line == line[..n] + line[n..];
    assert line[n..] == [line[n]] + line[n + 1..];
  }

  /** A non-empty white space span is a white space prefix. */
  lemma SpaceSplit(rest: string) returns (ws: string)
    requires SpanLen(rest, Space) > 0
    ensures |ws| > 0 && AllIn(ws, Space) && rest == ws + rest[SpanLen(rest, Space)..]
  {
    var w := SpanLen(rest, Space);
    ws := rest[..w];
    assert rest == rest[..w] + rest[w..];
    assert forall i :: 0 <= i < w ==> ws[i] == rest[i];
  }

  /** Every match lies in the pattern's language, and the groups are the
      pieces of that decomposition. */
  lemma HeaderSound(line: string) returns (ws: string)
    requires MatchHeader(line).Some?
    ensures var f := MatchHeader(line).value;
            HeaderParts(f.name, ws, f.value) && line == HeaderLine(f.name, ws, f.value)
  {
    var n := SpanLen(line, NonColon);
    SpanPrefix(line, NonColon);
    ColonSplit(line, n);
    ws := SpaceSplit(line[n + 1..]);
  }

  /** The matcher accepts exactly the language of the header pattern. */
  lemma HeaderMatchesIff(line: string)
    ensures MatchHeader(line).Some? <==> HeaderMatches(line)
  {
    if MatchHeader(line).Some? {
      var ws := HeaderSound(line);
    }
    if HeaderMatches(line) {
      var name, ws, value :| HeaderParts(name, ws, value) && line == HeaderLine(name, ws, value);
      HeaderComplete(name, ws, value);
    }
  }
}
