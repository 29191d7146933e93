/** Samp.parse: intro line, header block up to the first empty line, then a
    body of re-terminated lines. */
module Parser {
  import opened Wrappers
  import opened Chars
  import opened Lines
  import opened Grammar
  import opened Messages

  /** MissingIntro: the input has no first line (the source dereferences the
      null that readLine returns). InvalidFrame: the first line does not match
      the intro pattern (the source's IOException "Invalid SAMP Frame"). */
  datatype ParseError = MissingIntro | InvalidFrame

  /** Index of the line that ends the header block: the first empty line at
      or after `from`, or the end of the input. */
  function HeaderBlockEnd(lines: seq<string>, from: nat): (j: nat)
    requires from <= |lines|
    ensures from <= j <= |lines|
    ensures forall k :: from <= k < j ==> lines[k] != ""
    ensures j < |lines| ==> lines[j] == ""
    decreases |lines| - from
  {
    if from == |lines| || lines[from] == "" then from else HeaderBlockEnd(lines, from + 1)
  }

  /** The block ends at j when the lines before j are non-empty and j is an
      empty line or the end. */
  lemma {:induction false} HeaderBlockEndAt(lines: seq<string>, from: nat, j: nat)
    requires from <= j <= |lines|
    requires forall k :: from <= k < j ==> lines[k] != ""
    requires j == |lines| || lines[j] == ""
    ensures HeaderBlockEnd(lines, from) == j
    decreases j - from
  {
    if from < j {
      HeaderBlockEndAt(lines, from + 1, j);
    }
  }

  /** What the header pattern makes of each line of a block. */
  function Fields(block: seq<string>): (fs: seq<Option<Field>>)
    ensures |fs| == |block|
    ensures forall i :: 0 <= i < |block| ==> fs[i] == MatchHeader(block[i])
  {
    if block == [] then [] else Fields(block[..|block| - 1]) + [MatchHeader(block[|block| - 1])]
  }

  /** One step of the header loop: a matching line puts its value under its
      name, replacing an earlier one; a line that does not match changes
      nothing. */
  function Put(headers: map<string, string>, field: Option<Field>): map<string, string> {
    if field.Some? then headers[field.value.name := field.value.value] else headers
  }

  /** The map after putting the fields, in order, into an empty map. */
  function Collect(fs: seq<Option<Field>>): map<string, string>
  {
    if fs == [] then map[] else Put(Collect(fs[..|fs| - 1]), fs[|fs| - 1])
  }

  /** The header map of a block of header lines. */
  function Headers(block: seq<string>): map<string, string>
  {
    Collect(Fields(block))
  }

  /** Absent when no line follows the header block; otherwise every line
      with the separator appended. */
  function BodyOf(lines: seq<string>): Option<string> {
    if lines == [] then None else Some(Terminated(lines))
  }

  /** The message read from the lines after a matching intro line: the
      header block runs from the second line to the first empty line, and
      the body is everything after that empty line. */
  function Frame(intro: Intro, lines: seq<string>): Message
    requires |lines| > 0
  {
    var end := HeaderBlockEnd(lines, 1);
    var bodyLines := if end < |lines| then lines[end + 1..] else [];
    Message(intro.version, intro.kind, intro.status, intro.action,
            Headers(lines[1..end]), BodyOf(bodyLines))
  }

  /** What parse returns or throws for a message. */
  function Parsed(message: string): Result<Message, ParseError>
  {
    var lines := ReadLines(message);
    if lines == [] then Failure(MissingIntro)
    else
      match MatchIntro(lines[0])
      case None => Failure(InvalidFrame)
      case Some(intro) => Success(Frame(intro, lines))
  }

  /** Samp.parse: the intro line, then the header loop, then the body loop. */
  method Parse(message: string) returns (r: Result<Message, ParseError>)
    ensures r == Parsed(message)
  {
    var lines := ReadLines(message);
    if |lines| == 0 {
      return Failure(MissingIntro);
    }
    var intro := MatchIntro(lines[0]);
    if intro.None? {
      return Failure(InvalidFrame);
    }
    var headers, end := ReadHeaders(lines);
    var body := ReadBody(lines, if end < |lines| then end + 1 else end);
    r := Success(Message(intro.value.version, intro.value.kind, intro.value.status, intro.value.action,
                         headers, body));
  }

  /** One more header line puts its match, if any, into the map. */
  lemma HeadersStep(block: seq<string>, line: string)
    ensures Headers(block + [line]) == Put(Headers(block), MatchHeader(line))
  {
    var fs := Fields(block + [line]);
    assert (block + [line])[..|block|] == block;
    assert fs[..|block|] == Fields(block);
  }

  /** The block end does not move while the lines are non-empty. */
  lemma HeaderBlockEndNext(lines: seq<string>, i: nat)
    requires i < |lines| && lines[i] != ""
    ensures HeaderBlockEnd(lines, i + 1) == HeaderBlockEnd(lines, i)
  {
  }

  /** The header loop: puts each matching line into the map until an empty
      line or the end of the input, and says where it stopped. */
  method ReadHeaders(lines: seq<string>) returns (headers: map<string, string>, end: nat)
    requires |lines| > 0
    ensures end == HeaderBlockEnd(lines, 1)
    ensures headers == Headers(lines[1..end])
  {
    headers := map[];
    end := 1;
    while end < |lines| && |lines[end]| > 0
      invariant 1 <= end <= |lines|
      invariant HeaderBlockEnd(lines, end) == HeaderBlockEnd(lines, 1)
      invariant headers == Headers(lines[1..end])
    {
      HeaderBlockEndNext(lines, end);
      HeadersStep(lines[1..end], lines[end]);
      assert lines[1..end + 1] == lines[1..end] + [lines[end]];
      var field := MatchHeader(lines[end]);
      if field.Some? {
        headers := headers[field.value.name := field.value.value];
      }
      end := end + 1;
    }
  }

  /** The body loop: appends each remaining line and the separator to a body
      that starts absent. */
  method ReadBody(lines: seq<string>, from: nat) returns (body: Option<string>)
    requires from <= |lines|
    ensures body == BodyOf(lines[from..])
  {
    body := None;
    var k := from;
    while k < |lines|
      invariant from <= k <= |lines|
      invariant body == BodyOf(lines[from..k])
    {
      var s := lines[k] + "\n";
      assert lines[from..k + 1][..k - from] == lines[from..k];
      assert lines[from..k + 1][k - from] == lines[k];
      assert Terminated(lines[from..k + 1]) == Terminated(lines[from..k]) + lines[k] + "\n";
      if body.Some? {
        assert body.value + s == Terminated(lines[from..k]) + lines[k] + "\n";
        body := Some(body.value + s);
      } else {
        assert lines[from..k] == [];
        assert Terminated(lines[from..k + 1]) == s;
        body := Some(s);
      }
      assert body == BodyOf(lines[from..k + 1]);
      k := k + 1;
    }
    assert lines[from..] == lines[from..k];
  }

  /** The field at index i sets header `name`. */
  predicate SetsField(fs: seq<Option<Field>>, i: int, name: string)
    requires 0 <= i < |fs|
  {
    fs[i].Some? && fs[i].value.name == name
  }

  /** A name is collected exactly when some field sets it. */
  lemma {:induction false} CollectHas(fs: seq<Option<Field>>, name: string)
    ensures name in Collect(fs) <==> exists i :: 0 <= i < |fs| && SetsField(fs, i, name)
    decreases |fs|
  {
    if fs != [] {
      var n := |fs| - 1;
      var init := fs[..n];
      CollectHas(init, name);
      if exists i :: 0 <= i < n && SetsField(init, i, name) {
        var i :| 0 <= i < n && SetsField(init, i, name);
        assert SetsField(fs, i, name);
      }
      if name in Collect(fs) && name !in Collect(init) {
        assert SetsField(fs, n, name);
      }
      if exists i :: 0 <= i < |fs| && SetsField(fs, i, name) {
        var i :| 0 <= i < |fs| && SetsField(fs, i, name);
        if i < n {
          assert SetsField(init, i, name);
        }
      }
    }
  }

  /** The value collected under a name is the one the last setter gives. */
  lemma {:induction false} CollectLast(fs: seq<Option<Field>>, name: string, i: nat)
    requires i < |fs| && SetsField(fs, i, name)
    requires forall j :: i < j < |fs| ==> !SetsField(fs, j, name)
    ensures name in Collect(fs) && Collect(fs)[name] == fs[i].value.value
    decreases |fs|
  {
    var n := |fs| - 1;
    if i < n {
      var init := fs[..n];
      assert SetsField(init, i, name);
      forall j | i < j < n
        ensures !SetsField(init, j, name)
      {
        assert !SetsField(fs, j, name);
      }
      CollectLast(init, name, i);
      assert !SetsField(fs, n, name);
    }
  }

  /** Putting fields in order: a name is present exactly when some field
      sets it, and the last setter wins. */
  lemma CollectLastWins(fs: seq<Option<Field>>, name: string)
    ensures name in Collect(fs) <==> exists i :: 0 <= i < |fs| && SetsField(fs, i, name)
    ensures forall i :: 0 <= i < |fs| && SetsField(fs, i, name) &&
                        (forall j :: i < j < |fs| ==> !SetsField(fs, j, name))
                    ==> name in Collect(fs) && Collect(fs)[name] == fs[i].value.value
  {
    CollectHas(fs, name);
    forall i | 0 <= i < |fs| && SetsField(fs, i, name) &&
               (forall j :: i < j < |fs| ==> !SetsField(fs, j, name))
      ensures name in Collect(fs) && Collect(fs)[name] == fs[i].value.value
    {
      CollectLast(fs, name, i);
    }
  }

  /** The line at index i of the block sets header `name`. */
  predicate SetsHeader(block: seq<string>, i: int, name: string)
    requires 0 <= i < |block|
  {
    MatchHeader(block[i]).Some? && MatchHeader(block[i]).value.name == name
  }

  /** A name is in the map exactly when some line of the block sets it, and
      its value is the one the last such line gives (last one wins; lines
      that do not match change nothing). */
  lemma HeadersLastWins(block: seq<string>, name: string)
    ensures name in Headers(block) <==> exists i :: 0 <= i < |block| && SetsHeader(block, i, name)
    ensures forall i :: 0 <= i < |block| && SetsHeader(block, i, name) &&
                        (forall j :: i < j < |block| ==> !SetsHeader(block, j, name))
                    ==> name in Headers(block) && Headers(block)[name] == MatchHeader(block[i]).value.value
  {
    var fs := Fields(block);
    CollectLastWins(fs, name);
    assert forall i :: 0 <= i < |block| ==> (SetsHeader(block, i, name) <==> SetsField(fs, i, name));
  }

  /** Parsed header names are non-empty and colon-free; parsed values can be
      written back unchanged (no line terminator, no leading white space). */
  ghost predicate WellFormedHeaders(h: map<string, string>) {
    forall name :: name in h ==>
      FieldShape(Field(name, h[name])) && NoLineBreaks(name)
  }

  lemma {:induction false} HeadersWellFormed(block: seq<string>)
    requires forall k :: 0 <= k < |block| ==> NoLineBreaks(block[k])
    ensures WellFormedHeaders(Headers(block))
    decreases |block|
  {
    if block != [] {
      HeadersWellFormed(block[..|block| - 1]);
    }
  }

  /** parse fails exactly on empty input (no first line) and on a first line
      outside the intro pattern's language; nothing after the first line can
      make it fail. */
  lemma ParseFailure(message: string)
    ensures Parsed(message) == Failure(MissingIntro) <==> message == []
    ensures Parsed(message) == Failure(InvalidFrame) <==>
            message != [] && !IntroMatches(ReadLines(message)[0])
    ensures Parsed(message).Success? <==>
            message != [] && IntroMatches(ReadLines(message)[0])
  {
    if message != [] {
      IntroMatchesIff(ReadLines(message)[0]);
    }
  }

  /** The intro groups of a successful parse: version, kind, status and
      action are the pieces of the first line's decomposition by the intro
      pattern. */
  lemma ParsedIntro(message: string)
    requires Parsed(message).Success?
    ensures var m := Parsed(message).value;
            exists ws1, ws2 :: IntroParts(m.version, ws1, m.kind, m.status, ws2, m.action) &&
                               ReadLines(message)[0] == IntroLine(m.version, ws1, m.kind, m.status, ws2, m.action)
  {
    IntroSound(ReadLines(message)[0]);
  }

  /** Joining break-free lines keeps them break-free. */
  lemma LayoutNoBreaks(a: seq<string>, b: seq<string>)
    requires forall k :: 0 <= k < |a| ==> NoLineBreaks(a[k])
    requires forall k :: 0 <= k < |b| ==> NoLineBreaks(b[k])
    ensures forall k :: 0 <= k < |a + b| ==> NoLineBreaks((a + b)[k])
  {
    forall k | 0 <= k < |a + b|
      ensures NoLineBreaks((a + b)[k])
    {
      if k < |a| {
        assert (a + b)[k] == a[k];
      } else {
        assert (a + b)[k] == b[k - |a|];
      }
    }
  }

  /** Reading an intro line, header lines and an empty line, then more. */
  lemma ReadLayout(intro: string, block: seq<string>, rest: string)
    requires NoLineBreaks(intro)
    requires forall k :: 0 <= k < |block| ==> NoLineBreaks(block[k])
    ensures ReadLines(Terminated([intro] + block + [""]) + rest) == [intro] + block + [""] + ReadLines(rest)
  {
    var ls := [intro] + block + [""];
    assert NoLineBreaks("");
    LayoutNoBreaks([intro] + block, [""]);
    ReadLinesTerminated(ls, rest);
  }

  /** The header block stops at the first empty line; the rest is the body. */
  lemma FrameLayout(i: Intro, intro: string, block: seq<string>, more: seq<string>)
    requires forall k :: 0 <= k < |block| ==> block[k] != ""
    ensures Frame(i, [intro] + block + [""] + more)
         == Message(i.version, i.kind, i.status, i.action, Headers(block), BodyOf(more))
  {
    var lines := [intro] + block + [""] + more;
    assert forall k :: 1 <= k < |block| + 1 ==> lines[k] == block[k - 1];
    HeaderBlockEndAt(lines, 1, |block| + 1);
    assert lines[1..|block| + 1] == block;
    assert lines[|block| + 2..] == more;
  }

  /** The layout parse reads: an intro line, header lines (all non-empty), an
      empty line ending the block, and whatever follows as the body. */
  lemma ParseLayout(intro: string, block: seq<string>, rest: string)
    requires NoLineBreaks(intro) && MatchIntro(intro).Some?
    requires forall k :: 0 <= k < |block| ==> NoLineBreaks(block[k]) && block[k] != ""
    ensures var i := MatchIntro(intro).value;
            (Parsed(Terminated([intro] + block + [""]) + rest)
             == Success(Message(i.version, i.kind, i.status, i.action, Headers(block), BodyOf(ReadLines(rest)))))
  {
    ReadLayout(intro, block, rest);
    FrameLayout(MatchIntro(intro).value, intro, block, ReadLines(rest));
  }

  /** Without an empty line the header block runs to the end of the input. */
  lemma FrameNoBlank(i: Intro, intro: string, block: seq<string>)
    requires forall k :: 0 <= k < |block| ==> block[k] != ""
    ensures Frame(i, [intro] + block) == Message(i.version, i.kind, i.status, i.action, Headers(block), None)
  {
    var lines := [intro] + block;
    assert forall k :: 1 <= k < |lines| ==> lines[k] == block[k - 1];
    HeaderBlockEndAt(lines, 1, |lines|);
    assert lines[1..|lines|] == block;
  }

  lemma ReadLayoutNoBlank(intro: string, block: seq<string>)
    requires NoLineBreaks(intro)
    requires forall k :: 0 <= k < |block| ==> NoLineBreaks(block[k])
    ensures ReadLines(Terminated([intro] + block)) == [intro] + block
  {
    LayoutNoBreaks([intro], block);
    ReadLinesTerminatedOnly([intro] + block);
  }

  /** Without an empty line the header block runs to the end of the input and
      the body is absent. */
  lemma ParseLayoutNoBlank(intro: string, block: seq<string>)
    requires NoLineBreaks(intro) && MatchIntro(intro).Some?
    requires forall k :: 0 <= k < |block| ==> NoLineBreaks(block[k]) && block[k] != ""
    ensures var i := MatchIntro(intro).value;
            (Parsed(Terminated([intro] + block))
             == Success(Message(i.version, i.kind, i.status, i.action, Headers(block), None)))
  {
    ReadLayoutNoBlank(intro, block);
    FrameNoBlank(MatchIntro(intro).value, intro, block);
  }

  /** The body parse returns for text that follows the header block:
      absent for no text, otherwise the text ending in exactly one added
      "\n" unless it already ends in one. */
  function Reterminated(text: string): Option<string> {
    if text == [] then None
    else if text[|text| - 1] == '\n' then Some(text)
    else Some(text + "\n")
  }

  /** The body normalization, for text without carriage returns: re-reading
      and re-terminating its lines gives Reterminated. "bananas" becomes
      "bananas\n", and "THIS\nIS\nCRAP\n" stays as it is. */
  lemma BodyNormalization(rest: string)
    requires '\r' !in rest
    ensures BodyOf(ReadLines(rest)) == Reterminated(rest)
  {
    TerminatedReadLines(rest);
  }

  /** Everything a successful parse yields can be written back as it is. */
  ghost predicate WellFormed(m: Message) {
    && IntroFields(Intro(m.version, m.kind, m.status, m.action))
    && WellFormedHeaders(m.headers)
    && (m.body.Some? ==> exists ls :: ls != [] && (forall k :: 0 <= k < |ls| ==> NoLineBreaks(ls[k]))
                                      && m.body.value == Terminated(ls))
  }

  /** Slices of break-free lines are break-free. */
  lemma SliceNoBreaks(lines: seq<string>, from: nat, to: nat)
    requires from <= to <= |lines|
    requires forall k :: 0 <= k < |lines| ==> NoLineBreaks(lines[k])
    ensures forall k :: 0 <= k < to - from ==> NoLineBreaks(lines[from..to][k])
  {
    forall k | 0 <= k < to - from
      ensures NoLineBreaks(lines[from..to][k])
    {
      assert lines[from..to][k] == lines[from + k];
    }
  }

  /** A body built from break-free lines is one WellFormed accepts. */
  lemma BodyWellFormed(ls: seq<string>)
    requires forall k :: 0 <= k < |ls| ==> NoLineBreaks(ls[k])
    ensures BodyOf(ls).Some? ==> exists xs :: xs != [] && (forall k :: 0 <= k < |xs| ==> NoLineBreaks(xs[k]))
                                               && BodyOf(ls).value == Terminated(xs)
  {
    if ls != [] {
      assert BodyOf(ls).value == Terminated(ls);
    }
  }

  lemma FrameWellFormed(i: Intro, lines: seq<string>)
    requires IntroFields(i) && |lines| > 0
    requires forall k :: 0 <= k < |lines| ==> NoLineBreaks(lines[k])
    ensures WellFormed(Frame(i, lines))
  {
    var end := HeaderBlockEnd(lines, 1);
    SliceNoBreaks(lines, 1, end);
    HeadersWellFormed(lines[1..end]);
    if end < |lines| {
      SliceNoBreaks(lines, end + 1, |lines|);
      assert lines[end + 1..] == lines[end + 1..|lines|];
      BodyWellFormed(lines[end + 1..]);
    } else {
      BodyWellFormed([]);
    }
  }

  lemma ParsedWellFormed(message: string)
    requires Parsed(message).Success?
    ensures WellFormed(Parsed(message).value)
  {
    ReadLinesNoBreaks(message);
    var lines := ReadLines(message);
    FrameWellFormed(MatchIntro(lines[0]).value, lines);
  }
}
