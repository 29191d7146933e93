/** How the parser sees its input: BufferedReader.readLine splits the text into
    lines ended by "\n", "\r" or "\r\n", and the parser re-terminates body lines
    with the line separator, fixed here to "\n". */
module Lines {
  import opened Chars

  /** Index of the first line-break character of s, or |s| if there is none. */
  function LineEnd(s: string): (i: nat)
    ensures i <= |s|
    ensures NoLineBreaks(s[..i])
    ensures i < |s| ==> IsLineBreak(s[i])
  {
    if s == [] || IsLineBreak(s[0]) then 0
    else
      var i := 1 + LineEnd(s[1..]);
      assert s[..i] == [s[0]] + s[1..][..i - 1];
      i
  }

  /** The successive results of readLine until it returns null. A final
      terminator does not open an empty last line; "\r\n" is one terminator. */
  function ReadLines(s: string): (lines: seq<string>)
    ensures lines == [] <==> s == []
    decreases |s|
  {
    if s == [] then []
    else
      var i := LineEnd(s);
      if i == |s| then [s]
      else if s[i] == '\r' && i + 1 < |s| && s[i + 1] == '\n' then [s[..i]] + ReadLines(s[i + 2..])
      else [s[..i]] + ReadLines(s[i + 1..])
  }

  /** readLine never returns a line-break character. */
  lemma {:induction false} ReadLinesNoBreaks(s: string)
    ensures forall k :: 0 <= k < |ReadLines(s)| ==> NoLineBreaks(ReadLines(s)[k])
    decreases |s|
  {
    if s != [] {
      var i := LineEnd(s);
      if i < |s| {
        if s[i] == '\r' && i + 1 < |s| && s[i + 1] == '\n' {
          ReadLinesNoBreaks(s[i + 2..]);
        } else {
          ReadLinesNoBreaks(s[i + 1..]);
        }
      }
    }
  }

  predicate EndsInSeparator(t: string) {
    t != [] && t[|t| - 1] == '\n'
  }

  /** Each line followed by the line separator, in order: empty exactly for
      no lines, and otherwise ending in the separator. */
  function Terminated(lines: seq<string>): (t: string)
    ensures t == [] <==> lines == []
    ensures lines != [] ==> EndsInSeparator(t)
  {
    if lines == [] then []
    else Terminated(lines[..|lines| - 1]) + lines[|lines| - 1] + "\n"
  }

  lemma TerminatedSnoc(lines: seq<string>, x: string)
    ensures Terminated(lines + [x]) == Terminated(lines) + x + "\n"
  {
    assert (lines + [x])[..|lines|] == lines;
  }

  lemma {:induction false} TerminatedAppend(a: seq<string>, b: seq<string>)
    ensures Terminated(a + b) == Terminated(a) + Terminated(b)
    decreases |b|
  {
    if b == [] {
      assert a + b == a;
    } else {
      var b', x := b[..|b| - 1], b[|b| - 1];
      assert b == b' + [x];
      assert a + b == (a + b') + [x];
      TerminatedAppend(a, b');
      TerminatedSnoc(a + b', x);
      TerminatedSnoc(b', x);
      var ta, tb := Terminated(a), Terminated(b');
      assert ta + tb + x + "\n" == ta + (tb + x + "\n");
    }
  }

  lemma TerminatedCons(x: string, rest: seq<string>)
    ensures Terminated([x] + rest) == x + "\n" + Terminated(rest)
  {
    TerminatedAppend([x], rest);
    assert [x][..0] == [];
  }

  /** The line-breaks of Terminated(lines) are exactly the separators it adds. */
  lemma {:induction false} TerminatedNoCarriageReturn(lines: seq<string>)
    requires forall k :: 0 <= k < |lines| ==> NoLineBreaks(lines[k])
    ensures '\r' !in Terminated(lines)
    decreases |lines|
  {
    if lines != [] {
      TerminatedNoCarriageReturn(lines[..|lines| - 1]);
      assert NoLineBreaks(lines[|lines| - 1]);
    }
  }

  /** The first line break is where one follows a break-free prefix. */
  lemma {:induction false} LineEndAt(s: string, n: nat)
    requires n < |s| && IsLineBreak(s[n]) && NoLineBreaks(s[..n])
    ensures LineEnd(s) == n
    decreases n
  {
    if n > 0 {
      assert s[..n][0] == s[0];
      assert s[1..][..n - 1] == s[..n][1..];
      LineEndAt(s[1..], n - 1);
    }
  }

  /** A line without breaks, then "\n", is read back as that line. */
  lemma ReadLinesCons(x: string, y: string)
    requires NoLineBreaks(x)
    ensures ReadLines(x + "\n" + y) == [x] + ReadLines(y)
  {
    var s := x + "\n" + y;
    assert s[|x|] == '\n';
    assert s[..|x|] == x;
    LineEndAt(s, |x|);
    assert s[..|x|] == x;
    assert s[|x| + 1..] == y;
  }

  lemma TerminatedFirst(lines: seq<string>, rest: string)
    requires lines != []
    ensures Terminated(lines) + rest == lines[0] + "\n" + (Terminated(lines[1..]) + rest)
  {
    assert lines == [lines[0]] + lines[1..];
    TerminatedCons(lines[0], lines[1..]);
  }

  /** Reading back the first of some terminated lines, given the rest. */
  lemma ReadLinesTerminatedStep(lines: seq<string>, rest: string)
    requires lines != [] && NoLineBreaks(lines[0])
    requires ReadLines(Terminated(lines[1..]) + rest) == lines[1..] + ReadLines(rest)
    ensures ReadLines(Terminated(lines) + rest) == lines + ReadLines(rest)
  {
    ReadLinesTerminatedHead(lines, rest, ReadLines(rest));
    assert lines == [lines[0]] + lines[1..];
  }

  lemma ReadLinesTerminatedHead(lines: seq<string>, rest: string, r: seq<string>)
    requires lines != [] && NoLineBreaks(lines[0])
    requires ReadLines(Terminated(lines[1..]) + rest) == lines[1..] + r
    ensures ReadLines(Terminated(lines) + rest) == ([lines[0]] + lines[1..]) + r
  {
    TerminatedFirst(lines, rest);
    ReadLinesChain(Terminated(lines) + rest, lines[0], Terminated(lines[1..]) + rest, lines[1..], r);
  }

  lemma ReadLinesChain(s: string, x: string, t: string, xs: seq<string>, r: seq<string>)
    requires NoLineBreaks(x) && s == x + "\n" + t && ReadLines(t) == xs + r
    ensures ReadLines(s) == ([x] + xs) + r
  {
    ReadLinesCons(x, t);
  }

  /** Reading back terminated lines yields the lines, and reading goes on
      with whatever follows. */
  lemma {:induction false} ReadLinesTerminated(lines: seq<string>, rest: string)
    requires forall k :: 0 <= k < |lines| ==> NoLineBreaks(lines[k])
    ensures ReadLines(Terminated(lines) + rest) == lines + ReadLines(rest)
    decreases |lines|
  {
    if lines != [] {
      ReadLinesTerminated(lines[1..], rest);
      ReadLinesTerminatedStep(lines, rest);
    } else {
      assert Terminated(lines) + rest == rest;
    }
  }

  /** Terminated lines with nothing after them are read back as they are. */
  lemma ReadLinesTerminatedOnly(lines: seq<string>)
    requires forall k :: 0 <= k < |lines| ==> NoLineBreaks(lines[k])
    ensures ReadLines(Terminated(lines)) == lines
  {
    var none: string := [];
    ReadLinesTerminated(lines, none);
    assert Terminated(lines) + none == Terminated(lines);
  }

  /** The first line of text without carriage returns ends at its first
      "\n", and reading goes on after it. */
  lemma ReadLinesFirst(b: string) returns (i: nat)
    requires '\r' !in b && LineEnd(b) < |b|
    ensures i < |b| && b == b[..i] + "\n" + b[i + 1..] && '\r' !in b[i + 1..]
    ensures ReadLines(b) == [b[..i]] + ReadLines(b[i + 1..])
  {
    i := LineEnd(b);
    assert b[i] == '\n';
    var tail := b[i + 1..];
    assert '\r' !in tail by {
      forall k | 0 <= k < |tail| ensures tail[k] != '\r' { assert tail[k] == b[i + 1 + k]; }
    }
    assert b == b[..i] + [b[i]] + tail;
  }

  /** Text without line breaks is read as a single line. */
  lemma ReadLinesSingle(b: string)
    requires b != [] && LineEnd(b) == |b|
    ensures Terminated(ReadLines(b)) == b + "\n" && b[|b| - 1] != '\n'
  {
    assert ReadLines(b) == [b];
    TerminatedCons(b, []);
    assert b[..|b|] == b;
  }

  lemma NormalizedCons(head: string, tail: string)
    ensures var b := head + "\n" + tail;
            head + "\n" + (if tail == [] || tail[|tail| - 1] == '\n' then tail else tail + "\n")
            == if b[|b| - 1] == '\n' then b else b + "\n"
  {
    var b := head + "\n" + tail;
    if tail != [] {
      assert b[|b| - 1] == tail[|tail| - 1];
    }
  }

  /** The normalization the parser applies to a body: re-reading and
      re-terminating leaves text that already ends in "\n" unchanged and adds
      the missing final "\n" otherwise (for text without carriage returns). */
  lemma {:induction false} TerminatedReadLines(b: string)
    requires '\r' !in b
    ensures Terminated(ReadLines(b)) == if b == [] || b[|b| - 1] == '\n' then b else b + "\n"
    decreases |b|
  {
    if b != [] {
      if LineEnd(b) == |b| {
        ReadLinesSingle(b);
      } else {
        var i := ReadLinesFirst(b);
        var head, tail := b[..i], b[i + 1..];
        TerminatedCons(head, ReadLines(tail));
        TerminatedReadLines(tail);
        NormalizedCons(head, tail);
      }
    }
  }
}
