/** The Trace header: the hops a message went through, joined by "...". */
module TracePaths {
  import opened Wrappers
  import opened Messages
  import Names

  /** The delimiter "..." starts at index i of s. */
  predicate DelimAt(s: string, i: int) {
    0 <= i && i + 3 <= |s| && s[i] == '.' && s[i + 1] == '.' && s[i + 2] == '.'
  }

  predicate ContainsDelim(s: string) {
    exists i :: 0 <= i < |s| && DelimAt(s, i)
  }

  predicate EndsWithDot(s: string) {
    s != [] && s[|s| - 1] == '.'
  }

  /** Where a left-to-right search finds the next "...". */
  function FindDelim(s: string): (r: Option<nat>)
    ensures r.None? <==> !ContainsDelim(s)
    ensures r.Some? ==> DelimAt(s, r.value) && forall j :: 0 <= j < r.value ==> !DelimAt(s, j)
  {
    if |s| < 3 then None
    else if DelimAt(s, 0) then Some(0)
    else
      match FindDelim(s[1..])
      case None =>
        assert forall j :: DelimAt(s, j) ==> DelimAt(s[1..], j - 1);
        None
      case Some(i) =>
        assert DelimAt(s, i + 1);
        assert forall j :: 0 < j <= i ==> (DelimAt(s, j) ==> DelimAt(s[1..], j - 1));
        Some(i + 1)
  }

  /** The piece before the first match holds no delimiter. */
  lemma BeforeDelim(s: string, i: nat)
    requires FindDelim(s) == Some(i)
    ensures !ContainsDelim(s[..i])
  {
    var head := s[..i];
    forall j | 0 <= j < |head|
      ensures !DelimAt(head, j)
    {
      assert !DelimAt(s, j);
    }
  }

  /** The pieces between successive non-overlapping matches, the empty ones
      included. */
  function Pieces(s: string): (ps: seq<string>)
    ensures |ps| > 0
    decreases |s|
  {
    match FindDelim(s)
    case None => [s]
    case Some(i) => [s[..i]] + Pieces(s[i + 3..])
  }

  /** No piece holds the delimiter. */
  lemma {:induction false} PiecesNoDelim(s: string)
    ensures forall k :: 0 <= k < |Pieces(s)| ==> !ContainsDelim(Pieces(s)[k])
    decreases |s|
  {
    match FindDelim(s)
    case None =>
    case Some(i) =>
      BeforeDelim(s, i);
      PiecesNoDelim(s[i + 3..]);
  }

  /** ps without its trailing empty strings: the longest prefix that does not
      end in "", everything after it being "". */
  function DropTrailingEmpty(ps: seq<string>): (r: seq<string>)
    ensures |r| <= |ps| && r == ps[..|r|]
    ensures r == [] || r[|r| - 1] != ""
    ensures forall k :: |r| <= k < |ps| ==> ps[k] == ""
  {
    if ps != [] && ps[|ps| - 1] == "" then
      var r := DropTrailingEmpty(ps[..|ps| - 1]);
      assert ps[..|ps| - 1][..|r|] == ps[..|r|];
      r
    else ps
  }

  /** String.split("\\.\\.\\."): the input itself when there is no match,
      otherwise the pieces without the trailing empty ones. No hop holds the
      delimiter, and the last hop is empty only when it is the input itself. */
  function Split(s: string): (r: seq<string>)
    ensures !ContainsDelim(s) ==> r == [s]
    ensures forall k :: 0 <= k < |r| ==> !ContainsDelim(r[k])
    ensures ContainsDelim(s) ==> r == [] || r[|r| - 1] != ""
  {
    if FindDelim(s).None? then [s]
    else
      var ps := Pieces(s);
      PiecesNoDelim(s);
      var r := DropTrailingEmpty(ps);
      assert forall k :: 0 <= k < |r| ==> r[k] == ps[k];
      r
  }

  predicate StartsWith(s: string, p: string) {
    |p| <= |s| && s[..|p|] == p
  }

  predicate EndsWith(s: string, p: string) {
    |p| <= |s| && s[|s| - |p|..] == p
  }

  /** formatTracePaths: Collectors.joining("..."). The joined text starts
      with the first hop and ends with the last. */
  function Join(ps: seq<string>): (r: string)
    ensures ps == [] ==> r == ""
    ensures ps != [] ==> StartsWith(r, ps[0]) && EndsWith(r, ps[|ps| - 1])
  {
    if ps == [] then ""
    else if |ps| == 1 then ps[0]
    else
      var rest := Join(ps[1..]);
      assert ps[1..][|ps[1..]| - 1] == ps[|ps| - 1];
      ps[0] + "..." + rest
  }

  /** appendTracePath: the old trace, the delimiter, then the new hop. */
  function AppendTracePath(tracePaths: string, tracePath: string): (r: string)
    ensures |r| == |tracePaths| + 3 + |tracePath|
    ensures StartsWith(r, tracePaths) && DelimAt(r, |tracePaths|) && EndsWith(r, tracePath)
  {
    tracePaths + "..." + tracePath
  }

  /** tracePaths(message): the split Trace header, or no hops. */
  function TracePaths(m: Message): (r: seq<string>)
    ensures Names.Trace !in m.headers ==> r == []
    ensures Names.Trace in m.headers && !ContainsDelim(m.headers[Names.Trace]) ==> r == [m.headers[Names.Trace]]
    ensures forall k :: 0 <= k < |r| ==> !ContainsDelim(r[k])
  {
    if Names.Trace in m.headers then Split(m.headers[Names.Trace]) else []
  }

  /** Segments that survive a join followed by a split: none holds the
      delimiter, none but the last ends in a dot (its dot would start the
      delimiter early), and the last is non-empty unless it is alone (split
      drops trailing empty strings). */
  ghost predicate Splittable(ps: seq<string>) {
    && |ps| > 0
    && (forall i :: 0 <= i < |ps| ==> !ContainsDelim(ps[i]))
    && (forall i :: 0 <= i < |ps| - 1 ==> !EndsWithDot(ps[i]))
    && (|ps| == 1 || ps[|ps| - 1] != "")
  }

  /** Joining a hop in front of other hops. */
  lemma JoinCons(x: string, qs: seq<string>)
    requires qs != []
    ensures Join([x] + qs) == x + "..." + Join(qs)
  {
    assert ([x] + qs)[1..] == qs;
  }

  /** A string is what comes before a delimiter, the delimiter, and what
      comes after it. */
  lemma AroundDelim(s: string, i: nat)
    requires DelimAt(s, i)
    ensures s == s[..i] + "..." + s[i + 3..]
  {
    assert s[i..i + 3] == "...";
    assert s == s[..i] + s[i..i + 3] + s[i + 3..];
  }

  /** The pieces of any string join back to it. */
  lemma {:induction false} JoinPieces(s: string)
    ensures Join(Pieces(s)) == s
    decreases |s|
  {
    match FindDelim(s)
    case None =>
    case Some(i) =>
      var rest := s[i + 3..];
      PiecesAt(s, i);
      JoinPieces(rest);
      JoinCons(s[..i], Pieces(rest));
      AroundDelim(s, i);
  }

  /** After a segment with no delimiter and no final dot, the first match is
      the delimiter that follows it. */
  lemma FindDelimAfter(p: string, rest: string)
    requires !ContainsDelim(p) && !EndsWithDot(p)
    ensures FindDelim(p + "..." + rest) == Some(|p|)
  {
    var s := p + "..." + rest;
    assert DelimAt(s, |p|);
    forall j | 0 <= j < |p|
      ensures !DelimAt(s, j)
    {
      if j + 3 <= |p| {
        assert !DelimAt(p, j);
      } else {
        assert s[|p| - 1] == p[|p| - 1];
      }
    }
  }

  /** The text on either side of a delimiter placed between two strings. */
  lemma DelimSlices(p: string, rest: string)
    ensures (p + "..." + rest)[..|p|] == p && (p + "..." + rest)[|p| + 3..] == rest
  {
  }

  /** A match inside x is still the first match once text is appended. */
  lemma FindDelimPrefix(x: string, y: string)
    requires FindDelim(x).Some?
    ensures FindDelim(x + y) == FindDelim(x)
  {
    var i := FindDelim(x).value;
    assert DelimAt(x + y, i);
    forall j | 0 <= j < i
      ensures !DelimAt(x + y, j)
    {
      assert !DelimAt(x, j);
    }
  }

  lemma {:induction false} PiecesJoin(ps: seq<string>)
    requires |ps| > 0
    requires forall i :: 0 <= i < |ps| ==> !ContainsDelim(ps[i])
    requires forall i :: 0 <= i < |ps| - 1 ==> !EndsWithDot(ps[i])
    ensures Pieces(Join(ps)) == ps
    decreases |ps|
  {
    if |ps| > 1 {
      var p, tail := ps[0], ps[1..];
      assert ps == [p] + tail;
      JoinCons(p, tail);
      FindDelimAfter(p, Join(tail));
      PiecesAt(p + "..." + Join(tail), |p|);
      DelimSlices(p, Join(tail));
      PiecesJoin(tail);
    }
  }

  /** tracePaths inverts formatTracePaths on splittable segments. */
  lemma SplitJoin(ps: seq<string>)
    requires Splittable(ps)
    ensures Split(Join(ps)) == ps
  {
    PiecesJoin(ps);
    if |ps| > 1 {
      assert FindDelim(Join(ps)) == Some(|ps[0]|) by {
        FindDelimAfter(ps[0], Join(ps[1..]));
      }
    }
  }

  /** Appending a hop after a joined tail, with a hop in front. */
  lemma AppendBehind(x: string, j: string, p: string)
    ensures x + "..." + AppendTracePath(j, p) == AppendTracePath(x + "..." + j, p)
  {
  }

  /** Appending a hop extends the joined list by that hop. */
  lemma {:induction false} JoinAppend(ps: seq<string>, p: string)
    requires |ps| > 0
    ensures Join(ps + [p]) == AppendTracePath(Join(ps), p)
    decreases |ps|
  {
    var x, tail := ps[0], ps[1..];
    assert ps == [x] + tail;
    assert ps + [p] == [x] + (tail + [p]);
    JoinCons(x, tail + [p]);
    if tail != [] {
      JoinAppend(tail, p);
      JoinCons(x, tail);
      AppendBehind(x, Join(tail), p);
    }
  }

  /** The pieces of a string whose first delimiter is at i. */
  lemma PiecesAt(s: string, i: nat)
    requires FindDelim(s) == Some(i)
    ensures Pieces(s) == [s[..i]] + Pieces(s[i + 3..])
  {
  }

  /** What follows the first delimiter of a trace without a final dot has no
      final dot either, and its pieces are the trace's pieces but the first. */
  lemma AfterDelim(t: string) returns (i: nat)
    requires !EndsWithDot(t) && FindDelim(t).Some?
    ensures i == FindDelim(t).value && i + 3 < |t| && !EndsWithDot(t[i + 3..])
    ensures Pieces(t) == [t[..i]] + Pieces(t[i + 3..])
  {
    i := FindDelim(t).value;
    PiecesAt(t, i);
    var rest := t[i + 3..];
    assert rest != [] && rest[|rest| - 1] == t[|t| - 1];
  }

  lemma AppendSlices(t: string, p: string, i: nat)
    requires i + 3 <= |t|
    ensures AppendTracePath(t, p)[..i] == t[..i]
    ensures AppendTracePath(t, p)[i + 3..] == AppendTracePath(t[i + 3..], p)
  {
    var s := AppendTracePath(t, p);
    assert t == t[..i + 3] + t[i + 3..];
    assert s == t[..i + 3] + AppendTracePath(t[i + 3..], p);
  }

  /** The first piece of an extended trace that has a delimiter. */
  lemma AppendAfterDelim(t: string, p: string, i: nat)
    requires FindDelim(t) == Some(i) && i + 3 <= |t|
    ensures Pieces(AppendTracePath(t, p)) == [t[..i]] + Pieces(AppendTracePath(t[i + 3..], p))
  {
    var s := AppendTracePath(t, p);
    AppendFirstDelim(t, p);
    PiecesAt(s, i);
    AppendSlices(t, p, i);
  }

  /** A match in the trace is still the first match once a hop is appended. */
  lemma AppendFirstDelim(t: string, p: string)
    requires FindDelim(t).Some?
    ensures FindDelim(AppendTracePath(t, p)) == FindDelim(t)
  {
    AppendConcat(t, p);
    FindDelimPrefix(t, "..." + p);
  }

  lemma AppendConcat(t: string, p: string)
    ensures AppendTracePath(t, p) == t + ("..." + p)
  {
  }

  /** A trace without a delimiter becomes two pieces. */
  lemma AppendNoDelim(t: string, p: string)
    requires !EndsWithDot(t) && !ContainsDelim(p) && FindDelim(t).None?
    ensures Pieces(AppendTracePath(t, p)) == [t, p]
  {
    var s := AppendTracePath(t, p);
    FindDelimAfter(t, p);
    assert s[..|t|] == t && s[|t| + 3..] == p;
  }

  /** A trace that does not end in a dot gains exactly one piece when a
      delimiter-free hop is appended. */
  lemma {:induction false} PiecesAppend(t: string, p: string)
    requires !EndsWithDot(t) && !ContainsDelim(p)
    ensures Pieces(AppendTracePath(t, p)) == Pieces(t) + [p]
    decreases |t|
  {
    if FindDelim(t).None? {
      AppendNoDelim(t, p);
    } else {
      var i := AfterDelim(t);
      PiecesAppend(t[i + 3..], p);
      PiecesAppendStep(t, p, i);
    }
  }

  /** A hop appended after the first delimiter's remainder is appended to
      the whole trace. */
  lemma PiecesAppendStep(t: string, p: string, i: nat)
    requires FindDelim(t) == Some(i) && i + 3 <= |t|
    requires Pieces(AppendTracePath(t[i + 3..], p)) == Pieces(t[i + 3..]) + [p]
    ensures Pieces(AppendTracePath(t, p)) == Pieces(t) + [p]
  {
    AppendAfterDelim(t, p, i);
    PiecesAt(t, i);
    ConsSnoc(t[..i], Pieces(t[i + 3..]), p);
  }

  lemma ConsSnoc(h: string, q: seq<string>, p: string)
    ensures [h] + (q + [p]) == ([h] + q) + [p]
  {
  }

  /** Without a final dot, the last piece of a trace is not empty. */
  lemma {:induction false} LastPieceNonEmpty(t: string)
    requires !EndsWithDot(t) && FindDelim(t).Some?
    ensures Pieces(t)[|Pieces(t)| - 1] != ""
    decreases |t|
  {
    var i := AfterDelim(t);
    var rest := t[i + 3..];
    if FindDelim(rest).Some? {
      LastPieceNonEmpty(rest);
    }
  }

  /** Splitting an extended trace yields the old hops and the new one. */
  lemma SplitAppend(t: string, p: string)
    requires !EndsWithDot(t) && !ContainsDelim(p) && p != ""
    ensures Split(AppendTracePath(t, p)) == Split(t) + [p]
  {
    var s := AppendTracePath(t, p);
    PiecesAppend(t, p);
    assert DelimAt(s, |t|);
    assert DropTrailingEmpty(Pieces(t) + [p]) == Pieces(t) + [p];
    if FindDelim(t).Some? {
      LastPieceNonEmpty(t);
    }
  }
}
