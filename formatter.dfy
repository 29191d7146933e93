/** Samp.format: the intro line with version 1.0, one line per header in
    ascending key order (a TreeMap walk), an empty line, then the body. */
module Formatter {
  import opened Wrappers
  import opened Chars
  import opened Lines
  import opened Grammar
  import opened Messages

  /** The version format always writes. */
  const Version := "1.0"

  // ------------------------------------------------------------- key order

  lemma LessEqTransitive(a: string, b: string, c: string)
    requires LessEq(a, b) && LessEq(b, c)
    ensures LessEq(a, c)
  {
    if a != b && b != c {
      LessTransitive(a, b, c);
    }
  }

  /** Every non-empty key set has a least key under String.compareTo. */
  lemma {:induction false} LeastExists(keys: set<string>)
    requires keys != {}
    ensures exists m :: m in keys && forall x :: x in keys ==> LessEq(m, x)
    decreases |keys|
  {
    var y :| y in keys;
    if keys != {y} {
      var rest := keys - {y};
      LeastExists(rest);
      var m :| m in rest && forall x :: x in rest ==> LessEq(m, x);
      if Less(y, m) {
        forall x | x in keys
          ensures LessEq(y, x)
        {
          if x != y {
            LessEqTransitive(y, m, x);
          }
        }
      } else {
        LessTotal(m, y);
        assert forall x :: x in keys ==> LessEq(m, x);
      }
    } else {
      assert forall x :: x in keys ==> x == y;
    }
  }

  ghost function Least(keys: set<string>): (m: string)
    requires keys != {}
    ensures m in keys && forall x :: x in keys ==> LessEq(m, x)
  {
    LeastExists(keys);
    var m :| m in keys && forall x :: x in keys ==> LessEq(m, x);
    m
  }

  /** The least key is unique. */
  lemma LeastUnique(keys: set<string>, m: string)
    requires m in keys && forall x :: x in keys ==> LessEq(m, x)
    ensures m == Least(keys)
  {
    LessTotal(m, Least(keys));
  }

  /** Strictly ascending: each key once, in TreeMap order. */
  ghost predicate Ascending(ks: seq<string>) {
    forall i, j :: 0 <= i < j < |ks| ==> Less(ks[i], ks[j])
  }

  /** The keys in the order a TreeMap visits them. */
  ghost function SortedKeys(keys: set<string>): (ks: seq<string>)
    ensures |ks| == |keys|
    ensures forall k :: k in keys <==> k in ks
    ensures Ascending(ks)
    decreases |keys|
  {
    if keys == {} then []
    else
      var m := Least(keys);
      var rest := SortedKeys(keys - {m});
      assert forall j :: 0 <= j < |rest| ==> Less(m, rest[j]) by {
        forall j | 0 <= j < |rest| ensures Less(m, rest[j]) {
          assert rest[j] in keys - {m};
        }
      }
      [m] + rest
  }

  /** The first key of an ascending listing is the least. */
  lemma AscendingHead(ks: seq<string>, keys: set<string>)
    requires Ascending(ks) && ks != []
    requires forall k :: k in keys <==> k in ks
    ensures keys != {} && ks[0] == Least(keys)
  {
    assert ks[0] in keys;
    forall x | x in keys
      ensures LessEq(ks[0], x)
    {
      var j :| 0 <= j < |ks| && ks[j] == x;
      if j > 0 {
        assert Less(ks[0], ks[j]);
      }
    }
    LeastUnique(keys, ks[0]);
  }

  /** The rest of an ascending listing lists the other keys, ascending. */
  lemma AscendingTail(ks: seq<string>, keys: set<string>)
    requires Ascending(ks) && ks != []
    requires forall k :: k in keys <==> k in ks
    ensures Ascending(ks[1..])
    ensures forall k :: k in keys - {ks[0]} <==> k in ks[1..]
  {
    var m, rest := ks[0], ks[1..];
    forall k
      ensures k in keys - {m} <==> k in rest
    {
      if k in rest {
        var j :| 0 <= j < |rest| && rest[j] == k;
        assert Less(ks[0], ks[j + 1]);
        LessIrreflexive(m);
      }
    }
    forall i, j | 0 <= i < j < |rest|
      ensures Less(rest[i], rest[j])
    {
      assert Less(ks[i + 1], ks[j + 1]);
    }
  }

  lemma SortedKeysCons(keys: set<string>)
    requires keys != {}
    ensures SortedKeys(keys) == [Least(keys)] + SortedKeys(keys - {Least(keys)})
  {
  }

  lemma HeadTail(ks: seq<string>)
    requires ks != []
    ensures ks == [ks[0]] + ks[1..]
  {
  }

  /** SortedKeys is the only ascending listing of a key set: the visiting
      order is determined by the keys alone. */
  lemma {:induction false} AscendingUnique(ks: seq<string>, keys: set<string>)
    requires Ascending(ks)
    requires forall k :: k in keys <==> k in ks
    ensures ks == SortedKeys(keys)
    decreases |ks|
  {
    if ks == [] {
      assert keys == {};
    } else {
      AscendingHead(ks, keys);
      AscendingTail(ks, keys);
      AscendingUnique(ks[1..], keys - {ks[0]});
      SortedKeysCons(keys);
      HeadTail(ks);
    }
  }

  // ------------------------------------------------------------ the output

  /** The header lines format writes for the given keys, in their order. */
  function HeaderLines(headers: map<string, string>, keys: seq<string>): seq<string>
    requires forall k :: k in keys ==> k in headers
  {
    seq(|keys|, i requires 0 <= i < |keys| => HeaderLine(keys[i], " ", headers[keys[i]]))
  }

  lemma HeaderLinesSnoc(headers: map<string, string>, keys: seq<string>, k: string)
    requires k in headers && forall x :: x in keys ==> x in headers
    ensures HeaderLines(headers, keys + [k]) == HeaderLines(headers, keys) + [HeaderLine(k, " ", headers[k])]
  {
  }

  /** The intro line format writes: single spaces and version 1.0. */
  function IntroText(kind: string, status: Option<string>, action: string): string {
    IntroLine(Version, " ", kind, status, " ", action)
  }

  /** What format returns: the intro line, the header lines in ascending key
      order, the empty line, each with "\n" after it, then the body as it
      is. */
  ghost function Formatted(kind: string, status: Option<string>, action: string,
                           headers: map<string, string>, body: Option<string>): string
  {
    Terminated([IntroText(kind, status, action)] + HeaderLines(headers, SortedKeys(headers.Keys)) + [""])
      + body.GetOr("")
  }

  /** Samp.format(kind, status, action, headers, body): appends to a buffer
      step by step. */
  method Format(kind: string, status: Option<string>, action: string,
                headers: map<string, string>, body: Option<string>) returns (out: string)
    ensures out == Formatted(kind, status, action, headers, body)
  {
    var sb := WriteIntro(kind, status, action);
    sb := WriteHeaders(sb, headers);
    sb := sb + "\n";
    if body.Some? {
      sb := sb + body.value;
    }
    out := sb;
    FormattedParts(kind, status, action, headers, body);
  }

  /** The intro line and its "\n". */
  method WriteIntro(kind: string, status: Option<string>, action: string) returns (sb: string)
    ensures sb == IntroText(kind, status, action) + "\n"
  {
    sb := "SAMP/1.0 ";
    sb := sb + kind;
    if status.Some? {
      sb := sb + "/";
      sb := sb + status.value;
    }
    assert sb == "SAMP/1.0 " + kind + StatusSuffix(status);
    sb := sb + " ";
    sb := sb + action;
    sb := sb + "\n";
    IntroTextFlat(kind, status, action);
  }

  lemma IntroTextFlat(kind: string, status: Option<string>, action: string)
    ensures IntroText(kind, status, action) == "SAMP/1.0 " + kind + StatusSuffix(status) + " " + action
  {
  }

  /** The TreeMap.forEach walk: one line per header, visiting the keys least
      first. */
  method WriteHeaders(start: string, headers: map<string, string>) returns (sb: string)
    ensures sb == start + Terminated(HeaderLines(headers, SortedKeys(headers.Keys)))
  {
    sb := start;
    var remaining := headers.Keys;
    ghost var done: seq<string> := [];
    while remaining != {}
      invariant remaining <= headers.Keys
      invariant forall k :: k in done ==> k in headers
      invariant done + SortedKeys(remaining) == SortedKeys(headers.Keys)
      invariant sb == start + Terminated(HeaderLines(headers, done))
      decreases |remaining|
    {
      LeastExists(remaining);
      var k :| k in remaining && forall x :: x in remaining ==> LessEq(k, x);
      LeastUnique(remaining, k);
      SortedKeysStep(done, remaining);
      ghost var before := sb;
      sb := sb + k;
      sb := sb + ": ";
      sb := sb + headers[k];
      sb := sb + "\n";
      HeaderStep(start, headers, done, k, before);
      done := done + [k];
      remaining := remaining - {k};
    }
    assert done == SortedKeys(headers.Keys) by {
      assert SortedKeys(remaining) == [];
      assert done + [] == done;
    }
  }

  /** Taking the least remaining key keeps the visited keys a prefix of the
      ascending order. */
  lemma SortedKeysStep(done: seq<string>, remaining: set<string>)
    requires remaining != {}
    ensures done + SortedKeys(remaining) == (done + [Least(remaining)]) + SortedKeys(remaining - {Least(remaining)})
  {
    SortedKeysCons(remaining);
    var m := Least(remaining);
    var r := SortedKeys(remaining - {m});
    assert done + ([m] + r) == (done + [m]) + r;
  }

  /** Appending one header line to the buffer. */
  lemma HeaderStep(start: string, headers: map<string, string>, done: seq<string>, k: string, before: string)
    requires k in headers && forall x :: x in done ==> x in headers
    requires before == start + Terminated(HeaderLines(headers, done))
    ensures before + k + ": " + headers[k] + "\n" == start + Terminated(HeaderLines(headers, done + [k]))
  {
    var line := HeaderLine(k, " ", headers[k]);
    HeaderLinesSnoc(headers, done, k);
    TerminatedSnoc(HeaderLines(headers, done), line);
  }

  /** The intro line, the header walk, the empty line and the body. */
  lemma FormattedParts(kind: string, status: Option<string>, action: string,
                       headers: map<string, string>, body: Option<string>)
    ensures IntroText(kind, status, action) + "\n" + Terminated(HeaderLines(headers, SortedKeys(headers.Keys)))
            + "\n" + body.GetOr("")
         == Formatted(kind, status, action, headers, body)
  {
    var intro := IntroText(kind, status, action);
    var block := HeaderLines(headers, SortedKeys(headers.Keys));
    TerminatedCons(intro, block);
    TerminatedSnoc([intro] + block, "");
  }

  /** Samp.format(message): the message's kind, status, action, headers and
      body; its version is not written. */
  method FormatMessage(m: Message) returns (out: string)
    ensures out == Formatted(m.kind, m.status, m.action, m.headers, m.body)
  {
    out := Format(m.kind, m.status, m.action, m.headers, m.body);
  }
}
