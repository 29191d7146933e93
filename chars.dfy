/** The character classes the codec's two regular expressions use, as Java's
    java.util.regex defines them without the UNICODE_CHARACTER_CLASS flag, and
    the ordering java.lang.String.compareTo puts on strings (the order a
    TreeMap<String, _> iterates in). */
module Chars {

  /** The classes that occur in the intro and header patterns. */
  datatype CharClass =
    | VersionChar   // [0-9\.]
    | Space         // \s
    | Alpha         // [a-zA-Z]
    | StatusChar    // [-\w]
    | NonColon      // [^:]

  /** Java's \s: space, tab, newline, vertical tab, form feed, carriage return. */
  predicate IsSpace(c: char) {
    c == ' ' || c == '\t' || c == '\n' || c == '\U{0B}' || c == '\U{0C}' || c == '\r'
  }

  predicate IsDigit(c: char) { '0' <= c <= '9' }

  predicate IsAlpha(c: char) { 'a' <= c <= 'z' || 'A' <= c <= 'Z' }

  /** Java's \w: [a-zA-Z_0-9]. */
  predicate IsWordChar(c: char) { IsAlpha(c) || IsDigit(c) || c == '_' }

  predicate InClass(cls: CharClass, c: char) {
    match cls
    case VersionChar => IsDigit(c) || c == '.'
    case Space => IsSpace(c)
    case Alpha => IsAlpha(c)
    case StatusChar => c == '-' || IsWordChar(c)
    case NonColon => c != ':'
  }

  /** Every character of s is in the class. */
  predicate AllIn(s: string, cls: CharClass) {
    forall i :: 0 <= i < |s| ==> InClass(cls, s[i])
  }

  /** The characters BufferedReader.readLine ends a line at. */
  predicate IsLineBreak(c: char) { c == '\n' || c == '\r' }

  predicate NoLineBreaks(s: string) {
    forall i :: 0 <= i < |s| ==> !IsLineBreak(s[i])
  }

  /** The line terminators of java.util.regex: the characters that '.' does
      not match when DOTALL is off. */
  predicate IsRegexTerminator(c: char) {
    c == '\n' || c == '\r' || c == '\U{85}' || c == '\U{2028}' || c == '\U{2029}'
  }

  /** A string that '.*' matches in full. */
  predicate NoTerminators(s: string) {
    forall i :: 0 <= i < |s| ==> !IsRegexTerminator(s[i])
  }

  /** String.compareTo(a, b) < 0: the first differing character decides, and a
      proper prefix comes first. */
  predicate Less(a: string, b: string)
    decreases |a|
  {
    if a == [] then b != []
    else if b == [] then false
    else if a[0] != b[0] then a[0] < b[0]
    else Less(a[1..], b[1..])
  }

  predicate LessEq(a: string, b: string) {
    a == b || Less(a, b)
  }

  lemma {:induction false} LessIrreflexive(a: string)
    ensures !Less(a, a)
  {
    if a != [] {
      LessIrreflexive(a[1..]);
    }
  }

  lemma {:induction false} LessTransitive(a: string, b: string, c: string)
    requires Less(a, b) && Less(b, c)
    ensures Less(a, c)
    decreases |a|
  {
    if a != [] && a[0] == b[0] && b[0] == c[0] {
      LessTransitive(a[1..], b[1..], c[1..]);
    }
  }

  /** compareTo is a total order: distinct strings are comparable one way and
      not the other. */
  lemma {:induction false} LessTotal(a: string, b: string)
    ensures a != b <==> (Less(a, b) != Less(b, a))
    decreases |a|
  {
    if a == [] || b == [] {
      LessIrreflexive(a);
    } else if a[0] == b[0] {
      LessTotal(a[1..], b[1..]);
      assert a == [a[0]] + a[1..] && b == [b[0]] + b[1..];
    }
  }

  lemma NoLineBreaksAppend(a: string, b: string)
    requires NoLineBreaks(a) && NoLineBreaks(b)
    ensures NoLineBreaks(a + b)
  {
    assert forall i :: |a| <= i < |a + b| ==> (a + b)[i] == b[i - |a|];
  }

  /** A string '.*' matches has no line breaks. */
  lemma NoTerminatorsNoLineBreaks(s: string)
    requires NoTerminators(s)
    ensures NoLineBreaks(s)
  {
  }

  /** No character of the classes but \s and [^:] breaks a line. */
  lemma AllInNoLineBreaks(s: string, cls: CharClass)
    requires AllIn(s, cls) && cls != Space && cls != NonColon
    ensures NoLineBreaks(s)
  {
  }
}
