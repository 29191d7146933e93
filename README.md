# SAMP wire codec, modelled in Dafny

SAMP is a line-oriented message format. The first line is an intro line:
`SAMP/<version> <KIND>[/<status>] <action>`. Header lines `name: value`
follow. An empty line closes the header block, and an optional body comes
after it. The class `nz.co.fnzc.samp.Samp` provides four groups of operations:

- `parse` reads text into a message.
- `format` writes a message, or its separate fields, back as text.
- `formatTracePaths`, `appendTracePath` and `tracePaths` join, extend and
  split the `Trace` header on the literal `...`.
- `response` builds the reply to a message. The reply has kind `EVENT` and
  the same action. It copies the `Correlation-Id` and `From` headers and
  extends the trace.

The model keeps each operation in the form the Java code has it:

- `parse` is the method `Parser.Parse`. Its two loops are the methods
  `Parser.ReadHeaders` and `Parser.ReadBody`. Parse is proved equal to the
  specification function `Parser.Parsed`.
- `format` is the method `Formatter.Format`. It appends to a buffer step by
  step, and walks the header keys least first the way a `TreeMap` does. It is
  proved equal to `Formatter.Formatted`.
- The message builder is the class `Messages.MessageBuilder`, whose fields
  change in place. `response` fills a fresh builder through those methods.
- The trace utilities are pure functions.

The two regular expressions are rewritten as explicit greedy matchers,
`Grammar.MatchIntro` and `Grammar.MatchHeader`. Each matcher is proved to
accept exactly the language its pattern denotes (`IntroMatches`,
`HeaderMatches`) and to return the groups Java returns.
`BufferedReader.readLine` is the function `Lines.ReadLines`. It ends a line
at `\n`, `\r` or `\r\n`.

The properties proved:

- Parse fails exactly when the input is empty or its first line is outside
  the intro pattern's language.
- In the header block the last line that sets a name wins, and lines that do
  not match are dropped. The block ends at the first empty line.
- The body is absent exactly when no line follows the block. Otherwise it is
  the remaining lines, each followed by `\n`.
- Format writes the intro, then one line per header in strictly ascending key
  order, then the empty line, then the body.
- Parse after format returns the fields that were written. Format after parse
  writes text that parses back to the same message, except that the version
  becomes `1.0`.
- `tracePaths` inverts `formatTracePaths` under the conditions `String.split`
  needs.
- A reply's trace reads back as the source's hops followed by the new hop.

Modules:

| module | what it holds |
|---|---|
| `Wrappers` | `Option` and `Result` |
| `Chars` | the character classes of `java.util.regex` and `String.compareTo` |
| `Lines` | `readLine` and the re-termination of body lines |
| `Grammar` | the intro and header matchers and their languages |
| `Names` | the advisory string constants |
| `Messages` | the message datatype and the builder class |
| `Parser` | `parse` |
| `Formatter` | `format` |
| `TracePaths` | the trace utilities |
| `Responses` | `response` |
| `RoundTrip` | parse and format together |

## Model

| member | source | states |
|---|---|---|
| Parser.Parse | src/main/java/nz/co/fnzc/samp/Samp.java:38-77 | parse returns `Parsed(message)`: `MissingIntro` without a first line, `InvalidFrame` when the intro does not match, otherwise the intro groups, the header map of the block and the body |
| Parser.ReadHeaders | src/main/java/nz/co/fnzc/samp/Samp.java:54-62 | the header loop stops at the first empty line or at the end of input, and its map is `Headers` of the lines it passed: each matching line puts its value under its name, replacing an earlier one, and a line that does not match leaves the map as it is |
| Parser.ReadBody | src/main/java/nz/co/fnzc/samp/Samp.java:64-74 | the body loop yields no body for no lines, otherwise every line followed by the separator, in order |
| Parser.HeaderBlockEnd | src/main/java/nz/co/fnzc/samp/Samp.java:55-62 | the block end is the first empty line at or after the start, or the end of input |
| Parser.Fields | src/main/java/nz/co/fnzc/samp/Samp.java:57 | each line of the block is matched against the header pattern, one result per line |
| Parser.CollectHas | src/main/java/nz/co/fnzc/samp/Samp.java:56-62 | a name is in the map exactly when some matched line sets it |
| Parser.CollectLast | src/main/java/nz/co/fnzc/samp/Samp.java:56-62 | the value under a name is the one the last setting line gives |
| Parser.CollectLastWins | src/main/java/nz/co/fnzc/samp/Samp.java:56-62 | both properties together: present exactly when set, and the last setter wins |
| Parser.HeadersLastWins | src/main/java/nz/co/fnzc/samp/Samp.java:54-62 | for a block of lines, a name is present exactly when some line matches with that name, and its value is the last such line's value |
| Parser.HeadersWellFormed | src/main/java/nz/co/fnzc/samp/Samp.java:35 | parsed header names are non-empty and colon-free, and parsed values have no terminator and no leading white space |
| Parser.ParseFailure | src/main/java/nz/co/fnzc/samp/Samp.java:46-48 | parse fails with `MissingIntro` exactly on empty input, and with `InvalidFrame` exactly when the first line is outside the intro language; it succeeds otherwise |
| Parser.ParsedIntro | src/main/java/nz/co/fnzc/samp/Samp.java:46-52 | the version, kind, status and action of a parse are the pieces of the first line's decomposition by the intro pattern |
| Parser.ParseLayout | src/main/java/nz/co/fnzc/samp/Samp.java:46-76 | an intro line, non-empty header lines, an empty line and any text parse to the intro groups, `Headers(block)` and the body read from that text |
| Parser.ParseLayoutNoBlank | src/main/java/nz/co/fnzc/samp/Samp.java:54-66 | without an empty line the header block runs to the end of input and the body is absent |
| Parser.BodyNormalization | src/main/java/nz/co/fnzc/samp/Samp.java:64-74 | for text without `\r` the body is absent for no text, the text itself when it ends in `\n`, and the text plus `\n` otherwise |
| Parser.FrameWellFormed | src/main/java/nz/co/fnzc/samp/Samp.java:49-76 | a frame built from break-free lines has well-formed intro fields, headers and body |
| Parser.ParsedWellFormed | src/main/java/nz/co/fnzc/samp/Samp.java:38-77 | everything a successful parse returns can be written back as it is |
| Lines.LineEnd | src/main/java/nz/co/fnzc/samp/Samp.java:46 | readLine's line ends at the first `\n` or `\r` |
| Lines.ReadLines | src/main/java/nz/co/fnzc/samp/Samp.java:46-73 | readLine gives no lines exactly for empty input |
| Lines.ReadLinesNoBreaks | src/main/java/nz/co/fnzc/samp/Samp.java:46-73 | no line readLine returns holds a line break |
| Lines.ReadLinesTerminated | src/main/java/nz/co/fnzc/samp/Samp.java:46-73 | lines written each with `\n` are read back as the same lines, and reading continues with what follows |
| Lines.TerminatedReadLines | src/main/java/nz/co/fnzc/samp/Samp.java:64-74 | re-reading and re-terminating text without `\r` leaves text that ends in `\n` unchanged, and adds one `\n` otherwise |
| Lines.Terminated | src/main/java/nz/co/fnzc/samp/Samp.java:64-74 | the body loop's text: each line followed by the separator, in order; empty exactly when there are no lines, and otherwise ending in the separator |
| Lines.TerminatedNoCarriageReturn | src/main/java/nz/co/fnzc/samp/Samp.java:67 | re-terminated break-free lines contain no `\r` |
| Grammar.SpanLen | src/main/java/nz/co/fnzc/samp/Samp.java:34-35 | a greedy `cls+` reaches to the first character outside the class |
| Grammar.MatchIntro | src/main/java/nz/co/fnzc/samp/Samp.java:47-52 | the groups of a match have a non-empty `[0-9.]` version, a non-empty alphabetic kind, an absent or non-empty `[-\w]` status, and an action without terminators or leading white space |
| Grammar.IntroComplete | src/main/java/nz/co/fnzc/samp/Samp.java:47-52 | every line of the intro language matches, with the version, the kind, the status without its slash, and the action after the whole white space run |
| Grammar.IntroSound | src/main/java/nz/co/fnzc/samp/Samp.java:47-52 | every match is a line of the intro language, and its groups are the pieces of that decomposition |
| Grammar.IntroMatchesIff | src/main/java/nz/co/fnzc/samp/Samp.java:34 | the intro matcher accepts a line exactly when it is in the intro pattern's language |
| Grammar.MatchHeader | src/main/java/nz/co/fnzc/samp/Samp.java:57-59 | a header match has a non-empty colon-free name and a value without terminators or leading white space |
| Grammar.HeaderComplete | src/main/java/nz/co/fnzc/samp/Samp.java:57-59 | every line of the header language matches, with the name and the value after the white space run |
| Grammar.HeaderSound | src/main/java/nz/co/fnzc/samp/Samp.java:57-59 | every header match is `name + ":" + ws + value` with its groups as pieces |
| Grammar.HeaderMatchesIff | src/main/java/nz/co/fnzc/samp/Samp.java:35 | the header matcher accepts a line exactly when it is in the header pattern's language |
| Formatter.Format | src/main/java/nz/co/fnzc/samp/Samp.java:127-150 | format's buffer equals `Formatted`: the intro line, the header lines in ascending key order, an empty line, each ended by `\n`, then the body |
| Formatter.WriteIntro | src/main/java/nz/co/fnzc/samp/Samp.java:129-137 | the first appends write `"SAMP/1.0 "`, the kind, `"/" + status` only when a status is present, `" "`, the action and `\n`, which is the intro line with version 1.0 |
| Formatter.WriteHeaders | src/main/java/nz/co/fnzc/samp/Samp.java:138-143 | the TreeMap walk writes `k: v` and `\n` for each key, least key first, each key once |
| Formatter.FormatMessage | src/main/java/nz/co/fnzc/samp/Samp.java:118-124 | formatting a message formats its kind, status, action, headers and body, and not its version |
| Formatter.SortedKeys | src/main/java/nz/co/fnzc/samp/Samp.java:138 | the TreeMap key order lists every key exactly once, strictly ascending under `compareTo` |
| Formatter.AscendingUnique | src/main/java/nz/co/fnzc/samp/Samp.java:138 | any strictly ascending listing of the keys is that order, so the output is determined by the map alone |
| Formatter.LeastExists | src/main/java/nz/co/fnzc/samp/Samp.java:138 | every non-empty key set has a least key, the one a TreeMap visits first |
| Chars.LessTotal | src/main/java/nz/co/fnzc/samp/Samp.java:138 | `compareTo` orders distinct keys one way and not the other |
| Chars.LessTransitive | src/main/java/nz/co/fnzc/samp/Samp.java:138 | `compareTo` order is transitive |
| RoundTrip.ParseFormat | src/test/java/nz/co/fnzc/samp/SampTest.java:257-277 | parsing what format writes from transmissible fields gives version 1.0, the same kind, status, action and headers, and, for any body, the body as `readLine` splits it and the parser re-terminates it |
| RoundTrip.ParseFormatNoCarriageReturn | src/test/java/nz/co/fnzc/samp/SampTest.java:257-277 | for a body without `\r`, the body comes back absent when empty, as written when it ends in `\n`, and with one `\n` added otherwise |
| RoundTrip.FormatParse | src/main/java/nz/co/fnzc/samp/Samp.java:118-150 | formatting a parsed message (either overload) and parsing the result gives the same message with version 1.0 |
| RoundTrip.HeaderLinesRead | src/main/java/nz/co/fnzc/samp/Samp.java:138-143 | the header lines format writes for some keys parse back to the map restricted to those keys |
| RoundTrip.HeaderReads | src/main/java/nz/co/fnzc/samp/Samp.java:139-142 | a header line format writes is one non-empty line that matches with the same name and value |
| RoundTrip.IntroReads | src/main/java/nz/co/fnzc/samp/Samp.java:129-136 | the intro line format writes matches with version 1.0 and the same kind, status and action |
| TracePaths.FindDelim | src/main/java/nz/co/fnzc/samp/Samp.java:167 | the search finds the leftmost `...`, and finds nothing exactly when there is none |
| TracePaths.JoinPieces | src/main/java/nz/co/fnzc/samp/Samp.java:167 | joining the pieces between the matches gives back the string |
| TracePaths.PiecesJoin | src/main/java/nz/co/fnzc/samp/Samp.java:153-156 | the pieces of joined segments are the segments, when none holds `...` and none but the last ends in a dot |
| TracePaths.SplitJoin | src/main/java/nz/co/fnzc/samp/Samp.java:153-167 | `tracePaths` inverts `formatTracePaths` on a non-empty list of delimiter-free segments, none but the last ending in a dot, whose last segment is non-empty unless it is the only one |
| TracePaths.JoinAppend | src/main/java/nz/co/fnzc/samp/Samp.java:153-161 | appending a hop to a joined list is joining the extended list |
| TracePaths.PiecesAppend | src/main/java/nz/co/fnzc/samp/Samp.java:159-161 | appending a delimiter-free hop to a trace without a final dot adds exactly that piece |
| TracePaths.SplitAppend | src/main/java/nz/co/fnzc/samp/Samp.java:159-167 | splitting an extended trace gives the old hops and then the new one |
| TracePaths.Split | src/main/java/nz/co/fnzc/samp/Samp.java:167 | `String.split`: the input itself when it holds no `...`; no hop holds `...`; and when there was a match the last hop is not empty |
| TracePaths.DropTrailingEmpty | src/main/java/nz/co/fnzc/samp/Samp.java:167 | the longest prefix of the pieces that does not end in an empty string, everything dropped being empty |
| TracePaths.PiecesNoDelim | src/main/java/nz/co/fnzc/samp/Samp.java:167 | no piece between matches holds `...` |
| TracePaths.Join | src/main/java/nz/co/fnzc/samp/Samp.java:153-156 | `formatTracePaths`: no hops join to the empty string; otherwise the text starts with the first hop and ends with the last |
| TracePaths.AppendTracePath | src/main/java/nz/co/fnzc/samp/Samp.java:159-161 | `appendTracePath`: the old trace, then `...` at its end, then the new hop, and nothing else |
| TracePaths.TracePaths | src/main/java/nz/co/fnzc/samp/Samp.java:164-171 | `tracePaths`: no hops without a Trace header; the header value itself when it holds no `...`; and no hop holds `...` |
| Responses.ReplyHeaders | src/main/java/nz/co/fnzc/samp/Samp.java:99-113 | the reply carries only Correlation-Id, From and Trace: the first two copied when present, Trace extended with the hop or `?`, or set to the hop, or absent |
| Responses.Derive | src/main/java/nz/co/fnzc/samp/Samp.java:94-115 | a fresh builder with kind EVENT, no status, the source action, no body and `ReplyHeaders` |
| Responses.Response | src/main/java/nz/co/fnzc/samp/Samp.java:85-87 | the reply without a hop of its own |
| Responses.ResponseWithTrace | src/main/java/nz/co/fnzc/samp/Samp.java:90-92 | the reply naming a hop |
| Responses.ReplyHops | src/main/java/nz/co/fnzc/samp/Samp.java:109-113 | read back with `tracePaths`, the trace of a reply message is the source message's hops plus the new hop (`?` when none), or the new hop alone, or nothing |
| Messages.MessageBuilder.constructor | src/main/java/nz/co/fnzc/samp/Samp.java:95 | a new builder has kind EVENT and no status, action, headers or body |
| Messages.MessageBuilder.Event | src/main/java/nz/co/fnzc/samp/Samp.java:96 | `event()` sets kind EVENT without a status and changes nothing else |
| Messages.MessageBuilder.WithAction | src/main/java/nz/co/fnzc/samp/Samp.java:97 | `withAction` sets the action and changes nothing else |
| Messages.MessageBuilder.WithHeader | src/main/java/nz/co/fnzc/samp/Samp.java:104-112 | `withHeader` sets one header, replacing an earlier value, and changes nothing else |

## Left out

- Streams and charsets: `ByteArrayInputStream`, `InputStreamReader`, `getBytes()` and `new String(bytes)` use the platform charset. Bytes are modelled as characters, and the body is text.
- `BufferedReader.readLine` is modelled with all three of its terminators (`\n`, `\r`, `\r\n`), and not with its buffering.
- The line separator (`System.getProperty("line.separator")`) is host-dependent. It is fixed to `"\n"`.
- Empty input: the source passes the `null` from `readLine` to the matcher and throws a `NullPointerException`. The model returns `Failure(MissingIntro)` instead, so both failures are values.
- Chars.Less: ordered by code point. Java's `compareTo` compares UTF-16 units, which differs only for characters outside the Basic Multilingual Plane.
- `MessageBuilder`, `Message` and `MessageI` are not part of this model beyond what `Samp.java` calls. The builder only has a constructor, `event()`, `withAction` and `withHeader`, and the source does not show its defaults. The model takes a new builder to have kind EVENT and nothing else set, as the builder tests' output shows. `withBody`, `withHeaders`, `failure` and the builder's own `format` are left out.
- The kind is any alphabetic token, and the action may be empty. The intro pattern allows both, and the kind and status constants are advisory only.
- Responses.ReplyHops: stated only for a source trace that does not end in a dot and a hop that is non-empty and free of `...`. `response(m, "")` appends an empty hop, which `split` then drops as trailing, and a final dot would merge with the delimiter.
- The literal input and output pairs of the test suite are not restated as separate lemmas. The general lemmas above cover the cases they pin down.
- `src/test/java/samp/SampTest.java` exercises an older class that is not part of this model.
