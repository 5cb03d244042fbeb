/** The generation log `output_log.txt`: one entry appended per successful
    generation, which spans several lines when a logged field holds a line
    break, and read back by `/logs` as its most recent lines.

    The file is a string of characters together with whether it exists. Writing
    is `open(..., "a")` followed by one `write`; whether the open succeeds and how
    much of the entry reaches the file enter as a WriteOutcome. Reading is
    `readlines()` in text mode, that is, universal-newline translation followed
    by a split after every line feed. */
module GenerationLog {
  import opened Wrappers
  import opened PyStr
  import opened Http

  const PromptPreviewLength := 100
  const OutputPreviewLength := 200
  const Ellipsis := "..."
  const FieldSeparator := " | "
  const NoLogsMessage := "No logs found"
  const ReadFailurePrefix := "Failed to read logs: "
  const DefaultTailLength := 50

  /** The first `limit` characters of `s`, marked with an ellipsis when
      something was cut off. */
  function Preview(s: string, limit: nat): (r: string)
    ensures |s| <= limit ==> r == s
    ensures |s| > limit ==> |r| == limit + |Ellipsis| && r[..limit] == s[..limit] && r[limit..] == Ellipsis
  {
    if |s| > limit then s[..limit] + Ellipsis else s
  }

  predicate NoLineBreak(s: string) {
    forall i | 0 <= i < |s| :: s[i] != '\n' && s[i] != '\r'
  }

  /** A complete line as `readlines` returns it: a line feed at the end and no
      line break anywhere before it. */
  predicate SingleLine(s: string) {
    |s| > 0 && s[|s| - 1] == '\n' && NoLineBreak(s[..|s| - 1])
  }

  /** One log entry: timestamp, prompt preview, `str(temperature)`, the time
      taken to two decimals followed by `s`, and the output preview, separated
      by ` | ` and ended by a line feed. */
  function LogEntry(timestamp: string, prompt: string, temperatureText: string, timeTakenText: string, output: string): (e: string)
    ensures |e| > 0 && e[|e| - 1] == '\n'
  {
    timestamp + FieldSeparator + Preview(prompt, PromptPreviewLength) + FieldSeparator
      + temperatureText + FieldSeparator + timeTakenText + "s" + FieldSeparator
      + Preview(output, OutputPreviewLength) + "\n"
  }

  /** The fields of an entry, before the line feed, in the order they are written. */
  function EntryFields(timestamp: string, prompt: string, temperatureText: string, timeTakenText: string, output: string): (fields: seq<string>)
    ensures |fields| == 5
  {
    [timestamp, Preview(prompt, PromptPreviewLength), temperatureText, timeTakenText + "s", Preview(output, OutputPreviewLength)]
  }

  predicate NoBar(s: string) {
    forall i | 0 <= i < |s| :: s[i] != '|'
  }

  lemma PreviewKeepsNoBar(s: string, limit: nat)
    requires NoBar(s)
    ensures NoBar(Preview(s, limit))
  {
    var r := Preview(s, limit);
    if |s| > limit {
      forall i | 0 <= i < |r| ensures r[i] != '|' {
        if i < limit { assert r[i] == s[i]; } else { assert r[i] == Ellipsis[i - limit]; }
      }
    }
  }

  /** Before the end of a field free of `|`, the separator cannot start. */
  lemma NoSeparatorInsideField(p: string, rest: string, j: nat)
    requires NoBar(p) && j < |p|
    ensures !OccursAt(p + FieldSeparator + rest, FieldSeparator, j)
  {
    var s := p + FieldSeparator + rest;
    if j + |FieldSeparator| <= |s| {
      assert s[j + 1] != '|' by {
        if j + 1 < |p| { assert s[j + 1] == p[j + 1]; } else { assert s[j + 1] == ' '; }
      }
      assert s[j..j + |FieldSeparator|][1] == s[j + 1];
    }
  }

  /** The separator after a field free of `|` is the first one. */
  lemma FindFieldSeparator(p: string, rest: string)
    requires NoBar(p)
    ensures Find(p + FieldSeparator + rest, FieldSeparator) == Some(|p|)
  {
    var s := p + FieldSeparator + rest;
    assert s[|p|..|p| + |FieldSeparator|] == FieldSeparator;
    assert OccursAt(s, FieldSeparator, |p|);
    FindFirst(s, FieldSeparator);
    var v := Find(s, FieldSeparator).value;
    if v < |p| {
      NoSeparatorInsideField(p, rest, v);
    }
  }

  /** Splitting fields joined by ` | ` gives them back when none holds a `|`. */
  lemma {:induction false} SplitJoinedFields(fields: seq<string>)
    requires |fields| >= 1
    requires forall i | 0 <= i < |fields| :: NoBar(fields[i])
    ensures Split(Join(fields, FieldSeparator), FieldSeparator) == fields
    decreases |fields|
  {
    var p := fields[0];
    if |fields| == 1 {
      assert !Contains(p, FieldSeparator) by {
        forall j | 0 <= j <= |p| - |FieldSeparator| ensures !OccursAt(p, FieldSeparator, j) {
          assert p[j..j + |FieldSeparator|][1] == p[j + 1];
        }
      }
      FindFirst(p, FieldSeparator);
    } else {
      var rest := Join(fields[1..], FieldSeparator);
      var s := p + FieldSeparator + rest;
      assert Join(fields, FieldSeparator) == s;
      FindFieldSeparator(p, rest);
      assert s[..|p|] == p;
      assert s[|p| + |FieldSeparator|..] == rest;
      SplitJoinedFields(fields[1..]);
      assert Split(s, FieldSeparator) == [p] + fields[1..];
    }
  }

  lemma JoinFive(a: string, b: string, c: string, d: string, e: string, sep: string)
    ensures Join([a, b, c, d, e], sep) == a + sep + (b + sep + (c + sep + (d + sep + e)))
  {
    assert [d, e][1..] == [e];
    assert Join([d, e], sep) == d + sep + e;
    assert [c, d, e][1..] == [d, e];
    assert Join([c, d, e], sep) == c + sep + (d + sep + e);
    assert [b, c, d, e][1..] == [c, d, e];
    assert Join([b, c, d, e], sep) == b + sep + (c + sep + (d + sep + e));
    assert [a, b, c, d, e][1..] == [b, c, d, e];
  }

  /** A log entry is its fields joined by ` | ` and ended by a line feed. */
  lemma EntryJoinsFields(timestamp: string, prompt: string, temperatureText: string, timeTakenText: string, output: string)
    ensures LogEntry(timestamp, prompt, temperatureText, timeTakenText, output)
      == Join(EntryFields(timestamp, prompt, temperatureText, timeTakenText, output), FieldSeparator) + "\n"
  {
    var sep := FieldSeparator;
    var a, b, c, d, e := timestamp, Preview(prompt, PromptPreviewLength), temperatureText, timeTakenText + "s", Preview(output, OutputPreviewLength);
    JoinFive(a, b, c, d, e, sep);
    assert timeTakenText + "s" + sep == d + sep;
    assert a + sep + b + sep + c + sep + d + sep + e == a + sep + (b + sep + (c + sep + (d + sep + e)));
  }

  /** The entry parses back into its fields: with no `|` in the timestamp,
      the prompt, the two numbers or the output, splitting the line (without its
      line feed) on ` | ` yields exactly the five fields that were written. */
  lemma EntryParsesIntoFields(timestamp: string, prompt: string, temperatureText: string, timeTakenText: string, output: string)
    requires NoBar(timestamp) && NoBar(prompt) && NoBar(temperatureText) && NoBar(timeTakenText) && NoBar(output)
    ensures var e := LogEntry(timestamp, prompt, temperatureText, timeTakenText, output);
      Split(e[..|e| - 1], FieldSeparator) == EntryFields(timestamp, prompt, temperatureText, timeTakenText, output)
  {
    var e := LogEntry(timestamp, prompt, temperatureText, timeTakenText, output);
    var f := EntryFields(timestamp, prompt, temperatureText, timeTakenText, output);
    EntryJoinsFields(timestamp, prompt, temperatureText, timeTakenText, output);
    assert e[..|e| - 1] == Join(f, FieldSeparator);
    PreviewKeepsNoBar(prompt, PromptPreviewLength);
    PreviewKeepsNoBar(output, OutputPreviewLength);
    assert NoBar(timeTakenText + "s") by {
      forall i | 0 <= i < |timeTakenText| + 1 ensures (timeTakenText + "s")[i] != '|' {
        if i < |timeTakenText| { assert (timeTakenText + "s")[i] == timeTakenText[i]; }
      }
    }
    assert forall i | 0 <= i < |f| :: NoBar(f[i]) by {
      assert f[0] == timestamp && f[2] == temperatureText && f[3] == timeTakenText + "s";
    }
    SplitJoinedFields(f);
  }

  lemma PreviewKeepsNoLineBreak(s: string, limit: nat)
    requires NoLineBreak(s)
    ensures NoLineBreak(Preview(s, limit))
  {
    var r := Preview(s, limit);
    if |s| > limit {
      forall i | 0 <= i < |r| ensures r[i] != '\n' && r[i] != '\r' {
        if i < limit { assert r[i] == s[i]; } else { assert r[i] == Ellipsis[i - limit]; }
      }
    }
  }

  /** An entry whose fields hold no line break is one complete line, ended by its line feed. */
  lemma EntryIsOneLine(timestamp: string, prompt: string, temperatureText: string, timeTakenText: string, output: string)
    requires NoLineBreak(timestamp) && NoLineBreak(prompt) && NoLineBreak(temperatureText)
    requires NoLineBreak(timeTakenText) && NoLineBreak(output)
    ensures SingleLine(LogEntry(timestamp, prompt, temperatureText, timeTakenText, output))
  {
    var e := LogEntry(timestamp, prompt, temperatureText, timeTakenText, output);
    PreviewKeepsNoLineBreak(prompt, PromptPreviewLength);
    PreviewKeepsNoLineBreak(output, OutputPreviewLength);
    var body := e[..|e| - 1];
    assert body == timestamp + FieldSeparator + Preview(prompt, PromptPreviewLength) + FieldSeparator
      + temperatureText + FieldSeparator + timeTakenText + "s" + FieldSeparator + Preview(output, OutputPreviewLength);
  }

  /** A line feed within the first hundred characters of the prompt splits
      its entry over two lines of the file, so `/logs` counts it twice. */
  lemma EmbeddedLineFeedSplitsEntry(timestamp: string, prompt: string, temperatureText: string, timeTakenText: string, output: string, i: nat)
    requires i < |prompt| && i < PromptPreviewLength && prompt[i] == '\n'
    ensures |ReadLines(LogEntry(timestamp, prompt, temperatureText, timeTakenText, output))| >= 2
  {
    var e := LogEntry(timestamp, prompt, temperatureText, timeTakenText, output);
    var k := |timestamp| + |FieldSeparator| + i;
    assert e[k] == '\n';
    InnerLineFeedSplits(e, k);
  }

  /** The same for the output, whose first two hundred characters are logged:
      a line feed among them splits the entry as well. */
  lemma OutputLineFeedSplitsEntry(timestamp: string, prompt: string, temperatureText: string, timeTakenText: string, output: string, i: nat)
    requires i < |output| && i < OutputPreviewLength && output[i] == '\n'
    ensures |ReadLines(LogEntry(timestamp, prompt, temperatureText, timeTakenText, output))| >= 2
  {
    var e := LogEntry(timestamp, prompt, temperatureText, timeTakenText, output);
    var p := Preview(output, OutputPreviewLength);
    var k := |e| - 1 - |p| + i;
    assert p[i] == '\n';
    assert e[k] == p[i];
    InnerLineFeedSplits(e, k);
  }

  /** Text with a line feed before its last character reads back as at least
      two lines. */
  lemma InnerLineFeedSplits(e: string, k: nat)
    requires k < |e| - 1 && e[k] == '\n'
    ensures |ReadLines(e)| >= 2
  {
    var t := TranslateNewlines(e);
    TranslateNewlinesKeepsLineFeeds(e, k);
    var j :| 0 <= j < |t| - 1 && t[j] == '\n';
    SplitLinesAtLineFeed(t, j);
  }

  // ---- Reading the file back ----

  /** How many raw characters the next translated character stands for: two
      for `\r\n`, one otherwise. */
  function NewlineStep(s: string): (n: nat)
    requires s != []
    ensures 1 <= n <= |s|
  {
    if s[0] == '\r' && |s| > 1 && s[1] == '\n' then 2 else 1
  }

  /** The next translated character: a carriage return becomes a line feed. */
  function NewlineHead(s: string): (h: string)
    requires s != []
    ensures |h| == 1 && h[0] != '\r'
    ensures h[0] == '\n' <==> s[0] == '\n' || s[0] == '\r'
  {
    if s[0] == '\r' then "\n" else [s[0]]
  }

  /** Text-mode reading: `\r\n` and a lone `\r` both become `\n`. */
  function TranslateNewlines(s: string): (t: string)
    ensures |t| <= |s|
    ensures s != [] ==> t != []
    decreases |s|
  {
    if s == [] then [] else NewlineHead(s) + TranslateNewlines(s[NewlineStep(s)..])
  }

  predicate NoCarriageReturn(s: string) {
    forall i | 0 <= i < |s| :: s[i] != '\r'
  }

  /** Text without a carriage return is read back unchanged. */
  lemma {:induction false} TranslateNewlinesIdentity(s: string)
    requires NoCarriageReturn(s)
    ensures TranslateNewlines(s) == s
    decreases |s|
  {
    if s != [] {
      assert s[0] != '\r';
      assert NoCarriageReturn(s[1..]) by {
        forall i | 0 <= i < |s| - 1 ensures s[1..][i] != '\r' { assert s[1..][i] == s[i + 1]; }
      }
      TranslateNewlinesIdentity(s[1..]);
      assert s == [s[0]] + s[1..];
    }
  }

  /** Translation works piece by piece as long as the first piece does not end
      in a carriage return (which could pair with a leading line feed). */
  lemma {:induction false} TranslateNewlinesAppend(a: string, b: string)
    requires a == [] || a[|a| - 1] != '\r'
    ensures TranslateNewlines(a + b) == TranslateNewlines(a) + TranslateNewlines(b)
    decreases |a|
  {
    if a == [] {
      assert a + b == b;
    } else {
      var n := NewlineStep(a);
      assert (a + b)[0] == a[0];
      assert a[0] == '\r' ==> |a| > 1 && (a + b)[1] == a[1];
      assert NewlineStep(a + b) == n && NewlineHead(a + b) == NewlineHead(a);
      assert (a + b)[n..] == a[n..] + b;
      TranslateNewlinesAppend(a[n..], b);
      assert TranslateNewlines(a + b) == NewlineHead(a) + TranslateNewlines(a[n..] + b);
    }
  }

  /** A line feed before the last raw character leaves a line feed before the
      last translated character. */
  lemma {:induction false} TranslateNewlinesKeepsLineFeeds(s: string, k: nat)
    requires k < |s| - 1 && s[k] == '\n'
    ensures exists j | 0 <= j < |TranslateNewlines(s)| - 1 :: TranslateNewlines(s)[j] == '\n'
    decreases |s|
  {
    var n := NewlineStep(s);
    var u := TranslateNewlines(s[n..]);
    var t := TranslateNewlines(s);
    assert t == NewlineHead(s) + u;
    if k < n {
      assert s[0] == '\n' || s[0] == '\r';
      assert s[n..] != [];
      assert t[0] == '\n';
    } else {
      assert s[n..][k - n] == '\n';
      TranslateNewlinesKeepsLineFeeds(s[n..], k - n);
      var j :| 0 <= j < |u| - 1 && u[j] == '\n';
      assert t[j + 1] == '\n';
    }
  }

  /** Length of the first line of `s`, its line feed included. */
  function FirstLineLength(s: string): (n: nat)
    requires s != []
    ensures 1 <= n <= |s|
    ensures n < |s| ==> s[n - 1] == '\n'
    decreases |s|
  {
    if s[0] == '\n' || |s| == 1 then 1 else 1 + FirstLineLength(s[1..])
  }

  /** The first line holds no line feed before its end. */
  lemma {:induction false} FirstLineLacksLineFeed(s: string, i: nat)
    requires s != [] && i < FirstLineLength(s) - 1
    ensures s[i] != '\n'
    decreases i
  {
    if i > 0 {
      FirstLineLacksLineFeed(s[1..], i - 1);
    }
  }

  /** `readlines` on translated text: the pieces after each line feed, line
      feeds kept, the last piece possibly unterminated. */
  function SplitLines(s: string): (lines: seq<string>)
    ensures (lines == []) == (s == [])
    ensures |lines| <= |s|
    decreases |s|
  {
    if s == [] then []
    else
      var n := FirstLineLength(s);
      [s[..n]] + SplitLines(s[n..])
  }

  /** The lines put together again give the text back. */
  lemma {:induction false} ConcatSplitLines(s: string)
    ensures Concat(SplitLines(s)) == s
    decreases |s|
  {
    if s != [] {
      var n := FirstLineLength(s);
      var rest := SplitLines(s[n..]);
      assert SplitLines(s) == [s[..n]] + rest;
      assert (([s[..n]] + rest)[1..]) == rest;
      ConcatSplitLines(s[n..]);
      assert s == s[..n] + s[n..];
    }
  }

  function Concat(lines: seq<string>): string {
    if lines == [] then [] else lines[0] + Concat(lines[1..])
  }

  /** `open(log_file).readlines()`: the lines put together are the text as
      read in text mode. */
  function ReadLines(content: string): (lines: seq<string>)
    ensures Concat(lines) == TranslateNewlines(content)
  {
    ConcatSplitLines(TranslateNewlines(content));
    SplitLines(TranslateNewlines(content))
  }

  /** A line feed before the last character makes at least two lines. */
  lemma SplitLinesAtLineFeed(s: string, j: nat)
    requires j < |s| - 1 && s[j] == '\n'
    ensures |SplitLines(s)| >= 2
  {
    var n := FirstLineLength(s);
    if j < n - 1 {
      FirstLineLacksLineFeed(s, j);
    }
    assert n <= j + 1;
    assert s[n..] != [];
  }

  lemma {:induction false} FirstLineOfAppend(a: string, b: string)
    requires a != [] && a[|a| - 1] == '\n'
    ensures FirstLineLength(a + b) == FirstLineLength(a)
    decreases |a|
  {
    if a[0] != '\n' {
      assert |a| > 1;
      assert (a + b)[0] == a[0];
      assert (a + b)[1..] == a[1..] + b;
      FirstLineOfAppend(a[1..], b);
    }
  }

  /** Lines split independently across a boundary that follows a line feed. */
  lemma {:induction false} SplitLinesAppend(a: string, b: string)
    requires a == [] || a[|a| - 1] == '\n'
    ensures SplitLines(a + b) == SplitLines(a) + SplitLines(b)
    decreases |a|
  {
    if a == [] {
      assert a + b == b;
    } else {
      var n := FirstLineLength(a);
      FirstLineOfAppend(a, b);
      var first, rest, after := [a[..n]], SplitLines(a[n..]), SplitLines(b);
      calc {
        SplitLines(a + b);
      == { SplitAtFirstLine(a, b, n); }
        first + SplitLines(a[n..] + b);
      == { SplitLinesAppend(a[n..], b); }
        first + (rest + after);
      ==
        (first + rest) + after;
      ==
        SplitLines(a) + after;
      }
    }
  }

  lemma SplitAtFirstLine(a: string, b: string, n: nat)
    requires a != [] && n == FirstLineLength(a) == FirstLineLength(a + b)
    ensures SplitLines(a + b) == [a[..n]] + SplitLines(a[n..] + b)
  {
    assert (a + b)[..n] == a[..n];
    assert (a + b)[n..] == a[n..] + b;
  }

  lemma SingleLineIsOneLine(e: string)
    requires SingleLine(e)
    ensures SplitLines(e) == [e]
    ensures NoCarriageReturn(e)
  {
    forall i | 0 <= i < |e| - 1 ensures e[i] != '\n' && e[i] != '\r' {
      assert e[i] == e[..|e| - 1][i];
    }
    assert FirstLineLength(e) == |e|;
    assert e[..|e|] == e;
    assert SplitLines(e) == [e] + SplitLines(e[|e|..]);
    assert e[|e|..] == [];
  }

  lemma ConcatKeepsNoCarriageReturn(a: string, b: string)
    requires NoCarriageReturn(a) && NoCarriageReturn(b)
    ensures NoCarriageReturn(a + b)
  {
    forall i | 0 <= i < |a + b| ensures (a + b)[i] != '\r' {
      if i < |a| { assert (a + b)[i] == a[i]; } else { assert (a + b)[i] == b[i - |a|]; }
    }
  }

  /** Complete lines written one after another split back into those lines. */
  lemma {:induction false} SplitConcatLines(entries: seq<string>)
    requires forall i | 0 <= i < |entries| :: SingleLine(entries[i])
    ensures SplitLines(Concat(entries)) == entries
    ensures NoCarriageReturn(Concat(entries))
    ensures Concat(entries) == [] || Concat(entries)[|Concat(entries)| - 1] == '\n'
    decreases |entries|
  {
    if entries != [] {
      var e := entries[0];
      var rest := Concat(entries[1..]);
      assert Concat(entries) == e + rest;
      SingleLineIsOneLine(e);
      SplitConcatLines(entries[1..]);
      SplitLinesAppend(e, rest);
      ConcatKeepsNoCarriageReturn(e, rest);
      assert entries == [e] + entries[1..];
    }
  }

  /** Lines written one by one are read back one by one: appending complete
      lines to a file that ends at a line boundary appends them to what
      `readlines` returns, and each comes back unchanged. */
  lemma ReadBackEntries(before: string, entries: seq<string>)
    requires before == [] || before[|before| - 1] == '\n'
    requires forall i | 0 <= i < |entries| :: SingleLine(entries[i])
    ensures ReadLines(before + Concat(entries)) == ReadLines(before) + entries
  {
    SplitConcatLines(entries);
    ReadBackText(before, Concat(entries));
  }

  lemma ReadBackText(before: string, c: string)
    requires before == [] || before[|before| - 1] == '\n'
    requires NoCarriageReturn(c)
    ensures ReadLines(before + c) == ReadLines(before) + SplitLines(c)
  {
    TranslateNewlinesIdentity(c);
    TranslateNewlinesAppend(before, c);
    var tb := TranslateNewlines(before);
    assert TranslateNewlines(before + c) == tb + c;
    if before != [] {
      TranslateEndsWithLineFeed(before);
    }
    SplitLinesAppend(tb, c);
  }

  lemma {:induction false} TranslateEndsWithLineFeed(s: string)
    requires s != [] && s[|s| - 1] == '\n'
    ensures var t := TranslateNewlines(s); t != [] && t[|t| - 1] == '\n'
    decreases |s|
  {
    var n := NewlineStep(s);
    if n < |s| {
      TranslateEndsWithLineFeed(s[n..]);
    } else {
      assert s[0] == '\n' || s[0] == '\r';
    }
  }


  // ---- The /logs tail ----

  /** `all[-lines:] if len(all) > lines else all`. A positive count keeps the
      last `lines` entries, zero keeps everything (`-0` is `0`), and a negative
      count drops that many entries from the front. */
  function Tail<T>(all: seq<T>, lines: int): (r: seq<T>)
    ensures |r| <= |all| && r == all[|all| - |r|..]
    ensures lines > 0 ==> |r| == Min(lines, |all|)
    ensures lines == 0 ==> r == all
    ensures lines < 0 ==> |r| == Max(0, |all| + lines)
  {
    if |all| > lines then SliceFrom(all, -lines) else all
  }

  /** `[line.strip() for line in lines]` */
  function StripAll(lines: seq<string>): (r: seq<string>)
    ensures |r| == |lines|
  {
    if lines == [] then [] else [Strip(lines[0])] + StripAll(lines[1..])
  }

  /** Each shown line is the corresponding line of the file, stripped. */
  lemma {:induction false} StripAllPointwise(lines: seq<string>, i: nat)
    requires i < |lines|
    ensures StripAll(lines)[i] == Strip(lines[i])
    decreases i
  {
    if i > 0 {
      assert lines[1..][i - 1] == lines[i];
      StripAllPointwise(lines[1..], i - 1);
    }
  }

  /** The JSON body of a successful `/logs` request. */
  datatype LogsBody =
    | NoLogs(logs: seq<string>, message: string)
    | Recent(logs: seq<string>, totalEntries: nat, showing: nat)

  /** How an append ended: the open failed, the write stopped after some
      characters, or the whole entry was written. */
  datatype WriteOutcome = OpenFailed(reason: string) | WriteFailed(written: nat, reason: string) | Written

  /** What an append leaves in the file. */
  function Persisted(entry: string, outcome: WriteOutcome): (p: string)
    ensures |p| <= |entry| && p == entry[..|p|]
    ensures outcome.Written? ==> p == entry
    ensures outcome.OpenFailed? ==> p == []
  {
    match outcome
    case OpenFailed(_) => []
    case WriteFailed(n, _) => entry[..Min(n, |entry|)]
    case Written => entry
  }

  /** The log file on disk. */
  class LogFile {
    var present: bool
    var content: string

    /** A missing file has no content. */
    predicate Valid()
      reads this
    {
      present || content == []
    }

    /** `initial` is the file found at start-up, if any. */
    constructor (initial: Option<string>)
      ensures Valid()
      ensures present == initial.Some? && content == initial.GetOr([])
    {
      present := initial.Some?;
      content := initial.GetOr([]);
    }

    /** `log_generation`: formats the entry and appends it. An open that fails
        leaves the file as it was; once it is open the file exists, and what
        the write managed to store is appended. Nothing is raised to the caller. */
    method LogGeneration(timestamp: string, prompt: string, temperatureText: string, timeTakenText: string, output: string, outcome: WriteOutcome)
      requires Valid()
      modifies this
      ensures Valid()
      ensures present == (old(present) || !outcome.OpenFailed?)
      ensures content == old(content) + Persisted(LogEntry(timestamp, prompt, temperatureText, timeTakenText, output), outcome)
    {
      var entry := LogEntry(timestamp, prompt, temperatureText, timeTakenText, output);
      if outcome.OpenFailed? {
        return;
      }
      present := true;
      content := content + Persisted(entry, outcome);
    }

    /** `get_logs`: no file gives the empty answer with a message; a read that
        raises gives a 500; otherwise the last `lines` lines, stripped, with
        the number of lines in the file and the number shown. */
    function GetLogs(lines: int, readFailure: Option<string>): (r: Response<LogsBody>)
      reads this
      ensures !present ==> r == Ok(NoLogs([], NoLogsMessage))
      ensures present && readFailure.Some? ==> r == ServerError(ReadFailurePrefix + readFailure.value)
      ensures present && readFailure.None? ==>
        && r.Ok? && r.body.Recent?
        && r.body.totalEntries == |ReadLines(content)|
        && r.body.showing == |r.body.logs| <= r.body.totalEntries
        && r.body.logs == StripAll(Tail(ReadLines(content), lines))
    {
      if !present then Ok(NoLogs([], NoLogsMessage))
      else if readFailure.Some? then ServerError(ReadFailurePrefix + readFailure.value)
      else
        var all := ReadLines(content);
        var recent := Tail(all, lines);
        Ok(Recent(StripAll(recent), |all|, |recent|))
    }
  }

  /** After complete one-line entries have been appended to a log that ended at
      a line boundary, the line count grows by the number of entries, and a
      positive tail no longer than the entries shows the last of them, newest
      last: what `/logs` reports for the file (see LogFile.GetLogs). */
  lemma RecentEntriesShown(content: string, before: string, entries: seq<string>, lines: int)
    requires content == before + Concat(entries)
    requires before == [] || before[|before| - 1] == '\n'
    requires forall i | 0 <= i < |entries| :: SingleLine(entries[i])
    requires 0 < lines <= |entries|
    ensures |ReadLines(content)| == |ReadLines(before)| + |entries|
    ensures Tail(ReadLines(content), lines) == entries[|entries| - lines..]
  {
    ReadBackEntries(before, entries);
    TailOfAppend(ReadLines(before), entries, lines);
  }

  /** A tail no longer than the appended part lies inside it. */
  lemma TailOfAppend<T>(a: seq<T>, b: seq<T>, lines: int)
    requires 0 < lines <= |b|
    ensures Tail(a + b, lines) == b[|b| - lines..]
  {
    var r := Tail(a + b, lines);
    assert |r| == lines;
    forall i | 0 <= i < lines ensures r[i] == b[|b| - lines + i] {
      assert r[i] == (a + b)[|a| + |b| - lines + i];
    }
  }
}
