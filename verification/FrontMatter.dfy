/** Splitting a KEP document into its metadata and its body. */
module FrontMatter {
  import opened Text

  datatype Parts = Parts(metadata: string, contents: string)

  /** Reading failed and left the contents read so far, or the document was split. */
  datatype Outcome = ReadError(contents: string) | Split(parts: Parts)

  // ----- lines -----

  /** The lines of a document as one text, each with its line end. */
  function Join(lines: seq<string>): string {
    if lines == [] then [] else lines[0] + ['\n'] + Join(lines[1..])
  }

  predicate OneLine(s: string) {
    '\n' !in s
  }

  function UpToNewline(text: string): (s: string)
    ensures s <= text && OneLine(s) && (|s| < |text| ==> text[|s|] == '\n')
  {
    if text == [] || text[0] == '\n' then [] else [text[0]] + UpToNewline(text[1..])
  }

  /** A carriage return before the line end belongs to the line end. */
  function DropReturn(line: string): string {
    if line != [] && line[|line| - 1] == '\r' then line[..|line| - 1] else line
  }

  /** The lines that a scanner yields; the last one may lack its line end. */
  function Lines(text: string): seq<string> {
    if text == [] then []
    else
      var line := UpToNewline(text);
      [DropReturn(line)] + Lines(text[if |line| < |text| then |line| + 1 else |line|..])
  }

  function DropReturns(lines: seq<string>): (r: seq<string>)
    ensures |r| == |lines| && forall i :: 0 <= i < |lines| ==> r[i] == DropReturn(lines[i])
  {
    if lines == [] then [] else [DropReturn(lines[0])] + DropReturns(lines[1..])
  }

  lemma {:induction false} UpToNewlineAppend(s: string, rest: string)
    requires OneLine(s)
    ensures UpToNewline(s + ['\n'] + rest) == s
  {
    var text := s + ['\n'] + rest;
    if s != [] {
      assert text[1..] == s[1..] + ['\n'] + rest;
      UpToNewlineAppend(s[1..], rest);
    }
  }

  lemma {:induction false} LinesAppend(lines: seq<string>, tail: string)
    requires forall i :: 0 <= i < |lines| ==> OneLine(lines[i])
    ensures Lines(Join(lines) + tail) == DropReturns(lines) + Lines(tail)
  {
    if lines == [] {
      assert Join(lines) + tail == tail;
      assert DropReturns(lines) + Lines(tail) == Lines(tail);
    } else {
      var rest := Join(lines[1..]) + tail;
      var text := lines[0] + ['\n'] + rest;
      assert Join(lines) + tail == text;
      UpToNewlineAppend(lines[0], rest);
      assert text[|lines[0]| + 1..] == rest;
      LinesAppend(lines[1..], tail);
    }
  }

  lemma {:induction false} LinesOfJoin(lines: seq<string>)
    requires forall i :: 0 <= i < |lines| ==> OneLine(lines[i])
    ensures Lines(Join(lines)) == DropReturns(lines)
  {
    LinesAppend(lines, []);
    assert Join(lines) + [] == Join(lines);
  }

  lemma {:induction false} UpToNewlineAll(s: string)
    requires OneLine(s)
    ensures UpToNewline(s) == s
  {
    if s != [] {
      UpToNewlineAll(s[1..]);
    }
  }

  predicate EndsInReturn(line: string) {
    line != [] && line[|line| - 1] == '\r'
  }

  /** The line as scanned: without a carriage return at its end. */
  ghost predicate Scanned(line: string, scanned: string) {
    if EndsInReturn(line) then line == scanned + ['\r'] else scanned == line
  }

  lemma DropReturnScans(line: string)
    ensures Scanned(line, DropReturn(line))
  {
  }

  lemma {:induction false} LinesWithLast(lines: seq<string>, last: string)
    requires (forall i :: 0 <= i < |lines| ==> OneLine(lines[i])) && OneLine(last)
    ensures Lines(Join(lines) + last) == DropReturns(lines) + if last == [] then [] else [DropReturn(last)]
  {
    LinesAppend(lines, last);
    UpToNewlineAll(last);
    if last != [] {
      assert last[|last|..] == [];
      assert Lines(last) == [DropReturn(last)] + Lines([]);
    }
  }

  /** Scanning yields the lines of a text, each without its line end, be that a newline or a
      carriage return and a newline; a last line without a line end counts unless it is empty. */
  lemma {:induction false} ScanningLines(lines: seq<string>, last: string, scanned: seq<string>)
    requires (forall i :: 0 <= i < |lines| ==> OneLine(lines[i])) && OneLine(last)
    requires scanned == Lines(Join(lines) + last)
    ensures |scanned| == |lines| + if last == [] then 0 else 1
    ensures forall i :: 0 <= i < |lines| ==> Scanned(lines[i], scanned[i])
    ensures last != [] ==> Scanned(last, scanned[|lines|])
  {
    LinesWithLast(lines, last);
    forall i | 0 <= i < |lines|
      ensures Scanned(lines[i], scanned[i])
    {
      DropReturnScans(lines[i]);
    }
    DropReturnScans(last);
  }

  lemma {:induction false} JoinAppend(a: seq<string>, b: seq<string>)
    ensures Join(a + b) == Join(a) + Join(b)
  {
    if a == [] {
      assert a + b == b;
    } else {
      assert (a + b)[1..] == a[1..] + b;
      JoinAppend(a[1..], b);
    }
  }

  lemma JoinOne(line: string)
    ensures Join([line]) == line + ['\n']
  {
    assert [line][1..] == [];
    assert Join([]) == [];
  }

  // ----- splitting -----

  /** The scanned line, with its line end, contains three dashes. */
  predicate IsSeparator(line: string) {
    Contains(line + "\n", "---")
  }

  lemma {:induction false} ContainsBeforeNewline(s: string, needle: string)
    requires needle != [] && OneLine(needle)
    ensures Contains(s + ['\n'], needle) <==> Contains(s, needle)
  {
    var t := s + ['\n'];
    assert |needle| <= |s| ==> (needle <= t <==> needle <= s);
    assert needle <= t ==> t[|needle| - 1] != '\n';
    if s == [] {
      assert t[1..] == [];
    } else {
      assert t[1..] == s[1..] + ['\n'];
      ContainsBeforeNewline(s[1..], needle);
    }
  }

  /** Three dashes in a row, from position k on. */
  predicate DashesAt(line: string, k: nat) {
    k + 2 < |line| && line[k] == '-' && line[k + 1] == '-' && line[k + 2] == '-'
  }

  lemma FoundDashes(line: string, needle: string, k: nat)
    requires needle == ['-', '-', '-']
    ensures FoundAt(line, needle, k) <==> DashesAt(line, k)
  {
    if DashesAt(line, k) {
      assert line[k..k + 3] == needle;
    }
    if FoundAt(line, needle, k) {
      assert line[k..k + 3][0] == line[k] && line[k..k + 3][1] == line[k + 1] && line[k..k + 3][2] == line[k + 2];
    }
  }

  /** A line separates exactly when it has three dashes in a row, anywhere. */
  lemma {:induction false} SeparatesExactlyWhen(line: string)
    ensures IsSeparator(line) <==> exists k: nat :: DashesAt(line, k)
  {
    var dashes := "---";
    assert "\n" == ['\n'] && dashes == ['-', '-', '-'];
    ContainsBeforeNewline(line, dashes);
    ContainsExactlyWhen(line, dashes);
    forall k: nat
      ensures FoundAt(line, dashes, k) <==> DashesAt(line, k)
    {
      FoundDashes(line, dashes, k);
    }
  }

  function Separators(lines: seq<string>): nat {
    if lines == [] then 0
    else Separators(lines[..|lines| - 1]) + if IsSeparator(lines[|lines| - 1]) then 1 else 0
  }

  /** The lines, separators apart, that exactly one separator precedes (inside), or any
      other number of them (outside). */
  function Section(lines: seq<string>, inside: bool): seq<string> {
    if lines == [] then []
    else
      var last, rest := lines[|lines| - 1], lines[..|lines| - 1];
      Section(rest, inside)
      + if !IsSeparator(last) && (inside <==> Separators(rest) == 1) then [last] else []
  }

  function SplitLines(lines: seq<string>): Parts {
    if Separators(lines) == 0 then Parts(Join(Section(lines, false)), "")
    else Parts(Join(Section(lines, true)), Join(Section(lines, false)))
  }

  method Parse(lines: seq<string>, failed: bool) returns (r: Outcome)
    ensures failed ==> r == ReadError(Join(Section(lines, false)))
    ensures !failed ==> r == Outcome.Split(SplitLines(lines))
  {
    var count := 0;
    var metadata, body: string := [], [];
    for i := 0 to |lines|
      invariant count == Separators(lines[..i])
      invariant metadata == Join(Section(lines[..i], true))
      invariant body == Join(Section(lines[..i], false))
    {
      assert lines[..i + 1][..i] == lines[..i];
      AppendLine(lines, i, true);
      AppendLine(lines, i, false);
      if IsSeparator(lines[i]) {
        count := count + 1;
        continue;
      }
      var line := lines[i] + ['\n'];
      if count == 1 {
        metadata := metadata + line;
      } else {
        body := body + line;
      }
    }
    assert lines[..|lines|] == lines;
    var contents := body;
    if failed {
      return ReadError(contents);
    }
    if count == 0 {
      metadata := body;
      contents := "";
    }
    r := Outcome.Split(Parts(metadata, contents));
  }

  lemma {:induction false} SectionStep(lines: seq<string>, i: nat, inside: bool)
    requires i < |lines|
    ensures Section(lines[..i + 1], inside) == Section(lines[..i], inside)
      + if !IsSeparator(lines[i]) && (inside <==> Separators(lines[..i]) == 1) then [lines[i]] else []
  {
    assert lines[..i + 1][..i] == lines[..i];
  }

  lemma {:induction false} AppendLine(lines: seq<string>, i: nat, inside: bool)
    requires i < |lines|
    ensures Join(Section(lines[..i + 1], inside)) == Join(Section(lines[..i], inside))
      + if !IsSeparator(lines[i]) && (inside <==> Separators(lines[..i]) == 1) then lines[i] + ['\n'] else []
  {
    SectionStep(lines, i, inside);
    var before := Section(lines[..i], inside);
    if !IsSeparator(lines[i]) && (inside <==> Separators(lines[..i]) == 1) {
      JoinAppend(before, [lines[i]]);
      JoinOne(lines[i]);
    } else {
      assert before + [] == before;
    }
  }

  // ----- where the lines go -----

  ghost predicate NoSeparator(lines: seq<string>) {
    forall i :: 0 <= i < |lines| ==> !IsSeparator(lines[i])
  }

  /** The lines that are not separators. */
  ghost function Kept(lines: seq<string>): seq<string> {
    if lines == [] then []
    else Kept(lines[..|lines| - 1]) + if IsSeparator(lines[|lines| - 1]) then [] else [lines[|lines| - 1]]
  }

  lemma {:induction false} OneMore(before: seq<string>, line: string, inside: bool)
    requires !IsSeparator(line)
    ensures Separators(before + [line]) == Separators(before)
    ensures Section(before + [line], inside)
         == Section(before, inside) + if inside <==> Separators(before) == 1 then [line] else []
  {
    assert (before + [line])[..|before|] == before;
  }

  /** What a run of lines without separators adds to the sections before it. */
  lemma {:induction false} Run(before: seq<string>, run: seq<string>, inside: bool)
    requires NoSeparator(run)
    ensures Separators(before + run) == Separators(before)
    ensures Section(before + run, inside)
         == Section(before, inside) + if inside <==> Separators(before) == 1 then run else []
    decreases |run|
  {
    if run == [] {
      assert before + run == before;
    } else {
      var rest, last := run[..|run| - 1], run[|run| - 1];
      Run(before, rest, inside);
      assert before + run == before + rest + [last];
      OneMore(before + rest, last, inside);
      assert rest + [last] == run;
    }
  }

  lemma {:induction false} Separator(before: seq<string>, line: string)
    requires IsSeparator(line)
    ensures Separators(before + [line]) == Separators(before) + 1
    ensures forall inside :: Section(before + [line], inside) == Section(before, inside)
  {
    assert (before + [line])[..|before|] == before;
  }

  /** After two separators, every line that is not one is body. */
  lemma {:induction false} Tail(before: seq<string>, tail: seq<string>)
    requires Separators(before) >= 2
    ensures Separators(before + tail) >= 2
    ensures Section(before + tail, true) == Section(before, true)
    ensures Section(before + tail, false) == Section(before, false) + Kept(tail)
    decreases |tail|
  {
    if tail == [] {
      assert before + tail == before;
    } else {
      Tail(before, tail[..|tail| - 1]);
      assert (before + tail)[..|before + tail| - 1] == before + tail[..|tail| - 1];
    }
  }

  /** A document without separators is all metadata. */
  lemma {:induction false} AllMetadata(lines: seq<string>)
    requires NoSeparator(lines)
    ensures SplitLines(lines) == Parts(Join(lines), "")
  {
    Run([], lines, false);
    assert [] + lines == lines;
  }

  lemma {:induction false} OpenedOnce(head: seq<string>, open: string, meta: seq<string>)
    requires NoSeparator(head) && IsSeparator(open) && NoSeparator(meta)
    ensures Separators(head + [open] + meta) == 1
    ensures Section(head + [open] + meta, true) == meta && Section(head + [open] + meta, false) == head
  {
    Run([], head, true);
    Run([], head, false);
    assert [] + head == head;
    Separator(head, open);
    Run(head + [open], meta, true);
    Run(head + [open], meta, false);
  }

  /** With a single separator, what follows it is metadata and what precedes it is body. */
  lemma {:induction false} OneSeparator(head: seq<string>, open: string, meta: seq<string>)
    requires NoSeparator(head) && IsSeparator(open) && NoSeparator(meta)
    ensures SplitLines(head + [open] + meta) == Parts(Join(meta), Join(head))
  {
    OpenedOnce(head, open, meta);
  }

  /** With two or more, the metadata lies between the first two; all other lines that are not
      separators are body. */
  lemma {:induction false} TwoSeparators(head: seq<string>, open: string, meta: seq<string>, close: string,
                                         tail: seq<string>)
    requires NoSeparator(head) && IsSeparator(open) && NoSeparator(meta) && IsSeparator(close)
    ensures SplitLines(head + [open] + meta + [close] + tail) == Parts(Join(meta), Join(head + Kept(tail)))
  {
    var first := head + [open] + meta;
    OpenedOnce(head, open, meta);
    Separator(first, close);
    Tail(first + [close], tail);
  }

  /** a and b together are c, taken apart without changing the order within either. */
  ghost predicate Interleaves(a: seq<string>, b: seq<string>, c: seq<string>)
    decreases |c|
  {
    if c == [] then a == [] && b == []
    else
      var last, rest := c[|c| - 1], c[..|c| - 1];
      (a != [] && a[|a| - 1] == last && Interleaves(a[..|a| - 1], b, rest))
      || (b != [] && b[|b| - 1] == last && Interleaves(a, b[..|b| - 1], rest))
  }

  lemma {:induction false} InterleavesMore(a: seq<string>, b: seq<string>, c: seq<string>, last: string)
    requires Interleaves(a, b, c)
    ensures Interleaves(a + [last], b, c + [last]) && Interleaves(a, b + [last], c + [last])
    ensures a + [] == a && b + [] == b && c + [] == c
  {
    assert (a + [last])[..|a|] == a && (b + [last])[..|b|] == b && (c + [last])[..|c|] == c;
  }

  /** Every line that is not a separator lands in exactly one part, in its order. */
  lemma {:induction false} NothingLost(lines: seq<string>)
    ensures Interleaves(Section(lines, true), Section(lines, false), Kept(lines))
    decreases |lines|
  {
    if lines != [] {
      var last, rest := lines[|lines| - 1], lines[..|lines| - 1];
      NothingLost(rest);
      InterleavesMore(Section(rest, true), Section(rest, false), Kept(rest), last);
    }
  }

  // ----- rendering -----

  /** Metadata between separators, and the body after them. */
  function Framed(dashes: string, meta: seq<string>, body: seq<string>): seq<string> {
    [dashes] + meta + [dashes] + body
  }

  /** The document with the given metadata and body. */
  function Render(meta: seq<string>, body: seq<string>): string {
    Join(Framed("---", meta, body))
  }

  /** A line that separates, and that scanning leaves alone. */
  predicate Separating(line: string) {
    IsSeparator(line) && DropReturn(line) == line && OneLine(line)
  }

  /** Survives rendering and splitting: no dashes to mistake it for a separator, and no
      carriage return at its end to lose. */
  ghost predicate Plain(line: string) {
    (forall k: nat :: !DashesAt(line, k)) && !EndsInReturn(line)
  }

  lemma {:induction false} PlainIs(line: string)
    ensures Plain(line) <==> !IsSeparator(line) && DropReturn(line) == line
    ensures DropReturn(line) == line <==> !EndsInReturn(line)
    ensures EndsInReturn(line) ==> line == DropReturn(line) + ['\r']
  {
    SeparatesExactlyWhen(line);
  }

  ghost predicate AllPlain(lines: seq<string>) {
    forall i :: 0 <= i < |lines| ==> Plain(lines[i])
  }

  lemma DashesSeparate()
    ensures Separating("---")
  {
    assert "---" <= "---" + "\n";
  }

  /** The sections together are as long as what is kept. */
  lemma {:induction false} SectionsLength(lines: seq<string>)
    ensures |Join(Section(lines, true))| + |Join(Section(lines, false))| == |Join(Kept(lines))|
    decreases |lines|
  {
    if lines != [] {
      var last, rest := lines[|lines| - 1], lines[..|lines| - 1];
      SectionsLength(rest);
      assert lines[..|lines|] == lines;
      AppendLine(lines, |lines| - 1, true);
      AppendLine(lines, |lines| - 1, false);
      JoinAppend(Kept(rest), [last]);
      JoinOne(last);
      assert Kept(rest) + [] == Kept(rest);
    }
  }

  /** What is kept of the line, once scanned. */
  lemma KeptOne(line: string)
    ensures |Join(Kept([DropReturn(line)]))| <= |Join([line])|
    ensures !Plain(line) ==> |Join(Kept([DropReturn(line)]))| < |Join([line])|
  {
    var kept := DropReturn(line);
    PlainIs(line);
    assert [kept][..0] == [];
    JoinOne(line);
    JoinOne(kept);
    assert [] + [kept] == [kept];
  }

  lemma {:induction false} DropReturnsAppend(a: seq<string>, b: seq<string>)
    ensures DropReturns(a + b) == DropReturns(a) + DropReturns(b)
  {
  }

  lemma {:induction false} KeptPieces(a: seq<string>, b: seq<string>)
    ensures |Join(Kept(DropReturns(a + b)))| == |Join(Kept(DropReturns(a)))| + |Join(Kept(DropReturns(b)))|
    ensures |Join(a + b)| == |Join(a)| + |Join(b)|
  {
    DropReturnsAppend(a, b);
    KeptAppend(DropReturns(a), DropReturns(b));
    JoinAppend(Kept(DropReturns(a)), Kept(DropReturns(b)));
    JoinAppend(a, b);
  }

  lemma {:induction false} PlainAppend(lines: seq<string>, last: string)
    ensures AllPlain(lines + [last]) <==> AllPlain(lines) && Plain(last)
  {
    assert forall i :: 0 <= i < |lines| ==> (lines + [last])[i] == lines[i];
    assert (lines + [last])[|lines|] == last;
  }

  /** What is kept of scanned lines is shorter than the lines, unless all are plain. */
  lemma {:induction false} KeptLength(lines: seq<string>)
    ensures |Join(Kept(DropReturns(lines)))| <= |Join(lines)|
    ensures !AllPlain(lines) ==> |Join(Kept(DropReturns(lines)))| < |Join(lines)|
    decreases |lines|
  {
    if lines != [] {
      var last, rest := lines[|lines| - 1], lines[..|lines| - 1];
      assert lines == rest + [last];
      KeptLength(rest);
      KeptPieces(rest, [last]);
      assert DropReturns([last]) == [DropReturn(last)];
      KeptOne(last);
      PlainAppend(rest, last);
    }
  }

  lemma {:induction false} KeptAppend(a: seq<string>, b: seq<string>)
    ensures Kept(a + b) == Kept(a) + Kept(b)
    decreases |b|
  {
    if b == [] {
      assert a + b == a;
    } else {
      assert (a + b)[..|a + b| - 1] == a + b[..|b| - 1];
      KeptAppend(a, b[..|b| - 1]);
    }
  }

  lemma {:induction false} KeptAll(lines: seq<string>)
    requires NoSeparator(lines)
    ensures Kept(lines) == lines
    decreases |lines|
  {
    if lines != [] {
      KeptAll(lines[..|lines| - 1]);
    }
  }

  lemma {:induction false} DropReturnsPlain(lines: seq<string>)
    requires AllPlain(lines)
    ensures DropReturns(lines) == lines && NoSeparator(lines)
  {
    forall i | 0 <= i < |lines|
      ensures DropReturn(lines[i]) == lines[i] && !IsSeparator(lines[i])
    {
      PlainIs(lines[i]);
    }
  }

  ghost predicate AllOneLine(lines: seq<string>) {
    forall i :: 0 <= i < |lines| ==> OneLine(lines[i])
  }

  lemma {:induction false} ScannedFrame(dashes: string, meta: seq<string>, body: seq<string>)
    requires Separating(dashes) && AllOneLine(meta) && AllOneLine(body)
    ensures Lines(Join(Framed(dashes, meta, body))) == Framed(dashes, DropReturns(meta), DropReturns(body))
  {
    var lines := Framed(dashes, meta, body);
    LinesOfJoin(lines);
    DropReturnsAppend([dashes] + meta + [dashes], body);
    DropReturnsAppend([dashes] + meta, [dashes]);
    DropReturnsAppend([dashes], meta);
    assert DropReturns([dashes]) == [dashes];
  }

  lemma {:induction false} KeptOfFrame(dashes: string, meta: seq<string>, body: seq<string>)
    requires IsSeparator(dashes)
    ensures Kept(Framed(dashes, meta, body)) == Kept(meta) + Kept(body)
  {
    assert [dashes][..0] == [];
    assert Kept([dashes]) == [];
    KeptAppend([dashes] + meta + [dashes], body);
    KeptAppend([dashes] + meta, [dashes]);
    KeptAppend([dashes], meta);
  }

  /** The parts of a split document are no longer than the lines kept. */
  lemma {:induction false} PartsLength(lines: seq<string>)
    ensures |SplitLines(lines).metadata| + |SplitLines(lines).contents| <= |Join(Kept(lines))|
  {
    SectionsLength(lines);
  }

  lemma {:induction false} SplitFrame(dashes: string, meta: seq<string>, body: seq<string>)
    requires IsSeparator(dashes) && NoSeparator(meta) && NoSeparator(body)
    ensures SplitLines(Framed(dashes, meta, body)) == Parts(Join(meta), Join(body))
  {
    TwoSeparators([], dashes, meta, dashes, body);
    KeptAll(body);
    assert [] + [dashes] == [dashes];
    assert [] + body == body;
  }

  lemma {:induction false} PlainFrame(dashes: string, meta: seq<string>, body: seq<string>)
    requires Separating(dashes) && AllPlain(meta) && AllPlain(body)
    ensures SplitLines(Framed(dashes, DropReturns(meta), DropReturns(body))) == Parts(Join(meta), Join(body))
  {
    DropReturnsPlain(meta);
    DropReturnsPlain(body);
    SplitFrame(dashes, meta, body);
  }

  lemma {:induction false} LossyFrame(dashes: string, meta: seq<string>, body: seq<string>)
    requires Separating(dashes) && !(AllPlain(meta) && AllPlain(body))
    ensures SplitLines(Framed(dashes, DropReturns(meta), DropReturns(body))) != Parts(Join(meta), Join(body))
  {
    var m, b := DropReturns(meta), DropReturns(body);
    PartsLength(Framed(dashes, m, b));
    KeptOfFrame(dashes, m, b);
    JoinAppend(Kept(m), Kept(b));
    KeptLength(meta);
    KeptLength(body);
  }

  lemma {:induction false} FrameRoundTrip(dashes: string, meta: seq<string>, body: seq<string>)
    requires Separating(dashes) && AllOneLine(meta) && AllOneLine(body)
    ensures SplitLines(Lines(Join(Framed(dashes, meta, body)))) == Parts(Join(meta), Join(body))
       <==> AllPlain(meta) && AllPlain(body)
  {
    ScannedFrame(dashes, meta, body);
    if AllPlain(meta) && AllPlain(body) {
      PlainFrame(dashes, meta, body);
    } else {
      LossyFrame(dashes, meta, body);
    }
  }

  /** Splitting a rendered document returns its metadata and its body exactly when no line of
      them contains three dashes or ends in a carriage return. */
  lemma {:induction false} RoundTripExactlyWhen(meta: seq<string>, body: seq<string>)
    requires AllOneLine(meta) && AllOneLine(body)
    ensures SplitLines(Lines(Render(meta, body))) == Parts(Join(meta), Join(body))
       <==> AllPlain(meta) && AllPlain(body)
  {
    DashesSeparate();
    FrameRoundTrip("---", meta, body);
  }

  lemma {:induction false} SectionHasNoSeparator(lines: seq<string>, inside: bool)
    ensures NoSeparator(Section(lines, inside))
    decreases |lines|
  {
    if lines != [] {
      SectionHasNoSeparator(lines[..|lines| - 1], inside);
    }
  }

  /** The lines of the metadata, and of the body, of a document. */
  function MetadataLines(lines: seq<string>): seq<string> {
    if Separators(lines) == 0 then Section(lines, false) else Section(lines, true)
  }

  function BodyLines(lines: seq<string>): seq<string> {
    if Separators(lines) == 0 then [] else Section(lines, false)
  }

  lemma {:induction false} ScannedAreOneLine(text: string)
    ensures AllOneLine(Lines(text))
    decreases |text|
  {
    if text != [] {
      var line := UpToNewline(text);
      ScannedAreOneLine(text[if |line| < |text| then |line| + 1 else |line|..]);
    }
  }

  /** No line that is kept still ends in a carriage return. */
  ghost predicate NoReturnKept(lines: seq<string>) {
    forall i :: 0 <= i < |lines| && !IsSeparator(lines[i]) ==> !EndsInReturn(lines[i])
  }

  /** Rendering the parts of any document and splitting again gives the same parts, exactly
      when no line that is kept ends in a further carriage return. */
  lemma {:induction false} RenderNormalizesExactlyWhen(text: string)
    ensures var lines := Lines(text);
      SplitLines(Lines(Render(MetadataLines(lines), BodyLines(lines)))) == SplitLines(lines) <==> NoReturnKept(lines)
  {
    var lines := Lines(text);
    ScannedAreOneLine(text);
    PartsAreOneLine(lines);
    RoundTripExactlyWhen(MetadataLines(lines), BodyLines(lines));
    PlainPartsExactlyWhen(lines);
  }

  lemma {:induction false} PartsAreOneLine(lines: seq<string>)
    requires AllOneLine(lines)
    ensures AllOneLine(MetadataLines(lines)) && AllOneLine(BodyLines(lines))
    ensures SplitLines(lines) == Parts(Join(MetadataLines(lines)), Join(BodyLines(lines)))
  {
    SectionMembers(lines, true);
    SectionMembers(lines, false);
  }

  lemma {:induction false} PlainPartsExactlyWhen(lines: seq<string>)
    ensures AllPlain(MetadataLines(lines)) && AllPlain(BodyLines(lines)) <==> NoReturnKept(lines)
  {
    SectionHasNoSeparator(lines, true);
    SectionHasNoSeparator(lines, false);
    SectionMembers(lines, true);
    SectionMembers(lines, false);
    NothingInside(lines);
    forall line: string
      ensures Plain(line) <==> !IsSeparator(line) && !EndsInReturn(line)
    {
      PlainIs(line);
    }
    if AllPlain(MetadataLines(lines)) && AllPlain(BodyLines(lines)) {
      forall i | 0 <= i < |lines| && !IsSeparator(lines[i])
        ensures !EndsInReturn(lines[i])
      {
        LandsSomewhere(lines, i);
      }
    }
  }

  lemma {:induction false} NothingInside(lines: seq<string>)
    ensures Separators(lines) == 0 ==> Section(lines, true) == []
    decreases |lines|
  {
    if lines != [] {
      NothingInside(lines[..|lines| - 1]);
    }
  }

  lemma {:induction false} LandsSomewhere(lines: seq<string>, i: nat)
    requires i < |lines| && !IsSeparator(lines[i])
    ensures lines[i] in Section(lines, true) || lines[i] in Section(lines, false)
    decreases |lines|
  {
    var rest := lines[..|lines| - 1];
    if i < |rest| {
      LandsSomewhere(rest, i);
    }
  }

  lemma {:induction false} SectionMembers(lines: seq<string>, inside: bool)
    ensures forall i :: 0 <= i < |Section(lines, inside)| ==> Section(lines, inside)[i] in lines
    decreases |lines|
  {
    if lines != [] {
      var rest := lines[..|lines| - 1];
      SectionMembers(rest, inside);
      assert lines == rest + [lines[|lines| - 1]];
    }
  }
}
