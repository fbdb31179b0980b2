/**
 * The server's rewrite of knockd.conf: one pass over the lines of the file
 * that tracks the current "[..._ROTATOR]" section, replaces the sequence
 * line of each such section by the sequence generated for it, and then
 * refuses to go on when a section has no sequence, when no section was found
 * or when two sections were given the same sequence.
 *
 * The file is its list of lines (each with its line break, as readlines()
 * gives them); the generator is the parameter `gen`, standing for
 * generate_knock_sequence applied to a section name.
 */
module KnockdConf {
  import opened Wrappers
  import opened Text
  import Client
  import Maps

  // ---------------------------------------------------------------------
  // Recognising lines
  // ---------------------------------------------------------------------

  /** line.lstrip().startswith("#") */
  predicate IsComment(line: string) {
    var t := LStrip(line);
    |t| > 0 && t[0] == '#'
  }

  /** A comment line is one whose first character after whitespace is '#'. */
  lemma CommentIff(line: string)
    ensures IsComment(line) <==> exists k :: 0 <= k < |line| && line[k] == '#' && AllSpace(line[..k])
  {
    var p := LeadingSpace(line);
    if k :| 0 <= k < |line| && line[k] == '#' && AllSpace(line[..k]) {
      assert forall i :: 0 <= i < k ==> IsSpace(line[..k][i]);
      assert p == k;
    }
    if IsComment(line) {
      assert line[p] == '#' && AllSpace(line[..p]);
    }
  }

  /** "[" in line and "]" in line: the look-ahead that ends a section. */
  predicate Bracketed(line: string) {
    '[' in line && ']' in line
  }

  /** The group of ^\s*\[(.*_ROTATOR)\]\s*$ when the line matches. After the
      indentation comes '['; the last visible character must be ']'; what lies
      between may not hold a line break and must end in "_ROTATOR". */
  function RotatorHeader(line: string): (name: Option<string>)
    ensures name.Some? ==>
      && EndsWith(name.value, Client.Suffix)
      && '\n' !in name.value
      && |name.value| + 2 <= |LStrip(line)|
      && LStrip(line)[..|name.value| + 2] == "[" + name.value + "]"
      && AllSpace(LStrip(line)[|name.value| + 2..])
  {
    var t := LStrip(line);
    if |t| == 0 || t[0] != '[' then None
    else
      var r := t[1..];
      var e := TextEnd(r);
      if e == 0 || r[e - 1] != ']' then None
      else
        var inner := r[..e - 1];
        if '\n' in inner || !EndsWith(inner, Client.Suffix) then None
        else
          assert t[..|inner| + 2] == "[" + inner + "]";
          Some(inner)
  }

  /** Every indented, bracketed "_ROTATOR" name with only whitespace after it is a header. */
  lemma HeaderRecognised(indent: string, name: string, tail: string)
    requires AllSpace(indent) && AllSpace(tail)
    requires EndsWith(name, Client.Suffix) && '\n' !in name
    ensures RotatorHeader(indent + "[" + name + "]" + tail) == Some(name)
  {
    var line := indent + "[" + name + "]" + tail;
    var r := name + "]" + tail;
    assert line == indent + ("[" + r);
    LStripIndent(indent, "[" + r);
    assert r == (name + "]") + tail;
    TextEndTrail(name + "]", tail);
    assert r[..|name| + 1] == name + "]";
    HeaderOf(line, name, r);
  }

  /** Once lstrip() reaches '[' and the text after it ends, before trailing
      whitespace, in name + "]", the header is name. */
  lemma HeaderOf(line: string, name: string, r: string)
    requires LStrip(line) == "[" + r
    requires TextEnd(r) == |name| + 1 && r[..|name| + 1] == name + "]"
    requires EndsWith(name, Client.Suffix) && '\n' !in name
    ensures RotatorHeader(line) == Some(name)
  {
    assert ("[" + r)[1..] == r;
    assert r[..|name|] == name;
    assert r[|name|] == ']';
  }

  /** Index of the first line break at or after p, or the length of r. */
  function LineEnd(r: string, p: nat): (n: nat)
    requires p <= |r|
    ensures p <= n <= |r|
    ensures forall i :: p <= i < n ==> r[i] != '\n'
    ensures n < |r| ==> r[n] == '\n'
    decreases |r| - p
  {
    if p == |r| || r[p] == '\n' then p else LineEnd(r, p + 1)
  }

  /** Index of the last character before n that is not a line break. */
  function LastNotNewline(r: string, n: nat): (k: Option<nat>)
    requires n <= |r|
    ensures k.Some? ==> k.value < n && r[k.value] != '\n'
    ensures k.Some? ==> forall i :: k.value < i < n ==> r[i] == '\n'
    ensures k.None? ==> forall i :: 0 <= i < n ==> r[i] == '\n'
  {
    if n == 0 then None
    else if r[n - 1] != '\n' then Some(n - 1)
    else LastNotNewline(r, n - 1)
  }

  /** What (.+) captures when \s*(.+)\s*$ is matched against the text r after
      the '='. The greedy group runs to the end of the line, trailing spaces
      included, and the match fails when visible text follows a line break.
      When r is all whitespace the group backs off to one character: the last
      one that is not a line break. */
  function SequenceGroup(r: string): (value: Option<string>)
    ensures value.Some? ==> value.value != [] && '\n' !in value.value
    ensures value.Some? ==> exists w, trail :: AllSpace(w) && AllSpace(trail) && r == w + value.value + trail
  {
    var p := LeadingSpace(r);
    if p < |r| then
      var e := TextEnd(r);
      if '\n' in r[p..e] then None
      else
        var n := LineEnd(r, p);
        assert r[p..n][0] == r[p];
        GroupSurround(r, p, e, n);
        Some(r[p..n])
    else
      var k := LastNotNewline(r, |r|);
      if k.None? then None
      else
        BlankSurround(r, k.value);
        Some([r[k.value]])
  }

  /** The group of a line with visible text: whitespace before it, and
      only whitespace after it once the line break is reached. */
  lemma GroupSurround(r: string, p: nat, e: nat, n: nat)
    requires p == LeadingSpace(r) && p < |r| && e == TextEnd(r) && n == LineEnd(r, p)
    requires '\n' !in r[p..e]
    ensures AllSpace(r[..p]) && AllSpace(r[n..]) && r == r[..p] + r[p..n] + r[n..]
  {
    BreakAfterText(r, p, e, n);
    SpaceSlice(r, 0, p);
    SpaceSlice(r, n, |r|);
    CutTwice(r, p, n - p);
  }

  /** The first line break after visible text comes after the last visible character. */
  lemma BreakAfterText(r: string, p: nat, e: nat, n: nat)
    requires p <= e <= |r| && p <= n <= |r|
    requires n < |r| ==> r[n] == '\n'
    requires '\n' !in r[p..e]
    ensures e <= n
  {
  }

  /** A line of whitespace alone is whitespace around any one of its characters. */
  lemma BlankSurround(r: string, k: nat)
    requires k < |r| && AllSpace(r)
    ensures AllSpace(r[..k]) && AllSpace(r[k + 1..]) && r == r[..k] + [r[k]] + r[k + 1..]
  {
    SpaceSlice(r, 0, k);
    SpaceSlice(r, k + 1, |r|);
    CutTwice(r, k, 1);
  }

  /** The group of ^\s*sequence\s*=\s*(.+)\s*$ when the line matches. */
  function SequenceValue(line: string): (value: Option<string>)
    ensures value.Some? ==> value.value != [] && '\n' !in value.value
    ensures value.Some? ==> |LStrip(line)| >= 8 && LStrip(line)[..8] == "sequence"
    ensures value.Some? ==>
      exists w, rest :: AllSpace(w) && LStrip(line) == "sequence" + w + "=" + rest && SequenceGroup(rest) == value
  {
    var t := LStrip(line);
    if |t| < 8 || t[..8] != "sequence" then None
    else
      var u := LStrip(t[8..]);
      if |u| == 0 || u[0] != '=' then None
      else
        KeywordSpaceEquals(line, u);
        SequenceGroup(u[1..])
  }

  /** The keyword, the whitespace lstrip() skips after it, and the '=' with the rest. */
  lemma KeywordSpaceEquals(line: string, u: string)
    requires |LStrip(line)| >= 8 && LStrip(line)[..8] == "sequence"
    requires u == LStrip(LStrip(line)[8..]) && u != [] && u[0] == '='
    ensures exists w, rest :: AllSpace(w) && LStrip(line) == "sequence" + w + "=" + rest && SequenceGroup(rest) == SequenceGroup(u[1..])
  {
    var w := KeywordSplit(LStrip(line), u);
    var rest := u[1..];
    assert AllSpace(w) && LStrip(line) == "sequence" + w + "=" + rest && SequenceGroup(rest) == SequenceGroup(u[1..]);
  }

  /** The whitespace between the keyword and the '='. */
  lemma KeywordSplit(t: string, u: string) returns (w: string)
    requires |t| >= 8 && t[..8] == "sequence"
    requires u == LStrip(t[8..]) && u != [] && u[0] == '='
    ensures AllSpace(w) && t == "sequence" + w + "=" + u[1..]
  {
    var v := t[8..];
    var k := LeadingSpace(v);
    SpaceSlice(v, 0, k);
    assert v[k] == u[0] && u[1..] == v[k + 1..];
    CutAround(t, 8, k, "sequence", '=', u[1..]);
    w := v[..k];
  }

  /** The line written in place of an outdated sequence. */
  function SequenceLine(indent: string, value: string): string {
    indent + "sequence    = " + value + "\n"
  }

  /** A generated value the rewritten line can carry and give back unchanged. */
  predicate GoodValue(value: string) {
    value != [] && !IsSpace(value[0]) && '\n' !in value && '[' !in value
  }

  /** After the '=' and any whitespace, the group captures the rest of the
      line up to its line break: trailing blanks included. */
  lemma GroupOfIndentedValue(w: string, value: string)
    requires AllSpace(w) && value != [] && !IsSpace(value[0]) && '\n' !in value
    ensures SequenceGroup(w + value + "\n") == Some(value)
  {
    var r := w + value + "\n";
    assert r == w + (value + "\n");
    LStripIndent(w, value + "\n");
    assert forall i :: |w| <= i < |r| - 1 ==> r[i] == value[i - |w|];
    GroupOfLine(r, |w|);
    assert r[|w|..|r| - 1] == value;
  }

  /** When visible text starts at p and runs up to a final line break that
      is the only one from p on, the group is that text. */
  lemma GroupOfLine(r: string, p: nat)
    requires p + 1 < |r| && LeadingSpace(r) == p && r[|r| - 1] == '\n'
    requires forall i :: p <= i < |r| - 1 ==> r[i] != '\n'
    ensures SequenceGroup(r) == Some(r[p..|r| - 1])
  {
    var e := TextEnd(r);
    assert IsSpace(r[|r| - 1]);
    assert p < e < |r|;
    NoBreakBetween(r, p, e);
    assert LineEnd(r, p) == |r| - 1;
  }

  lemma NoBreakBetween(r: string, p: nat, e: nat)
    requires p <= e <= |r|
    requires forall i :: p <= i < e ==> r[i] != '\n'
    ensures '\n' !in r[p..e]
  {
    assert forall i :: 0 <= i < e - p ==> r[p..e][i] == r[p + i];
  }

  /** Every line of the form  indent "sequence" w1 "=" w2 value "\n", with
      whitespace indent, w1 and w2, is a sequence line holding value: the
      converse of the facts SequenceValue promises. */
  lemma SequenceRecognised(indent: string, w1: string, w2: string, value: string)
    requires AllSpace(indent) && AllSpace(w1) && AllSpace(w2)
    requires value != [] && !IsSpace(value[0]) && '\n' !in value
    ensures SequenceValue(indent + "sequence" + w1 + "=" + w2 + value + "\n") == Some(value)
  {
    var line := indent + "sequence" + w1 + "=" + w2 + value + "\n";
    var r := w2 + value + "\n";
    var t := "sequence" + w1 + "=" + r;
    assert line == indent + t;
    LStripIndent(indent, t);
    KeywordThenEquals(w1, r);
    SequenceValueOf(line, r);
    GroupOfIndentedValue(w2, value);
  }

  /** The keyword, whitespace, then '=': lstrip() after the keyword reaches the '='. */
  lemma KeywordThenEquals(w: string, r: string)
    requires AllSpace(w)
    ensures var t := "sequence" + w + "=" + r;
      && t[0] == 's' && |t| >= 8 && t[..8] == "sequence" && LStrip(t[8..]) == "=" + r
  {
    var t := "sequence" + w + "=" + r;
    assert t[8..] == w + ("=" + r);
    LStripIndent(w, "=" + r);
  }

  /** Once lstrip() reaches the keyword and, after it, the '=', the value is the group of the rest. */
  lemma SequenceValueOf(line: string, r: string)
    requires |LStrip(line)| >= 8 && LStrip(line)[..8] == "sequence"
    requires LStrip(LStrip(line)[8..]) == "=" + r
    ensures SequenceValue(line) == SequenceGroup(r)
  {
    assert ("=" + r)[1..] == r;
  }

  /** A written sequence line is read back, on the next pass, as a sequence
      line holding the same value, with the same indentation; it is neither a
      comment nor a header, and it does not end a section. */
  lemma SequenceLineValue(indent: string, value: string)
    requires AllSpace(indent) && GoodValue(value)
    ensures SequenceValue(SequenceLine(indent, value)) == Some(value)
    ensures Indent(SequenceLine(indent, value)) == indent
    ensures !IsComment(SequenceLine(indent, value))
    ensures RotatorHeader(SequenceLine(indent, value)).None?
    ensures !Bracketed(SequenceLine(indent, value))
  {
    var line := SequenceLine(indent, value);
    assert line == indent + "sequence" + "    " + "=" + " " + value + "\n";
    assert AllSpace("    ") && AllSpace(" ");
    SequenceRecognised(indent, "    ", " ", value);
    StrippedSequenceLine(indent, value);
    KeywordFirst(line);
    NoOpeningBracket(indent, value);
  }

  lemma StrippedSequenceLine(indent: string, value: string)
    requires AllSpace(indent)
    ensures LStrip(SequenceLine(indent, value)) == "sequence    = " + value + "\n"
    ensures Indent(SequenceLine(indent, value)) == indent
  {
    var s := "sequence    = " + value + "\n";
    assert SequenceLine(indent, value) == indent + s;
    LStripIndent(indent, s);
  }

  /** A line whose first visible character is the keyword's 's' is neither a comment nor a header. */
  lemma KeywordFirst(line: string)
    requires LStrip(line) != [] && LStrip(line)[0] == 's'
    ensures !IsComment(line) && RotatorHeader(line).None?
  {
  }

  lemma NoOpeningBracket(indent: string, value: string)
    requires AllSpace(indent) && '[' !in value
    ensures '[' !in SequenceLine(indent, value)
  {
    var line := SequenceLine(indent, value);
    forall i | 0 <= i < |line| ensures line[i] != '[' {
      if i < |indent| {
        assert line[i] == indent[i];
      } else if i < |indent| + 14 {
        assert line[i] == "sequence    = "[i - |indent|];
      } else if i < |line| - 1 {
        assert line[i] == value[i - |indent| - 14];
      }
    }
  }

  // ---------------------------------------------------------------------
  // The pass over the file
  // ---------------------------------------------------------------------

  /** How the loop reads one line. */
  datatype Kind = CommentLine | HeaderLine(name: string) | ValueLine(value: string) | PlainLine

  /** The loop's tests in its own order: a comment first, then a rotator
      header, then a sequence line. */
  function KindOf(line: string): (k: Kind)
    ensures k.CommentLine? <==> IsComment(line)
    ensures k.HeaderLine? <==> !IsComment(line) && RotatorHeader(line).Some?
    ensures k.HeaderLine? ==> k.name == RotatorHeader(line).value
    ensures k.HeaderLine? ==> EndsWith(k.name, Client.Suffix) && '\n' !in k.name
    ensures k.ValueLine? <==> !IsComment(line) && RotatorHeader(line).None? && SequenceValue(line).Some?
    ensures k.ValueLine? ==> k.value == SequenceValue(line).value
    ensures k.ValueLine? ==> k.value != [] && '\n' !in k.value && RotatorHeader(line).None?
    ensures k.PlainLine? ==> RotatorHeader(line).None? && SequenceValue(line).None?
  {
    if IsComment(line) then CommentLine
    else if RotatorHeader(line).Some? then HeaderLine(RotatorHeader(line).value)
    else if SequenceValue(line).Some? then ValueLine(SequenceValue(line).value)
    else PlainLine
  }

  /** The pass below is stated for any way `kind` of reading lines; the
      server's is KindOf. What the pass needs of it for a second run: a line
      it wrote is read back as a sequence line with the value it wrote. */
  ghost predicate ReadsBack(kind: string -> Kind) {
    forall indent, value :: AllSpace(indent) && GoodValue(value) ==>
      kind(SequenceLine(indent, value)) == ValueLine(value)
  }

  lemma KindOfReadsBack()
    ensures ReadsBack(KindOf)
  {
    forall indent, value | AllSpace(indent) && GoodValue(value)
      ensures KindOf(SequenceLine(indent, value)) == ValueLine(value)
    {
      SequenceLineValue(indent, value);
    }
  }

  /** The generated sequence as it is written: spaces turned into commas. */
  function Commas(sequence: string): (r: string)
    ensures |r| == |sequence| && ' ' !in r
  {
    Replace(sequence, ' ', ',')
  }

  /** What process_knockd_conf tracks while it reads: the current section,
      the lines to write back, the old and new sequence of each section, and
      whether any sequence changed. */
  datatype Scan = Scan(
    section: Option<string>,
    out: seq<string>,
    olds: map<string, string>,
    news: map<string, string>,
    changed: bool)

  /** The sequence line j of the current section, holding oldSequence: record
      the old and new sequence, rewrite the line when they differ, and leave
      the section when the next line holds both '[' and ']'. */
  function HandleSequence(lines: seq<string>, gen: string -> string, j: nat, st: Scan, oldSequence: string): (r: Scan)
    requires j < |lines| && st.section.Some?
    ensures |r.out| == |st.out| + 1 && r.out[..|st.out|] == st.out
    ensures r.olds.Keys == st.olds.Keys + {st.section.value} && r.olds[st.section.value] == oldSequence
    ensures r.news.Keys == st.news.Keys + {st.section.value} && r.news[st.section.value] == Commas(gen(st.section.value))
    ensures r.changed <==> st.changed || oldSequence != Commas(gen(st.section.value))
    ensures r.out[|st.out|] != lines[j] ==> oldSequence != Commas(gen(st.section.value))
    ensures r.section.None? <==> j + 1 < |lines| && Bracketed(lines[j + 1])
  {
    var line := lines[j];
    var name := st.section.value;
    var newSequence := Commas(gen(name));
    var leaving := j + 1 < |lines| && Bracketed(lines[j + 1]);
    Scan(
      if leaving then None else st.section,
      st.out + [if oldSequence != newSequence then SequenceLine(Indent(line), newSequence) else line],
      st.olds[name := oldSequence],
      st.news[name := newSequence],
      st.changed || oldSequence != newSequence)
  }

  /** One iteration of the loop, on line j. */
  function Step(kind: string -> Kind, lines: seq<string>, gen: string -> string, j: nat, st: Scan): (r: Scan)
    requires j < |lines|
    ensures |r.out| == |st.out| + 1 && r.out[..|st.out|] == st.out
    ensures r.out[|st.out|] != lines[j] ==> SequenceStep(kind, st.section, lines[j])
    ensures !SequenceStep(kind, st.section, lines[j]) ==> r.olds == st.olds && r.news == st.news && r.changed == st.changed
  {
    var line := lines[j];
    match kind(line)
    case CommentLine => st.(out := st.out + [line])
    case HeaderLine(name) => st.(section := Some(name), out := st.out + [line])
    case ValueLine(oldSequence) =>
      if st.section.Some? then HandleSequence(lines, gen, j, st, oldSequence)
      else st.(out := st.out + [line])
    case PlainLine => st.(out := st.out + [line])
  }

  /** The state after the first i lines. */
  function ScanUpTo(kind: string -> Kind, lines: seq<string>, gen: string -> string, i: nat): (st: Scan)
    requires i <= |lines|
    ensures |st.out| == i
    ensures st.olds.Keys == st.news.Keys
    ensures forall name :: name in st.news ==> st.news[name] == Commas(gen(name))
    decreases i
  {
    if i == 0 then Scan(None, [], map[], map[], false)
    else Step(kind, lines, gen, i - 1, ScanUpTo(kind, lines, gen, i - 1))
  }

  /** The section in force when line j is reached. */
  function SectionAt(kind: string -> Kind, lines: seq<string>, gen: string -> string, j: nat): Option<string>
    requires j <= |lines|
  {
    ScanUpTo(kind, lines, gen, j).section
  }

  /** Line j is handled as the sequence line of a section. */
  predicate SequenceStep(kind: string -> Kind, section: Option<string>, line: string) {
    section.Some? && kind(line).ValueLine?
  }

  /** Why process_knockd_conf exits with status 1 after the pass. */
  datatype AbortReason = MissingSequence(section: string) | NoSections | DuplicateSequences

  /** The end of process_knockd_conf: an exit, or the lines to write, whether
      any sequence changed (its return value) and whether the file is written. */
  datatype Outcome = Abort(reason: AbortReason) | Done(output: seq<string>, changed: bool, wrote: bool)

  /** process_knockd_conf as a value, on the lines of the file: the pass,
      then the three checks in their order. */
  function Process(kind: string -> Kind, lines: seq<string>, gen: string -> string, dryRun: bool): (r: Outcome)
    ensures r.Done? ==> |r.output| == |lines|
    ensures r.Done? ==> (r.wrote <==> r.changed && !dryRun)
  {
    var st := ScanUpTo(kind, lines, gen, |lines|);
    if st.section.Some? && st.section.value !in st.olds then Abort(MissingSequence(st.section.value))
    else if |st.news| == 0 then Abort(NoSections)
    else if |st.news.Values| < |st.news.Keys| then Abort(DuplicateSequences)
    else Done(st.out, st.changed, st.changed && !dryRun)
  }

  /** process_knockd_conf: the loop over the lines, then the three checks. */
  method ProcessKnockdConf(lines: seq<string>, gen: string -> string, dryRun: bool) returns (outcome: Outcome)
    ensures outcome == Process(KindOf, lines, gen, dryRun)
  {
    var section: Option<string> := None;
    var out: seq<string> := [];
    var olds: map<string, string> := map[];
    var news: map<string, string> := map[];
    var changed := false;

    for i := 0 to |lines|
      invariant Scan(section, out, olds, news, changed) == ScanUpTo(KindOf, lines, gen, i)
    {
      var line := lines[i];
      ghost var st := Scan(section, out, olds, news, changed);
      if IsComment(line) {
        assert KindOf(line) == CommentLine;
        out := out + [line];
      } else if RotatorHeader(line).Some? {
        assert KindOf(line) == HeaderLine(RotatorHeader(line).value);
        section := RotatorHeader(line);
        out := out + [line];
      } else if section.Some? && SequenceValue(line).Some? {
        var oldSequence := SequenceValue(line).value;
        assert KindOf(line) == ValueLine(oldSequence);
        olds := olds[section.value := oldSequence];
        var newSequence := Commas(gen(section.value));
        news := news[section.value := newSequence];
        if oldSequence != newSequence {
          changed := true;
          out := out + [SequenceLine(Indent(line), newSequence)];
        } else {
          out := out + [line];
        }
        if i + 1 < |lines| && Bracketed(lines[i + 1]) {
          section := None;
        }
        assert Scan(section, out, olds, news, changed) == HandleSequence(lines, gen, i, st, oldSequence);
      } else {
        out := out + [line];
      }
      assert Scan(section, out, olds, news, changed) == Step(KindOf, lines, gen, i, st);
    }

    if section.Some? && section.value !in olds {
      return Abort(MissingSequence(section.value));
    }
    if |news| == 0 {
      return Abort(NoSections);
    }
    if |news.Values| < |news.Keys| {
      return Abort(DuplicateSequences);
    }
    outcome := Done(out, changed, changed && !dryRun);
  }

  // ---------------------------------------------------------------------
  // What the pass writes
  // ---------------------------------------------------------------------

  /** Lines already written are never revisited. */
  lemma {:induction false} OutputPrefix(kind: string -> Kind, lines: seq<string>, gen: string -> string, i: nat, n: nat)
    requires i <= n <= |lines|
    ensures ScanUpTo(kind, lines, gen, i).out == ScanUpTo(kind, lines, gen, n).out[..i]
    decreases n
  {
    if i < n {
      OutputPrefix(kind, lines, gen, i, n - 1);
      var before := ScanUpTo(kind, lines, gen, n - 1).out;
      assert ScanUpTo(kind, lines, gen, n).out[..n - 1] == before;
      assert ScanUpTo(kind, lines, gen, n).out[..i] == before[..i];
    }
  }

  /** The line written for line j: a copy, unless line j is a sequence line
      whose value differs from the new sequence of its section. */
  lemma Emitted(kind: string -> Kind, lines: seq<string>, gen: string -> string, j: nat)
    requires j < |lines|
    ensures var section := SectionAt(kind, lines, gen, j);
      ScanUpTo(kind, lines, gen, j + 1).out[j] ==
        if SequenceStep(kind, section, lines[j]) && kind(lines[j]).value != Commas(gen(section.value))
        then SequenceLine(Indent(lines[j]), Commas(gen(section.value)))
        else lines[j]
  {
  }

  /** The same, read in the finished output. */
  lemma OutputAt(kind: string -> Kind, lines: seq<string>, gen: string -> string, j: nat)
    requires j < |lines|
    ensures var section := SectionAt(kind, lines, gen, j);
      ScanUpTo(kind, lines, gen, |lines|).out[j] ==
        if SequenceStep(kind, section, lines[j]) && kind(lines[j]).value != Commas(gen(section.value))
        then SequenceLine(Indent(lines[j]), Commas(gen(section.value)))
        else lines[j]
  {
    OutputPrefix(kind, lines, gen, j + 1, |lines|);
    Emitted(kind, lines, gen, j);
  }

  /** The written file has the same number of lines in the same order; a
      line differs from the original only where it is the sequence line of a
      rotator section, and then it is that section's new sequence, written
      with the original indentation. Comments, headers and every other line
      are copied as they are. */
  lemma ProcessOutput(kind: string -> Kind, lines: seq<string>, gen: string -> string, dryRun: bool)
    requires Process(kind, lines, gen, dryRun).Done?
    ensures var output := Process(kind, lines, gen, dryRun).output;
      && |output| == |lines|
      && forall j :: 0 <= j < |lines| ==>
        || output[j] == lines[j]
        || (&& SequenceStep(kind, SectionAt(kind, lines, gen, j), lines[j])
            && output[j] == SequenceLine(Indent(lines[j]), Commas(gen(SectionAt(kind, lines, gen, j).value))))
  {
    forall j | 0 <= j < |lines| {
      OutputAt(kind, lines, gen, j);
    }
  }

  /** What the generator must give for a written line to be read back as
      written: for every section name, once spaces become commas, a
      non-empty value that starts with a visible character and holds no line
      break and no '['. */
  ghost predicate GoodGenerator(gen: string -> string) {
    forall name :: GoodValue(Commas(gen(name)))
  }

  lemma IndentIsSpace(line: string)
    ensures AllSpace(Indent(line))
  {
  }

  /** A rewritten line differs from the line it replaces. */
  lemma RewriteDiffers(kind: string -> Kind, line: string, value: string)
    requires ReadsBack(kind) && GoodValue(value)
    requires kind(line).ValueLine? && kind(line).value != value
    ensures SequenceLine(Indent(line), value) != line
  {
    IndentIsSpace(line);
    assert kind(SequenceLine(Indent(line), value)) == ValueLine(value);
  }

  /** A line the pass rewrote lies in a section and reads back as a sequence
      line holding that section's new sequence. */
  lemma RewrittenReadsBack(kind: string -> Kind, lines: seq<string>, gen: string -> string, dryRun: bool, j: nat)
    requires ReadsBack(kind) && GoodGenerator(gen)
    requires Process(kind, lines, gen, dryRun).Done?
    requires j < |lines| && Process(kind, lines, gen, dryRun).output[j] != lines[j]
    ensures SectionAt(kind, lines, gen, j).Some?
    ensures kind(Process(kind, lines, gen, dryRun).output[j]) == ValueLine(Commas(gen(SectionAt(kind, lines, gen, j).value)))
  {
    ProcessOutput(kind, lines, gen, dryRun);
    var section := SectionAt(kind, lines, gen, j);
    IndentIsSpace(lines[j]);
    assert kind(SequenceLine(Indent(lines[j]), Commas(gen(section.value)))) == ValueLine(Commas(gen(section.value)));
  }

  /** One step of the pass: one line appended, and the flag raised exactly
      when that line is a rewrite. */
  lemma ChangedStep(kind: string -> Kind, lines: seq<string>, gen: string -> string, j: nat)
    requires ReadsBack(kind) && GoodGenerator(gen)
    requires j < |lines|
    ensures var before := ScanUpTo(kind, lines, gen, j);
      var after := ScanUpTo(kind, lines, gen, j + 1);
      && after.out == before.out + [after.out[j]]
      && (after.changed <==> before.changed || after.out[j] != lines[j])
  {
    var before := ScanUpTo(kind, lines, gen, j);
    var line := lines[j];
    Emitted(kind, lines, gen, j);
    if SequenceStep(kind, before.section, line) {
      var newSequence := Commas(gen(before.section.value));
      if kind(line).value != newSequence {
        RewriteDiffers(kind, line, newSequence);
      }
    }
  }

  /** The flag the pass raises is exactly "some line was rewritten". */
  lemma {:induction false} ChangedUpTo(kind: string -> Kind, lines: seq<string>, gen: string -> string, i: nat)
    requires ReadsBack(kind) && GoodGenerator(gen)
    requires i <= |lines|
    ensures ScanUpTo(kind, lines, gen, i).changed <==> ScanUpTo(kind, lines, gen, i).out != lines[..i]
    decreases i
  {
    if i > 0 {
      var j := i - 1;
      ChangedUpTo(kind, lines, gen, j);
      ChangedStep(kind, lines, gen, j);
      TakeOneMore(lines, j);
      var out := ScanUpTo(kind, lines, gen, i).out;
      SnocDiffers(ScanUpTo(kind, lines, gen, j).out, lines[..j], out[j], lines[j]);
    }
  }

  /** process_knockd_conf returns True exactly when the written lines differ
      from the file's, and writes the file exactly when that holds and it is
      not a dry run. */
  lemma ChangedIffRewritten(kind: string -> Kind, lines: seq<string>, gen: string -> string, dryRun: bool)
    requires ReadsBack(kind) && GoodGenerator(gen)
    requires Process(kind, lines, gen, dryRun).Done?
    ensures Process(kind, lines, gen, dryRun).changed <==> Process(kind, lines, gen, dryRun).output != lines
    ensures Process(kind, lines, gen, dryRun).wrote <==> Process(kind, lines, gen, dryRun).changed && !dryRun
  {
    ChangedUpTo(kind, lines, gen, |lines|);
    assert lines[..|lines|] == lines;
  }

  // ---------------------------------------------------------------------
  // Which sections were found, and when the pass gives up
  // ---------------------------------------------------------------------

  /** Line j was handled as the sequence line of section `name`. */
  ghost predicate HandledUnder(kind: string -> Kind, lines: seq<string>, gen: string -> string, j: nat, name: string)
    requires j < |lines|
  {
    SequenceStep(kind, SectionAt(kind, lines, gen, j), lines[j]) && SectionAt(kind, lines, gen, j).value == name
  }

  /** Section `name` had a sequence line handled somewhere before line i. */
  ghost predicate HandledBefore(kind: string -> Kind, lines: seq<string>, gen: string -> string, i: nat, name: string)
    requires i <= |lines|
  {
    exists j :: 0 <= j < i && HandledUnder(kind, lines, gen, j, name)
  }

  /** One step adds to the maps at most the section whose line it handled. */
  lemma KeysStep(kind: string -> Kind, lines: seq<string>, gen: string -> string, j: nat)
    requires j < |lines|
    ensures forall name :: name in ScanUpTo(kind, lines, gen, j + 1).news <==>
      name in ScanUpTo(kind, lines, gen, j).news || HandledUnder(kind, lines, gen, j, name)
  {
  }

  /** The sections with a sequence in the maps are exactly the sections whose
      sequence line the pass handled. */
  lemma {:induction false} SectionsFound(kind: string -> Kind, lines: seq<string>, gen: string -> string, i: nat)
    requires i <= |lines|
    ensures forall name :: name in ScanUpTo(kind, lines, gen, i).news <==> HandledBefore(kind, lines, gen, i, name)
    decreases i
  {
    if i > 0 {
      SectionsFound(kind, lines, gen, i - 1);
      KeysStep(kind, lines, gen, i - 1);
      forall name | HandledBefore(kind, lines, gen, i, name)
        ensures HandledBefore(kind, lines, gen, i - 1, name) || HandledUnder(kind, lines, gen, i - 1, name)
      {
        var j :| 0 <= j < i && HandledUnder(kind, lines, gen, j, name);
      }
    }
  }

  /** The section in force at the end of the file had no sequence line. */
  ghost predicate MissingAtEnd(kind: string -> Kind, lines: seq<string>, gen: string -> string) {
    var last := SectionAt(kind, lines, gen, |lines|);
    last.Some? && !HandledBefore(kind, lines, gen, |lines|, last.value)
  }

  /** The first check: the pass stops when the section open at the end of the
      file never had its sequence line handled. */
  lemma MissingSequenceIff(kind: string -> Kind, lines: seq<string>, gen: string -> string, dryRun: bool)
    ensures Process(kind, lines, gen, dryRun).Abort? && Process(kind, lines, gen, dryRun).reason.MissingSequence?
      <==> MissingAtEnd(kind, lines, gen)
    ensures MissingAtEnd(kind, lines, gen) ==>
      Process(kind, lines, gen, dryRun) == Abort(MissingSequence(SectionAt(kind, lines, gen, |lines|).value))
  {
    SectionsFound(kind, lines, gen, |lines|);
  }

  /** No section has a sequence exactly when no line was handled as one. */
  lemma NothingHandled(kind: string -> Kind, lines: seq<string>, gen: string -> string)
    ensures |ScanUpTo(kind, lines, gen, |lines|).news| == 0 <==>
      forall j :: 0 <= j < |lines| ==> !SequenceStep(kind, SectionAt(kind, lines, gen, j), lines[j])
  {
    var n := |lines|;
    SectionsFound(kind, lines, gen, n);
    var news := ScanUpTo(kind, lines, gen, n).news;
    if exists j :: 0 <= j < n && SequenceStep(kind, SectionAt(kind, lines, gen, j), lines[j]) {
      var j :| 0 <= j < n && SequenceStep(kind, SectionAt(kind, lines, gen, j), lines[j]);
      assert HandledUnder(kind, lines, gen, j, SectionAt(kind, lines, gen, j).value);
      assert SectionAt(kind, lines, gen, j).value in news;
    } else {
      assert forall name :: !HandledBefore(kind, lines, gen, n, name);
      assert news.Keys == {};
    }
  }

  /** The second check: with no section left open, the pass stops when it
      handled no sequence line at all. */
  lemma NoSectionsIff(kind: string -> Kind, lines: seq<string>, gen: string -> string, dryRun: bool)
    ensures Process(kind, lines, gen, dryRun) == Abort(NoSections) <==>
      && SectionAt(kind, lines, gen, |lines|).None?
      && forall j :: 0 <= j < |lines| ==> !SequenceStep(kind, SectionAt(kind, lines, gen, j), lines[j])
  {
    NothingHandled(kind, lines, gen);
    MissingSequenceIff(kind, lines, gen, dryRun);
    var last := SectionAt(kind, lines, gen, |lines|);
    if last.Some? && forall j :: 0 <= j < |lines| ==> !SequenceStep(kind, SectionAt(kind, lines, gen, j), lines[j]) {
      assert !HandledBefore(kind, lines, gen, |lines|, last.value);
    }
  }

  /** The third check: the pass stops when two sections it handled were
      given the same sequence. */
  lemma DuplicatesIff(kind: string -> Kind, lines: seq<string>, gen: string -> string, dryRun: bool)
    ensures Process(kind, lines, gen, dryRun) == Abort(DuplicateSequences) <==>
      && !MissingAtEnd(kind, lines, gen)
      && exists a, b :: && HandledBefore(kind, lines, gen, |lines|, a) && HandledBefore(kind, lines, gen, |lines|, b)
                        && a != b && Commas(gen(a)) == Commas(gen(b))
  {
    var n := |lines|;
    SectionsFound(kind, lines, gen, n);
    var news := ScanUpTo(kind, lines, gen, n).news;
    Maps.DuplicateValues(news);
    MissingSequenceIff(kind, lines, gen, dryRun);
  }

  // ---------------------------------------------------------------------
  // A second run changes nothing
  // ---------------------------------------------------------------------

  /** After a handled sequence line the section ends exactly when the next
      line holds both brackets. */
  lemma SectionAfterSequence(kind: string -> Kind, lines: seq<string>, gen: string -> string, j: nat)
    requires j < |lines|
    requires SequenceStep(kind, SectionAt(kind, lines, gen, j), lines[j])
    ensures SectionAt(kind, lines, gen, j + 1) ==
      if j + 1 < |lines| && Bracketed(lines[j + 1]) then None else SectionAt(kind, lines, gen, j)
  {
  }

  /** Where a written line differs from the original, it carries no '[' and
      it lies inside a section. */
  lemma RewrittenUnbracketed(kind: string -> Kind, lines: seq<string>, gen: string -> string, j: nat)
    requires GoodGenerator(gen)
    requires j < |lines|
    ensures ScanUpTo(kind, lines, gen, |lines|).out[j] == lines[j] || '[' !in ScanUpTo(kind, lines, gen, |lines|).out[j]
    ensures ScanUpTo(kind, lines, gen, |lines|).out[j] == lines[j] || !Bracketed(ScanUpTo(kind, lines, gen, |lines|).out[j])
    ensures ScanUpTo(kind, lines, gen, |lines|).out[j] == lines[j] || SectionAt(kind, lines, gen, j).Some?
  {
    OutputPrefix(kind, lines, gen, j + 1, |lines|);
    Emitted(kind, lines, gen, j);
    var section := SectionAt(kind, lines, gen, j);
    if SequenceStep(kind, section, lines[j]) {
      IndentIsSpace(lines[j]);
      NoOpeningBracket(Indent(lines[j]), Commas(gen(section.value)));
    }
  }

  /** When a bracketed line ends the section, the look-ahead sees the same
      thing in the written lines as in the original ones: a line that was
      rewritten holds no '[', and the line it replaced held none either, or
      the section would have ended before it. */
  lemma LookaheadAgrees(kind: string -> Kind, lines: seq<string>, gen: string -> string, j: nat)
    requires GoodGenerator(gen)
    requires j + 1 < |lines|
    requires Bracketed(lines[j + 1]) ==> SectionAt(kind, lines, gen, j + 1).None?
    ensures Bracketed(ScanUpTo(kind, lines, gen, |lines|).out[j + 1]) == Bracketed(lines[j + 1])
  {
    RewrittenUnbracketed(kind, lines, gen, j + 1);
  }

  /** The state the second pass reaches: the first pass's section, the
      written lines so far, the new sequences as both old and new, and no change. */
  function Replayed(kind: string -> Kind, lines: seq<string>, gen: string -> string, i: nat): Scan
    requires i <= |lines|
  {
    var first := ScanUpTo(kind, lines, gen, i);
    Scan(first.section, ScanUpTo(kind, lines, gen, |lines|).out[..i], first.news, first.news, false)
  }

  /** A step that handles no sequence line copies its line, and enters the
      section when the line is a rotator header. */
  lemma CopyStep(kind: string -> Kind, lines: seq<string>, gen: string -> string, j: nat, st: Scan)
    requires j < |lines| && !SequenceStep(kind, st.section, lines[j])
    ensures Step(kind, lines, gen, j, st) ==
      st.(section := if kind(lines[j]).HeaderLine? then Some(kind(lines[j]).name) else st.section,
          out := st.out + [lines[j]])
  {
  }

  /** A line the first pass copied is read the same way by the second. */
  lemma ReplayCopied(kind: string -> Kind, lines: seq<string>, gen: string -> string, j: nat)
    requires j < |lines|
    requires !SequenceStep(kind, SectionAt(kind, lines, gen, j), lines[j])
    requires ScanUpTo(kind, ScanUpTo(kind, lines, gen, |lines|).out, gen, j) == Replayed(kind, lines, gen, j)
    ensures ScanUpTo(kind, ScanUpTo(kind, lines, gen, |lines|).out, gen, j + 1) == Replayed(kind, lines, gen, j + 1)
  {
    var out := ScanUpTo(kind, lines, gen, |lines|).out;
    OutputAt(kind, lines, gen, j);
    CopyStep(kind, lines, gen, j, ScanUpTo(kind, lines, gen, j));
    CopyStep(kind, out, gen, j, ScanUpTo(kind, out, gen, j));
    assert out[..j + 1] == out[..j] + [out[j]];
  }

  /** The line written for a handled sequence line reads as a sequence line
      holding the section's new sequence. */
  lemma WrittenValue(kind: string -> Kind, lines: seq<string>, gen: string -> string, j: nat)
    requires ReadsBack(kind) && GoodGenerator(gen)
    requires j < |lines|
    requires SequenceStep(kind, SectionAt(kind, lines, gen, j), lines[j])
    ensures kind(ScanUpTo(kind, lines, gen, |lines|).out[j]) == ValueLine(Commas(gen(SectionAt(kind, lines, gen, j).value)))
  {
    OutputPrefix(kind, lines, gen, j + 1, |lines|);
    Emitted(kind, lines, gen, j);
    var value := Commas(gen(SectionAt(kind, lines, gen, j).value));
    IndentIsSpace(lines[j]);
    assert kind(SequenceLine(Indent(lines[j]), value)) == ValueLine(value);
  }

  /** A sequence line of the first pass is, in the written lines, a sequence
      line already holding the new sequence: the second pass keeps it and
      records the same sequence as both old and new. */
  lemma ReplaySequence(kind: string -> Kind, lines: seq<string>, gen: string -> string, j: nat)
    requires ReadsBack(kind) && GoodGenerator(gen)
    requires j < |lines|
    requires SequenceStep(kind, SectionAt(kind, lines, gen, j), lines[j])
    requires ScanUpTo(kind, ScanUpTo(kind, lines, gen, |lines|).out, gen, j) == Replayed(kind, lines, gen, j)
    ensures ScanUpTo(kind, ScanUpTo(kind, lines, gen, |lines|).out, gen, j + 1) == Replayed(kind, lines, gen, j + 1)
  {
    var n := |lines|;
    var out := ScanUpTo(kind, lines, gen, n).out;
    WrittenValue(kind, lines, gen, j);
    TakeOneMore(out, j);
    SectionAfterSequence(kind, lines, gen, j);
    if j + 1 < n {
      LookaheadAgrees(kind, lines, gen, j);
    }
  }

  lemma SecondPassStep(kind: string -> Kind, lines: seq<string>, gen: string -> string, j: nat)
    requires ReadsBack(kind) && GoodGenerator(gen)
    requires j < |lines|
    requires ScanUpTo(kind, ScanUpTo(kind, lines, gen, |lines|).out, gen, j) == Replayed(kind, lines, gen, j)
    ensures ScanUpTo(kind, ScanUpTo(kind, lines, gen, |lines|).out, gen, j + 1) == Replayed(kind, lines, gen, j + 1)
  {
    if SequenceStep(kind, SectionAt(kind, lines, gen, j), lines[j]) {
      ReplaySequence(kind, lines, gen, j);
    } else {
      ReplayCopied(kind, lines, gen, j);
    }
  }

  lemma {:induction false} SecondPass(kind: string -> Kind, lines: seq<string>, gen: string -> string, i: nat)
    requires ReadsBack(kind) && GoodGenerator(gen)
    requires i <= |lines|
    ensures ScanUpTo(kind, ScanUpTo(kind, lines, gen, |lines|).out, gen, i) == Replayed(kind, lines, gen, i)
    decreases i
  {
    if i > 0 {
      SecondPass(kind, lines, gen, i - 1);
      SecondPassStep(kind, lines, gen, i - 1);
    }
  }

  /** Running the server again on the file it has just written, in the same
      period, finds every sequence up to date: it returns False and writes nothing. */
  lemma Idempotent(kind: string -> Kind, lines: seq<string>, gen: string -> string, dryRun: bool, dryRunAgain: bool)
    requires ReadsBack(kind) && GoodGenerator(gen)
    requires Process(kind, lines, gen, dryRun).Done?
    ensures Process(kind, Process(kind, lines, gen, dryRun).output, gen, dryRunAgain)
      == Done(Process(kind, lines, gen, dryRun).output, false, false)
  {
    var n := |lines|;
    var out := ScanUpTo(kind, lines, gen, n).out;
    SecondPass(kind, lines, gen, n);
    assert out[..n] == out;
  }
}
