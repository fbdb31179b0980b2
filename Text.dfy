/**
 * The handful of Python string operations the rotator relies on, written out:
 * whitespace, strip, split on a character, split on whitespace, join,
 * one-character replace, str() of an integer and int() of a string.
 */
module Text {
  import opened Wrappers

  /** The characters Python's str.isspace() accepts; the regular-expression
      class \s matches the same set on str patterns. */
  predicate IsSpace(c: char) {
    || c == ' '
    || '\t' <= c <= '\r'
    || '\U{1c}' <= c <= '\U{1f}'
    || c == '\U{85}' || c == '\U{a0}' || c == '\U{1680}'
    || '\U{2000}' <= c <= '\U{200a}'
    || c == '\U{2028}' || c == '\U{2029}' || c == '\U{202f}' || c == '\U{205f}' || c == '\U{3000}'
  }

  predicate NoSpace(s: string) {
    forall i :: 0 <= i < |s| ==> !IsSpace(s[i])
  }

  predicate AllSpace(s: string) {
    forall i :: 0 <= i < |s| ==> IsSpace(s[i])
  }

  predicate EndsWith(s: string, suffix: string) {
    |suffix| <= |s| && s[|s| - |suffix|..] == suffix
  }

  /** Number of leading whitespace characters. */
  function LeadingSpace(s: string): (n: nat)
    ensures n <= |s|
    ensures forall i :: 0 <= i < n ==> IsSpace(s[i])
    ensures n < |s| ==> !IsSpace(s[n])
    decreases |s|
  {
    if s != [] && IsSpace(s[0]) then 1 + LeadingSpace(s[1..]) else 0
  }

  /** str.lstrip() */
  function LStrip(s: string): string {
    s[LeadingSpace(s)..]
  }

  /** What the group (\s*) captures at the start of a line. */
  function Indent(s: string): string {
    s[..LeadingSpace(s)]
  }

  /** Length of s once its trailing whitespace is dropped. */
  function TextEnd(s: string): (n: nat)
    ensures n <= |s|
    ensures forall i :: n <= i < |s| ==> IsSpace(s[i])
    ensures n > 0 ==> !IsSpace(s[n - 1])
    decreases |s|
  {
    if s != [] && IsSpace(s[|s| - 1]) then TextEnd(s[..|s| - 1]) else |s|
  }

  /** str.rstrip() */
  function RStrip(s: string): string {
    s[..TextEnd(s)]
  }

  /** str.strip() */
  function Strip(s: string): string {
    RStrip(LStrip(s))
  }

  /** Trailing whitespace after a last visible character is exactly what rstrip() drops. */
  lemma {:induction false} TextEndTrail(s: string, tail: string)
    requires s != [] && !IsSpace(s[|s| - 1]) && AllSpace(tail)
    ensures TextEnd(s + tail) == |s|
    decreases |tail|
  {
    if tail != [] {
      var t := s + tail;
      assert t[..|t| - 1] == s + tail[..|tail| - 1];
      TextEndTrail(s, tail[..|tail| - 1]);
    } else {
      assert s + tail == s;
    }
  }

  lemma StripNoSpace(s: string)
    requires NoSpace(s)
    ensures LStrip(s) == s && Strip(s) == s
  {
  }

  /** A whitespace character in front does not change what lstrip() leaves. */
  lemma LStripSpace(c: char, s: string)
    requires IsSpace(c)
    ensures LStrip([c] + s) == LStrip(s)
  {
    assert ([c] + s)[1..] == s;
  }

  /** A stretch of whitespace characters, cut out, is all whitespace. */
  lemma SpaceSlice(s: string, lo: nat, hi: nat)
    requires lo <= hi <= |s|
    requires forall i :: lo <= i < hi ==> IsSpace(s[i])
    ensures AllSpace(s[lo..hi]) && (lo == 0 ==> AllSpace(s[..hi])) && (hi == |s| ==> AllSpace(s[lo..]))
  {
    assert forall i :: 0 <= i < hi - lo ==> s[lo..hi][i] == s[lo + i];
  }

  /** Whitespace in front of a string whose first character is not whitespace is all lstrip() removes. */
  lemma LStripIndent(w: string, s: string)
    requires AllSpace(w) && s != [] && !IsSpace(s[0])
    ensures LeadingSpace(w + s) == |w|
    ensures LStrip(w + s) == s && Indent(w + s) == w
  {
    assert forall i :: 0 <= i < |w| ==> (w + s)[i] == w[i];
    assert (w + s)[|w|] == s[0];
  }

  /** str.split(sep) for a one-character separator: every occurrence
      separates, and empty pieces are kept ("".split(",") == [""]). */
  function Split(s: string, sep: char): (parts: seq<string>)
    ensures |parts| >= 1
    decreases |s|
  {
    if s == [] then [[]]
    else
      var rest := Split(s[1..], sep);
      if s[0] == sep then [[]] + rest else [[s[0]] + rest[0]] + rest[1..]
  }

  /** sep.join(parts) */
  function Join(sep: string, parts: seq<string>): string
    decreases |parts|
  {
    if parts == [] then []
    else if |parts| == 1 then parts[0]
    else parts[0] + sep + Join(sep, parts[1..])
  }

  /** A character found in neither the separator nor any part is not in the join. */
  lemma {:induction false} JoinFree(c: char, sep: string, parts: seq<string>)
    requires c !in sep
    requires forall i :: 0 <= i < |parts| ==> c !in parts[i]
    ensures c !in Join(sep, parts)
    decreases |parts|
  {
    if |parts| > 1 {
      JoinFree(c, sep, parts[1..]);
    }
  }

  /** Joining the pieces of a split with the separator gives the string back. */
  lemma {:induction false} JoinSplit(s: string, sep: char)
    ensures Join([sep], Split(s, sep)) == s
    decreases |s|
  {
    if s != [] {
      var rest := Split(s[1..], sep);
      JoinSplit(s[1..], sep);
      if s[0] == sep {
        assert Split(s, sep) == [[]] + rest;
        assert Join([sep], [[]] + rest) == [] + [sep] + Join([sep], rest);
      } else {
        assert Split(s, sep) == [[s[0]] + rest[0]] + rest[1..];
        if |rest| == 1 {
          assert s == [s[0]] + rest[0];
        } else {
          assert rest == [rest[0]] + rest[1..];
          assert Join([sep], rest) == rest[0] + [sep] + Join([sep], rest[1..]);
          assert s == [s[0]] + s[1..];
        }
      }
    }
  }

  /** A string without the separator splits into itself alone. */
  lemma {:induction false} SplitFree(s: string, sep: char)
    requires sep !in s
    ensures Split(s, sep) == [s]
    decreases |s|
  {
    if s != [] {
      SplitFree(s[1..], sep);
      assert s == [s[0]] + s[1..];
    }
  }

  /** No piece of a split holds the separator. */
  lemma {:induction false} SplitPartsFree(s: string, sep: char)
    ensures forall i :: 0 <= i < |Split(s, sep)| ==> sep !in Split(s, sep)[i]
    decreases |s|
  {
    if s != [] {
      var rest := Split(s[1..], sep);
      SplitPartsFree(s[1..], sep);
      if s[0] != sep {
        var parts := [[s[0]] + rest[0]] + rest[1..];
        assert Split(s, sep) == parts;
        forall i | 0 <= i < |parts| ensures sep !in parts[i] {
          if i > 0 {
            assert parts[i] == rest[i];
          }
        }
      }
    }
  }

  lemma {:induction false} SplitAfter(a: string, sep: char, rest: string)
    requires sep !in a
    ensures Split(a + [sep] + rest, sep) == [a] + Split(rest, sep)
    decreases |a|
  {
    if a == [] {
      assert a + [sep] + rest == [sep] + rest;
    } else {
      SplitAfter(a[1..], sep, rest);
      assert (a + [sep] + rest)[1..] == a[1..] + [sep] + rest;
      assert a == [a[0]] + a[1..];
    }
  }

  /** Splitting a join recovers the pieces when none holds the separator. */
  lemma {:induction false} SplitJoin(parts: seq<string>, sep: char)
    requires |parts| >= 1
    requires forall i :: 0 <= i < |parts| ==> sep !in parts[i]
    ensures Split(Join([sep], parts), sep) == parts
    decreases |parts|
  {
    if |parts| == 1 {
      SplitFree(parts[0], sep);
    } else {
      SplitJoin(parts[1..], sep);
      SplitAfter(parts[0], sep, Join([sep], parts[1..]));
      assert parts == [parts[0]] + parts[1..];
    }
  }

  /** Number of leading non-whitespace characters. */
  function WordLength(s: string): (n: nat)
    ensures n <= |s|
    ensures forall i :: 0 <= i < n ==> !IsSpace(s[i])
    ensures n < |s| ==> IsSpace(s[n])
    decreases |s|
  {
    if s != [] && !IsSpace(s[0]) then 1 + WordLength(s[1..]) else 0
  }

  /** str.split() with no argument: runs of whitespace separate, leading and
      trailing whitespace is ignored, and no piece is empty. */
  function Words(s: string): (words: seq<string>)
    ensures forall i :: 0 <= i < |words| ==> words[i] != [] && NoSpace(words[i])
    decreases |s|
  {
    var t := LStrip(s);
    if t == [] then []
    else
      var n := WordLength(t);
      [t[..n]] + Words(t[n..])
  }

  /** gaps[0] + words[0] + gaps[1] + ... + words[n - 1] + gaps[n] */
  function Weave(words: seq<string>, gaps: seq<string>): string
    requires |gaps| == |words| + 1
    decreases |words|
  {
    if words == [] then gaps[0] else gaps[0] + words[0] + Weave(words[1..], gaps[1..])
  }

  /** s is the words separated by runs of whitespace: every gap is
      whitespace, and every gap between two words holds at least one
      character. */
  ghost predicate RunsOf(s: string, words: seq<string>, gaps: seq<string>) {
    && |gaps| == |words| + 1
    && (forall i :: 0 <= i < |gaps| ==> AllSpace(gaps[i]))
    && (forall i :: 0 < i < |words| ==> gaps[i] != [])
    && Weave(words, gaps) == s
  }

  /** split() cuts s exactly at its runs of whitespace. */
  lemma WordsRuns(s: string)
    ensures exists gaps :: RunsOf(s, Words(s), gaps)
  {
    var gaps := WordsGaps(s);
  }

  /** The runs of whitespace split() cuts s at. */
  lemma {:induction false} WordsGaps(s: string) returns (gaps: seq<string>)
    ensures RunsOf(s, Words(s), gaps)
    decreases |s|
  {
    var k := LeadingSpace(s);
    if k == |s| {
      gaps := [s];
      WordsBlank(s);
    } else {
      var t := s[k..];
      var g := WordsGaps(t[WordLength(t)..]);
      WordsNext(s, g);
      gaps := [s[..k]] + g;
    }
  }

  /** A text of whitespace alone is one gap and no words. */
  lemma WordsBlank(s: string)
    requires LeadingSpace(s) == |s|
    ensures RunsOf(s, Words(s), [s])
  {
    assert Words(s) == [] && Weave([], [s]) == s;
  }

  /** The runs of what follows the first word, with the whitespace in
      front of that word, are the runs of the whole text. */
  lemma WordsNext(s: string, g: seq<string>)
    requires LeadingSpace(s) < |s|
    requires
      var t := s[LeadingSpace(s)..];
      RunsOf(t[WordLength(t)..], Words(t[WordLength(t)..]), g)
    ensures RunsOf(s, Words(s), [s[..LeadingSpace(s)]] + g)
  {
    var k := LeadingSpace(s);
    var t := s[k..];
    var n := WordLength(t);
    WordsStep(s);
    FirstWord(s);
    RunsCons(s, Words(s), s[..k], t[..n], t[n..], Words(t[n..]), g);
  }

  /** split() of a text with a visible character: the whitespace in
      front, the first word, and split() of what follows it. */
  lemma WordsStep(s: string)
    requires LeadingSpace(s) < |s|
    ensures
      var t := s[LeadingSpace(s)..];
      && s == s[..LeadingSpace(s)] + t[..WordLength(t)] + t[WordLength(t)..]
      && Words(s) == [t[..WordLength(t)]] + Words(t[WordLength(t)..])
  {
    CutTwice(s, LeadingSpace(s), WordLength(s[LeadingSpace(s)..]));
  }

  /** The whitespace in front of the first word, the word, and the
      whitespace that follows it. */
  lemma FirstWord(s: string)
    requires LeadingSpace(s) < |s|
    ensures AllSpace(s[..LeadingSpace(s)])
    ensures
      var t := s[LeadingSpace(s)..];
      && t[..WordLength(t)] != [] && NoSpace(t[..WordLength(t)])
      && (t[WordLength(t)..] != [] ==> IsSpace(t[WordLength(t)..][0]))
  {
    var k := LeadingSpace(s);
    var t := s[k..];
    var n := WordLength(t);
    assert n > 0 by {
      assert t[0] == s[k];
    }
    assert forall i :: 0 <= i < n ==> t[..n][i] == t[i];
    assert forall i :: 0 <= i < k ==> s[..k][i] == s[i];
  }

  /** A leading gap and a word in front of a text cut at its runs of
      whitespace give the whole text cut at its runs. */
  lemma RunsCons(s: string, words: seq<string>, lead: string, w: string, rest: string, ws: seq<string>, g: seq<string>)
    requires s == lead + w + rest && words == [w] + ws
    requires AllSpace(lead) && w != [] && NoSpace(w)
    requires rest != [] ==> IsSpace(rest[0])
    requires ws != [] ==> ws[0] != [] && NoSpace(ws[0])
    requires RunsOf(rest, ws, g)
    ensures RunsOf(s, words, [lead] + g)
  {
    var gaps := [lead] + g;
    assert words[1..] == ws && gaps[1..] == g;
    assert Weave(words, gaps) == lead + w + rest;
    if ws != [] {
      GapBeforeWord(rest, ws, g);
    }
  }

  /** A text cut at its runs that starts with whitespace has a non-empty first gap. */
  lemma GapBeforeWord(rest: string, ws: seq<string>, g: seq<string>)
    requires ws != [] && ws[0] != [] && NoSpace(ws[0])
    requires RunsOf(rest, ws, g)
    requires rest != [] ==> IsSpace(rest[0])
    ensures g[0] != []
  {
  }

  /** split() recovers the words of a space-join when each is a non-empty run of non-whitespace. */
  lemma {:induction false} WordsJoin(words: seq<string>)
    requires forall i :: 0 <= i < |words| ==> words[i] != [] && NoSpace(words[i])
    ensures Words(Join(" ", words)) == words
    decreases |words|
  {
    if |words| == 1 {
      WordsSingle(words[0]);
    } else if |words| > 1 {
      WordsJoin(words[1..]);
      WordsCons(words[0], Join(" ", words[1..]));
      assert words == [words[0]] + words[1..];
    }
  }

  lemma WordsSingle(w: string)
    requires w != [] && NoSpace(w)
    ensures Words(w) == [w]
  {
    StripNoSpace(w);
    assert w[WordLength(w)..] == [];
  }

  lemma WordsCons(w: string, rest: string)
    requires w != [] && NoSpace(w)
    ensures Words(w + " " + rest) == [w] + Words(rest)
  {
    var s := w + " " + rest;
    assert s[0] == w[0];
    assert LStrip(s) == s;
    assert forall i :: 0 <= i < |w| ==> s[i] == w[i];
    assert s[|w|] == ' ';
    var n := WordLength(s);
    assert n == |w|;
    assert s[..n] == w;
    assert s[n..] == [' '] + rest;
    WordsSkipSpace(' ', rest);
  }

  lemma WordsSkipSpace(c: char, s: string)
    requires IsSpace(c)
    ensures Words([c] + s) == Words(s)
  {
    LStripSpace(c, s);
  }

  /** s.replace(from, to) for one-character arguments. */
  function Replace(s: string, from: char, to: char): string {
    seq(|s|, i requires 0 <= i < |s| => if s[i] == from then to else s[i])
  }

  /** Replacing the joining space by a comma turns a space-join into a comma-join. */
  lemma {:induction false} ReplaceJoin(words: seq<string>)
    requires forall i :: 0 <= i < |words| ==> ' ' !in words[i]
    ensures Replace(Join(" ", words), ' ', ',') == Join(",", words)
    decreases |words|
  {
    if |words| == 1 {
      assert Replace(words[0], ' ', ',') == words[0];
    } else if |words| > 1 {
      ReplaceJoin(words[1..]);
      var w, rest := words[0], Join(" ", words[1..]);
      var lhs, rhs := Replace(w + " " + rest, ' ', ','), w + "," + Join(",", words[1..]);
      assert |lhs| == |rhs|;
      forall i | 0 <= i < |lhs| ensures lhs[i] == rhs[i] {
        if i < |w| {
          assert (w + " " + rest)[i] == w[i];
        } else if i > |w| {
          assert (w + " " + rest)[i] == rest[i - |w| - 1];
          assert Replace(rest, ' ', ',')[i - |w| - 1] == rhs[i];
        }
      }
    }
  }

  predicate IsDigit(c: char) {
    '0' <= c <= '9'
  }

  predicate AllDigits(s: string) {
    forall i :: 0 <= i < |s| ==> IsDigit(s[i])
  }

  function DigitChar(d: nat): (c: char)
    requires d < 10
    ensures IsDigit(c)
  {
    (d + 48) as char
  }

  /** str(n) for a non-negative integer. */
  function NatToDecimal(n: nat): (s: string)
    ensures s != [] && AllDigits(s)
  {
    if n < 10 then [DigitChar(n)] else NatToDecimal(n / 10) + [DigitChar(n % 10)]
  }

  /** str(i) for any integer: a minus sign in front of a negative one. */
  function IntToDecimal(i: int): string {
    if i < 0 then ['-'] + NatToDecimal(-i) else NatToDecimal(i)
  }

  /** The value of a string of decimal digits. */
  function DigitsValue(s: string): nat
    requires AllDigits(s)
    decreases |s|
  {
    if s == [] then 0 else DigitsValue(s[..|s| - 1]) * 10 + (s[|s| - 1] as int - 48)
  }

  lemma {:induction false} DecimalValue(n: nat)
    ensures DigitsValue(NatToDecimal(n)) == n
  {
    if n >= 10 {
      var s := NatToDecimal(n);
      assert s[..|s| - 1] == NatToDecimal(n / 10);
      DecimalValue(n / 10);
    }
  }

  function Pow10(k: nat): (p: nat)
    ensures p >= 1
  {
    if k == 0 then 1 else 10 * Pow10(k - 1)
  }

  /** str(n) has at most k characters exactly when n is below 10^k. */
  lemma {:induction false} DecimalWidth(n: nat, k: nat)
    requires k >= 1
    ensures |NatToDecimal(n)| <= k <==> n < Pow10(k)
  {
    if n < 10 {
      assert Pow10(k) == 10 * Pow10(k - 1);
    } else if k == 1 {
      assert |NatToDecimal(n)| == |NatToDecimal(n / 10)| + 1;
    } else {
      DecimalWidth(n / 10, k - 1);
      assert |NatToDecimal(n)| == |NatToDecimal(n / 10)| + 1;
      assert Pow10(k) == 10 * Pow10(k - 1);
    }
  }

  /** The digits int() accepts after an optional sign: decimal digits, with
      single underscores allowed between two digits. */
  predicate IsDigitGroup(s: string) {
    && |s| > 0 && IsDigit(s[0]) && IsDigit(s[|s| - 1])
    && (forall i :: 0 <= i < |s| ==> IsDigit(s[i]) || s[i] == '_')
    && (forall i :: 0 <= i < |s| - 1 ==> s[i] != '_' || s[i + 1] != '_')
  }

  function DropUnderscores(s: string): (r: string)
    requires forall i :: 0 <= i < |s| ==> IsDigit(s[i]) || s[i] == '_'
    ensures AllDigits(r)
    decreases |s|
  {
    if s == [] then [] else (if s[0] == '_' then [] else [s[0]]) + DropUnderscores(s[1..])
  }

  lemma {:induction false} NoUnderscores(s: string)
    requires AllDigits(s)
    ensures DropUnderscores(s) == s
    decreases |s|
  {
    if s != [] {
      NoUnderscores(s[1..]);
      assert s == [s[0]] + s[1..];
    }
  }

  lemma DigitGroupValue(d: string)
    requires d != [] && AllDigits(d)
    ensures GroupValue(d) == Some(DigitsValue(d) as int)
  {
    NoUnderscores(d);
  }

  /** int(s): whitespace around, an optional sign, then a digit group;
      None where Python raises ValueError. */
  function ParseInt(s: string): Option<int> {
    SignedValue(Strip(s))
  }

  /** int() once the surrounding whitespace is gone. */
  function SignedValue(t: string): Option<int> {
    if t != [] && t[0] == '-' then
      match GroupValue(t[1..])
      case Some(v) => Some(-v)
      case None => None
    else if t != [] && t[0] == '+' then GroupValue(t[1..])
    else GroupValue(t)
  }

  function GroupValue(s: string): Option<int> {
    if IsDigitGroup(s) then Some(DigitsValue(DropUnderscores(s))) else None
  }

  /** int(str(i)) == i */
  lemma ParseIntDecimal(i: int)
    ensures ParseInt(IntToDecimal(i)) == Some(i)
  {
    var n: nat := if i < 0 then -i else i;
    var d := NatToDecimal(n);
    DecimalValue(n);
    if i < 0 {
      assert IntToDecimal(i) == ['-'] + d;
      ParseNegative(d);
    } else {
      assert IntToDecimal(i) == d;
      ParseDigits(d);
    }
  }

  lemma ParseDigits(d: string)
    requires d != [] && AllDigits(d)
    ensures ParseInt(d) == Some(DigitsValue(d) as int)
  {
    DigitsNoSpace(d);
    StripNoSpace(d);
    assert IsDigit(d[0]);
    DigitGroupValue(d);
  }

  lemma ParseNegative(d: string)
    requires d != [] && AllDigits(d)
    ensures ParseInt(['-'] + d) == Some(-(DigitsValue(d) as int))
  {
    var s := ['-'] + d;
    DigitsNoSpace(d);
    assert NoSpace(s) by {
      assert forall k :: 0 < k < |s| ==> s[k] == d[k - 1];
    }
    StripNoSpace(s);
    NegativeValue(d, s);
  }

  lemma NegativeValue(d: string, s: string)
    requires d != [] && AllDigits(d) && s == ['-'] + d
    ensures SignedValue(s) == Some(-(DigitsValue(d) as int))
  {
    assert s[1..] == d;
    DigitGroupValue(d);
  }

  lemma DigitsNoSpace(d: string)
    requires AllDigits(d)
    ensures NoSpace(d)
  {
    forall k | 0 <= k < |d| ensures !IsSpace(d[k]) {
      assert IsDigit(d[k]);
    }
  }

  // ---------------------------------------------------------------------
  // Sequence facts used by the inductions elsewhere
  // ---------------------------------------------------------------------

  lemma TakeOneMore<T>(s: seq<T>, i: nat)
    requires i < |s|
    ensures s[..i + 1] == s[..i] + [s[i]]
  {
  }

  lemma TakeAll<T>(s: seq<T>)
    ensures s[..|s|] == s
  {
  }

  /** A sequence is its first m elements, the next k, one more element, and the rest. */
  lemma CutAround<T>(s: seq<T>, m: nat, k: nat, head: seq<T>, x: T, rest: seq<T>)
    requires m + k < |s|
    requires s[..m] == head && s[m..][k] == x && s[m..][k + 1..] == rest
    ensures s == head + s[m..][..k] + [x] + rest
  {
    assert s[m..] == s[m..][..k] + [s[m..][k]] + s[m..][k + 1..];
  }

  /** A sequence is its first k elements, the next n, and the rest. */
  lemma CutTwice<T>(s: seq<T>, k: nat, n: nat)
    requires k <= |s| && n <= |s| - k
    ensures s == s[..k] + s[k..][..n] + s[k..][n..]
  {
    assert s[k..] == s[k..][..n] + s[k..][n..];
  }

  /** Two sequences of equal length, each extended by one element, differ
      exactly when they differed before or the new elements differ. */
  lemma SnocDiffers<T>(a: seq<T>, b: seq<T>, x: T, y: T)
    requires |a| == |b|
    ensures a + [x] != b + [y] <==> a != b || x != y
  {
    if a + [x] == b + [y] {
      assert (a + [x])[..|a|] == a && (b + [y])[..|b|] == b;
      assert (a + [x])[|a|] == x && (b + [y])[|b|] == y;
    }
  }
}
