/**
 `clean_reference_block`: split pasted text into lines, drop the blank ones,
 clean each remaining line, optionally number them from 1, and join them
 with line feeds. Python's `str.splitlines`, `"\n".join`, `str.split("\n")`
 and the decimal rendering of an `int` are written out, each with its inverse.
 */
module ReferenceBlock {
  import opened Chars
  import opened Reference

  // ---------------------------------------------------------------------------
  // `str.splitlines()`
  // ---------------------------------------------------------------------------

  predicate NoLineBreak(s: string) {
    forall i :: 0 <= i < |s| ==> !IsLineBreak(s[i])
  }

  /** The index of the first line break in `s`, or `|s|` when there is none. */
  function LineEnd(s: string): (k: nat)
    ensures k <= |s|
    ensures NoLineBreak(s[..k])
    ensures k < |s| ==> IsLineBreak(s[k])
  {
    if s == [] || IsLineBreak(s[0]) then 0 else 1 + LineEnd(s[1..])
  }

  /**
   The lines of `s` without their line breaks. `\r\n` is one break, and a
   break at the very end does not start another, empty, line.
   */
  function SplitLines(s: string): (lines: seq<string>)
    ensures forall i :: 0 <= i < |lines| ==> NoLineBreak(lines[i])
    ensures lines == [] <==> s == []
    decreases |s|
  {
    if s == [] then []
    else
      var k := LineEnd(s);
      if k == |s| then [s]
      else
        var next := if s[k] == '\r' && k + 1 < |s| && s[k + 1] == '\n' then k + 2 else k + 1;
        [s[..k]] + SplitLines(s[next..])
  }

  // ---------------------------------------------------------------------------
  // `sep.join(parts)` and `s.split(sep)`
  // ---------------------------------------------------------------------------

  /** The parts, with one `sep` between neighbours and none at either end. */
  function Join(parts: seq<string>, sep: char): (s: string)
    ensures parts == [] ==> s == []
    ensures parts != [] ==> parts[0] <= s
  {
    if parts == [] then []
    else if |parts| == 1 then parts[0]
    else parts[0] + [sep] + Join(parts[1..], sep)
  }

  /** The index of the first `c` in `s`, or `|s|` when there is none. */
  function IndexOf(s: string, c: char): (k: nat)
    ensures k <= |s|
    ensures c !in s[..k]
    ensures k < |s| ==> s[k] == c
  {
    if s == [] || s[0] == c then 0 else 1 + IndexOf(s[1..], c)
  }

  /** `s.split(sep)`: the pieces between the occurrences of `sep`; never empty. */
  function SplitOn(s: string, sep: char): (parts: seq<string>)
    ensures parts != []
    ensures forall i :: 0 <= i < |parts| ==> sep !in parts[i]
    decreases |s|
  {
    var k := IndexOf(s, sep);
    if k == |s| then [s] else [s[..k]] + SplitOn(s[k + 1..], sep)
  }

  // ---------------------------------------------------------------------------
  // `f"{n}"` for a natural number
  // ---------------------------------------------------------------------------

  function DigitChar(d: nat): (c: char)
    requires d < 10
    ensures '0' <= c <= '9' && c as int - '0' as int == d
  {
    ('0' as int + d) as char
  }

  /** The decimal digits of `n`, with no leading zero. */
  function Decimal(n: nat): (d: string)
    ensures d != []
    ensures forall i :: 0 <= i < |d| ==> '0' <= d[i] <= '9'
    ensures d[0] == '0' ==> n == 0 && |d| == 1
  {
    if n < 10 then [DigitChar(n)] else Decimal(n / 10) + [DigitChar(n % 10)]
  }

  /** The number a string of decimal digits stands for. */
  function DecimalValue(d: string): nat
    requires forall i :: 0 <= i < |d| ==> '0' <= d[i] <= '9'
  {
    if d == [] then 0 else 10 * DecimalValue(d[..|d| - 1]) + (d[|d| - 1] as int - '0' as int)
  }

  // ---------------------------------------------------------------------------
  // `clean_reference_block`
  // ---------------------------------------------------------------------------

  /** `[line for line in lines if line.strip()]`; `Strip` gives `""` exactly on blank lines. */
  function NonBlank(lines: seq<string>): (kept: seq<string>)
    ensures forall i :: 0 <= i < |kept| ==> !IsBlank(kept[i])
    ensures forall l :: l in kept ==> l in lines
    ensures forall l :: l in lines && !IsBlank(l) ==> l in kept
    ensures |kept| <= |lines|
  {
    if lines == [] then []
    else (if IsBlank(lines[0]) then [] else [lines[0]]) + NonBlank(lines[1..])
  }

  /** `[clean_reference(line) for line in lines]`. */
  function CleanedLines(lines: seq<string>): seq<string> {
    seq(|lines|, i requires 0 <= i < |lines| => CleanReference(lines[i]))
  }

  /** `[f"{i+1}. {line}" for i, line in enumerate(cleaned)]`. */
  function NumberedLines(cleaned: seq<string>): seq<string> {
    seq(|cleaned|, i requires 0 <= i < |cleaned| => Decimal(i + 1) + ". " + cleaned[i])
  }

  /**
   `clean_reference_block(text, numbered)`. The parameter `numbered` defaults
   to `False` in the source; a call that omits it is modelled by passing `false`.
   */
  function CleanReferenceBlock(text: string, numbered: bool): string {
    var lines := NonBlank(SplitLines(text));
    var cleaned := CleanedLines(lines);
    Join(if numbered then NumberedLines(cleaned) else cleaned, '\n')
  }

  // ---------------------------------------------------------------------------
  // Inverses
  // ---------------------------------------------------------------------------

  lemma {:induction false} LineEndAt(p: string, c: char, t: string)
    requires NoLineBreak(p) && IsLineBreak(c)
    ensures LineEnd(p + [c] + t) == |p|
  {
    if p != [] {
      assert (p + [c] + t)[1..] == p[1..] + [c] + t;
      LineEndAt(p[1..], c, t);
    }
  }

  /** Text without a line break is one line. */
  lemma SplitLinesSingle(p: string)
    requires p != [] && NoLineBreak(p)
    ensures SplitLines(p) == [p]
  {
    assert LineEnd(p) == |p|;
  }

  /**
   Every line-break character ends a line: the text before it is the first
   line and the lines of the text after it follow. A `'\r'` directly followed
   by `'\n'` is the exception, covered by `SplitLinesCrLf`.
   */
  lemma SplitLinesBreak(p: string, c: char, t: string)
    requires NoLineBreak(p) && IsLineBreak(c)
    requires !(c == '\r' && t != [] && t[0] == '\n')
    ensures SplitLines(p + [c] + t) == [p] + SplitLines(t)
  {
    var s := p + [c] + t;
    LineEndAt(p, c, t);
    assert s[..|p|] == p;
    assert s[|p| + 1..] == t;
  }

  /** `"\r\n"` is a single line break. */
  lemma SplitLinesCrLf(p: string, t: string)
    requires NoLineBreak(p)
    ensures SplitLines(p + "\r\n" + t) == [p] + SplitLines(t)
  {
    var s := p + "\r\n" + t;
    assert s == p + ['\r'] + (['\n'] + t);
    LineEndAt(p, '\r', ['\n'] + t);
    assert s[..|p|] == p;
    assert s[|p| + 2..] == t;
  }

  /**
   Splitting lines joined by line feeds gives the lines back, provided none
   holds a line break and the last is not empty (a final empty line would
   leave only a trailing break, which starts no line).
   */
  lemma {:induction false} SplitLinesJoin(lines: seq<string>)
    requires lines != [] && lines[|lines| - 1] != []
    requires forall i :: 0 <= i < |lines| ==> NoLineBreak(lines[i])
    ensures SplitLines(Join(lines, '\n')) == lines
  {
    var s := Join(lines, '\n');
    if |lines| > 1 {
      var rest := Join(lines[1..], '\n');
      assert s == lines[0] + ['\n'] + rest;
      LineEndAt(lines[0], '\n', rest);
      assert s[..|lines[0]|] == lines[0];
      assert s[|lines[0]| + 1..] == rest;
      SplitLinesJoin(lines[1..]);
    }
  }

  lemma {:induction false} IndexOfAt(p: string, c: char, t: string)
    requires c !in p
    ensures IndexOf(p + [c] + t, c) == |p|
  {
    if p != [] {
      assert (p + [c] + t)[1..] == p[1..] + [c] + t;
      IndexOfAt(p[1..], c, t);
    }
  }

  /** `s.split(sep)` undoes `sep.join(parts)` when no part holds `sep`. */
  lemma {:induction false} SplitOnJoin(parts: seq<string>, sep: char)
    requires parts != []
    requires forall i :: 0 <= i < |parts| ==> sep !in parts[i]
    ensures SplitOn(Join(parts, sep), sep) == parts
  {
    var s := Join(parts, sep);
    if |parts| > 1 {
      var rest := Join(parts[1..], sep);
      assert s == parts[0] + [sep] + rest;
      IndexOfAt(parts[0], sep, rest);
      assert s[..|parts[0]|] == parts[0];
      assert s[|parts[0]| + 1..] == rest;
      SplitOnJoin(parts[1..], sep);
    }
  }

  lemma JoinCons(p: string, rest: seq<string>, sep: char)
    requires rest != []
    ensures Join([p] + rest, sep) == p + [sep] + Join(rest, sep)
  {
    assert ([p] + rest)[1..] == rest;
  }

  /** `sep.join(s.split(sep))` gives `s` back. */
  lemma {:induction false} JoinSplitOn(s: string, sep: char)
    ensures Join(SplitOn(s, sep), sep) == s
    decreases |s|
  {
    var k := IndexOf(s, sep);
    if k < |s| {
      JoinSplitOn(s[k + 1..], sep);
      JoinCons(s[..k], SplitOn(s[k + 1..], sep), sep);
      assert s == s[..k] + [sep] + s[k + 1..];
    }
  }

  /** Reading back the digits gives the number. */
  lemma {:induction false} DecimalRoundTrip(n: nat)
    ensures DecimalValue(Decimal(n)) == n
  {
    if n >= 10 {
      DecimalRoundTrip(n / 10);
      var d := Decimal(n);
      assert d[..|d| - 1] == Decimal(n / 10);
    }
  }

  /** Filtering keeps order: it distributes over concatenation. */
  lemma {:induction false} NonBlankAppend(a: seq<string>, b: seq<string>)
    ensures NonBlank(a + b) == NonBlank(a) + NonBlank(b)
  {
    if a != [] {
      assert (a + b)[0] == a[0] && (a + b)[1..] == a[1..] + b;
      NonBlankAppend(a[1..], b);
      var head := if IsBlank(a[0]) then [] else [a[0]];
      assert NonBlank(a + b) == head + NonBlank(a[1..] + b);
      assert NonBlank(a) == head + NonBlank(a[1..]);
    } else {
      assert a + b == b;
    }
  }

  // ---------------------------------------------------------------------------
  // What `clean_reference_block` promises
  // ---------------------------------------------------------------------------

  /** A cleaned reference holds no line feed: its only whitespace is `' '`. */
  lemma CleanedHasNoLineFeed(line: string)
    ensures '\n' !in CleanReference(line)
  {
    CleanReferenceIsClean(line);
    IndexedForms(CleanReference(line), {});
  }

  /** A numbered output line holds no line feed either: the number and `". "` hold none. */
  lemma NumberedHasNoLineFeed(n: nat, line: string)
    ensures '\n' !in Decimal(n) + ". " + CleanReference(line)
  {
    CleanedHasNoLineFeed(line);
    var d := Decimal(n);
    assert forall j :: 0 <= j < |d| ==> d[j] != '\n';
  }

  /** No line of the output holds a line feed, numbered or not. */
  lemma OutputHasNoLineFeed(lines: seq<string>, numbered: bool)
    ensures var cleaned := CleanedLines(lines);
      var out := if numbered then NumberedLines(cleaned) else cleaned;
      forall i :: 0 <= i < |out| ==> '\n' !in out[i]
  {
    var cleaned := CleanedLines(lines);
    if numbered {
      var out := NumberedLines(cleaned);
      forall i | 0 <= i < |out| ensures '\n' !in out[i] {
        NumberedHasNoLineFeed(i + 1, lines[i]);
      }
    } else {
      forall i | 0 <= i < |cleaned| ensures '\n' !in cleaned[i] {
        CleanedHasNoLineFeed(lines[i]);
      }
    }
  }

  /** Each cleaned line is its reference cleaned. */
  lemma CleanedLinesAt(lines: seq<string>)
    ensures var cleaned := CleanedLines(lines);
      && |cleaned| == |lines|
      && forall i :: 0 <= i < |lines| ==> cleaned[i] == CleanReference(lines[i])
  {
  }

  /** Each numbered line is `"{i+1}. "` followed by its reference cleaned. */
  lemma NumberedLinesAt(lines: seq<string>)
    ensures var out := NumberedLines(CleanedLines(lines));
      && |out| == |lines|
      && forall i :: 0 <= i < |lines| ==> out[i] == Decimal(i + 1) + ". " + CleanReference(lines[i])
  {
    var cleaned := CleanedLines(lines);
    CleanedLinesAt(lines);
    var out := NumberedLines(cleaned);
    forall i | 0 <= i < |lines| ensures out[i] == Decimal(i + 1) + ". " + CleanReference(lines[i]) {
      assert out[i] == Decimal(i + 1) + ". " + cleaned[i];
    }
  }

  /** The output is empty exactly when the text has no non-blank line. */
  lemma BlockEmpty(text: string, numbered: bool)
    ensures CleanReferenceBlock(text, numbered) == [] <==> NonBlank(SplitLines(text)) == []
  {
    var lines := NonBlank(SplitLines(text));
    if lines != [] {
      CleanReferenceIsClean(lines[0]);
      var cleaned := CleanedLines(lines);
      assert cleaned[0] != [];
      assert NumberedLines(cleaned)[0] != [];
    }
  }

  /** Split at line feeds, the output gives back the list of output lines. */
  lemma BlockSplit(text: string, numbered: bool)
    ensures var cleaned := CleanedLines(NonBlank(SplitLines(text)));
      var out := if numbered then NumberedLines(cleaned) else cleaned;
      out != [] ==> SplitOn(CleanReferenceBlock(text, numbered), '\n') == out
  {
    var lines := NonBlank(SplitLines(text));
    var cleaned := CleanedLines(lines);
    var out := if numbered then NumberedLines(cleaned) else cleaned;
    if out != [] {
      OutputHasNoLineFeed(lines, numbered);
      SplitOnJoin(out, '\n');
    }
  }

  /**
   The output, split at line feeds, has one line per non-blank input line, in
   input order: the `i`-th is that line cleaned, after `"{i+1}. "` when
   numbering. No non-blank lines give the empty string, and only then is the
   output empty.
   */
  lemma BlockLines(text: string, numbered: bool)
    ensures var lines := NonBlank(SplitLines(text));
      var out := CleanReferenceBlock(text, numbered);
      && (out == [] <==> lines == [])
      && (lines != [] ==>
            var split := SplitOn(out, '\n');
            && |split| == |lines|
            && (numbered ==> forall i :: 0 <= i < |lines| ==> split[i] == Decimal(i + 1) + ". " + CleanReference(lines[i]))
            && (!numbered ==> forall i :: 0 <= i < |lines| ==> split[i] == CleanReference(lines[i])))
  {
    BlockEmpty(text, numbered);
    var lines := NonBlank(SplitLines(text));
    if lines != [] {
      BlockSplit(text, numbered);
      if numbered {
        NumberedLinesAt(lines);
      } else {
        CleanedLinesAt(lines);
      }
    }
  }
}
