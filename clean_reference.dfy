/**
 `clean_reference` in `app.py`: the normalisation of one reference line, as a
 fixed pipeline of seven rewrites. Each regular-expression substitution of
 `clean_reference` is written as a recursive function over the characters,
 with what the substitution establishes as its contract; the lemmas further
 down show that every pass keeps what the earlier passes established, so that
 the final string has the invariants collected in `IsClean`.
 */
module Reference {
  import opened Chars

  // ---------------------------------------------------------------------------
  // Properties of strings
  // ---------------------------------------------------------------------------

  /** Python's `not s.strip()`: nothing but whitespace. */
  predicate IsBlank(s: string) {
    forall i :: 0 <= i < |s| ==> IsSpace(s[i])
  }

  /** No whitespace at either end. */
  predicate Trimmed(s: string) {
    s == [] || (!IsSpace(s[0]) && !IsSpace(s[|s| - 1]))
  }

  // The four predicates below examine neighbouring characters; they are
  // written recursively (the first pair, then the rest) because every pass
  // is a recursion on the head of the string. `IndexedForms` restates them
  // with indices.

  /** Every whitespace character is an ASCII space and no two spaces touch. */
  predicate SpacesCollapsed(s: string) {
    s == [] ||
    (&& (IsSpace(s[0]) ==> s[0] == ' ')
     && (|s| > 1 && s[0] == ' ' ==> s[1] != ' ')
     && SpacesCollapsed(s[1..]))
  }

  /** No whitespace character is directly followed by one of `closers`. */
  predicate NoSpaceBefore(s: string, closers: set<char>) {
    |s| < 2 || ((IsSpace(s[0]) ==> s[1] !in closers) && NoSpaceBefore(s[1..], closers))
  }

  /** No mark is directly followed by a word character. */
  predicate MarksSpaced(s: string) {
    |s| < 2 || ((IsMark(s[0]) ==> !IsWord(s[1])) && MarksSpaced(s[1..]))
  }

  /** No mark is directly followed by the same mark. */
  predicate NoDoubledMark(s: string) {
    |s| < 2 || ((IsMark(s[0]) ==> s[1] != s[0]) && NoDoubledMark(s[1..]))
  }

  /** The characters of `s` that are not whitespace, in order. */
  function NonSpace(s: string): string {
    if s == [] then [] else (if IsSpace(s[0]) then [] else [s[0]]) + NonSpace(s[1..])
  }

  /** The characters of `s` that are not marks, in order. */
  function NonMark(s: string): string {
    if s == [] then [] else (if IsMark(s[0]) then [] else [s[0]]) + NonMark(s[1..])
  }

  // ---------------------------------------------------------------------------
  // Pass 1: `ref.strip()`
  // ---------------------------------------------------------------------------

  /** Removes exactly the leading whitespace. */
  function TrimLeft(s: string): (r: string)
    ensures |r| <= |s| && r == s[|s| - |r|..]
    ensures forall i :: 0 <= i < |s| - |r| ==> IsSpace(s[i])
    ensures r != [] ==> !IsSpace(r[0])
  {
    if s != [] && IsSpace(s[0]) then TrimLeft(s[1..]) else s
  }

  /** Removes exactly the trailing whitespace. */
  function TrimRight(s: string): (r: string)
    ensures |r| <= |s| && r == s[..|r|]
    ensures forall i :: |r| <= i < |s| ==> IsSpace(s[i])
    ensures r != [] ==> !IsSpace(r[|r| - 1])
  {
    if s != [] && IsSpace(s[|s| - 1]) then TrimRight(s[..|s| - 1]) else s
  }

  /** `str.strip()`: whitespace removed at both ends; blank lines become empty. */
  function Strip(s: string): (r: string)
    ensures Trimmed(r)
    ensures r == [] <==> IsBlank(s)
  {
    TrimLeft(TrimRight(s))
  }

  /** `r` is the slice of `s` starting at `i`, and `s` holds only whitespace outside it. */
  predicate StrippedAt(s: string, r: string, i: nat) {
    && i + |r| <= |s|
    && r == s[i..i + |r|]
    && IsBlank(s[..i])
    && IsBlank(s[i + |r|..])
  }

  lemma BlankPrefix(s: string, n: nat)
    requires n <= |s| && forall j :: 0 <= j < n ==> IsSpace(s[j])
    ensures IsBlank(s[..n])
  {
  }

  lemma BlankSuffix(s: string, n: nat)
    requires n <= |s| && forall j :: n <= j < |s| ==> IsSpace(s[j])
    ensures IsBlank(s[n..])
  {
    assert forall j :: 0 <= j < |s| - n ==> s[n..][j] == s[n + j];
  }

  /** Cutting a blank prefix off a prefix of `s` whose rest is blank leaves a stripped slice. */
  lemma SliceCompose(s: string, right: string, r: string, i: nat)
    requires |right| <= |s| && right == s[..|right|]
    requires i <= |right| && r == right[i..]
    requires IsBlank(right[..i]) && IsBlank(s[|right|..])
    ensures StrippedAt(s, r, i)
  {
    assert s[..i] == right[..i];
    assert i + |r| == |right|;
  }

  /** `Strip` returns a slice of its input with only whitespace outside it. */
  lemma StripSlice(s: string)
    ensures exists i :: StrippedAt(s, Strip(s), i)
  {
    var right := TrimRight(s);
    var r := TrimLeft(right);
    var i := |right| - |r|;
    BlankPrefix(right, i);
    BlankSuffix(s, |right|);
    SliceCompose(s, right, r, i);
    assert StrippedAt(s, Strip(s), i);
  }

  // ---------------------------------------------------------------------------
  // Pass 2: `re.sub(r"\s+", " ", ref)`
  // ---------------------------------------------------------------------------

  /**
   Every maximal run of whitespace becomes one ASCII space: a whitespace
   character followed by another is dropped, the last one of a run is
   replaced by `' '`.
   */
  function CollapseSpaces(s: string): (r: string)
    ensures SpacesCollapsed(r)
    ensures NonSpace(r) == NonSpace(s)
    ensures r == [] <==> s == []
    ensures s != [] ==> (IsSpace(r[0]) <==> IsSpace(s[0])) && (IsSpace(r[|r| - 1]) <==> IsSpace(s[|s| - 1]))
  {
    if s == [] then []
    else if IsSpace(s[0]) && |s| > 1 && IsSpace(s[1]) then CollapseSpaces(s[1..])
    else [if IsSpace(s[0]) then ' ' else s[0]] + CollapseSpaces(s[1..])
  }

  // ---------------------------------------------------------------------------
  // Passes 3 and 5: `re.sub(r"\s+([,.;:!?])", r"\1", ref)` and `re.sub(r"\s+\)", ")", ref)`
  // ---------------------------------------------------------------------------

  /** The first non-whitespace character of `s` exists and is one of `closers`. */
  predicate CloserFollows(s: string, closers: set<char>) {
    s != [] && (s[0] in closers || (IsSpace(s[0]) && CloserFollows(s[1..], closers)))
  }

  /**
   Deletes every whitespace character whose next non-whitespace character is
   one of `closers`, and nothing else: removing `\s+` in front of a closer.
   */
  function DropSpacesBefore(s: string, closers: set<char>): (r: string)
    requires forall c :: c in closers ==> !IsSpace(c)
    ensures NoSpaceBefore(r, closers)
    ensures NonSpace(r) == NonSpace(s)
    ensures |r| <= |s|
    ensures s != [] && !IsSpace(s[0]) ==> r != [] && r[0] == s[0]
    ensures r != [] && r[0] in closers ==> CloserFollows(s, closers)
  {
    if s == [] then []
    else if IsSpace(s[0]) && CloserFollows(s[1..], closers) then DropSpacesBefore(s[1..], closers)
    else [s[0]] + DropSpacesBefore(s[1..], closers)
  }

  /** Passes 3 and 5 keep a last character that is not whitespace. */
  lemma {:induction false} DropSpacesLast(s: string, closers: set<char>)
    requires forall c :: c in closers ==> !IsSpace(c)
    requires s != [] && !IsSpace(s[|s| - 1])
    ensures var r := DropSpacesBefore(s, closers); r != [] && r[|r| - 1] == s[|s| - 1]
  {
    if |s| == 1 {
      assert DropSpacesBefore(s, closers) == [s[0]] + DropSpacesBefore([], closers);
    } else {
      DropSpacesLast(s[1..], closers);
      var rest := DropSpacesBefore(s[1..], closers);
      if IsSpace(s[0]) && CloserFollows(s[1..], closers) {
        assert DropSpacesBefore(s, closers) == rest;
      } else {
        assert DropSpacesBefore(s, closers) == [s[0]] + rest;
      }
    }
  }

  // ---------------------------------------------------------------------------
  // Pass 4: `re.sub(r"([,.;:!?])(?=\w)", r"\1 ", ref)`
  // ---------------------------------------------------------------------------

  /** Inserts one space after every mark that is directly followed by a word character. */
  function SpaceAfterMarks(s: string): (r: string)
    ensures |r| >= |s|
    ensures s != [] ==> r != [] && r[0] == s[0]
  {
    if s == [] then []
    else if |s| > 1 && IsMark(s[0]) && IsWord(s[1]) then [s[0], ' '] + SpaceAfterMarks(s[1..])
    else [s[0]] + SpaceAfterMarks(s[1..])
  }

  /** After pass 4 no mark is directly followed by a word character. */
  lemma {:induction false} SpaceAfterMarksSpaced(s: string)
    ensures MarksSpaced(SpaceAfterMarks(s))
  {
    if s != [] {
      SpaceAfterMarksSpaced(s[1..]);
      var rest := SpaceAfterMarks(s[1..]);
      if |s| > 1 && IsMark(s[0]) && IsWord(s[1]) {
        assert ([s[0], ' '] + rest)[1..] == [' '] + rest;
        assert ([' '] + rest)[1..] == rest;
      } else {
        assert ([s[0]] + rest)[1..] == rest;
      }
    }
  }

  /** `NonSpace` of a character followed by a string. */
  lemma NonSpaceCons(a: char, t: string)
    ensures NonSpace([a] + t) == (if IsSpace(a) then [] else [a]) + NonSpace(t)
  {
    assert ([a] + t)[1..] == t;
  }

  /** Pass 4 adds only whitespace: the other characters are unchanged and in order. */
  lemma {:induction false} SpaceAfterMarksNonSpace(s: string)
    ensures NonSpace(SpaceAfterMarks(s)) == NonSpace(s)
  {
    if s != [] {
      SpaceAfterMarksNonSpace(s[1..]);
      var rest := SpaceAfterMarks(s[1..]);
      assert s == [s[0]] + s[1..];
      NonSpaceCons(s[0], s[1..]);
      if |s| > 1 && IsMark(s[0]) && IsWord(s[1]) {
        assert [s[0], ' '] + rest == [s[0]] + ([' '] + rest);
        NonSpaceCons(' ', rest);
        NonSpaceCons(s[0], [' '] + rest);
      } else {
        NonSpaceCons(s[0], rest);
      }
    }
  }

  /** Pass 4 keeps the last character. */
  lemma {:induction false} SpaceAfterMarksLast(s: string)
    requires s != []
    ensures var r := SpaceAfterMarks(s); r != [] && r[|r| - 1] == s[|s| - 1]
  {
    var r := SpaceAfterMarks(s);
    if |s| == 1 {
      assert r == [s[0]];
    } else {
      SpaceAfterMarksLast(s[1..]);
      var rest := SpaceAfterMarks(s[1..]);
      assert r == [s[0], ' '] + rest || r == [s[0]] + rest;
    }
  }

  // ---------------------------------------------------------------------------
  // Pass 6: `re.sub(r"([,.;:!?])\1+", r"\1", ref)`
  // ---------------------------------------------------------------------------

  /**
   Every run of one repeated mark becomes a single mark: a mark followed by the
   same mark is dropped. Only marks are deleted and the two ends stay.
   */
  function SqueezeMarks(s: string): (r: string)
    ensures NonMark(r) == NonMark(s)
    ensures |r| <= |s|
    ensures s != [] ==> r != [] && r[0] == s[0] && r[|r| - 1] == s[|s| - 1]
  {
    if s == [] then []
    else if |s| > 1 && IsMark(s[0]) && s[1] == s[0] then SqueezeMarks(s[1..])
    else [s[0]] + SqueezeMarks(s[1..])
  }

  /** After pass 6 no mark is directly followed by the same mark. */
  lemma {:induction false} SqueezeMarksSqueezed(s: string)
    ensures NoDoubledMark(SqueezeMarks(s))
  {
    if s != [] {
      SqueezeMarksSqueezed(s[1..]);
      var rest := SqueezeMarks(s[1..]);
      if !(|s| > 1 && IsMark(s[0]) && s[1] == s[0]) {
        assert ([s[0]] + rest)[1..] == rest;
      }
    }
  }

  // ---------------------------------------------------------------------------
  // Pass 7: `if not re.search(r"[.?!]$", ref): ref += "."`
  // ---------------------------------------------------------------------------

  /**
   `re.search(r"[.?!]$", s)`: without MULTILINE, `$` matches at the end of the
   string and also just before a line feed that ends it.
   */
  predicate EndsWithTerminal(s: string) {
    || (|s| >= 1 && IsTerminal(s[|s| - 1]))
    || (|s| >= 2 && s[|s| - 1] == '\n' && IsTerminal(s[|s| - 2]))
  }

  /** Appends exactly one `.` when, and only when, `s` does not already end in `. ? !`. */
  function AppendPeriod(s: string): (r: string)
    ensures s <= r && |r| <= |s| + 1
    ensures |r| == |s| + 1 <==> !EndsWithTerminal(s)
    ensures |r| == |s| + 1 ==> r[|s|] == '.'
    ensures EndsWithTerminal(r)
  {
    if EndsWithTerminal(s) then s else s + "."
  }

  // ---------------------------------------------------------------------------
  // The pipeline
  // ---------------------------------------------------------------------------

  /** Passes 2 to 6, applied to a stripped, non-empty line. */
  function RewritePasses(stripped: string): string {
    ClosersAreNotSpaceOrWord();
    var collapsed := CollapseSpaces(stripped);
    var tight := DropSpacesBefore(collapsed, Marks);
    var spaced := SpaceAfterMarks(tight);
    var closed := DropSpacesBefore(spaced, {')'});
    SqueezeMarks(closed)
  }

  /** `clean_reference(ref)`. */
  function CleanReference(line: string): string {
    var stripped := Strip(line);
    if stripped == [] then []
    else AppendPeriod(RewritePasses(stripped))
  }

  /** The invariants of a cleaned, non-empty reference. */
  predicate IsClean(r: string) {
    && r != []
    && Trimmed(r)
    && SpacesCollapsed(r)
    && NoSpaceBefore(r, Marks)
    && NoSpaceBefore(r, {')'})
    && MarksSpaced(r)
    && NoDoubledMark(r)
    && IsTerminal(r[|r| - 1])
  }

  // ---------------------------------------------------------------------------
  // Each pass keeps what the earlier passes established
  // ---------------------------------------------------------------------------

  /**
   On collapsed text, the first character kept by pass 3 or 5 is the first
   character of `s`, or the closer right after a deleted leading space.
   */
  lemma DropSpacesHead(s: string, closers: set<char>)
    requires forall c :: c in closers ==> !IsSpace(c)
    requires SpacesCollapsed(s) && s != []
    ensures var r := DropSpacesBefore(s, closers);
      r != [] && (r[0] == s[0] || (|s| > 1 && r[0] == s[1] && s[1] in closers))
  {
    if IsSpace(s[0]) && |s| > 1 {
      assert !IsSpace(s[1]);
    }
  }

  /**
   Passes 3 and 5 keep whitespace collapsed and trimmed, and keep every
   "no space before" and "marks spaced" fact of collapsed text, because a
   deleted space sits between two characters that are not whitespace.
   */
  lemma {:induction false} DropSpacesPreserves(s: string, closers: set<char>, others: set<char>)
    requires forall c :: c in closers ==> !IsSpace(c) && !IsWord(c)
    requires SpacesCollapsed(s)
    ensures var r := DropSpacesBefore(s, closers);
      && SpacesCollapsed(r)
      && (Trimmed(s) ==> Trimmed(r))
      && (NoSpaceBefore(s, others) ==> NoSpaceBefore(r, others))
      && (MarksSpaced(s) ==> MarksSpaced(r))
  {
    if s != [] {
      if Trimmed(s) {
        DropSpacesLast(s, closers);
      }
      DropSpacesPreserves(s[1..], closers, others);
      if |s| > 1 {
        DropSpacesHead(s[1..], closers);
      }
    }
  }

  /**
   Pass 4 keeps whitespace collapsed and inserts no space in
   front of a mark: each inserted space sits between a mark and a word
   character.
   */
  lemma {:induction false} SpaceAfterMarksPreserves(s: string)
    requires SpacesCollapsed(s)
    ensures var r := SpaceAfterMarks(s);
      && SpacesCollapsed(r)
      && (NoSpaceBefore(s, Marks) ==> NoSpaceBefore(r, Marks))
  {
    if s != [] {
      SpaceAfterMarksPreserves(s[1..]);
      var rest := SpaceAfterMarks(s[1..]);
      if |s| > 1 && IsMark(s[0]) && IsWord(s[1]) {
        ClosersAreNotSpaceOrWord();
        assert SpaceAfterMarks(s) == [s[0], ' '] + rest;
        assert ([s[0], ' '] + rest)[1..] == [' '] + rest;
        assert ([' '] + rest)[1..] == rest;
      } else {
        assert SpaceAfterMarks(s) == [s[0]] + rest;
        assert ([s[0]] + rest)[1..] == rest;
      }
    }
  }

  /**
   Pass 6 keeps every property of neighbouring characters: a deleted mark is
   followed by an equal mark, so the result's neighbours were neighbours before.
   */
  lemma {:induction false} SqueezeMarksPreserves(s: string, closers: set<char>)
    ensures var r := SqueezeMarks(s);
      && (SpacesCollapsed(s) ==> SpacesCollapsed(r))
      && (Trimmed(s) ==> Trimmed(r))
      && (NoSpaceBefore(s, closers) ==> NoSpaceBefore(r, closers))
      && (MarksSpaced(s) ==> MarksSpaced(r))
  {
    if s != [] {
      SqueezeMarksPreserves(s[1..], closers);
    }
  }

  /** Pass 7 appends a `.` after a character that is neither whitespace nor `.`, and breaks nothing. */
  lemma {:induction false} AppendDotPreserves(s: string, closers: set<char>)
    requires s != [] && !IsSpace(s[|s| - 1]) && s[|s| - 1] != '.'
    ensures var r := s + ".";
      && (SpacesCollapsed(s) ==> SpacesCollapsed(r))
      && (Trimmed(s) ==> Trimmed(r))
      && (NoSpaceBefore(s, closers) ==> NoSpaceBefore(r, closers))
      && (MarksSpaced(s) ==> MarksSpaced(r))
      && (NoDoubledMark(s) ==> NoDoubledMark(r))
  {
    if |s| > 1 {
      AppendDotPreserves(s[1..], closers);
      assert (s + ".")[1..] == s[1..] + ".";
    }
  }

  // ---------------------------------------------------------------------------
  // What `clean_reference` promises
  // ---------------------------------------------------------------------------

  /** Passes 2 to 6 take a stripped, non-empty line to text with every invariant but the ending. */
  lemma RewritePassesInvariants(stripped: string)
    requires stripped != [] && Trimmed(stripped)
    ensures var t := RewritePasses(stripped);
      && t != [] && Trimmed(t) && SpacesCollapsed(t)
      && NoSpaceBefore(t, Marks) && NoSpaceBefore(t, {')'})
      && MarksSpaced(t) && NoDoubledMark(t)
  {
    ClosersAreNotSpaceOrWord();
    var collapsed := CollapseSpaces(stripped);
    var tight := DropSpacesBefore(collapsed, Marks);
    DropSpacesPreserves(collapsed, Marks, {});
    var spaced := SpaceAfterMarks(tight);
    SpaceAfterMarksPreserves(tight);
    SpaceAfterMarksLast(tight);
    SpaceAfterMarksSpaced(tight);
    var closed := DropSpacesBefore(spaced, {')'});
    DropSpacesPreserves(spaced, {')'}, Marks);
    SqueezeMarksPreserves(closed, Marks);
    SqueezeMarksPreserves(closed, {')'});
    SqueezeMarksSqueezed(closed);
  }

  /** Pass 7 completes the invariants on the output of passes 2 to 6. */
  lemma AppendPeriodInvariants(t: string)
    requires t != [] && Trimmed(t) && SpacesCollapsed(t)
    requires NoSpaceBefore(t, Marks) && NoSpaceBefore(t, {')'})
    requires MarksSpaced(t) && NoDoubledMark(t)
    ensures IsClean(AppendPeriod(t))
  {
    if !EndsWithTerminal(t) {
      AppendDotPreserves(t, Marks);
      AppendDotPreserves(t, {')'});
    }
  }

  /**
   A blank line, and only a blank line, cleans to the empty string; any other
   line cleans to a string with all the invariants of `IsClean`.
   */
  lemma CleanReferenceIsClean(line: string)
    ensures CleanReference(line) == [] <==> IsBlank(line)
    ensures !IsBlank(line) ==> IsClean(CleanReference(line))
  {
    var stripped := Strip(line);
    if stripped != [] {
      RewritePassesInvariants(stripped);
      AppendPeriodInvariants(RewritePasses(stripped));
    }
  }

  /**
   The final `.`: the text left by passes 2 to 6 is not empty, and the result
   is that text when it already ends in `. ? !`, and that text with one `.`
   appended otherwise.
   */
  lemma FinalPeriod(line: string)
    requires !IsBlank(line)
    ensures var t := RewritePasses(Strip(line));
      && t != []
      && (IsTerminal(t[|t| - 1]) ==> CleanReference(line) == t)
      && (!IsTerminal(t[|t| - 1]) ==> CleanReference(line) == t + ".")
  {
    RewritePassesInvariants(Strip(line));
  }

  // ---------------------------------------------------------------------------
  // The invariants with indices
  // ---------------------------------------------------------------------------

  /** The recursive neighbour predicates say the same as their indexed readings. */
  lemma {:induction false} IndexedForms(s: string, closers: set<char>)
    ensures SpacesCollapsed(s) <==>
      && (forall i :: 0 <= i < |s| && IsSpace(s[i]) ==> s[i] == ' ')
      && (forall i :: 0 <= i < |s| - 1 && s[i] == ' ' ==> s[i + 1] != ' ')
    ensures NoSpaceBefore(s, closers) <==>
      forall i :: 0 <= i < |s| - 1 && IsSpace(s[i]) ==> s[i + 1] !in closers
    ensures MarksSpaced(s) <==>
      forall i :: 0 <= i < |s| - 1 && IsMark(s[i]) ==> !IsWord(s[i + 1])
    ensures NoDoubledMark(s) <==>
      forall i :: 0 <= i < |s| - 1 && IsMark(s[i]) ==> s[i + 1] != s[i]
  {
    if s != [] {
      IndexedForms(s[1..], closers);
      assert forall i :: 1 <= i < |s| ==> s[i] == s[1..][i - 1];
    }
  }

  /** `clean_reference`'s output, stated character by character. */
  lemma CleanReferenceProperties(line: string)
    ensures var r := CleanReference(line);
      && (r == [] <==> IsBlank(line))
      && (r != [] ==> !IsSpace(r[0]) && !IsSpace(r[|r| - 1]) && IsTerminal(r[|r| - 1]))
      && (forall i :: 0 <= i < |r| && IsSpace(r[i]) ==> r[i] == ' ')
      && (forall i :: 0 <= i < |r| - 1 && r[i] == ' ' ==> r[i + 1] != ' ')
      && (forall i :: 0 <= i < |r| - 1 && IsSpace(r[i]) ==> !IsMark(r[i + 1]) && r[i + 1] != ')')
      && (forall i :: 0 <= i < |r| - 1 && IsMark(r[i]) ==> !IsWord(r[i + 1]))
      && (forall i :: 0 <= i < |r| - 1 && IsMark(r[i]) ==> r[i + 1] != r[i])
  {
    var r := CleanReference(line);
    CleanReferenceIsClean(line);
    IndexedForms(r, Marks);
    IndexedForms(r, {')'});
  }

  // ---------------------------------------------------------------------------
  // Fixed points and idempotence
  // ---------------------------------------------------------------------------

  /** Strip leaves a string unchanged exactly when it has no whitespace at either end. */
  lemma StripFixed(s: string)
    ensures Strip(s) == s <==> Trimmed(s)
  {
    if Trimmed(s) && s != [] {
      assert TrimRight(s) == s;
      assert TrimLeft(s) == s;
    }
  }

  /** Pass 2 leaves a string unchanged exactly when its whitespace is already collapsed. */
  lemma {:induction false} CollapseSpacesFixed(s: string)
    ensures CollapseSpaces(s) == s <==> SpacesCollapsed(s)
  {
    if s != [] {
      CollapseSpacesFixed(s[1..]);
    }
  }

  /** A whitespace character whose next non-whitespace character is a closer has a space right before that closer. */
  lemma {:induction false} CloserAfterSpaces(s: string, closers: set<char>)
    requires forall c :: c in closers ==> !IsSpace(c)
    requires s != [] && IsSpace(s[0]) && CloserFollows(s[1..], closers)
    ensures !NoSpaceBefore(s, closers)
  {
    var t := s[1..];
    if IsSpace(t[0]) {
      CloserAfterSpaces(t, closers);
    }
  }

  /** Passes 3 and 5 leave a string unchanged exactly when no whitespace precedes a closer. */
  lemma {:induction false} DropSpacesFixed(s: string, closers: set<char>)
    requires forall c :: c in closers ==> !IsSpace(c)
    ensures DropSpacesBefore(s, closers) == s <==> NoSpaceBefore(s, closers)
  {
    if s != [] {
      DropSpacesFixed(s[1..], closers);
      if IsSpace(s[0]) && CloserFollows(s[1..], closers) {
        CloserAfterSpaces(s, closers);
      }
    }
  }

  /** Pass 4 leaves a string unchanged exactly when no mark touches a following word character. */
  lemma {:induction false} SpaceAfterMarksFixed(s: string)
    ensures SpaceAfterMarks(s) == s <==> MarksSpaced(s)
  {
    if s != [] {
      SpaceAfterMarksFixed(s[1..]);
    }
  }

  /** Pass 6 leaves a string unchanged exactly when no mark is doubled. */
  lemma {:induction false} SqueezeMarksFixed(s: string)
    ensures SqueezeMarks(s) == s <==> NoDoubledMark(s)
  {
    if s != [] {
      SqueezeMarksFixed(s[1..]);
    }
  }

  /** The strings that cleaning leaves unchanged are exactly the empty string and the clean ones. */
  lemma CleanReferenceFixed(s: string)
    ensures CleanReference(s) == s <==> s == [] || IsClean(s)
  {
    CleanReferenceIsClean(s);
    if IsClean(s) {
      ClosersAreNotSpaceOrWord();
      StripFixed(s);
      CollapseSpacesFixed(s);
      DropSpacesFixed(s, Marks);
      SpaceAfterMarksFixed(s);
      DropSpacesFixed(s, {')'});
      SqueezeMarksFixed(s);
      assert RewritePasses(s) == s;
    }
  }

  /** Cleaning a cleaned reference changes nothing. */
  lemma CleanReferenceIdempotent(line: string)
    ensures CleanReference(CleanReference(line)) == CleanReference(line)
  {
    CleanReferenceIsClean(line);
    CleanReferenceFixed(CleanReference(line));
  }

  // ---------------------------------------------------------------------------
  // Only whitespace and punctuation change
  // ---------------------------------------------------------------------------

  lemma {:induction false} NonSpaceAppend(a: string, b: string)
    ensures NonSpace(a + b) == NonSpace(a) + NonSpace(b)
  {
    if a != [] {
      assert (a + b)[1..] == a[1..] + b;
      NonSpaceAppend(a[1..], b);
    } else {
      assert a + b == b;
    }
  }

  lemma {:induction false} NonMarkAppend(a: string, b: string)
    ensures NonMark(a + b) == NonMark(a) + NonMark(b)
  {
    if a != [] {
      assert (a + b)[1..] == a[1..] + b;
      NonMarkAppend(a[1..], b);
    } else {
      assert a + b == b;
    }
  }

  /** Dropping whitespace and dropping marks can be done in either order. */
  lemma {:induction false} NonSpaceNonMark(s: string)
    ensures NonMark(NonSpace(s)) == NonSpace(NonMark(s))
  {
    if s != [] {
      NonSpaceNonMark(s[1..]);
      var h := if IsSpace(s[0]) then [] else [s[0]];
      var m := if IsMark(s[0]) then [] else [s[0]];
      NonMarkAppend(h, NonSpace(s[1..]));
      NonSpaceAppend(m, NonMark(s[1..]));
    }
  }

  /** A blank string has no characters other than whitespace. */
  lemma {:induction false} NonSpaceBlank(s: string)
    requires IsBlank(s)
    ensures NonSpace(s) == []
  {
    if s != [] {
      NonSpaceBlank(s[1..]);
    }
  }

  lemma {:induction false} TrimLeftContent(s: string)
    ensures NonSpace(TrimLeft(s)) == NonSpace(s)
  {
    if s != [] && IsSpace(s[0]) {
      TrimLeftContent(s[1..]);
    }
  }

  lemma {:induction false} TrimRightContent(s: string)
    ensures NonSpace(TrimRight(s)) == NonSpace(s)
  {
    if s != [] && IsSpace(s[|s| - 1]) {
      var init := s[..|s| - 1];
      TrimRightContent(init);
      assert s == init + [s[|s| - 1]];
      NonSpaceAppend(init, [s[|s| - 1]]);
      assert NonSpace([s[|s| - 1]]) == [] by {
        assert [s[|s| - 1]][1..] == [];
      }
    }
  }

  /** Stripping removes only whitespace. */
  lemma StripContent(s: string)
    ensures NonSpace(Strip(s)) == NonSpace(s)
  {
    TrimRightContent(s);
    TrimLeftContent(TrimRight(s));
  }

  /** Passes 2 to 6 change only whitespace and marks. */
  lemma RewriteContent(stripped: string)
    ensures NonMark(NonSpace(RewritePasses(stripped))) == NonMark(NonSpace(stripped))
  {
    ClosersAreNotSpaceOrWord();
    var collapsed := CollapseSpaces(stripped);
    var tight := DropSpacesBefore(collapsed, Marks);
    var spaced := SpaceAfterMarks(tight);
    SpaceAfterMarksNonSpace(tight);
    var closed := DropSpacesBefore(spaced, {')'});
    assert NonSpace(closed) == NonSpace(stripped);
    var squeezed := SqueezeMarks(closed);
    NonSpaceNonMark(closed);
    NonSpaceNonMark(squeezed);
  }

  /** Pass 7 appends at most a mark. */
  lemma PeriodContent(t: string)
    ensures NonMark(NonSpace(AppendPeriod(t))) == NonMark(NonSpace(t))
  {
    if !EndsWithTerminal(t) {
      assert AppendPeriod(t) == t + ".";
      assert NonSpace(".") == "." by {
        assert "."[1..] == [];
      }
      assert NonMark(".") == [] by {
        assert "."[1..] == [];
      }
      NonSpaceAppend(t, ".");
      NonMarkAppend(NonSpace(t), ".");
    }
  }

  /**
   Cleaning changes only whitespace and the marks `, . ; : ! ?`: every other
   character of the line is kept, in order, and none is added.
   */
  lemma CleanReferenceKeepsText(line: string)
    ensures NonMark(NonSpace(CleanReference(line))) == NonMark(NonSpace(line))
  {
    var stripped := Strip(line);
    StripContent(line);
    if stripped != [] {
      RewriteContent(stripped);
      PeriodContent(RewritePasses(stripped));
    }
  }

  // ---------------------------------------------------------------------------
  // Worked examples
  // ---------------------------------------------------------------------------

  // Each pass is evaluated one character at a time, from the end of the
  // string towards its start.

  /** Pass 2 turns a run of mixed whitespace into one space. */
  lemma CollapseSpacesExample()
    ensures CollapseSpaces("a \t b") == "a b"
  {
    assert CollapseSpaces("b") == "b" by {
      assert !IsSpace('b');
      assert "b"[1..] == [];
    }
    assert CollapseSpaces(" b") == " b" by {
      assert IsSpace(' ') && !IsSpace('b');
      assert " b"[1..] == "b";
    }
    assert CollapseSpaces("\t b") == " b" by {
      assert IsSpace('\t') && IsSpace(' ');
      assert "\t b"[1..] == " b";
    }
    assert CollapseSpaces(" \t b") == " b" by {
      assert IsSpace(' ') && IsSpace('\t');
      assert " \t b"[1..] == "\t b";
    }
    assert !IsSpace('a');
    assert "a \t b"[1..] == " \t b";
  }

  /** Pass 3 deletes the space before a comma. */
  lemma DropSpacesExample()
    ensures DropSpacesBefore("a ,b", Marks) == "a,b"
  {
    ClosersAreNotSpaceOrWord();
    assert DropSpacesBefore("b", Marks) == "b" by {
      assert !IsSpace('b');
      assert "b"[1..] == [];
    }
    assert DropSpacesBefore(",b", Marks) == ",b" by {
      assert !IsSpace(',');
      assert ",b"[1..] == "b";
    }
    assert DropSpacesBefore(" ,b", Marks) == ",b" by {
      assert IsSpace(' ') && ',' in Marks;
      assert " ,b"[1..] == ",b";
      assert CloserFollows(",b", Marks);
    }
    assert !IsSpace('a');
    assert "a ,b"[1..] == " ,b";
  }

  /** Pass 4 puts a space between a comma and the letter after it. */
  lemma SpaceAfterMarksExample()
    ensures SpaceAfterMarks("a,b") == "a, b"
  {
    assert SpaceAfterMarks("b") == "b" by {
      assert "b"[1..] == [];
    }
    assert SpaceAfterMarks(",b") == ", b" by {
      assert IsMark(',') && IsWord('b');
      assert ",b"[1..] == "b";
    }
    assert !IsMark('a');
    assert "a,b"[1..] == ",b";
  }

  /** Pass 6 reduces a run of three commas to one. */
  lemma SqueezeMarksExample()
    ensures SqueezeMarks("a,,,b") == "a,b"
  {
    assert SqueezeMarks("b") == "b" by {
      assert "b"[1..] == [];
    }
    assert SqueezeMarks(",b") == ",b" by {
      assert ",b"[1..] == "b";
    }
    assert SqueezeMarks(",,b") == ",b" by {
      assert IsMark(',');
      assert ",,b"[1..] == ",b";
    }
    assert SqueezeMarks(",,,b") == ",b" by {
      assert IsMark(',');
      assert ",,,b"[1..] == ",,b";
    }
    assert !IsMark('a');
    assert "a,,,b"[1..] == ",,,b";
  }

  /** Pass 7 appends `.` after a letter and nothing after `?`. */
  lemma AppendPeriodExample()
    ensures AppendPeriod("a, b") == "a, b."
    ensures AppendPeriod("a?") == "a?"
  {
  }

  /** Strip leaves `"a ,b"` as it is. */
  lemma StripExample()
    ensures Strip("a ,b") == "a ,b"
  {
    assert Trimmed("a ,b");
    StripFixed("a ,b");
  }

  /** Passes 2, 5 and 6 change nothing on `"a ,b"` and `"a, b"`. */
  lemma UnchangedExample()
    ensures CollapseSpaces("a ,b") == "a ,b"
    ensures DropSpacesBefore("a, b", {')'}) == "a, b"
    ensures SqueezeMarks("a, b") == "a, b"
  {
    ClosersAreNotSpaceOrWord();
    assert SpacesCollapsed("a ,b") by {
      assert "a ,b"[1..] == " ,b" && " ,b"[1..] == ",b" && ",b"[1..] == "b";
    }
    CollapseSpacesFixed("a ,b");
    assert "a, b"[1..] == ", b" && ", b"[1..] == " b" && " b"[1..] == "b";
    assert NoSpaceBefore("a, b", {')'});
    DropSpacesFixed("a, b", {')'});
    assert NoDoubledMark("a, b");
    SqueezeMarksFixed("a, b");
  }

  /** Passes 2 to 6 turn `"a ,b"` into `"a, b"`. */
  lemma RewritePassesExample()
    ensures RewritePasses("a ,b") == "a, b"
  {
    UnchangedExample();
    DropSpacesExample();
    SpaceAfterMarksExample();
  }

  /** Cleaning a line that strip leaves as it is: passes 2 to 7 on the line itself. */
  lemma CleanStripped(line: string, rewritten: string, out: string)
    requires line != [] && Strip(line) == line
    requires RewritePasses(line) == rewritten && AppendPeriod(rewritten) == out
    ensures CleanReference(line) == out
  {
  }

  /** `clean_reference("a ,b")` is `"a, b."`. */
  lemma CleanReferenceExample()
    ensures CleanReference("a ,b") == "a, b."
  {
    StripExample();
    RewritePassesExample();
    AppendPeriodExample();
    CleanStripped("a ,b", "a, b", "a, b.");
  }
}
