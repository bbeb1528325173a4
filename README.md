# KleenRef reference normaliser, modelled in Dafny

KleenRef cleans bibliographic references pasted into a web form. This project
models the core of it, the two functions in `app.py`. Everything else in that
file is Streamlit page code.

- `clean_reference(ref)` normalises one line in seven steps:
  1. strip the line; a blank line gives `""`;
  2. collapse each run of whitespace to one space;
  3. delete whitespace before `, . ; : ! ?`;
  4. put a space after such a mark when a word character follows it directly;
  5. delete whitespace before `)`;
  6. reduce a run of one repeated mark to a single mark;
  7. append `.` unless the text already ends in `.`, `?` or `!`.
- `clean_reference_block(text, numbered)` splits the text into lines, drops
  the blank ones, cleans the others, optionally puts `"{i+1}. "` in front of
  each, and joins them with line feeds.

Both are pure, so the model is functions and lemmas:

- `chars.dfy` (module `Chars`) fixes the character classes.
- `clean_reference.dfy` (module `Reference`) writes each regular-expression
  substitution as a recursive function over the characters. It proves one
  preservation lemma per pass, then the invariants of the result and
  idempotence.
- `reference_block.dfy` (module `ReferenceBlock`) writes out the block
  function. It models `str.splitlines`, `"\n".join`, `str.split("\n")` and
  decimal numbering, and proves each against its inverse.

Character classes:

- `IsSpace` is exactly Python's `str.isspace`. That is the set both `\s` and
  `str.strip()` use.
- `IsWord` is Python's `\w` on U+0000 to U+017F.
- `IsLineBreak` is the set `str.splitlines` splits at. `\r\n` counts as one
  break.

Read off the passes, the code gives these results on a few inputs. The three
below are worked by hand. The proved examples are `Reference.CleanReferenceExample`
(`"a ,b"` cleans to `"a, b."`) and one example per step, listed in the table.

- `"foo , bar"` cleans to `"foo, bar."`. Step 3 removes the space before the
  comma, and step 7 appends the period.
- `"foo,bar"` cleans to `"foo, bar."`. Step 4 puts a space after the comma,
  and step 7 appends the period.
- `"A. B. ,,Smith"` cleans to `"A. B., Smith."`. Step 3 removes the space,
  step 4 puts a space after the second comma, step 6 reduces `,,` to `,`,
  and step 7 appends the period.

The results always end in `.`, `?` or `!`, even when the text had no final
mark. Cleaning is idempotent for every input
(`Reference.CleanReferenceIdempotent`).

The pattern in step 7 is `re.search(r"[.?!]$", ref)`. In Python, `$` also
matches just before a final line feed. `Reference.EndsWithTerminal` models
that case. `Reference.FinalPeriod` shows it cannot arise at that point,
because no line feed survives step 2.

## Model

| member | source | states |
|---|---|---|
| `Chars.IsSpace` | app.py:82-87 | the whitespace that `strip()` removes and `\s` matches, Python's `str.isspace` set; `Chars.ClosersAreNotSpaceOrWord` states that no mark and not `)` is in it |
| `Chars.IsWord` | app.py:92-93 | the word characters `\w` matches, exact up to U+017F; `Chars.ClosersAreNotSpaceOrWord` states that no mark and not `)` is one |
| `Chars.IsMark` | app.py:90 | the class `[,.;:!?]` of steps 3, 4 and 6; `Chars.ClosersAreNotSpaceOrWord` states that no mark is whitespace or a word character |
| `Chars.IsTerminal` | app.py:102 | the class `[.?!]` of step 7; `Reference.AppendPeriod` and `Reference.FinalPeriod` state that the result ends in one of them and that `.` is appended exactly when the text does not |
| `Chars.ClosersAreNotSpaceOrWord` | app.py:90-96 | no mark and not `)` is whitespace or a word character, so steps 3 to 5 never remove or split a mark or `)` |
| `Chars.IsLineBreak` | app.py:109 | the characters `splitlines()` breaks at; `ReferenceBlock.SplitLinesBreak` and `ReferenceBlock.SplitLinesCrLf` state that each one ends a line |
| `Reference.IsBlank` | app.py:83 | `not ref.strip()`, also the `line.strip()` test at app.py:109; `Reference.Strip` states that it holds exactly when the stripped line is empty, and `ReferenceBlock.NonBlank` that the block keeps exactly the lines for which it fails |
| `Reference.TrimLeft` | app.py:82 | removes exactly the leading whitespace: the result is a suffix, everything cut off is whitespace, and it does not start with whitespace |
| `Reference.TrimRight` | app.py:82 | removes exactly the trailing whitespace: the result is a prefix, everything cut off is whitespace, and it does not end with whitespace |
| `Reference.Strip` | app.py:82-84 | `ref.strip()` leaves no whitespace at either end, and it is empty exactly when the line is blank, which is when `clean_reference` returns `""` |
| `Reference.StripSlice` | app.py:82 | `ref.strip()` is a slice of the line, and everything outside the slice is whitespace |
| `Reference.CollapseSpaces` | app.py:86-87 | after collapsing, every whitespace character is `' '`, no two spaces touch, the non-whitespace characters are unchanged and in order, and whether each end is whitespace is kept |
| `Reference.DropSpacesBefore` | app.py:89-96 | steps 3 and 5 remove only whitespace, leave no whitespace right before a closer, keep a non-whitespace first character, and leave a closer first only if one came first after whitespace |
| `Reference.DropSpacesLast` | app.py:89-96 | steps 3 and 5 keep a last character that is not whitespace |
| `Reference.SpaceAfterMarks` | app.py:92-93 | step 4 never shortens the text, and the first character stays |
| `Reference.SpaceAfterMarksSpaced` | app.py:92-93 | after step 4 no mark is directly followed by a word character |
| `Reference.SpaceAfterMarksNonSpace` | app.py:92-93 | step 4 inserts only whitespace: the other characters are unchanged and in order |
| `Reference.SpaceAfterMarksLast` | app.py:92-93 | step 4 keeps the last character |
| `Reference.SqueezeMarks` | app.py:98-99 | step 6 removes only marks, and both ends are unchanged |
| `Reference.SqueezeMarksSqueezed` | app.py:98-99 | after step 6 no mark is directly followed by the same mark |
| `Reference.EndsWithTerminal` | app.py:102 | the `[.?!]$` search, where `$` also matches before a final line feed; `Reference.AppendPeriod` states that a `.` is appended exactly when it fails |
| `Reference.AppendPeriod` | app.py:101-103 | the input is a prefix of the result; exactly one `.` is appended, and only when the `[.?!]$` search fails; the result always passes that search |
| `Reference.DropSpacesPreserves` | app.py:89-96 | on collapsed text, steps 3 and 5 keep whitespace collapsed and trimmed, keep every "no whitespace before X" fact, and keep marks spaced |
| `Reference.SpaceAfterMarksPreserves` | app.py:92-93 | on collapsed text, step 4 keeps whitespace collapsed and puts no space before a mark |
| `Reference.SqueezeMarksPreserves` | app.py:98-99 | step 6 keeps whitespace collapsed and trimmed, keeps "no whitespace before X" and keeps marks spaced |
| `Reference.AppendDotPreserves` | app.py:101-103 | appending `.` after a character that is neither whitespace nor `.` keeps every neighbour invariant, including "no doubled mark" |
| `Reference.RewritePasses` | app.py:86-99 | steps 2 to 6 in source order; `Reference.RewritePassesInvariants` and `Reference.RewriteContent` state what they give |
| `Reference.RewritePassesInvariants` | app.py:86-99 | steps 2 to 6 turn a stripped non-empty line into non-empty text that has every invariant of a cleaned reference except the ending |
| `Reference.AppendPeriodInvariants` | app.py:101-105 | step 7 completes the invariants: the result is clean and ends in `.`, `?` or `!` |
| `Reference.CleanReference` | app.py:81-105 | `clean_reference`; `Reference.CleanReferenceIsClean`, `Reference.CleanReferenceProperties`, `Reference.CleanReferenceKeepsText`, `Reference.FinalPeriod` and `Reference.CleanReferenceIdempotent` state its contract |
| `Reference.CleanReferenceIsClean` | app.py:81-105 | `clean_reference` returns `""` exactly for blank lines; for any other line the result satisfies `IsClean` |
| `Reference.FinalPeriod` | app.py:101-103 | the text left by steps 2 to 6 is non-empty; the result is that text when it ends in `.`, `?` or `!`, and that text plus one `.` otherwise |
| `Reference.CleanReferenceProperties` | app.py:81-105 | the same invariants by index: empty iff blank; no whitespace at either end; ends in `.`, `?` or `!`; all whitespace is single `' '`; no whitespace before a mark or `)`; no mark followed by a word character; no mark followed by itself |
| `Reference.StripContent` | app.py:82 | stripping removes only whitespace |
| `Reference.RewriteContent` | app.py:86-99 | steps 2 to 6 change only whitespace and the marks `, . ; : ! ?` |
| `Reference.PeriodContent` | app.py:101-103 | step 7 adds at most a mark |
| `Reference.CleanReferenceKeepsText` | app.py:81-105 | cleaning changes only whitespace and the marks: with both removed, the result and the line are equal, so every other character is kept, in order, and none is added |
| `Reference.CollapseSpacesExample` | app.py:86-87 | step 2 turns `"a \t b"` into `"a b"` |
| `Reference.DropSpacesExample` | app.py:89-90 | step 3 turns `"a ,b"` into `"a,b"` |
| `Reference.SpaceAfterMarksExample` | app.py:92-93 | step 4 turns `"a,b"` into `"a, b"` |
| `Reference.SqueezeMarksExample` | app.py:98-99 | step 6 turns `"a,,,b"` into `"a,b"` |
| `Reference.AppendPeriodExample` | app.py:101-103 | step 7 turns `"a, b"` into `"a, b."` and leaves `"a?"` as it is |
| `Reference.StripExample` | app.py:82 | stripping leaves `"a ,b"` as it is |
| `Reference.UnchangedExample` | app.py:86-99 | step 2 leaves `"a ,b"` as it is, and steps 5 and 6 leave `"a, b"` as it is |
| `Reference.RewritePassesExample` | app.py:86-99 | steps 2 to 6 turn `"a ,b"` into `"a, b"` |
| `Reference.CleanReferenceExample` | app.py:81-105 | `clean_reference("a ,b")` is `"a, b."` |
| `Reference.StripFixed` | app.py:82 | stripping leaves a string unchanged exactly when it has no whitespace at either end |
| `Reference.CollapseSpacesFixed` | app.py:87 | step 2 leaves a string unchanged exactly when its whitespace is already collapsed |
| `Reference.DropSpacesFixed` | app.py:89-96 | steps 3 and 5 leave a string unchanged exactly when no whitespace directly precedes a closer |
| `Reference.SpaceAfterMarksFixed` | app.py:92-93 | step 4 leaves a string unchanged exactly when no mark is directly followed by a word character |
| `Reference.SqueezeMarksFixed` | app.py:98-99 | step 6 leaves a string unchanged exactly when no mark is doubled |
| `Reference.CleanReferenceFixed` | app.py:81-105 | the strings `clean_reference` leaves unchanged are exactly `""` and the clean strings |
| `Reference.CleanReferenceIdempotent` | app.py:81-105 | cleaning a cleaned reference changes nothing, for every input |
| `ReferenceBlock.LineEnd` | app.py:109 | the index of the first line break, or the length when there is none |
| `ReferenceBlock.SplitLines` | app.py:109 | `splitlines()` gives lines without line breaks, and gives no lines exactly for empty text |
| `ReferenceBlock.SplitLinesSingle` | app.py:109 | non-empty text without a line break is one line |
| `ReferenceBlock.SplitLinesBreak` | app.py:109 | each line-break character ends a line: the text before it is the first line and the lines after it follow, with no empty line for a break at the very end |
| `ReferenceBlock.SplitLinesCrLf` | app.py:109 | `"\r\n"` is one line break, not two |
| `ReferenceBlock.SplitLinesJoin` | app.py:109 | `splitlines()` of lines joined by `"\n"` returns those lines, if none holds a break and the last is not empty |
| `ReferenceBlock.NonBlank` | app.py:109 | the filter keeps only non-blank lines, takes them from the input, and keeps every non-blank input line |
| `ReferenceBlock.NonBlankAppend` | app.py:109 | the filter distributes over concatenation, so it keeps input order |
| `ReferenceBlock.Decimal` | app.py:113 | `f"{n}"` is a non-empty string of decimal digits with no leading zero |
| `ReferenceBlock.DecimalRoundTrip` | app.py:113 | reading those digits back gives the number |
| `ReferenceBlock.Join` | app.py:115 | `"\n".join` of no parts is `""`; otherwise it starts with the first part |
| `ReferenceBlock.SplitOnJoin` | app.py:115 | splitting a join at the separator returns the parts, if no part holds the separator |
| `ReferenceBlock.JoinSplitOn` | app.py:115 | joining the pieces of a split at the separator gives the string back |
| `ReferenceBlock.CleanedHasNoLineFeed` | app.py:110 | a cleaned reference holds no line feed |
| `ReferenceBlock.NumberedHasNoLineFeed` | app.py:113 | a numbered line holds no line feed: neither the number, `". "` nor the cleaned reference holds one |
| `ReferenceBlock.OutputHasNoLineFeed` | app.py:110-113 | no output line holds a line feed, numbered or not |
| `ReferenceBlock.CleanedLines` | app.py:110 | the per-line map; `ReferenceBlock.BlockLines` states that output line `i` is kept line `i` cleaned, and `ReferenceBlock.OutputHasNoLineFeed` that none holds a line feed |
| `ReferenceBlock.NumberedLines` | app.py:112-113 | the `"{i+1}. "` prefix; `ReferenceBlock.BlockLines` states that numbered output line `i` is `"{i+1}. "` followed by kept line `i` cleaned |
| `ReferenceBlock.CleanReferenceBlock` | app.py:108-115 | `clean_reference_block`; `ReferenceBlock.BlockEmpty` and `ReferenceBlock.BlockLines` state its contract |
| `ReferenceBlock.BlockEmpty` | app.py:108-115 | the block output is `""` exactly when the text has no non-blank line |
| `ReferenceBlock.BlockLines` | app.py:108-115 | split at `"\n"`, the output has one line per non-blank input line, in order; line `i` is that line cleaned, after `"{i+1}. "` when numbered; it is `""` only when there are no non-blank lines |

## Left out

- The Streamlit page (configuration, CSS, header, sidebar, columns, caption, style selector). It is rendering only.
- The per-session premium flag, the premium-code check and the paywall branch with its line-count gate. These are UI state and a set lookup.
- Button handling and the UTF-8 download. These are I/O.
- Python's regular-expression engine. Each substitution is modelled by its effect on the characters, not by a general matcher.
- `IsWord` follows Python's `\w` only on U+0000 to U+017F. Above that, no character counts as a word character here, although Python counts any Unicode letter or digit. So step 4 does not insert a space before, say, a Greek letter after a mark.
- `Reference.CollapseSpaces`: the contract states what the pass establishes and that only whitespace changes. It does not say, character by character, where a space stands. The function body is the definition, and `Reference.CollapseSpacesFixed` says the pass changes nothing when nothing needs changing.
- `Reference.DropSpacesBefore`: the contract says only whitespace is removed and none is left before a closer. It does not say that all other whitespace stays. The body is the definition, and `Reference.DropSpacesFixed` gives the unchanged case.
- `Reference.SpaceAfterMarks`: the function's own contract only says that the text does not get shorter and the first character stays. `Reference.SpaceAfterMarksSpaced`, `Reference.SpaceAfterMarksNonSpace` and `Reference.SpaceAfterMarksLast` state the rest, as lemmas. Together they do not say that spaces are added nowhere else. The body is the definition, and `Reference.SpaceAfterMarksFixed` gives the unchanged case.
- `Reference.SqueezeMarks`: the contract says only marks are removed, and `Reference.SqueezeMarksSqueezed` says none is left doubled. They do not say that only doubled marks are removed. The body is the definition, and `Reference.SqueezeMarksFixed` gives the unchanged case.
