/**
 * The parts of the Kotlin and Java text libraries that the task store relies on:
 * `String.split(',')`, line reading as `BufferedReader.readLine` does it,
 * `String.compareTo`, `String.toBoolean()` and `CharSequence.isBlank()`.
 */
module Text {

  /** Kotlin's `split(sep)`: every separator ends a part; empty parts, leading and
      trailing ones included, are kept, so the result is never empty. */
  function Split(s: string, sep: char): (parts: seq<string>)
    ensures |parts| == multiset(s)[sep] + 1
    ensures forall i :: 0 <= i < |parts| ==> sep !in parts[i]
    decreases |s|
  {
    if s == [] then [[]]
    else
      var rest := Split(s[1..], sep);
      assert s == [s[0]] + s[1..];
      if s[0] == sep then [[]] + rest else [[s[0]] + rest[0]] + rest[1..]
  }

  /** The parts written one after the other with `sep` between neighbours. */
  function Join(parts: seq<string>, sep: char): string
    requires |parts| >= 1
  {
    if |parts| == 1 then parts[0] else parts[0] + [sep] + Join(parts[1..], sep)
  }

  lemma {:induction false} SplitAfterFirstPart(x: string, sep: char, rest: string)
    requires sep !in x
    ensures Split(x + [sep] + rest, sep) == [x] + Split(rest, sep)
    decreases |x|
  {
    if x == [] {
      assert x + [sep] + rest == [sep] + rest;
      assert ([sep] + rest)[1..] == rest;
    } else {
      SplitAfterFirstPart(x[1..], sep, rest);
      assert (x + [sep] + rest)[1..] == x[1..] + [sep] + rest;
      assert [x[0]] + x[1..] == x;
    }
  }

  lemma {:induction false} SplitOfPart(x: string, sep: char)
    requires sep !in x
    ensures Split(x, sep) == [x]
    decreases |x|
  {
    if x != [] {
      SplitOfPart(x[1..], sep);
      assert [x[0]] + x[1..] == x;
    }
  }

  /** Splitting undoes joining when no part holds the separator. */
  lemma {:induction false} SplitJoin(parts: seq<string>, sep: char)
    requires |parts| >= 1
    requires forall i :: 0 <= i < |parts| ==> sep !in parts[i]
    ensures Split(Join(parts, sep), sep) == parts
    decreases |parts|
  {
    if |parts| == 1 {
      SplitOfPart(parts[0], sep);
    } else {
      SplitJoin(parts[1..], sep);
      SplitAfterFirstPart(parts[0], sep, Join(parts[1..], sep));
      assert [parts[0]] + parts[1..] == parts;
    }
  }

  /** Joining undoes splitting, for every string. */
  lemma {:induction false} JoinSplit(s: string, sep: char)
    ensures Join(Split(s, sep), sep) == s
    decreases |s|
  {
    if s != [] {
      JoinSplit(s[1..], sep);
      if s[0] == sep {
        JoinSplitStep(s, sep);
      } else {
        JoinSplitStepInPart(s, sep);
      }
    }
  }

  lemma JoinSplitStep(s: string, sep: char)
    requires s != [] && s[0] == sep
    requires Join(Split(s[1..], sep), sep) == s[1..]
    ensures Join(Split(s, sep), sep) == s
  {
    var rest := Split(s[1..], sep);
    var parts := [[]] + rest;
    assert Split(s, sep) == parts;
    assert parts[1..] == rest;
    assert [s[0]] + s[1..] == s;
  }

  lemma JoinSplitStepInPart(s: string, sep: char)
    requires s != [] && s[0] != sep
    requires Join(Split(s[1..], sep), sep) == s[1..]
    ensures Join(Split(s, sep), sep) == s
  {
    var rest := Split(s[1..], sep);
    assert Split(s, sep) == [[s[0]] + rest[0]] + rest[1..];
    JoinExtendFirst(s[0], rest, sep);
    assert [s[0]] + s[1..] == s;
  }

  /** Putting a character in front of the first part puts it in front of the join. */
  lemma JoinExtendFirst(c: char, parts: seq<string>, sep: char)
    requires |parts| >= 1
    ensures Join([[c] + parts[0]] + parts[1..], sep) == [c] + Join(parts, sep)
  {
    var extended := [[c] + parts[0]] + parts[1..];
    if |parts| > 1 {
      var tail := Join(parts[1..], sep);
      assert extended[1..] == parts[1..];
      calc {
        Join(extended, sep);
        ([c] + parts[0]) + [sep] + tail;
        [c] + (parts[0] + [sep] + tail);
      }
    }
  }

  /** The separator occurs in a join once between each pair of neighbours, and more
      often exactly when some part brings its own. */
  lemma {:induction false} JoinSeparatorCount(parts: seq<string>, sep: char)
    requires |parts| >= 1
    ensures multiset(Join(parts, sep))[sep] >= |parts| - 1
    ensures multiset(Join(parts, sep))[sep] == |parts| - 1 <==> forall i :: 0 <= i < |parts| ==> sep !in parts[i]
    decreases |parts|
  {
    if |parts| > 1 {
      JoinSeparatorCount(parts[1..], sep);
      assert forall i :: 1 <= i < |parts| ==> parts[i] == parts[1..][i - 1];
    }
  }

  /** A character other than the separator is in a join iff it is in one of the parts. */
  lemma {:induction false} JoinContains(parts: seq<string>, sep: char, c: char)
    requires |parts| >= 1 && c != sep
    ensures c in Join(parts, sep) <==> exists i :: 0 <= i < |parts| && c in parts[i]
    decreases |parts|
  {
    if |parts| > 1 {
      JoinContains(parts[1..], sep, c);
      assert forall i :: 1 <= i < |parts| ==> parts[i] == parts[1..][i - 1];
    }
  }

  /** A character that is absent from s is absent from every part of its split. */
  lemma {:induction false} SplitPartsAvoid(s: string, sep: char, c: char)
    requires c !in s
    ensures forall i :: 0 <= i < |Split(s, sep)| ==> c !in Split(s, sep)[i]
    decreases |s|
  {
    if s != [] {
      SplitPartsAvoid(s[1..], sep, c);
    }
  }

  /** A character at which `BufferedReader.readLine` ends a line. */
  predicate IsLineTerminator(c: char) {
    c == '\n' || c == '\r'
  }

  predicate HasNoLineTerminator(s: string) {
    '\n' !in s && '\r' !in s
  }

  /** The index of the first line terminator in s, or |s| when there is none. */
  function TerminatorIndex(s: string): (k: nat)
    ensures k <= |s|
    ensures forall i :: 0 <= i < k ==> !IsLineTerminator(s[i])
    ensures k < |s| ==> IsLineTerminator(s[k])
  {
    if s == [] then 0
    else if IsLineTerminator(s[0]) then 0
    else 1 + TerminatorIndex(s[1..])
  }

  /** Where the line after the one ending at the terminator s[k] begins. */
  function NextLineStart(s: string, k: nat): (next: nat)
    requires k < |s|
    ensures k < next <= |s|
  {
    if s[k] == '\r' && k + 1 < |s| && s[k + 1] == '\n' then k + 2 else k + 1
  }

  /** The lines `BufferedReader.readLine` returns for a file's text: a line ends at
      '\n', at '\r' or at "\r\n"; a last line without a terminator is still a line;
      the empty text has no lines. */
  function Lines(s: string): (lines: seq<string>)
    ensures forall i :: 0 <= i < |lines| ==> HasNoLineTerminator(lines[i])
    decreases |s|
  {
    if s == [] then []
    else
      var k := TerminatorIndex(s);
      if k == |s| then [s]
      else [s[..k]] + Lines(s[NextLineStart(s, k)..])
  }

  /** Each line followed by "\n": what a writer produces line by line. */
  function Unlines(lines: seq<string>): string
  {
    if lines == [] then []
    else Unlines(lines[..|lines| - 1]) + lines[|lines| - 1] + "\n"
  }

  /** Written text is empty exactly when no line was written, and otherwise ends in a
      line break. */
  lemma UnlinesEndsWithLineBreak(lines: seq<string>)
    ensures Unlines(lines) == [] <==> lines == []
    ensures Unlines(lines) != [] ==> Unlines(lines)[|Unlines(lines)| - 1] == '\n'
  {
  }

  lemma LinesUnfold(s: string)
    requires TerminatorIndex(s) < |s|
    ensures NextLineStart(s, TerminatorIndex(s)) <= |s|
    ensures Lines(s) == [s[..TerminatorIndex(s)]] + Lines(s[NextLineStart(s, TerminatorIndex(s))..])
  {
  }

  /** One terminated line read on its own. */
  lemma LinesOfOneLine(x: string)
    requires HasNoLineTerminator(x)
    ensures Lines(x + "\n") == [x]
  {
    var s := x + "\n";
    assert s[|x|] == '\n';
    assert TerminatorIndex(s) == |x|;
    LinesUnfold(s);
    assert s[..|x|] == x;
    assert s[|x| + 1..] == [];
  }

  /** Adding one terminated line to a text that is empty or ends with '\n' adds
      exactly that line to what is read back. */
  lemma {:induction false} LinesAppendLine(a: string, x: string)
    requires a == [] || a[|a| - 1] == '\n'
    requires HasNoLineTerminator(x)
    ensures Lines(a + x + "\n") == Lines(a) + [x]
    decreases |a|
  {
    var b := x + "\n";
    assert a + x + "\n" == a + b;
    if a == [] {
      assert a + b == b;
      LinesOfOneLine(x);
    } else {
      var j := LinesAppendStep(a, b);
      var first := a[..TerminatorIndex(a)];
      LinesAppendLine(a[j..], x);
      assert a[j..] + x + "\n" == a[j..] + b;
      calc {
        Lines(a + b);
        [first] + Lines(a[j..] + b);
        [first] + (Lines(a[j..]) + [x]);
        ([first] + Lines(a[j..])) + [x];
        Lines(a) + [x];
      }
    }
  }

  lemma TerminatorIndexAppend(a: string, b: string)
    requires TerminatorIndex(a) < |a|
    ensures TerminatorIndex(a + b) == TerminatorIndex(a)
  {
    var k, s := TerminatorIndex(a), a + b;
    var m := TerminatorIndex(s);
    assert IsLineTerminator(s[k]) by {
      assert s[k] == a[k];
    }
    assert forall i :: 0 <= i < k ==> s[i] == a[i];
  }

  lemma NextLineStartAppend(a: string, b: string, k: nat)
    requires k < |a| && a[|a| - 1] == '\n'
    ensures NextLineStart(a + b, k) == NextLineStart(a, k)
  {
    var s := a + b;
    assert s[k] == a[k];
    assert k + 1 < |a| ==> s[k + 1] == a[k + 1];
  }

  /** The first line of a text that ends with '\n' is not changed by what follows. */
  lemma LinesAppendStep(a: string, b: string) returns (j: nat)
    requires a != [] && a[|a| - 1] == '\n'
    ensures j <= |a| && (j < |a| ==> a[|a| - 1] == '\n')
    ensures Lines(a) == [a[..TerminatorIndex(a)]] + Lines(a[j..])
    ensures Lines(a + b) == [a[..TerminatorIndex(a)]] + Lines(a[j..] + b)
  {
    var k := TerminatorIndex(a);
    assert k < |a| by {
      assert IsLineTerminator(a[|a| - 1]);
    }
    j := NextLineStart(a, k);
    LinesUnfold(a);
    LinesOfAppended(a, b, k, j);
  }

  lemma LinesOfAppended(a: string, b: string, k: nat, j: nat)
    requires a != [] && a[|a| - 1] == '\n'
    requires k == TerminatorIndex(a) && k < |a| && j == NextLineStart(a, k)
    ensures j <= |a|
    ensures Lines(a + b) == [a[..k]] + Lines(a[j..] + b)
  {
    var s := a + b;
    TerminatorIndexAppend(a, b);
    NextLineStartAppend(a, b, k);
    LinesUnfold(s);
    assert s[..k] == a[..k];
    assert s[j..] == a[j..] + b;
  }

  /** Reading back what was written line by line gives the same lines, provided
      none of them holds a line terminator. */
  lemma {:induction false} LinesUnlines(lines: seq<string>)
    requires forall i :: 0 <= i < |lines| ==> HasNoLineTerminator(lines[i])
    ensures Lines(Unlines(lines)) == lines
    decreases |lines|
  {
    if lines != [] {
      var init, last := lines[..|lines| - 1], lines[|lines| - 1];
      assert Unlines(lines) == Unlines(init) + last + "\n";
      LinesUnlines(init);
      LinesAppendLine(Unlines(init), last);
      assert init + [last] == lines;
    }
  }

  /** How many leading characters `a` and `b` share. */
  function CommonPrefixLength(a: string, b: string): (k: nat)
    ensures k <= |a| && k <= |b|
    ensures a[..k] == b[..k]
    ensures k < |a| && k < |b| ==> a[k] != b[k]
    decreases |a|
  {
    if a == [] || b == [] || a[0] != b[0] then 0
    else
      var k := CommonPrefixLength(a[1..], b[1..]);
      assert a[..k + 1] == [a[0]] + a[1..][..k];
      assert b[..k + 1] == [b[0]] + b[1..][..k];
      k + 1
  }

  /** `String.compareTo(a, b) < 0` in Java. */
  predicate LexLess(a: string, b: string)
    decreases |a|
  {
    if a == [] then b != []
    else if b == [] then false
    else if a[0] != b[0] then a[0] < b[0]
    else LexLess(a[1..], b[1..])
  }

  /** `LexLess` is the order Java documents for `compareTo`: at the first position where
      the two differ, `a` has the smaller character, or `a` ends there while `b` goes on. */
  lemma {:induction false} LexLessAtFirstDifference(a: string, b: string)
    ensures var k := CommonPrefixLength(a, b);
            LexLess(a, b) <==> k < |b| && (k == |a| || a[k] < b[k])
    decreases |a|
  {
    if a != [] && b != [] && a[0] == b[0] {
      LexLessAtFirstDifference(a[1..], b[1..]);
      assert a[1..][CommonPrefixLength(a[1..], b[1..])..] == a[CommonPrefixLength(a, b)..];
    }
  }

  lemma {:induction false} LexIrreflexive(a: string)
    ensures !LexLess(a, a)
    decreases |a|
  {
    if a != [] {
      LexIrreflexive(a[1..]);
    }
  }

  lemma {:induction false} LexTransitive(a: string, b: string, c: string)
    requires LexLess(a, b) && LexLess(b, c)
    ensures LexLess(a, c)
    decreases |a|
  {
    if a != [] && a[0] == b[0] && b[0] == c[0] {
      LexTransitive(a[1..], b[1..], c[1..]);
    }
  }

  /** Two strings are equal or one comes strictly before the other. */
  lemma {:induction false} LexTotal(a: string, b: string)
    ensures a == b || LexLess(a, b) || LexLess(b, a)
    decreases |a|
  {
    if a != [] && b != [] && a[0] == b[0] {
      LexTotal(a[1..], b[1..]);
      assert a == [a[0]] + a[1..] && b == [b[0]] + b[1..];
    }
  }

  /** `Char.isWhitespace()` on the JVM: `Character.isWhitespace` or `Character.isSpaceChar`. */
  predicate IsWhitespace(c: char) {
    c == '\t' || c == '\n' || c == '\U{000B}' || c == '\U{000C}' || c == '\r'
    || ('\U{001C}' <= c <= '\U{001F}')
    || c == ' ' || c == '\U{00A0}' || c == '\U{1680}'
    || ('\U{2000}' <= c <= '\U{200A}')
    || c == '\U{2028}' || c == '\U{2029}' || c == '\U{202F}' || c == '\U{205F}' || c == '\U{3000}'
  }

  /** `CharSequence.isBlank()`: every character is whitespace. The empty text is blank,
      and a text holding a comma never is. */
  function IsBlank(s: string): (b: bool)
    ensures s == [] ==> b
    ensures b ==> ',' !in s
  {
    forall i :: 0 <= i < |s| ==> IsWhitespace(s[i])
  }

  function AsciiLower(c: char): char {
    if 'A' <= c <= 'Z' then (c as int + 32) as char else c
  }

  /** Every ASCII capital letter of `s` replaced by its small letter. */
  function AsciiLowerAll(s: string): string {
    seq(|s|, i requires 0 <= i < |s| => AsciiLower(s[i]))
  }

  /** `String.toBoolean()`: true exactly for "true" in any letter case. */
  predicate ToBoolean(s: string) {
    |s| == 4 && AsciiLower(s[0]) == 't' && AsciiLower(s[1]) == 'r'
    && AsciiLower(s[2]) == 'u' && AsciiLower(s[3]) == 'e'
  }

  /** `toBoolean` ignores letter case and nothing else. */
  lemma ToBooleanIgnoresCase(s: string)
    ensures ToBoolean(s) <==> AsciiLowerAll(s) == "true"
  {
    var l := AsciiLowerAll(s);
    if |s| == 4 {
      assert l == [l[0], l[1], l[2], l[3]];
    }
  }
}
