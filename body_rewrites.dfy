/**
  The three text rewrites `LoadMethodSource` applies to the decompiled shader
  body, as ASCII character scanners that follow the regular-expression engine's
  left-to-right, non-overlapping replacement, each with a declarative
  reference definition and a lemma that the two agree.
*/
module BodyRewrites {

  predicate IsDigit(c: char)
  {
    '0' <= c <= '9'
  }

  /** A regular-expression word character (`\w`), ASCII only. */
  predicate IsWordChar(c: char)
  {
    'a' <= c <= 'z' || 'A' <= c <= 'Z' || IsDigit(c) || c == '_'
  }

  predicate IsNumericSuffix(c: char)
  {
    c == 'f' || c == 'F' || c == 'd' || c == 'D'
  }

  // ---------------------------------------------------------------------------
  // Step 1: `(?<=\W)(\d+)[fFdD]` replaced by the digits

  /** The end of the run of digits that starts at `i`. */
  function DigitRunEnd(s: string, i: nat): (j: nat)
    requires i <= |s|
    ensures i <= j <= |s|
    ensures forall k :: i <= k < j ==> IsDigit(s[k])
    ensures j == |s| || !IsDigit(s[j])
    decreases |s| - i
  {
    if i < |s| && IsDigit(s[i]) then DigitRunEnd(s, i + 1) else i
  }

  /** The start of the run of digits that ends just before `d`. */
  function DigitRunStart(s: string, d: nat): (k: nat)
    requires d <= |s|
    ensures k <= d
    ensures forall m :: k <= m < d ==> IsDigit(s[m])
    ensures k == 0 || !IsDigit(s[k - 1])
  {
    if d > 0 && IsDigit(s[d - 1]) then DigitRunStart(s, d - 1) else d
  }

  /** The pattern matches at `i`: a non-word character before, digits, then a suffix letter. */
  predicate SuffixMatchAt(s: string, i: nat)
    requires i <= |s|
  {
    0 < i < |s| && !IsWordChar(s[i - 1]) && IsDigit(s[i])
    && DigitRunEnd(s, i) < |s| && IsNumericSuffix(s[DigitRunEnd(s, i)])
  }

  /** The replacement scan from position `i`: a match keeps its digits and drops its letter. */
  function StripFrom(s: string, i: nat): string
    requires i <= |s|
    decreases |s| - i
  {
    if i == |s| then []
    else if SuffixMatchAt(s, i) then
      var j := DigitRunEnd(s, i);
      s[i..j] + StripFrom(s, j + 1)
    else [s[i]] + StripFrom(s, i + 1)
  }

  /** Drops the `f`/`F`/`d`/`D` suffix of numeric literals. */
  function StripNumericSuffixes(s: string): string
  {
    StripFrom(s, 0)
  }

  /**
    Position `d` holds a suffix letter that ends a literal: it follows a
    non-empty run of digits, and the run follows a non-word character.
  */
  predicate SuffixRemovedAt(s: string, d: nat)
    requires d < |s|
  {
    IsNumericSuffix(s[d]) && var k := DigitRunStart(s, d); 0 < k < d && !IsWordChar(s[k - 1])
  }

  /** The characters from position `i` on that are not removed suffix letters. */
  function KeptFrom(s: string, i: nat): string
    requires i <= |s|
    decreases |s| - i
  {
    if i == |s| then []
    else (if SuffixRemovedAt(s, i) then [] else [s[i]]) + KeptFrom(s, i + 1)
  }

  lemma {:induction false} KeptDigits(s: string, i: nat, j: nat)
    requires i <= j <= |s|
    requires forall k :: i <= k < j ==> IsDigit(s[k])
    ensures KeptFrom(s, i) == s[i..j] + KeptFrom(s, j)
    decreases j - i
  {
    if i < j {
      assert !IsNumericSuffix(s[i]);
      assert KeptFrom(s, i) == [s[i]] + KeptFrom(s, i + 1);
      KeptDigits(s, i + 1, j);
      assert s[i..j] == [s[i]] + s[i + 1..j];
    }
  }

  /** No suffix letter from `i` on belongs to a literal that started before `i`. */
  ghost predicate NoOpenLiteral(s: string, i: nat)
    requires i <= |s|
  {
    forall d :: i <= d < |s| && SuffixRemovedAt(s, d) ==> DigitRunStart(s, d) >= i
  }

  /** After a match the scan resumes past the suffix letter with no literal open. */
  lemma AfterMatch(s: string, i: nat)
    requires i <= |s| && SuffixMatchAt(s, i)
    ensures DigitRunStart(s, DigitRunEnd(s, i)) == i
    ensures SuffixRemovedAt(s, DigitRunEnd(s, i))
    ensures NoOpenLiteral(s, DigitRunEnd(s, i) + 1)
  {
    var j := DigitRunEnd(s, i);
    assert DigitRunStart(s, j) == i;
    forall d | j + 1 <= d < |s| && SuffixRemovedAt(s, d)
      ensures DigitRunStart(s, d) >= j + 1
    {
    }
  }

  /** Where the pattern does not match, the character is kept and no literal is left open. */
  lemma AfterMismatch(s: string, i: nat)
    requires i < |s| && NoOpenLiteral(s, i) && !SuffixMatchAt(s, i)
    ensures !SuffixRemovedAt(s, i)
    ensures NoOpenLiteral(s, i + 1)
  {
    forall d | i + 1 <= d < |s| && SuffixRemovedAt(s, d)
      ensures DigitRunStart(s, d) >= i + 1
    {
    }
  }

  lemma StripFromMatch(s: string, i: nat)
    requires i <= |s| && SuffixMatchAt(s, i)
    ensures StripFrom(s, i) == s[i..DigitRunEnd(s, i)] + StripFrom(s, DigitRunEnd(s, i) + 1)
  {
  }

  lemma StripFromMismatch(s: string, i: nat)
    requires i < |s| && !SuffixMatchAt(s, i)
    ensures StripFrom(s, i) == [s[i]] + StripFrom(s, i + 1)
  {
  }

  lemma KeptFromStep(s: string, i: nat)
    requires i < |s|
    ensures KeptFrom(s, i) == (if SuffixRemovedAt(s, i) then [] else [s[i]]) + KeptFrom(s, i + 1)
  {
  }

  /** One matched literal: its digits are kept and its suffix letter is dropped. */
  lemma StripFromKeepsMatch(s: string, i: nat)
    requires i <= |s| && SuffixMatchAt(s, i)
    requires StripFrom(s, DigitRunEnd(s, i) + 1) == KeptFrom(s, DigitRunEnd(s, i) + 1)
    ensures StripFrom(s, i) == KeptFrom(s, i)
  {
    var j := DigitRunEnd(s, i);
    AfterMatch(s, i);
    KeptFromStep(s, j);
    assert KeptFrom(s, j) == KeptFrom(s, j + 1) by { assert SuffixRemovedAt(s, j); }
    KeptDigits(s, i, j);
    StripFromMatch(s, i);
    assert StripFrom(s, i) == s[i..j] + KeptFrom(s, j);
  }

  /** One character the pattern does not match at: it is kept. */
  lemma StripFromKeepsMismatch(s: string, i: nat)
    requires i < |s| && NoOpenLiteral(s, i) && !SuffixMatchAt(s, i)
    requires StripFrom(s, i + 1) == KeptFrom(s, i + 1)
    ensures StripFrom(s, i) == KeptFrom(s, i)
  {
    AfterMismatch(s, i);
    StripFromMismatch(s, i);
    KeptFromStep(s, i);
  }

  lemma {:induction false} StripFromKeeps(s: string, i: nat)
    requires i <= |s| && NoOpenLiteral(s, i)
    ensures StripFrom(s, i) == KeptFrom(s, i)
    decreases |s| - i
  {
    if i < |s| {
      if SuffixMatchAt(s, i) {
        AfterMatch(s, i);
        StripFromKeeps(s, DigitRunEnd(s, i) + 1);
        StripFromKeepsMatch(s, i);
      } else {
        AfterMismatch(s, i);
        StripFromKeeps(s, i + 1);
        StripFromKeepsMismatch(s, i);
      }
    }
  }

  /** A float literal loses its suffix only where a non-word character precedes its digits. */
  lemma StripNumericSuffixesExamples()
    ensures StripNumericSuffixes("x = 1.5f;") == "x = 1.5;"
    ensures StripNumericSuffixes(" 10D") == " 10"
    ensures StripNumericSuffixes("x1f") == "x1f"
  {
    var s := "x = 1.5f;";
    assert StripFrom(s, 8) == ";";
    assert SuffixMatchAt(s, 6) && DigitRunEnd(s, 6) == 7;
    assert StripFrom(s, 6) == "5;" by { assert s[6..7] == "5"; }
    assert !SuffixMatchAt(s, 5) && !SuffixMatchAt(s, 4);
    assert StripFrom(s, 4) == "1.5;";
    assert StripFrom(s, 0) == "x = 1.5;";
    var t := " 10D";
    assert SuffixMatchAt(t, 1) && DigitRunEnd(t, 1) == 3;
    assert StripFrom(t, 1) == "10" by { assert t[1..3] == "10"; }
    var u := "x1f";
    assert !SuffixMatchAt(u, 1);
    assert StripFrom(u, 1) == "1f";
  }

  /**
    Stripping removes exactly the suffix letters that end a numeric literal
    (a digit run preceded by a non-word character) and keeps every other
    character in order.
  */
  lemma StripNumericSuffixesRemovesSuffixes(s: string)
    ensures StripNumericSuffixes(s) == KeptFrom(s, 0)
  {
    StripFromKeeps(s, 0);
  }

  // ---------------------------------------------------------------------------
  // Step 2: `TrimEnd('\n', '\r', ' ')`

  predicate IsTrimmed(c: char)
  {
    c == '\n' || c == '\r' || c == ' '
  }

  /** The longest prefix of `s` that does not end in a newline, carriage return or space. */
  function TrimEnd(s: string): (r: string)
    ensures r <= s
    ensures forall k :: |r| <= k < |s| ==> IsTrimmed(s[k])
    ensures r == [] || !IsTrimmed(r[|r| - 1])
  {
    if s != [] && IsTrimmed(s[|s| - 1]) then TrimEnd(s[..|s| - 1]) else s
  }

  /** The three properties of `TrimEnd` determine its result. */
  lemma TrimEndUnique(s: string, r: string)
    requires r <= s
    requires forall k :: |r| <= k < |s| ==> IsTrimmed(s[k])
    requires r == [] || !IsTrimmed(r[|r| - 1])
    ensures r == TrimEnd(s)
  {
  }

  // ---------------------------------------------------------------------------
  // Step 3: `(?<!A-Za-z)vector(?!\w)` replaced by `_vector`

  const Vector := "vector"

  /**
    The text the negative lookbehind rules out before `vector`: the six
    characters `A-Za-z` themselves, since the pattern has no brackets.
  */
  const LookbehindText := "A-Za-z"

  /** The pattern matches at `i`. */
  predicate VectorMatchAt(s: string, i: nat)
  {
    && i + 6 <= |s|
    && s[i..i + 6] == Vector
    && !(i >= 6 && s[i - 6..i] == LookbehindText)
    && (i + 6 == |s| || !IsWordChar(s[i + 6]))
  }

  /** The replacement scan from position `i`. */
  function RenameFrom(s: string, i: nat): string
    requires i <= |s|
    decreases |s| - i
  {
    if i == |s| then []
    else if VectorMatchAt(s, i) then "_" + Vector + RenameFrom(s, i + 6)
    else [s[i]] + RenameFrom(s, i + 1)
  }

  /** Renames each `vector` the pattern matches to `_vector`. */
  function RenameVector(s: string): string
  {
    RenameFrom(s, 0)
  }

  /** The characters from `i` on, with `_` put before every position the pattern matches at. */
  function MarkedFrom(s: string, i: nat): string
    requires i <= |s|
    decreases |s| - i
  {
    if i == |s| then []
    else (if VectorMatchAt(s, i) then "_" else "") + [s[i]] + MarkedFrom(s, i + 1)
  }

  /** The pattern can only match where a `v` stands. */
  lemma NoMatchWithoutV(s: string, k: nat)
    requires k < |s| && s[k] != 'v'
    ensures !VectorMatchAt(s, k)
  {
    if k + 6 <= |s| {
      assert s[k..k + 6][0] == s[k];
    }
  }

  lemma {:induction false} MarkedInsideMatch(s: string, i: nat, k: nat)
    requires VectorMatchAt(s, i) && i < k <= i + 6
    ensures MarkedFrom(s, k) == s[k..i + 6] + MarkedFrom(s, i + 6)
    decreases i + 6 - k
  {
    if k < i + 6 {
      assert s[k] == s[i..i + 6][k - i];
      assert s[k] != 'v';
      NoMatchWithoutV(s, k);
      assert MarkedFrom(s, k) == [s[k]] + MarkedFrom(s, k + 1);
      MarkedInsideMatch(s, i, k + 1);
      assert s[k..i + 6] == [s[k]] + s[k + 1..i + 6];
    }
  }

  /** One match: the scan writes `_vector`, which is the marked text of the six matched characters. */
  lemma RenameFromMarksMatch(s: string, i: nat)
    requires VectorMatchAt(s, i)
    requires RenameFrom(s, i + 6) == MarkedFrom(s, i + 6)
    ensures RenameFrom(s, i) == MarkedFrom(s, i)
  {
    MarkedInsideMatch(s, i, i + 1);
    assert MarkedFrom(s, i) == "_" + [s[i]] + MarkedFrom(s, i + 1);
    assert s[i..i + 6] == [s[i]] + s[i + 1..i + 6];
    assert RenameFrom(s, i) == "_" + Vector + RenameFrom(s, i + 6);
  }

  lemma {:induction false} RenameFromMarks(s: string, i: nat)
    requires i <= |s|
    ensures RenameFrom(s, i) == MarkedFrom(s, i)
    decreases |s| - i
  {
    if i < |s| {
      if VectorMatchAt(s, i) {
        RenameFromMarks(s, i + 6);
        RenameFromMarksMatch(s, i);
      } else {
        RenameFromMarks(s, i + 1);
        assert MarkedFrom(s, i) == [s[i]] + MarkedFrom(s, i + 1);
      }
    }
  }

  /**
    Renaming inserts one `_` before each matched `vector` and changes
    nothing else.
  */
  lemma RenameVectorMarksMatches(s: string)
    ensures RenameVector(s) == MarkedFrom(s, 0)
  {
    RenameFromMarks(s, 0);
  }

  /**
    Because the lookbehind is the literal text `A-Za-z`, a `vector` at the
    end of a longer identifier is renamed as well.
  */
  lemma RenameVectorInsideIdentifier()
    ensures RenameVector("myvector") == "my_vector"
  {
    var s := "myvector";
    assert s[2..8] == Vector;
    assert VectorMatchAt(s, 2);
    assert RenameFrom(s, 2) == "_vector";
    assert !VectorMatchAt(s, 1) by { assert s[1] != 'v'; }
    assert !VectorMatchAt(s, 0) by { assert s[0] != 'v'; }
  }

  /** Text without a `v` from `i` on is copied unchanged. */
  lemma {:induction false} RenameFromNoV(s: string, i: nat)
    requires i <= |s|
    requires forall k :: i <= k < |s| ==> s[k] != 'v'
    ensures RenameFrom(s, i) == s[i..]
    decreases |s| - i
  {
    if i < |s| {
      NoMatchWithoutV(s, i);
      RenameFromNoV(s, i + 1);
      assert s[i..] == [s[i]] + s[i + 1..];
    }
  }

  /** A `vector` that a word character follows stays. */
  lemma RenameVectorKeepsBeforeWordChar()
    ensures RenameVector("vector2") == "vector2"
  {
    var s := "vector2";
    assert !VectorMatchAt(s, 0) by { assert IsWordChar(s[6]); }
    assert forall k :: 1 <= k < |s| ==> s[k] != 'v';
    RenameFromNoV(s, 1);
    assert s == [s[0]] + s[1..];
  }

  /** A `vector` that the text `A-Za-z` precedes stays. */
  lemma RenameVectorKeepsAfterLookbehind()
    ensures RenameVector("A-Za-zvector") == "A-Za-zvector"
  {
    var t := "A-Za-zvector";
    assert !VectorMatchAt(t, 6) by { assert t[0..6] == LookbehindText; }
    assert forall k :: 7 <= k < |t| ==> t[k] != 'v';
    RenameFromNoV(t, 7);
    assert RenameFrom(t, 6) == t[6..] by { assert t[6..] == [t[6]] + t[7..]; }
    assert forall k :: 0 <= k < 6 ==> t[k] != 'v';
    NoMatchWithoutV(t, 0);
    NoMatchWithoutV(t, 1);
    NoMatchWithoutV(t, 2);
    NoMatchWithoutV(t, 3);
    NoMatchWithoutV(t, 4);
    NoMatchWithoutV(t, 5);
  }

  /** Renaming is not idempotent: `_vector` is matched again. */
  lemma RenameVectorTwice()
    ensures RenameVector("vector") == "_vector"
    ensures RenameVector(RenameVector("vector")) == "__vector"
  {
    var s := "vector";
    assert VectorMatchAt(s, 0);
    var t := "_vector";
    assert t[1..7] == Vector;
    assert VectorMatchAt(t, 1);
    assert !VectorMatchAt(t, 0) by { assert t[0] != 'v'; }
  }

  // ---------------------------------------------------------------------------
  // The whole post-processing

  /** The body text after the three rewrites, in the loader's order. */
  function ProcessBody(body: string): string
  {
    RenameVector(TrimEnd(StripNumericSuffixes(body)))
  }

  lemma {:induction false} MarkedFromEnds(s: string, i: nat)
    requires i < |s|
    ensures MarkedFrom(s, i) != [] && MarkedFrom(s, i)[|MarkedFrom(s, i)| - 1] == s[|s| - 1]
    decreases |s| - i
  {
    if i + 1 < |s| {
      MarkedFromEnds(s, i + 1);
    }
  }

  /**
    The processed body never ends in a newline, carriage return or space:
    renaming after trimming keeps the last character.
  */
  lemma ProcessBodyEndsTrimmed(body: string)
    ensures var r := ProcessBody(body); r == [] || !IsTrimmed(r[|r| - 1])
  {
    var t := TrimEnd(StripNumericSuffixes(body));
    RenameVectorMarksMatches(t);
    if t != [] {
      MarkedFromEnds(t, 0);
    }
  }
}
