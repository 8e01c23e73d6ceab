/** The line re-joining step applied to extracted article text: the
    substitution `(\w|[*_])\n(?![\n\s-])` -> `\1 `, which turns a line
    break that ends inside a sentence into a space while keeping blank
    lines and list items. */
module Dewrapping {

  import opened Text

  /** The capture group `(\w|[*_])`. */
  predicate IsWrapChar(c: char)
  {
    IsWordChar(c) || c == '*' || c == '_'
  }

  /** The character class `[\n\s-]` of the negative lookahead. */
  predicate KeepsBreak(c: char)
  {
    c == '\n' || IsSpace(c) || c == '-'
  }

  /** The pattern matches at `p`: a word character, `*` or `_`, then a
      newline that is followed by nothing or by a character outside the
      lookahead class. */
  predicate SoftBreakAt(s: string, p: int)
  {
    && 0 <= p && p + 1 < |s|
    && IsWrapChar(s[p])
    && s[p + 1] == '\n'
    && (p + 2 == |s| || !KeepsBreak(s[p + 2]))
  }

  /** `re.sub` from position `p` on: scan left to right, and at each match
      emit the captured character and a space and resume after the
      newline. */
  function SubstituteFrom(s: string, p: nat): (r: string)
    requires p <= |s|
    decreases |s| - p
    ensures |r| == |s| - p
  {
    if p == |s| then []
    else if SoftBreakAt(s, p) then [s[p], ' '] + SubstituteFrom(s, p + 2)
    else [s[p]] + SubstituteFrom(s, p + 1)
  }

  /** The substitution applied to a whole text. */
  function Dewrap(s: string): (r: string)
    ensures |r| == |s|
    ensures forall i :: 0 <= i < |s| ==> r[i] == JoinedAt(s, i)
  {
    SubstituteFromIsPointwise(s, 0);
    SubstituteFrom(s, 0)
  }

  /** Reference definition, one position at a time: a newline becomes a
      space exactly when the pattern matches on the character before it;
      every other character stays. */
  function JoinedAt(s: string, i: int): char
    requires 0 <= i < |s|
  {
    if i > 0 && SoftBreakAt(s, i - 1) then ' ' else s[i]
  }

  /** Matches never overlap: a match ends on a newline, which cannot start
      one. */
  lemma NoOverlap(s: string, p: int)
    requires SoftBreakAt(s, p)
    ensures !SoftBreakAt(s, p + 1)
  {
  }

  /** The left-to-right scan agrees with the per-position rule from any
      position that the previous match did not consume. */
  lemma {:induction false} SubstituteFromIsPointwise(s: string, p: nat)
    requires p <= |s|
    requires p == 0 || !SoftBreakAt(s, p - 1)
    decreases |s| - p
    ensures |SubstituteFrom(s, p)| == |s| - p
    ensures forall i :: p <= i < |s| ==> SubstituteFrom(s, p)[i - p] == JoinedAt(s, i)
  {
    if p < |s| {
      var r := SubstituteFrom(s, p);
      if SoftBreakAt(s, p) {
        NoOverlap(s, p);
        SubstituteFromIsPointwise(s, p + 2);
        var rest := SubstituteFrom(s, p + 2);
        assert r == [s[p], ' '] + rest;
        forall i | p <= i < |s| ensures r[i - p] == JoinedAt(s, i) {
          if i >= p + 2 {
            assert r[i - p] == rest[i - (p + 2)];
          }
        }
      } else {
        SubstituteFromIsPointwise(s, p + 1);
        var rest := SubstituteFrom(s, p + 1);
        assert r == [s[p]] + rest;
        forall i | p <= i < |s| ensures r[i - p] == JoinedAt(s, i) {
          if i >= p + 1 {
            assert r[i - p] == rest[i - (p + 1)];
          }
        }
      }
    }
  }

  /** The substitution preserves the length and follows the per-position
      rule. */
  lemma DewrapIsPointwise(s: string)
    ensures |Dewrap(s)| == |s|
    ensures forall i :: 0 <= i < |s| ==> Dewrap(s)[i] == JoinedAt(s, i)
  {
    SubstituteFromIsPointwise(s, 0);
  }

  /** Only newlines change, only into spaces, and exactly those that end a
      soft break. */
  lemma DewrapOnlyJoinsLines(s: string)
    ensures |Dewrap(s)| == |s|
    ensures forall i :: 0 <= i < |s| && Dewrap(s)[i] != s[i] ==> s[i] == '\n' && Dewrap(s)[i] == ' '
    ensures forall i :: 0 < i < |s| ==>
      (s[i] == '\n' && Dewrap(s)[i] == ' ' <==>
        IsWrapChar(s[i - 1]) && s[i] == '\n' && (i + 1 == |s| || !KeepsBreak(s[i + 1])))
  {
    DewrapIsPointwise(s);
    var r := Dewrap(s);
    forall i | 0 < i < |s|
      ensures s[i] == '\n' && r[i] == ' ' <==>
        IsWrapChar(s[i - 1]) && s[i] == '\n' && (i + 1 == |s| || !KeepsBreak(s[i + 1]))
    {
      assert r[i] == JoinedAt(s, i);
    }
  }

  /** A blank line (two newlines in a row) survives. */
  lemma DewrapKeepsParagraphs(s: string, i: int)
    requires 0 <= i && i + 1 < |s| && s[i] == '\n' && s[i + 1] == '\n'
    ensures Dewrap(s)[i] == '\n' && Dewrap(s)[i + 1] == '\n'
  {
    DewrapIsPointwise(s);
    assert Dewrap(s)[i] == JoinedAt(s, i);
    assert Dewrap(s)[i + 1] == JoinedAt(s, i + 1);
  }

  /** A line break before a list item (`-`) survives. */
  lemma DewrapKeepsListItems(s: string, i: int)
    requires 0 <= i && i + 1 < |s| && s[i] == '\n' && s[i + 1] == '-'
    ensures Dewrap(s)[i] == '\n'
  {
    DewrapIsPointwise(s);
    assert Dewrap(s)[i] == JoinedAt(s, i);
  }

  /** A wrapped line is joined: `"a\nb"` becomes `"a b"`. */
  lemma DewrapJoinsExample()
    ensures Dewrap("a\nb") == "a b"
  {
    var s := "a\nb";
    DewrapIsPointwise(s);
    var r := Dewrap(s);
    assert r[0] == JoinedAt(s, 0) && r[1] == JoinedAt(s, 1) && r[2] == JoinedAt(s, 2);
    assert SoftBreakAt(s, 0);
    assert !SoftBreakAt(s, 1);
  }

  /** After the substitution no match is left. */
  lemma DewrapLeavesNoMatch(s: string, p: int)
    ensures !SoftBreakAt(Dewrap(s), p)
  {
    DewrapIsPointwise(s);
    var r := Dewrap(s);
    if 0 <= p && p + 1 < |r| && IsWrapChar(r[p]) && r[p + 1] == '\n' {
      assert r[p] == JoinedAt(s, p);
      assert r[p + 1] == JoinedAt(s, p + 1);
      // both characters are unchanged, so the break was one the pattern
      // rejected because of the character after it
      assert !SoftBreakAt(s, p);
      assert p + 2 < |s| && KeepsBreak(s[p + 2]);
      assert r[p + 2] == JoinedAt(s, p + 2);
    }
  }

  /** Applying the substitution twice is the same as applying it once. */
  lemma DewrapIdempotent(s: string)
    ensures Dewrap(Dewrap(s)) == Dewrap(s)
  {
    var r := Dewrap(s);
    DewrapIsPointwise(s);
    DewrapIsPointwise(r);
    forall i | 0 <= i < |r| ensures Dewrap(r)[i] == r[i] {
      assert Dewrap(r)[i] == JoinedAt(r, i);
      if i > 0 {
        DewrapLeavesNoMatch(s, i - 1);
      }
    }
  }
}
