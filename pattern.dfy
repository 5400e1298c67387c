/**
 * The detector's one regular expression,
 *   \b(UNION|SELECT|DROP|--|' OR '|" OR ")\b   with IGNORECASE,
 * and what `search` on it answers. `\b` holds between a word character
 * (ASCII letter, digit, `_`) and a non-word character or an end of the text.
 */
module Pattern {
  import opened Strings

  predicate IsWordChar(c: char)
  {
    'a' <= c <= 'z' || 'A' <= c <= 'Z' || '0' <= c <= '9' || c == '_'
  }

  /** `\b` at position `k` (0 <= k <= |s|). */
  predicate IsBoundary(s: string, k: int)
    requires 0 <= k <= |s|
  {
    (k > 0 && IsWordChar(s[k - 1])) != (k < |s| && IsWordChar(s[k]))
  }

  /** The alternatives of the group, lower-cased; the first three are words, the rest are not. */
  const Alternatives: seq<string> := ["union", "select", "drop", "--", "' or '", "\" or \""]

  /** The whole pattern matches at `i` through alternative `alt`. */
  predicate MatchAt(s: string, i: int, alt: string)
  {
    0 <= i && i + |alt| <= |s|
    && IsBoundary(s, i) && Lower(s[i..i + |alt|]) == alt && IsBoundary(s, i + |alt|)
  }

  /** Tries the alternatives from the `a`-th on, in order, at position `i`. */
  function MatchFromAlternative(s: string, i: int, a: nat): bool
    decreases |Alternatives| - a
  {
    a < |Alternatives| && (MatchAt(s, i, Alternatives[a]) || MatchFromAlternative(s, i, a + 1))
  }

  /** Tries every start position from `i` on, left to right. */
  function SearchFrom(s: string, i: nat): bool
    decreases |s| + 1 - i
  {
    i <= |s| && (MatchFromAlternative(s, i, 0) || SearchFrom(s, i + 1))
  }

  /**
   * `SUS_KEYWORDS.search(s)` succeeds: some alternative matches, case-insensitively,
   * between two word boundaries somewhere in `s`.
   */
  function SusKeywords(s: string): (found: bool)
    ensures found <==> exists i, a :: 0 <= a < |Alternatives| && MatchAt(s, i, Alternatives[a])
  {
    SearchFromIff(s, 0);
    SearchFrom(s, 0)
  }

  lemma {:induction false} MatchFromAlternativeIff(s: string, i: int, a: nat)
    ensures MatchFromAlternative(s, i, a) <==> exists b :: a <= b < |Alternatives| && MatchAt(s, i, Alternatives[b])
    decreases |Alternatives| - a
  {
    if a < |Alternatives| {
      MatchFromAlternativeIff(s, i, a + 1);
    }
  }

  lemma {:induction false} SearchFromIff(s: string, i: nat)
    ensures SearchFrom(s, i) <==> exists j, a :: i <= j && 0 <= a < |Alternatives| && MatchAt(s, j, Alternatives[a])
    decreases |s| + 1 - i
  {
    if i <= |s| {
      MatchFromAlternativeIff(s, i, 0);
      SearchFromIff(s, i + 1);
      if exists j, a :: i <= j && 0 <= a < |Alternatives| && MatchAt(s, j, Alternatives[a]) {
        var j, a :| i <= j && 0 <= a < |Alternatives| && MatchAt(s, j, Alternatives[a]);
        if j == i {
          assert MatchFromAlternative(s, i, 0);
        }
      }
    }
  }

  /**
   * Where an alternative's text sits at `i`, whether the pattern matches there
   * depends only on the neighbours: a word alternative (UNION, SELECT, DROP)
   * needs a non-word character or an end on both sides; `--`, `' OR '` and
   * `" OR "` need a word character directly before and directly after.
   */
  lemma MatchNeighbours(s: string, i: int, a: int)
    requires 0 <= a < |Alternatives|
    requires 0 <= i && i + |Alternatives[a]| <= |s|
    requires Lower(s[i..i + |Alternatives[a]|]) == Alternatives[a]
    ensures var n := |Alternatives[a]|;
      MatchAt(s, i, Alternatives[a]) <==>
        if a < 3 then (i == 0 || !IsWordChar(s[i - 1])) && (i + n == |s| || !IsWordChar(s[i + n]))
        else 0 < i && IsWordChar(s[i - 1]) && i + n < |s| && IsWordChar(s[i + n])
  {
    var alt := Alternatives[a];
    var n := |alt|;
    var w := Lower(s[i..i + n]);
    assert w[0] == LowerChar(s[i]) && w[n - 1] == LowerChar(s[i + n - 1]);
    LowerKeepsWordChar(s[i]);
    LowerKeepsWordChar(s[i + n - 1]);
    assert a < 3 ==> IsWordChar(alt[0]) && IsWordChar(alt[n - 1]);
    assert a >= 3 ==> !IsWordChar(alt[0]) && !IsWordChar(alt[n - 1]);
  }

  /** A match spells its alternative's first two characters, case-insensitively. */
  lemma MatchedPrefix(s: string, i: int, a: int)
    requires 0 <= a < |Alternatives| && MatchAt(s, i, Alternatives[a])
    ensures i + 1 < |s| && LowerChar(s[i]) == Alternatives[a][0] && LowerChar(s[i + 1]) == Alternatives[a][1]
  {
    var n := |Alternatives[a]|;
    assert Lower(s[i..i + n])[0] == LowerChar(s[i]);
    assert Lower(s[i..i + n])[1] == LowerChar(s[i + 1]);
  }

  lemma LowerKeepsWordChar(c: char)
    ensures IsWordChar(LowerChar(c)) == IsWordChar(c)
  {
  }

  /** A word alternative inside a longer word is not a match: UNION in "UNIONS". */
  lemma WordInsideWordIsNoMatch(s: string)
    requires s == "UNIONS"
    ensures !SusKeywords(s)
  {
    assert s[0] == 'U' && s[1] == 'N' && s[2] == 'I' && s[3] == 'O' && s[4] == 'N' && s[5] == 'S';
    forall i, a | 0 <= a < |Alternatives| && MatchAt(s, i, Alternatives[a]) ensures false {
      MatchedPrefix(s, i, a);
      if a == 0 {
        MatchNeighbours(s, i, a);
      }
    }
  }

  /**
   * A reply that echoes a UNION-based payload such as
   * "' UNION SELECT NULL, username, password FROM users --" is found: UNION stands between spaces.
   */
  lemma EchoedUnionPayloadMatches(s: string)
    requires |s| >= 8 && s[..8] == "' UNION "
    ensures SusKeywords(s)
  {
    var head := s[..8];
    assert s[1] == head[1] == ' ' && s[7] == head[7] == ' ';
    assert s[2..7] == head[2..7] == "UNION";
    assert MatchAt(s, 2, Alternatives[0]);
  }

  /** `--` after a space is not found: a word character must follow it as well as precede it. */
  lemma TrailingCommentIsNoMatch(s: string)
    requires s == "admin' --"
    ensures !SusKeywords(s)
  {
    assert s[0] == 'a' && s[1] == 'd' && s[2] == 'm' && s[3] == 'i' && s[4] == 'n';
    assert s[5] == '\'' && s[6] == ' ' && s[7] == '-' && s[8] == '-';
    forall i, a | 0 <= a < |Alternatives| && MatchAt(s, i, Alternatives[a]) ensures false {
      MatchedPrefix(s, i, a);
      if a == 3 {
        MatchNeighbours(s, i, a);
      }
    }
  }

  /** `' OR '` at the very start of the text is not found: no word character precedes it. */
  lemma LeadingOrFragmentIsNoMatch(s: string)
    requires s == "' OR '1'='1"
    ensures !SusKeywords(s)
  {
    assert s[0] == '\'' && s[1] == ' ' && s[2] == 'O' && s[3] == 'R' && s[4] == ' ' && s[5] == '\'';
    assert s[6] == '1' && s[7] == '\'' && s[8] == '=' && s[9] == '\'' && s[10] == '1';
    forall i, a | 0 <= a < |Alternatives| && MatchAt(s, i, Alternatives[a]) ensures false {
      MatchedPrefix(s, i, a);
      if a == 4 {
        MatchNeighbours(s, i, a);
      }
    }
  }

  /** With a word character before it and one after it, `' OR '` is found. */
  lemma EnclosedOrFragmentMatches(s: string)
    requires s == "x' OR '1'='1"
    ensures SusKeywords(s)
  {
    assert MatchAt(s, 1, Alternatives[4]);
  }
}
