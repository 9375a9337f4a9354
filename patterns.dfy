/**
 * The two regular expressions that the account form's submit handler applies
 * (Regex.IsMatch with default options), written as recognisers over character
 * sequences:
 *
 *   username   ^[a-zA-Z0-9_-]{4,12}$
 *   email      ^\w+([-+.]\w+)*@\w+([-.]\w+)*\.\w+([-.]\w+)*$
 *
 * Each recogniser follows the structure of its pattern (a counted character
 * class; word runs joined by single separators; a concatenation matched by
 * choosing a split point), and each is tied by a lemma to a declarative
 * description of the strings it accepts.
 *
 * `\w` is taken to be the ASCII class [A-Za-z0-9_].  The anchor `$` is given
 * its .NET meaning: without RegexOptions.Multiline it matches at the very end
 * of the input and also just before a final '\n'.
 */
module Patterns {

  const Newline: char := '\n'

  predicate IsAsciiLetter(c: char) { 'a' <= c <= 'z' || 'A' <= c <= 'Z' }

  predicate IsAsciiDigit(c: char) { '0' <= c <= '9' }

  /** The username character class [a-zA-Z0-9_-]. */
  predicate IsUsernameChar(c: char) {
    IsAsciiLetter(c) || IsAsciiDigit(c) || c == '_' || c == '-'
  }

  /** The word class \w, restricted to ASCII. */
  predicate IsWordChar(c: char) { IsAsciiLetter(c) || IsAsciiDigit(c) || c == '_' }

  /** The separator class [-+.] of the part before the '@'. */
  const LocalSeparators: set<char> := {'-', '+', '.'}

  /** The separator class [-.] of the part after the '@'. */
  const DomainSeparators: set<char> := {'-', '.'}

  /** Every non-word character an accepted email may contain. */
  const EmailPunctuation: set<char> := {'-', '+', '.', '@'}

  /** The input as `$` sees it: one final '\n', if present, is not part of the match. */
  function DropFinalNewline(s: string): string {
    if |s| > 0 && s[|s| - 1] == Newline then s[..|s| - 1] else s
  }

  // ---------------------------------------------------------------------------
  // ^[a-zA-Z0-9_-]{4,12}$
  // ---------------------------------------------------------------------------

  /**
   * `[a-zA-Z0-9_-]{lo,hi}` over the whole of s, consuming one character per
   * repetition as the regex engine counts them: the input may end once at
   * least lo repetitions are done, and at most hi are allowed.
   */
  predicate RepeatUsernameChar(s: string, lo: nat, hi: nat)
    decreases |s|
  {
    if s == [] then lo == 0
    else hi > 0 && IsUsernameChar(s[0])
         && RepeatUsernameChar(s[1..], if lo == 0 then 0 else lo - 1, hi - 1)
  }

  /** Regex.IsMatch(s, "^[a-zA-Z0-9_-]{4,12}$"). */
  predicate UsernameMatches(s: string) {
    RepeatUsernameChar(s, 4, 12)
    || (|s| > 0 && s[|s| - 1] == Newline && RepeatUsernameChar(s[..|s| - 1], 4, 12))
  }

  /** What the username rule asks for: 4 to 12 characters, each a letter, a digit, '_' or '-'. */
  predicate UsernameShape(s: string) {
    4 <= |s| <= 12 && forall i :: 0 <= i < |s| ==> IsUsernameChar(s[i])
  }

  /** A counted repetition of the class accepts exactly the strings of the right length drawn from the class. */
  lemma {:induction false} RepeatUsernameCharIff(s: string, lo: nat, hi: nat)
    ensures RepeatUsernameChar(s, lo, hi)
            <==> lo <= |s| <= hi && forall i :: 0 <= i < |s| ==> IsUsernameChar(s[i])
    decreases |s|
  {
    if s != [] {
      var lo', hi' := if lo == 0 then 0 else lo - 1, if hi == 0 then 0 else hi - 1;
      RepeatUsernameCharIff(s[1..], lo', hi');
      assert forall i :: 0 < i < |s| ==> s[i] == s[1..][i - 1];
    }
  }

  /** The username pattern accepts s exactly when s, less one final '\n', has the username shape. */
  lemma UsernameMatchesIff(s: string)
    ensures UsernameMatches(s) <==> UsernameShape(DropFinalNewline(s))
  {
    RepeatUsernameCharIff(s, 4, 12);
    if |s| > 0 && s[|s| - 1] == Newline {
      RepeatUsernameCharIff(s[..|s| - 1], 4, 12);
      assert !IsUsernameChar(s[|s| - 1]);
    }
  }

  // ---------------------------------------------------------------------------
  // ^\w+([-+.]\w+)*@\w+([-.]\w+)*\.\w+([-.]\w+)*$
  // ---------------------------------------------------------------------------

  /** `\w+([S]\w+)*` over the whole of s, for the separator class S = seps. */
  predicate WordRuns(s: string, seps: set<char>)
    decreases |s|
  {
    |s| > 0 && IsWordChar(s[0]) && WordRunsRest(s[1..], seps)
  }

  /** What may follow the first word character in WordRuns: `\w*([S]\w+)*`. */
  predicate WordRunsRest(t: string, seps: set<char>)
    decreases |t|
  {
    t == []
    || (IsWordChar(t[0]) && WordRunsRest(t[1..], seps))
    || (t[0] in seps && WordRuns(t[1..], seps))
  }

  /** Every character is a word character or one of seps, and no two non-word characters are side by side. */
  predicate WordsAndSeparators(s: string, seps: set<char>) {
    (forall i :: 0 <= i < |s| ==> IsWordChar(s[i]) || s[i] in seps)
    && (forall i :: 0 < i < |s| ==> IsWordChar(s[i - 1]) || IsWordChar(s[i]))
  }

  /** Word characters joined by single separators from seps: begins and ends with a word character. */
  predicate Joined(s: string, seps: set<char>) {
    |s| > 0 && IsWordChar(s[0]) && IsWordChar(s[|s| - 1]) && WordsAndSeparators(s, seps)
  }

  /** The tail of a word run, described declaratively. */
  lemma {:induction false} WordRunsRestIff(t: string, seps: set<char>)
    ensures WordRunsRest(t, seps)
            <==> (t == [] || IsWordChar(t[|t| - 1])) && WordsAndSeparators(t, seps)
    decreases |t|
  {
    if t != [] {
      WordRunsRestIff(t[1..], seps);
      assert forall i :: 0 < i < |t| ==> t[i] == t[1..][i - 1];
      if |t| > 1 {
        WordRunsRestIff(t[2..], seps);
        assert forall i :: 1 < i < |t| ==> t[i] == t[2..][i - 2];
      }
    }
  }

  /** `\w+([S]\w+)*` accepts exactly the strings Joined describes. */
  lemma WordRunsIffJoined(s: string, seps: set<char>)
    ensures WordRuns(s, seps) <==> Joined(s, seps)
  {
    if |s| > 0 {
      WordRunsRestIff(s[1..], seps);
      assert forall i :: 0 < i < |s| ==> s[i] == s[1..][i - 1];
    }
  }

  /**
   * `\w+([-.]\w+)*\.\w+([-.]\w+)*`: the concatenation matches d when some '.'
   * splits d into two halves that each match `\w+([-.]\w+)*`.
   */
  predicate DomainMatches(d: string) {
    exists j :: 0 <= j < |d| && d[j] == '.'
                && WordRuns(d[..j], DomainSeparators) && WordRuns(d[j + 1..], DomainSeparators)
  }

  /** `\w+([-+.]\w+)*@` followed by the domain pattern, over the whole of s. */
  predicate EmailBodyMatches(s: string) {
    exists k :: 0 <= k < |s| && s[k] == '@'
                && WordRuns(s[..k], LocalSeparators) && DomainMatches(s[k + 1..])
  }

  /** Regex.IsMatch(s, @"^\w+([-+.]\w+)*@\w+([-.]\w+)*\.\w+([-.]\w+)*$"). */
  predicate EmailMatches(s: string) {
    EmailBodyMatches(s)
    || (|s| > 0 && s[|s| - 1] == Newline && EmailBodyMatches(s[..|s| - 1]))
  }

  /** Joining two joined halves around one separator gives a joined whole. */
  lemma JoinAround(a: string, c: char, b: string, seps: set<char>)
    requires Joined(a, seps) && Joined(b, seps) && c in seps
    ensures Joined(a + [c] + b, seps)
  {
    var s := a + [c] + b;
    assert forall i :: 0 <= i < |a| ==> s[i] == a[i];
    assert s[|a|] == c;
    assert forall i :: |a| < i < |s| ==> s[i] == b[i - |a| - 1];
  }

  /** Cutting a joined string at a separator leaves two joined halves. */
  lemma SplitAt(s: string, j: int, seps: set<char>)
    requires Joined(s, seps) && 0 <= j < |s| && !IsWordChar(s[j])
    ensures 0 < j < |s| - 1
    ensures Joined(s[..j], seps) && Joined(s[j + 1..], seps)
  {
    assert IsWordChar(s[j - 1]);
    assert IsWordChar(s[j + 1]);
    assert forall i :: j < i < |s| ==> s[i] == s[j + 1..][i - j - 1];
  }

  /** The domain pattern accepts exactly the joined strings over [-.] that contain a '.'. */
  lemma DomainMatchesIff(d: string)
    ensures DomainMatches(d) <==> Joined(d, DomainSeparators) && '.' in d
  {
    if DomainMatches(d) {
      var j :| 0 <= j < |d| && d[j] == '.'
               && WordRuns(d[..j], DomainSeparators) && WordRuns(d[j + 1..], DomainSeparators);
      WordRunsIffJoined(d[..j], DomainSeparators);
      WordRunsIffJoined(d[j + 1..], DomainSeparators);
      JoinAround(d[..j], '.', d[j + 1..], DomainSeparators);
      assert d[..j] + ['.'] + d[j + 1..] == d;
    }
    if Joined(d, DomainSeparators) && '.' in d {
      var j :| 0 <= j < |d| && d[j] == '.';
      SplitAt(d, j, DomainSeparators);
      WordRunsIffJoined(d[..j], DomainSeparators);
      WordRunsIffJoined(d[j + 1..], DomainSeparators);
    }
  }

  /** An email split at its '@' into a joined local part and a joined, dotted domain. */
  predicate EmailShape(s: string) {
    exists k :: 0 <= k < |s| && s[k] == '@'
                && Joined(s[..k], LocalSeparators)
                && Joined(s[k + 1..], DomainSeparators) && '.' in s[k + 1..]
  }

  /** The email pattern, before its `$`, accepts exactly the strings of EmailShape. */
  lemma EmailBodyMatchesIff(s: string)
    ensures EmailBodyMatches(s) <==> EmailShape(s)
  {
    if EmailBodyMatches(s) {
      var k :| 0 <= k < |s| && s[k] == '@'
               && WordRuns(s[..k], LocalSeparators) && DomainMatches(s[k + 1..]);
      WordRunsIffJoined(s[..k], LocalSeparators);
      DomainMatchesIff(s[k + 1..]);
    }
    if EmailShape(s) {
      var k :| 0 <= k < |s| && s[k] == '@'
               && Joined(s[..k], LocalSeparators)
               && Joined(s[k + 1..], DomainSeparators) && '.' in s[k + 1..];
      WordRunsIffJoined(s[..k], LocalSeparators);
      DomainMatchesIff(s[k + 1..]);
    }
  }

  /**
   * The layout of an accepted email, character by character: it begins and
   * ends with a word character; every other character is a word character or
   * one of - + . @; no two non-word characters are side by side (so no two
   * separators are adjacent and no separator touches the '@'); there is
   * exactly one '@'; some '.' follows it and no '+' does.
   */
  predicate EmailLayout(s: string) {
    |s| > 0 && IsWordChar(s[0]) && IsWordChar(s[|s| - 1])
    && WordsAndSeparators(s, EmailPunctuation)
    && exists k :: 0 <= k < |s| && s[k] == '@'
                   && (forall i :: 0 <= i < |s| && s[i] == '@' ==> i == k)
                   && (exists j :: k < j < |s| && s[j] == '.')
                   && (forall j :: k < j < |s| ==> s[j] != '+')
  }

  /** A string split as EmailShape describes has the email layout. */
  lemma ShapeGivesLayout(s: string, k: int)
    requires 0 <= k < |s| && s[k] == '@'
    requires Joined(s[..k], LocalSeparators)
    requires Joined(s[k + 1..], DomainSeparators) && '.' in s[k + 1..]
    ensures EmailLayout(s)
  {
    var a, b := s[..k], s[k + 1..];
    assert forall i :: 0 <= i < k ==> s[i] == a[i];
    assert forall i :: k < i < |s| ==> s[i] == b[i - k - 1];
    assert WordsAndSeparators(s, EmailPunctuation);
    var j' :| 0 <= j' < |b| && b[j'] == '.';
    assert s[k + 1 + j'] == '.';
    assert forall i :: 0 <= i < |s| && s[i] == '@' ==> i == k;
  }

  /** A string with the email layout splits at its '@' as EmailShape describes. */
  lemma LayoutGivesShape(s: string, k: int)
    requires |s| > 0 && IsWordChar(s[0]) && IsWordChar(s[|s| - 1])
    requires WordsAndSeparators(s, EmailPunctuation)
    requires 0 <= k < |s| && s[k] == '@'
    requires forall i :: 0 <= i < |s| && s[i] == '@' ==> i == k
    requires exists j :: k < j < |s| && s[j] == '.'
    requires forall j :: k < j < |s| ==> s[j] != '+'
    ensures Joined(s[..k], LocalSeparators)
    ensures Joined(s[k + 1..], DomainSeparators) && '.' in s[k + 1..]
  {
    var j :| k < j < |s| && s[j] == '.';
    assert !IsWordChar(s[k]);
    assert IsWordChar(s[k - 1]) && IsWordChar(s[k + 1]);
    var a, b := s[..k], s[k + 1..];
    assert forall i :: 0 <= i < |a| ==> a[i] == s[i];
    assert forall i :: 0 <= i < |b| ==> b[i] == s[k + 1 + i];
    assert b[j - k - 1] == '.';
  }

  /** EmailShape and EmailLayout describe the same strings. */
  lemma EmailShapeIffLayout(s: string)
    ensures EmailShape(s) <==> EmailLayout(s)
  {
    if EmailShape(s) {
      var k :| 0 <= k < |s| && s[k] == '@'
               && Joined(s[..k], LocalSeparators)
               && Joined(s[k + 1..], DomainSeparators) && '.' in s[k + 1..];
      ShapeGivesLayout(s, k);
    }
    if EmailLayout(s) {
      var k :| 0 <= k < |s| && s[k] == '@'
               && (forall i :: 0 <= i < |s| && s[i] == '@' ==> i == k)
               && (exists j :: k < j < |s| && s[j] == '.')
               && (forall j :: k < j < |s| ==> s[j] != '+');
      LayoutGivesShape(s, k);
    }
  }

  /** The whole email pattern, `$` included, accepts s exactly when s less one final '\n' has the email layout. */
  lemma EmailMatchesIff(s: string)
    ensures EmailMatches(s) <==> EmailLayout(DropFinalNewline(s))
  {
    EmailBodyMatchesIff(s);
    EmailShapeIffLayout(s);
    if |s| > 0 && s[|s| - 1] == Newline {
      EmailBodyMatchesIff(s[..|s| - 1]);
      EmailShapeIffLayout(s[..|s| - 1]);
    }
  }
}
