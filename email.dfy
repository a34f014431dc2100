/** The e-mail format check of the doctor signup handler: the regular expression
    /^[^\s@]+@[^\s@]+\.[^\s@]+$/ read as a language, and the check stated as four plain
    conditions, with a proof that the two accept the same strings. */
module Email {

  /** The characters `\s` matches in a JavaScript regular expression. */
  predicate IsSpace(c: char)
  {
    || c == ' ' || c == '\t' || c == '\n' || c == '\r' || c == '\U{000B}' || c == '\U{000C}'
    || c == '\U{00A0}' || c == '\U{1680}' || ('\U{2000}' <= c <= '\U{200A}')
    || c == '\U{2028}' || c == '\U{2029}' || c == '\U{202F}' || c == '\U{205F}'
    || c == '\U{3000}' || c == '\U{FEFF}'
  }

  /** The class `[^\s@]`. */
  predicate Plain(c: char)
  {
    !IsSpace(c) && c != '@'
  }

  /** The repetition `[^\s@]+`. */
  predicate PlainRun(t: string)
  {
    |t| > 0 && forall k :: 0 <= k < |t| ==> Plain(t[k])
  }

  /** The anchored pattern: a plain run, "@", a plain run, ".", a plain run, and nothing else. */
  ghost predicate MatchesEmailPattern(s: string)
  {
    exists i, j :: 0 <= i < j < |s| && s[i] == '@' && s[j] == '.'
                   && PlainRun(s[..i]) && PlainRun(s[i + 1..j]) && PlainRun(s[j + 1..])
  }

  /** The position of the first "@", or |s| when there is none. */
  function AtIndex(s: string): (i: nat)
    ensures i <= |s|
    ensures i < |s| ==> s[i] == '@'
    ensures forall k :: 0 <= k < i ==> s[k] != '@'
  {
    if s == [] || s[0] == '@' then 0 else 1 + AtIndex(s[1..])
  }

  /** The check as four conditions: no whitespace; exactly one "@"; something before it;
      and, after it, a "." that is neither the first nor the last character. */
  predicate ValidEmail(s: string)
  {
    var i := AtIndex(s);
    && (forall k :: 0 <= k < |s| ==> !IsSpace(s[k]))
    && multiset(s)['@'] == 1
    && 0 < i < |s|
    && exists p :: i + 1 < p < |s| - 1 && s[p] == '.'
  }

  /** When `s` holds a single "@", at position `i`, no other position holds one. */
  lemma OnlyAt(s: string, i: nat)
    requires i < |s| && s[i] == '@' && multiset(s)['@'] == 1
    ensures forall k :: 0 <= k < |s| && k != i ==> s[k] != '@'
  {
    var before, after := s[..i], s[i + 1..];
    assert s == before + [s[i]] + after;
    assert multiset(before)['@'] == 0 && multiset(after)['@'] == 0;
    forall k | 0 <= k < |s| && k != i
      ensures s[k] != '@'
    {
      if k < i {
        assert s[k] == before[k] && before[k] in multiset(before);
      } else {
        assert s[k] == after[k - i - 1] && after[k - i - 1] in multiset(after);
      }
    }
  }

  lemma ValidEmailMatches(s: string)
    requires ValidEmail(s)
    ensures MatchesEmailPattern(s)
  {
    var i := AtIndex(s);
    var p :| i + 1 < p < |s| - 1 && s[p] == '.';
    OnlyAt(s, i);
    assert PlainRun(s[..i]);
    assert PlainRun(s[i + 1..p]);
    assert PlainRun(s[p + 1..]);
  }

  /** Every character of a match except its "@" is plain. */
  lemma PatternPartsPlain(s: string, i: nat, j: nat)
    requires i < j < |s| && s[j] == '.'
    requires PlainRun(s[..i]) && PlainRun(s[i + 1..j]) && PlainRun(s[j + 1..])
    ensures forall k :: 0 <= k < |s| && k != i ==> Plain(s[k])
  {
    forall k | 0 <= k < |s| && k != i
      ensures Plain(s[k])
    {
      if k < i {
        assert s[k] == s[..i][k];
      } else if k < j {
        assert s[k] == s[i + 1..j][k - i - 1];
      } else if j < k {
        assert s[k] == s[j + 1..][k - j - 1];
      }
    }
  }

  /** A string whose only "@" is at position `i` counts one "@" and finds it at `i`. */
  lemma SoleAt(s: string, i: nat)
    requires i < |s| && s[i] == '@'
    requires forall k :: 0 <= k < |s| && k != i ==> s[k] != '@'
    ensures multiset(s)['@'] == 1 && AtIndex(s) == i
  {
    var before, after := s[..i], s[i + 1..];
    assert s == before + [s[i]] + after;
    assert forall k :: 0 <= k < |before| ==> before[k] == s[k];
    assert forall k :: 0 <= k < |after| ==> after[k] == s[k + i + 1];
    assert '@' !in before && '@' !in after;
    assert multiset(before)['@'] == 0 && multiset(after)['@'] == 0;
  }

  lemma MatchesAreValidEmail(s: string)
    requires MatchesEmailPattern(s)
    ensures ValidEmail(s)
  {
    var i, j :| 0 <= i < j < |s| && s[i] == '@' && s[j] == '.'
                && PlainRun(s[..i]) && PlainRun(s[i + 1..j]) && PlainRun(s[j + 1..]);
    PatternPartsPlain(s, i, j);
    SoleAt(s, i);
    assert i > 0 && i + 1 < j < |s| - 1;
  }

  /** The four conditions accept exactly the strings the regular expression accepts. */
  lemma ValidEmailIsPattern(s: string)
    ensures ValidEmail(s) <==> MatchesEmailPattern(s)
  {
    if ValidEmail(s) {
      ValidEmailMatches(s);
    }
    if MatchesEmailPattern(s) {
      MatchesAreValidEmail(s);
    }
  }
}
