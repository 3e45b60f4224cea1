/** grep -F: fixed-string matching with -x (whole line) and -w (whole word), and the list of
    patterns under -v. A line is the text up to its terminator. */
module FixedMatcher {

  /** A letter, a digit or an underscore, in the C locale. */
  predicate IsWord(c: char) {
    'a' <= c <= 'z' || 'A' <= c <= 'Z' || '0' <= c <= '9' || c == '_'
  }

  predicate OccursAt(line: string, pattern: string, i: nat) {
    i + |pattern| <= |line| && line[i..i + |pattern|] == pattern
  }

  predicate EndsWord(line: string, i: nat) {
    i >= |line| || !IsWord(line[i])
  }

  predicate StartsWord(line: string, i: nat) {
    i == 0 || i > |line| || !IsWord(line[i - 1])
  }

  /** What -w asks for: an occurrence with no word character on either side. */
  predicate WordAt(line: string, pattern: string, i: nat) {
    OccursAt(line, pattern, i) && StartsWord(line, i) && EndsWord(line, i + |pattern|)
  }

  ghost predicate HasWord(line: string, pattern: string) {
    exists i: nat :: WordAt(line, pattern, i)
  }

  /** What the rescan loop accepts: it forgets the character before an occurrence that starts one
      place after the previous one. */
  predicate RescanAt(line: string, pattern: string, i: nat) {
    && OccursAt(line, pattern, i) && EndsWord(line, i + |pattern|)
    && (StartsWord(line, i) || OccursAt(line, pattern, i - 1))
  }

  ghost predicate RescanFinds(line: string, pattern: string) {
    exists i: nat :: RescanAt(line, pattern, i)
  }

  ghost predicate Matches(line: string, pattern: string, wholeLine: bool, wholeWord: bool) {
    if wholeLine then line == pattern
    else if wholeWord then RescanFinds(line, pattern)
    else exists i: nat :: OccursAt(line, pattern, i)
  }

  /** A pattern of one repeated word character, or the empty pattern. */
  predicate RepeatsWordChar(pattern: string) {
    forall j :: 0 <= j < |pattern| ==> IsWord(pattern[j]) && pattern[j] == pattern[0]
  }

  // ---------------------------------------------------------------------------

  /** `strstr`: the first occurrence at or after `from`, or -1. */
  method StrStr(line: string, pattern: string, from: nat) returns (m: int)
    requires from <= |line|
    ensures m == -1 || from <= m
    ensures m >= 0 ==> OccursAt(line, pattern, m)
    ensures forall i: nat :: from <= i && (m == -1 || i < m) ==> !OccursAt(line, pattern, i)
  {
    m := from;
    while m + |pattern| <= |line|
      invariant from <= m
      invariant forall i: nat :: from <= i < m ==> !OccursAt(line, pattern, i)
    {
      if line[m..m + |pattern|] == pattern {
        return;
      }
      m := m + 1;
    }
    m := -1;
  }

  /** The first occurrence at or after `str`, which is 0 or one place after an occurrence. */
  lemma RescanHere(line: string, pattern: string, str: nat, m: nat)
    requires str <= m && OccursAt(line, pattern, m) && (str > 0 ==> OccursAt(line, pattern, str - 1))
    requires forall i: nat :: str <= i < m ==> !OccursAt(line, pattern, i)
    ensures m <= |line| && m + |pattern| <= |line| && (m == |line| ==> m == str && pattern == "")
    ensures RescanAt(line, pattern, m) <==>
      (m == str || !IsWord(line[m - 1])) && (m + |pattern| == |line| || !IsWord(line[m + |pattern|]))
    ensures forall i: nat :: str <= i < m ==> !RescanAt(line, pattern, i)
  {
    if m == |line| && str < m {
      assert OccursAt(line, pattern, str);
    }
  }

  /** The -F branch for one pattern. */
  method MatchFixed(line: string, pattern: string, wholeLine: bool, wholeWord: bool) returns (found: bool)
    ensures found <==> Matches(line, pattern, wholeLine, wholeWord)
  {
    hide OccursAt, RescanAt, IsWord;
    var str := 0;
    while true
      invariant str <= |line|
      invariant str > 0 ==> !wholeLine && wholeWord && OccursAt(line, pattern, str - 1)
      invariant forall i: nat :: i < str ==> !RescanAt(line, pattern, i)
      decreases |line| - str
    {
      var m := StrStr(line, pattern, str);
      if m == -1 {
        NoOccurrence(line, pattern, str);
        return false;
      }
      RescanHere(line, pattern, str, m);
      if wholeLine {
        WholeLine(line, pattern, m);
        return m == str && str + |pattern| == |line|;
      }
      if wholeWord {
        var c := if m != str then line[m - 1] else ' ';
        NotWord();
        if !IsWord(c) {
          if m + |pattern| == |line| || !IsWord(line[m + |pattern|]) {
            return true;
          }
        }
        str := m + 1;
      } else {
        return true;
      }
    }
  }

  lemma NotWord()
    ensures !IsWord(' ')
  {
  }

  /** A line equal to the pattern is an occurrence at 0, the first there can be. */
  lemma WholeLine(line: string, pattern: string, m: nat)
    requires OccursAt(line, pattern, m) && forall i: nat :: i < m ==> !OccursAt(line, pattern, i)
    ensures line == pattern <==> m == 0 && |pattern| == |line|
  {
    if line == pattern {
      assert OccursAt(line, pattern, 0);
    }
  }

  lemma NoOccurrence(line: string, pattern: string, str: nat)
    requires forall i: nat :: str <= i ==> !OccursAt(line, pattern, i)
    ensures forall i: nat :: str <= i ==> !RescanAt(line, pattern, i)
    ensures str == 0 ==> line != pattern
  {
    if str == 0 && line == pattern {
      assert OccursAt(line, pattern, 0);
    }
  }

  /** The loop over the pattern list, then `found ^ invert_search`. */
  method SelectLine(patterns: seq<string>, line: string, wholeLine: bool, wholeWord: bool, invert: bool)
    returns (selected: bool)
    ensures selected <==> ((exists p :: p in patterns && Matches(line, p, wholeLine, wholeWord)) != invert)
  {
    var found := false;
    var k := 0;
    while k < |patterns|
      invariant k <= |patterns|
      invariant found <==> exists p :: p in patterns[..k] && Matches(line, p, wholeLine, wholeWord)
    {
      var hit := MatchFixed(line, patterns[k], wholeLine, wholeWord);
      if hit {
        found := true;
      }
      assert patterns[..k + 1] == patterns[..k] + [patterns[k]];
      if found && !invert {
        return true;
      }
      k := k + 1;
    }
    assert patterns[..k] == patterns;
    selected := found != invert;
  }

  // ---------------------------------------------------------------------------

  /** The rescan loop never misses a bounded occurrence. */
  lemma RescanNeverMisses(line: string, pattern: string)
    requires HasWord(line, pattern)
    ensures RescanFinds(line, pattern)
  {
    var i: nat :| WordAt(line, pattern, i);
    assert RescanAt(line, pattern, i);
  }

  /** Two occurrences one place apart make the pattern one repeated character. */
  lemma OverlapRepeats(line: string, pattern: string, i: nat)
    requires i > 0 && OccursAt(line, pattern, i - 1) && OccursAt(line, pattern, i)
    ensures forall j :: 0 <= j < |pattern| ==> pattern[j] == pattern[0]
    ensures pattern != [] ==> line[i - 1] == pattern[0]
  {
    forall j | 0 <= j < |pattern| - 1
      ensures pattern[j] == pattern[j + 1]
    {
      assert line[i..i + |pattern|][j] == line[i - 1..i - 1 + |pattern|][j + 1];
    }
    Constant(pattern, |pattern|);
    if pattern != [] {
      assert line[i - 1..i - 1 + |pattern|][0] == pattern[0];
    }
  }

  lemma {:induction false} Constant(s: string, n: nat)
    requires n <= |s| && forall j :: 0 <= j < |s| - 1 ==> s[j] == s[j + 1]
    ensures forall j :: 0 <= j < n ==> s[j] == s[0]
  {
    if n > 1 {
      Constant(s, n - 1);
      assert s[n - 2] == s[n - 1];
    }
  }

  /** On the line `c...c`, one character longer than the pattern, the loop reports a match that
      is not bounded. */
  lemma RescanMisreports(pattern: string, line: string)
    requires RepeatsWordChar(pattern)
    requires line == if pattern == [] then "a" else pattern + [pattern[0]]
    ensures RescanFinds(line, pattern) && !HasWord(line, pattern)
  {
    var c := line[0];
    assert forall j :: 0 <= j < |line| ==> line[j] == c && IsWord(c);
    assert line[0..|pattern|] == pattern && line[1..1 + |pattern|] == pattern;
    assert RescanAt(line, pattern, 1);
  }

  /** -F -w is right on every line exactly for the patterns that are not one repeated word
      character. */
  lemma RescanExactIff(pattern: string)
    ensures (forall line :: RescanFinds(line, pattern) <==> HasWord(line, pattern)) <==> !RepeatsWordChar(pattern)
  {
    if RepeatsWordChar(pattern) {
      RescanMisreports(pattern, if pattern == [] then "a" else pattern + [pattern[0]]);
    } else {
      forall line
        ensures RescanFinds(line, pattern) <==> HasWord(line, pattern)
      {
        if HasWord(line, pattern) {
          RescanNeverMisses(line, pattern);
        }
        if RescanFinds(line, pattern) {
          var i: nat :| RescanAt(line, pattern, i);
          if !StartsWord(line, i) {
            OverlapRepeats(line, pattern, i);
          }
          assert WordAt(line, pattern, i);
        }
      }
    }
  }
}
