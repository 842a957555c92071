/**
 * Day 5: classifying the lines of a
 * text file as nice or naughty under two rule sets. Each line is classified
 * as read, trailing newline included.
 */
module NaughtyOrNice {

  // ---------------------------------------------------------------------------
  // First rule set
  // ---------------------------------------------------------------------------

  predicate IsVowel(c: char) {
    c in {'a', 'e', 'i', 'o', 'u'}
  }

  /** How many characters of `s` are vowels. */
  function VowelCount(s: string): (n: nat)
    ensures n <= |s|
  {
    if s == [] then 0 else VowelCount(s[..|s| - 1]) + (if IsVowel(s[|s| - 1]) then 1 else 0)
  }

  /** The vowel count is the number of occurrences of each of the five vowels, added up. */
  lemma {:induction false} VowelCountOccurrences(s: string)
    ensures VowelCount(s) == multiset(s)['a'] + multiset(s)['e'] + multiset(s)['i'] + multiset(s)['o'] + multiset(s)['u']
  {
    if s != [] {
      var init, last := s[..|s| - 1], s[|s| - 1];
      assert s == init + [last];
      assert multiset(s) == multiset(init) + multiset{last};
      VowelCountOccurrences(init);
    }
  }

  /** A prefix has no more vowels than the whole string. */
  lemma {:induction false} VowelCountPrefix(s: string, k: nat)
    requires k <= |s|
    ensures VowelCount(s[..k]) <= VowelCount(s)
  {
    if k < |s| {
      assert s[..|s| - 1][..k] == s[..k];
      VowelCountPrefix(s[..|s| - 1], k);
    } else {
      assert s[..k] == s;
    }
  }

  /** Some letter appears twice in a row. */
  predicate HasDoubleLetter(s: string) {
    exists i :: 0 <= i < |s| - 1 && s[i] == s[i + 1]
  }

  const NaughtySubstrings: set<string> := {"ab", "cd", "pq", "xy"}

  /** The two characters starting at `i` form a forbidden string. */
  predicate NaughtyAt(s: string, i: int) {
    0 <= i < |s| - 1 && s[i..i + 2] in NaughtySubstrings
  }

  /** One of the forbidden two-letter strings occurs in `s`. */
  predicate HasNaughtySubstring(s: string) {
    exists i :: 0 <= i < |s| - 1 && NaughtyAt(s, i)
  }

  /** The first rule set: three vowels, a double letter and no forbidden pair. */
  predicate Nice(s: string) {
    VowelCount(s) >= 3 && HasDoubleLetter(s) && !HasNaughtySubstring(s)
  }

  /** `check_vowels`: counts vowels and stops as soon as the third one is seen. */
  method CheckVowels(s: string) returns (nice: bool)
    ensures nice <==> VowelCount(s) >= 3
  {
    var vowelCount := 0;
    for i := 0 to |s|
      invariant vowelCount == VowelCount(s[..i]) < 3
    {
      assert s[..i + 1][..i] == s[..i];
      if IsVowel(s[i]) {
        vowelCount := vowelCount + 1;
      }
      if vowelCount == 3 {
        VowelCountPrefix(s, i + 1);
        return true;
      }
    }
    assert s[..|s|] == s;
    return false;
  }

  /** `check_double_letter`: scans adjacent pairs for two equal characters. */
  method CheckDoubleLetter(s: string) returns (found: bool)
    ensures found <==> HasDoubleLetter(s)
  {
    for i := 0 to if |s| < 1 then 0 else |s| - 1
      invariant forall k :: 0 <= k < i ==> s[k] != s[k + 1]
    {
      if s[i] == s[i + 1] {
        return true;
      }
    }
    return false;
  }

  /** `check_no_naughty_substrings`: true when no adjacent pair is forbidden. */
  method CheckNoNaughtySubstrings(s: string) returns (clean: bool)
    ensures clean <==> !HasNaughtySubstring(s)
  {
    for i := 0 to if |s| < 1 then 0 else |s| - 1
      invariant forall k :: 0 <= k < i ==> !NaughtyAt(s, k)
    {
      if s[i..i + 2] in NaughtySubstrings {
        assert NaughtyAt(s, i);
        return false;
      }
    }
    return true;
  }

  // ---------------------------------------------------------------------------
  // Counting
  // ---------------------------------------------------------------------------

  /** How many of the strings satisfy `p`. */
  function Count(ss: seq<string>, p: string -> bool): (n: nat)
    ensures n <= |ss|
  {
    if ss == [] then 0 else Count(ss[..|ss| - 1], p) + (if p(ss[|ss| - 1]) then 1 else 0)
  }

  /** Every string counts exactly when all of them satisfy `p`. */
  lemma {:induction false} CountAll(ss: seq<string>, p: string -> bool)
    ensures Count(ss, p) == |ss| <==> forall i :: 0 <= i < |ss| ==> p(ss[i])
  {
    if ss != [] {
      var init := ss[..|ss| - 1];
      CountAll(init, p);
      assert forall i :: 0 <= i < |init| ==> init[i] == ss[i];
    }
  }

  /** No string counts exactly when none of them satisfies `p`. */
  lemma {:induction false} CountNone(ss: seq<string>, p: string -> bool)
    ensures Count(ss, p) == 0 <==> forall i :: 0 <= i < |ss| ==> !p(ss[i])
  {
    if ss != [] {
      var init := ss[..|ss| - 1];
      CountNone(init, p);
      assert forall i :: 0 <= i < |init| ==> init[i] == ss[i];
    }
  }

  /** Counting is additive over the concatenation of two lists of strings. */
  lemma {:induction false} CountAppend(a: seq<string>, b: seq<string>, p: string -> bool)
    ensures Count(a + b, p) == Count(a, p) + Count(b, p)
  {
    if b == [] {
      assert a + b == a;
    } else {
      assert (a + b)[..|a + b| - 1] == a + b[..|b| - 1];
      CountAppend(a, b[..|b| - 1], p);
    }
  }

  /** `check_strings`: the number of strings that are nice under the first rule set. */
  method CheckStrings(strings: seq<string>) returns (niceCount: nat)
    ensures niceCount == Count(strings, Nice)
    ensures niceCount <= |strings|
  {
    niceCount := 0;
    for k := 0 to |strings|
      invariant niceCount == Count(strings[..k], Nice)
    {
      assert strings[..k + 1][..k] == strings[..k];
      var x := strings[k];
      // `and` evaluates its operands left to right and stops at the first false one
      var nice := CheckVowels(x);
      if nice {
        nice := CheckDoubleLetter(x);
      }
      if nice {
        nice := CheckNoNaughtySubstrings(x);
      }
      if nice {
        niceCount := niceCount + 1;
      }
    }
    assert strings[..|strings|] == strings;
  }

  // ---------------------------------------------------------------------------
  // Second rule set
  // ---------------------------------------------------------------------------

  /** The two-letter strings starting at `i` and at `j` are equal. */
  predicate SamePair(s: string, i: int, j: int) {
    0 <= i && 0 <= j && i + 2 <= |s| && j + 2 <= |s| && s[i..i + 2] == s[j..j + 2]
  }

  /**
   * The rule of the second set: some two-letter string occurs twice without the
   * two occurrences overlapping.
   */
  predicate HasRepeatPair(s: string) {
    exists i, j :: 0 <= i && i + 2 <= j && j + 2 <= |s| && SamePair(s, i, j)
  }

  /**
   * What `check_non_overlapping_repeat_pair` decides: the outer scan stops one
   * position early, so the first occurrence may not start at |s| - 4.
   */
  predicate RepeatPairAsScanned(s: string) {
    exists i, j :: 0 <= i < |s| - 4 && i + 2 <= j < |s| - 1 && SamePair(s, i, j)
  }

  /** A pair the scan finds is a genuine non-overlapping repeat. */
  lemma RepeatPairAsScannedIsRepeat(s: string)
    requires RepeatPairAsScanned(s)
    ensures HasRepeatPair(s)
  {
    var i, j :| 0 <= i < |s| - 4 && i + 2 <= j < |s| - 1 && SamePair(s, i, j);
    assert 0 <= i && i + 2 <= j && j + 2 <= |s| && SamePair(s, i, j);
  }

  /**
   * On a line as `readlines` returns it (the line's text followed by a newline
   * that does not occur in the text), the early stop loses nothing: the scan
   * decides exactly the rule for the text.
   */
  lemma RepeatPairOnLine(s: string)
    requires '\n' !in s
    ensures RepeatPairAsScanned(s + "\n") <==> HasRepeatPair(s)
  {
    var t := s + "\n";
    if RepeatPairAsScanned(t) {
      var i, j :| 0 <= i < |t| - 4 && i + 2 <= j < |t| - 1 && SamePair(t, i, j);
      // a repeat ending in the newline would need a second newline inside the text
      assert t[i + 1] == t[j + 1] && t[i + 1] != '\n';
      assert s[i..i + 2] == t[i..i + 2] && s[j..j + 2] == t[j..j + 2];
      assert SamePair(s, i, j);
    }
    if HasRepeatPair(s) {
      var i, j :| 0 <= i && i + 2 <= j && j + 2 <= |s| && SamePair(s, i, j);
      assert s[i..i + 2] == t[i..i + 2] && s[j..j + 2] == t[j..j + 2];
      assert SamePair(t, i, j);
    }
  }

  /** Without the newline the last possible first occurrence is missed. */
  lemma RepeatPairScanMissesLastStart()
    ensures HasRepeatPair("xyxy") && !RepeatPairAsScanned("xyxy")
  {
    assert SamePair("xyxy", 0, 2);
  }

  /** Some letter repeats with exactly one letter between the two. */
  predicate HasSandwich(s: string) {
    exists i :: 0 <= i < |s| - 2 && s[i] == s[i + 2]
  }

  /** The second rule set, with the pair rule as the scan decides it. */
  predicate NiceRedux(s: string) {
    RepeatPairAsScanned(s) && HasSandwich(s)
  }

  /** `check_non_overlapping_repeat_pair`: compares each pair with every later, non-overlapping one. */
  method CheckNonOverlappingRepeatPair(s: string) returns (found: bool)
    ensures found <==> RepeatPairAsScanned(s)
  {
    var i := 0;
    while i < |s| - 4
      invariant 0 <= i <= if |s| < 4 then 0 else |s| - 4
      invariant forall i', j' :: 0 <= i' < i && i' + 2 <= j' < |s| - 1 ==> !SamePair(s, i', j')
    {
      var pair := s[i..i + 2];
      var j := i + 2;
      while j < |s| - 1
        invariant i + 2 <= j <= |s| - 1
        invariant forall j' :: i + 2 <= j' < j ==> !SamePair(s, i, j')
      {
        if s[j..j + 2] == pair {
          assert SamePair(s, i, j);
          return true;
        }
        j := j + 1;
      }
      i := i + 1;
    }
    return false;
  }

  /**
   * `check_sandwich`: scans for a letter equal to the one two places on. Where
   * the source falls off the end and yields `None`, the model yields false.
   */
  method CheckSandwich(s: string) returns (found: bool)
    ensures found <==> HasSandwich(s)
  {
    for i := 0 to if |s| < 2 then 0 else |s| - 2
      invariant forall k :: 0 <= k < i ==> s[k] != s[k + 2]
    {
      if s[i] == s[i + 2] {
        return true;
      }
    }
    return false;
  }

  /** `check_strings_redux`: the number of strings that are nice under the second rule set. */
  method CheckStringsRedux(strings: seq<string>) returns (niceCount: nat)
    ensures niceCount == Count(strings, NiceRedux)
    ensures niceCount <= |strings|
  {
    niceCount := 0;
    for k := 0 to |strings|
      invariant niceCount == Count(strings[..k], NiceRedux)
    {
      assert strings[..k + 1][..k] == strings[..k];
      var x := strings[k];
      var nice := CheckNonOverlappingRepeatPair(x);
      if nice {
        nice := CheckSandwich(x);
      }
      if nice {
        niceCount := niceCount + 1;
      }
    }
    assert strings[..|strings|] == strings;
  }

  /** The second rule set as intended, on a line's text without its newline. */
  predicate NiceReduxText(s: string) {
    HasRepeatPair(s) && HasSandwich(s)
  }

  /** The newline at the end of a line never completes a sandwich. */
  lemma SandwichOnLine(s: string)
    requires '\n' !in s
    ensures HasSandwich(s + "\n") <==> HasSandwich(s)
  {
    var t := s + "\n";
    if HasSandwich(t) {
      var i :| 0 <= i < |t| - 2 && t[i] == t[i + 2];
      assert t[i] != '\n';
      assert s[i] == s[i + 2];
    }
    if HasSandwich(s) {
      var i :| 0 <= i < |s| - 2 && s[i] == s[i + 2];
      assert t[i] == t[i + 2];
    }
  }

  /**
   * Over the lines of a file, each its text followed by one newline, the count
   * of the second rule set is the count of texts nice under the intended rules.
   */
  lemma {:induction false} CountReduxOnLines(texts: seq<string>, lines: seq<string>)
    requires |texts| == |lines|
    requires forall k :: 0 <= k < |lines| ==> lines[k] == texts[k] + "\n" && '\n' !in texts[k]
    ensures Count(lines, NiceRedux) == Count(texts, NiceReduxText)
  {
    if lines != [] {
      var n := |lines| - 1;
      CountReduxOnLines(texts[..n], lines[..n]);
      RepeatPairOnLine(texts[n]);
      SandwichOnLine(texts[n]);
    }
  }
}
