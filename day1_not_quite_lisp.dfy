/**
 * Day 1, "Not Quite Lisp": Santa follows a string of parentheses through an
 * infinitely tall building, starting on floor 0.
 */
module NotQuiteLisp {
  import opened Wrappers

  /** '(' goes up one floor; every other character (')', and a stray newline too) goes down one. */
  function Step(c: char): int {
    if c == '(' then 1 else -1
  }

  /** The floor reached after following every character of `s`, starting from floor 0. */
  function Floor(s: string): int {
    if s == [] then 0 else Floor(s[..|s| - 1]) + Step(s[|s| - 1])
  }

  /** The floor is the number of '(' minus the number of all other characters. */
  lemma {:induction false} FloorCountsParentheses(s: string)
    ensures Floor(s) == multiset(s)['('] - (|s| - multiset(s)['('])
  {
    if s != [] {
      var init, last := s[..|s| - 1], s[|s| - 1];
      assert s == init + [last];
      assert multiset(s) == multiset(init) + multiset{last};
      FloorCountsParentheses(init);
    }
  }

  /** Starting at floor 0 with steps of one, the building's floors go down through -1 before any lower floor. */
  lemma {:induction false} BelowGroundPassesMinusOne(s: string, m: nat)
    requires m <= |s| && Floor(s[..m]) < 0
    ensures exists j :: 0 < j <= m && Floor(s[..j]) == -1
  {
    assert s[..0] == [];
    if Floor(s[..m - 1]) < 0 {
      BelowGroundPassesMinusOne(s, m - 1);
    } else {
      assert s[..m][..m - 1] == s[..m - 1];
      assert Floor(s[..m]) == -1;
    }
  }

  /** `find_floor_number`: the floor at the end of the instructions. */
  method FindFloorNumber(directions: string) returns (floor: int)
    ensures floor == Floor(directions)
    ensures floor == multiset(directions)['('] - (|directions| - multiset(directions)['('])
  {
    floor := 0;
    for i := 0 to |directions|
      invariant floor == Floor(directions[..i])
    {
      assert directions[..i + 1][..i] == directions[..i];
      if directions[i] == '(' {
        floor := floor + 1;
      } else {
        floor := floor - 1;
      }
    }
    assert directions[..|directions|] == directions;
    FloorCountsParentheses(directions);
  }

  /**
   * `find_first_basement_time`: the 1-based position of the first character
   * that takes Santa to floor -1, or `None` if that floor is never reached.
   */
  method FindFirstBasementTime(directions: string) returns (k: Option<nat>)
    ensures k.Some? ==> 1 <= k.value <= |directions| && Floor(directions[..k.value]) == -1
    ensures k.Some? ==> forall j :: 0 <= j < k.value ==> Floor(directions[..j]) >= 0
    ensures k.None? ==> forall j :: 0 <= j <= |directions| ==> Floor(directions[..j]) >= 0
  {
    var floor := 0;
    for i := 0 to |directions|
      invariant floor == Floor(directions[..i])
      invariant forall j :: 0 <= j <= i ==> Floor(directions[..j]) >= 0
    {
      assert directions[..i + 1][..i] == directions[..i];
      if directions[i] == '(' {
        floor := floor + 1;
      } else {
        floor := floor - 1;
      }
      if floor == -1 {
        return Some(i + 1);
      }
    }
    return None;
  }
}
