/**
 * Day 6, "Probably a Fire Hazard": a 1000 by 1000 grid of lights, changed
 * rectangle by rectangle by a list of instructions. Under the first reading a
 * light is on or off; under the second it has a brightness.
 */
module FireHazard {

  /** The side of the square grid; cells are indexed 0 .. Side - 1 in both directions. */
  const Side: nat := 1000

  /**
   * One parsed instruction: its word and the two corners of the rectangle.
   * The numbers come from `\d+` and are therefore natural. The first number
   * of each corner indexes the grid's rows, the second its columns.
   */
  datatype Instruction = Instruction(word: string, y1: nat, x1: nat, y2: nat, x2: nat)

  /** The cell lies in the instruction's rectangle (both bounds inclusive). */
  predicate InRect(t: Instruction, y: int, x: int) {
    t.y1 <= y <= t.y2 && t.x1 <= x <= t.x2
  }

  /**
   * Replaying the instruction reaches a cell outside the grid: its rectangle is
   * not empty and reaches row or column 1000 or beyond. Indexing the grid there
   * raises an error, and the replay ends without a result.
   */
  predicate OutOfRange(t: Instruction) {
    t.y1 <= t.y2 && t.x1 <= t.x2 && (t.y2 >= Side || t.x2 >= Side)
  }

  /** No instruction of the list reaches outside the grid. */
  predicate AllInRange(ins: seq<Instruction>) {
    forall k :: 0 <= k < |ins| ==> !OutOfRange(ins[k])
  }

  predicate InGrid(y: int, x: int) {
    0 <= y < Side && 0 <= x < Side
  }

  // ---------------------------------------------------------------------------
  // First reading: on and off
  // ---------------------------------------------------------------------------

  /** What one instruction does to a light: "on" lights it, "off" puts it out, any other word toggles it. */
  function Switch(t: Instruction, on: bool, y: int, x: int): bool {
    if !InRect(t, y, x) then on
    else if t.word == "on" then true
    else if t.word == "off" then false
    else !on
  }

  /** Whether a light is on after the instructions, applied in list order to a dark grid. */
  function Lit(ins: seq<Instruction>, y: int, x: int): bool {
    if ins == [] then false else Switch(ins[|ins| - 1], Lit(ins[..|ins| - 1], y, x), y, x)
  }

  /** Toggling the same rectangle twice leaves every light as it was. */
  lemma ToggleTwice(ins: seq<Instruction>, t: Instruction, y: int, x: int)
    requires t.word != "on" && t.word != "off"
    ensures Lit(ins + [t, t], y, x) == Lit(ins, y, x)
  {
    assert (ins + [t, t])[..|ins| + 1] == ins + [t];
    assert (ins + [t])[..|ins|] == ins;
  }

  /**
   * `execute_instructions`: replays the instructions on a fresh dark grid,
   * row by row and, within a row, column by column. The result is `ok` exactly
   * when no instruction reaches outside the grid, and then every light is as
   * the instructions leave it.
   */
  method ExecuteInstructions(instructions: seq<Instruction>) returns (lights: array2<bool>, ok: bool)
    ensures fresh(lights) && lights.Length0 == Side && lights.Length1 == Side
    ensures ok <==> AllInRange(instructions)
    ensures ok ==> forall y, x :: InGrid(y, x) ==> lights[y, x] == Lit(instructions, y, x)
  {
    lights := new bool[Side, Side]((y, x) => false);
    for k := 0 to |instructions|
      invariant AllInRange(instructions[..k])
      invariant forall y, x :: InGrid(y, x) ==> lights[y, x] == Lit(instructions[..k], y, x)
    {
      var t := instructions[k];
      ghost var done := instructions[..k];
      assert instructions[..k + 1] == done + [t];
      var y := t.y1;
      while y <= t.y2
        invariant t.y1 <= y && (y <= t.y2 + 1 || y == t.y1)
        invariant t.x1 <= t.x2 && t.y1 < y ==> y <= Side && t.x2 < Side
        invariant forall y', x' :: InGrid(y', x') ==>
          lights[y', x'] == if y' < y then Switch(t, Lit(done, y', x'), y', x') else Lit(done, y', x')
      {
        var x := t.x1;
        while x <= t.x2
          invariant t.x1 <= x && (x <= t.x2 + 1 || x == t.x1)
          invariant t.x1 < x ==> x <= Side && y < Side
          invariant forall y', x' :: InGrid(y', x') ==>
            lights[y', x'] == if y' < y || (y' == y && x' < x) then Switch(t, Lit(done, y', x'), y', x') else Lit(done, y', x')
        {
          if y >= Side || x >= Side {
            assert OutOfRange(instructions[k]);
            return lights, false;
          }
          if t.word == "on" {
            lights[y, x] := true;
          } else if t.word == "off" {
            lights[y, x] := false;
          } else {
            lights[y, x] := !lights[y, x];
          }
          x := x + 1;
        }
        y := y + 1;
      }
      assert !OutOfRange(t);
      assert instructions[..k + 1][..k] == done;
    }
    assert instructions[..|instructions|] == instructions;
    return lights, true;
  }

  /** The lights that are on in the first `n` columns of row `y`. */
  function RowLit(g: array2<bool>, y: nat, n: nat): (c: nat)
    requires y < g.Length0 && n <= g.Length1
    reads g
    ensures c <= n
  {
    if n == 0 then 0 else RowLit(g, y, n - 1) + (if g[y, n - 1] then 1 else 0)
  }

  /** The lights that are on in the first `m` rows. */
  function GridLit(g: array2<bool>, m: nat): (c: nat)
    requires m <= g.Length0
    reads g
    ensures c <= m * g.Length1
  {
    if m == 0 then 0 else GridLit(g, m - 1) + RowLit(g, m - 1, g.Length1)
  }

  /** `count_lit`: counts the lights that are on, row by row. */
  method CountLit(lights: array2<bool>) returns (count: nat)
    ensures count == GridLit(lights, lights.Length0)
    ensures count <= lights.Length0 * lights.Length1
  {
    count := 0;
    for y := 0 to lights.Length0
      invariant count == GridLit(lights, y)
    {
      var row := 0;
      for x := 0 to lights.Length1
        invariant row == RowLit(lights, y, x)
      {
        if lights[y, x] {
          row := row + 1;
        }
      }
      count := count + row;
    }
  }

  /** A row counts no light exactly when all its lights are off. */
  lemma {:induction false} RowLitZero(g: array2<bool>, y: nat, n: nat)
    requires y < g.Length0 && n <= g.Length1
    ensures RowLit(g, y, n) == 0 <==> forall x :: 0 <= x < n ==> !g[y, x]
  {
    if n > 0 {
      RowLitZero(g, y, n - 1);
    }
  }

  /** The count is zero exactly when every light of the grid is off. */
  lemma {:induction false} GridLitZero(g: array2<bool>, m: nat)
    requires m <= g.Length0
    ensures GridLit(g, m) == 0 <==> forall y, x :: 0 <= y < m && 0 <= x < g.Length1 ==> !g[y, x]
  {
    if m > 0 {
      GridLitZero(g, m - 1);
      RowLitZero(g, m - 1, g.Length1);
    }
  }

  // ---------------------------------------------------------------------------
  // Second reading: brightness
  // ---------------------------------------------------------------------------

  /** What one instruction does to a brightness: "on" adds 1, "off" takes 1 away but not below 0, any other word adds 2. */
  function Adjust(t: Instruction, b: int, y: int, x: int): int {
    if !InRect(t, y, x) then b
    else if t.word == "on" then b + 1
    else if t.word == "off" then (if b - 1 > 0 then b - 1 else 0)
    else b + 2
  }

  /** The brightness of a light after the instructions, applied in list order to a dark grid. */
  function Brightness(ins: seq<Instruction>, y: int, x: int): int {
    if ins == [] then 0 else Adjust(ins[|ins| - 1], Brightness(ins[..|ins| - 1], y, x), y, x)
  }

  /** No brightness ever drops below zero. */
  lemma {:induction false} BrightnessNonNegative(ins: seq<Instruction>, y: int, x: int)
    ensures Brightness(ins, y, x) >= 0
  {
    if ins != [] {
      BrightnessNonNegative(ins[..|ins| - 1], y, x);
    }
  }

  /** A light that is on under the first reading has brightness at least 1 under the second. */
  lemma {:induction false} LitLightsShine(ins: seq<Instruction>, y: int, x: int)
    ensures Lit(ins, y, x) ==> Brightness(ins, y, x) >= 1
  {
    if ins != [] {
      LitLightsShine(ins[..|ins| - 1], y, x);
      BrightnessNonNegative(ins[..|ins| - 1], y, x);
    }
  }

  /**
   * `execute_instructions_variable_light`: replays the instructions on a fresh
   * grid of zeros, in the same order and with the same range errors as
   * `ExecuteInstructions`.
   */
  method ExecuteInstructionsVariableLight(instructions: seq<Instruction>) returns (lights: array2<int>, ok: bool)
    ensures fresh(lights) && lights.Length0 == Side && lights.Length1 == Side
    ensures ok <==> AllInRange(instructions)
    ensures ok ==> forall y, x :: InGrid(y, x) ==> lights[y, x] == Brightness(instructions, y, x)
  {
    lights := new int[Side, Side]((y, x) => 0);
    for k := 0 to |instructions|
      invariant AllInRange(instructions[..k])
      invariant forall y, x :: InGrid(y, x) ==> lights[y, x] == Brightness(instructions[..k], y, x)
    {
      var t := instructions[k];
      ghost var done := instructions[..k];
      assert instructions[..k + 1] == done + [t];
      var y := t.y1;
      while y <= t.y2
        invariant t.y1 <= y && (y <= t.y2 + 1 || y == t.y1)
        invariant t.x1 <= t.x2 && t.y1 < y ==> y <= Side && t.x2 < Side
        invariant forall y', x' :: InGrid(y', x') ==>
          lights[y', x'] == if y' < y then Adjust(t, Brightness(done, y', x'), y', x') else Brightness(done, y', x')
      {
        var x := t.x1;
        while x <= t.x2
          invariant t.x1 <= x && (x <= t.x2 + 1 || x == t.x1)
          invariant t.x1 < x ==> x <= Side && y < Side
          invariant forall y', x' :: InGrid(y', x') ==>
            lights[y', x'] == if y' < y || (y' == y && x' < x) then Adjust(t, Brightness(done, y', x'), y', x') else Brightness(done, y', x')
        {
          if y >= Side || x >= Side {
            assert OutOfRange(instructions[k]);
            return lights, false;
          }
          if t.word == "on" {
            lights[y, x] := lights[y, x] + 1;
          } else if t.word == "off" {
            lights[y, x] := if lights[y, x] - 1 > 0 then lights[y, x] - 1 else 0;
          } else {
            lights[y, x] := lights[y, x] + 2;
          }
          x := x + 1;
        }
        y := y + 1;
      }
      assert !OutOfRange(t);
      assert instructions[..k + 1][..k] == done;
    }
    assert instructions[..|instructions|] == instructions;
    return lights, true;
  }

  /** The sum of the first `n` brightnesses of row `y`. */
  function RowSum(g: array2<int>, y: nat, n: nat): int
    requires y < g.Length0 && n <= g.Length1
    reads g
  {
    if n == 0 then 0 else RowSum(g, y, n - 1) + g[y, n - 1]
  }

  /** The sum of the brightnesses in the first `m` rows. */
  function GridSum(g: array2<int>, m: nat): int
    requires m <= g.Length0
    reads g
  {
    if m == 0 then 0 else GridSum(g, m - 1) + RowSum(g, m - 1, g.Length1)
  }

  /** `get_total_brightness`: adds up every brightness, row by row. */
  method GetTotalBrightness(lights: array2<int>) returns (count: int)
    ensures count == GridSum(lights, lights.Length0)
  {
    count := 0;
    for y := 0 to lights.Length0
      invariant count == GridSum(lights, y)
    {
      var row := 0;
      for x := 0 to lights.Length1
        invariant row == RowSum(lights, y, x)
      {
        row := row + lights[y, x];
      }
      count := count + row;
    }
  }

  /** Where every light that is on in `on` has brightness at least 1 in `bright`, a row of `bright` sums to at least the lit count of that row. */
  lemma {:induction false} RowLitBelowSum(on: array2<bool>, bright: array2<int>, y: nat, n: nat)
    requires on.Length0 == bright.Length0 && on.Length1 == bright.Length1
    requires y < on.Length0 && n <= on.Length1
    requires forall x :: 0 <= x < on.Length1 ==> bright[y, x] >= 0 && (on[y, x] ==> bright[y, x] >= 1)
    ensures RowLit(on, y, n) <= RowSum(bright, y, n)
  {
    if n > 0 {
      RowLitBelowSum(on, bright, y, n - 1);
    }
  }

  lemma {:induction false} GridLitBelowSum(on: array2<bool>, bright: array2<int>, m: nat)
    requires on.Length0 == bright.Length0 && on.Length1 == bright.Length1 && m <= on.Length0
    requires forall y, x :: 0 <= y < on.Length0 && 0 <= x < on.Length1 ==> bright[y, x] >= 0 && (on[y, x] ==> bright[y, x] >= 1)
    ensures GridLit(on, m) <= GridSum(bright, m)
  {
    if m > 0 {
      GridLitBelowSum(on, bright, m - 1);
      RowLitBelowSum(on, bright, m - 1, on.Length1);
    }
  }

  /**
   * Replaying the same instructions both ways, the total brightness is at least
   * the number of lights that are on.
   */
  lemma TotalBrightnessCoversLitCount(instructions: seq<Instruction>, on: array2<bool>, bright: array2<int>)
    requires on.Length0 == Side && on.Length1 == Side && bright.Length0 == Side && bright.Length1 == Side
    requires forall y, x :: InGrid(y, x) ==> on[y, x] == Lit(instructions, y, x)
    requires forall y, x :: InGrid(y, x) ==> bright[y, x] == Brightness(instructions, y, x)
    ensures GridLit(on, Side) <= GridSum(bright, Side)
  {
    forall y, x | InGrid(y, x)
      ensures bright[y, x] >= 0 && (on[y, x] ==> bright[y, x] >= 1)
    {
      BrightnessNonNegative(instructions, y, x);
      LitLightsShine(instructions, y, x);
    }
    GridLitBelowSum(on, bright, Side);
  }
}
