/**
 * Day 7: the example circuit of the puzzle, read and evaluated.
 *
 *   123 -> x        x AND y -> d        x LSHIFT 2 -> f     NOT x -> h
 *   456 -> y        x OR y -> e         y RSHIFT 2 -> g     NOT y -> i
 */
module CircuitExample {
  import opened Wrappers
  import opened CircuitSyntax
  import opened CircuitSemantics

  const Example: seq<seq<string>> := [
    ["123", "->", "x"],
    ["456", "->", "y"],
    ["x", "AND", "y", "->", "d"],
    ["x", "OR", "y", "->", "e"],
    ["x", "LSHIFT", "2", "->", "f"],
    ["y", "RSHIFT", "2", "->", "g"],
    ["NOT", "x", "->", "h"],
    ["NOT", "y", "->", "i"]
  ]

  /** The table the example is read into, operators moved last. */
  const ExampleTable: map<string, Entry> := map[
    "x" := Expr([Lit(123)]),
    "y" := Expr([Lit(456)]),
    "d" := Expr([Wire("x"), Wire("y"), Op(And)]),
    "e" := Expr([Wire("x"), Wire("y"), Op(Or)]),
    "f" := Expr([Wire("x"), Lit(2), Op(LShift)]),
    "g" := Expr([Wire("y"), Lit(2), Op(RShift)]),
    "h" := Expr([Wire("x"), Op(Not)]),
    "i" := Expr([Wire("y"), Op(Not)])
  ]

  /** A wire name of one lower-case letter is lower case. */
  lemma LetterIsLower(c: char)
    requires IsLowerChar(c)
    ensures IsLower([c])
  {
    assert IsLowerChar([c][0]);
  }

  lemma ExampleNumbers()
    ensures ParseSymbol("123") == Ok(Lit(123)) && ParseSymbol("456") == Ok(Lit(456))
    ensures ParseSymbol("2") == Ok(Lit(2))
  {
    assert "123"[..2] == "12" && "12"[..1] == "1" && "1"[..0] == "";
    assert "456"[..2] == "45" && "45"[..1] == "4" && "4"[..0] == "";
    assert "2"[..0] == "";
  }

  lemma ExampleNames()
    ensures ParseSymbol("x") == Ok(Wire("x")) && ParseSymbol("y") == Ok(Wire("y"))
  {
    LetterIsLower('x');
    LetterIsLower('y');
  }

  /** The example, line by line. */
  predicate IsExample(lines: seq<seq<string>>) {
    |lines| == 8 &&
    lines[0] == ["123", "->", "x"] && lines[1] == ["456", "->", "y"] &&
    lines[2] == ["x", "AND", "y", "->", "d"] && lines[3] == ["x", "OR", "y", "->", "e"] &&
    lines[4] == ["x", "LSHIFT", "2", "->", "f"] && lines[5] == ["y", "RSHIFT", "2", "->", "g"] &&
    lines[6] == ["NOT", "x", "->", "h"] && lines[7] == ["NOT", "y", "->", "i"]
  }

  lemma ExampleLoads2(lines: seq<seq<string>>)
    requires IsExample(lines)
    ensures Load(lines[..2]) == (map["x" := Expr([Lit(123)]), "y" := Expr([Lit(456)])], None)
  {
    ExampleNumbers();
    ParseAssignment("123", "->", "x", 1);
    ParseAssignment("456", "->", "y", 2);
    assert lines[..0] == [];
    LoadPrefixParsed(lines, 0, map[], "x", [Lit(123)]);
    LoadPrefixParsed(lines, 1, map["x" := Expr([Lit(123)])], "y", [Lit(456)]);
  }

  lemma ExampleLoads4(lines: seq<seq<string>>)
    requires IsExample(lines)
    ensures Load(lines[..4]) == (map["x" := Expr([Lit(123)]), "y" := Expr([Lit(456)]),
      "d" := Expr([Wire("x"), Wire("y"), Op(And)]), "e" := Expr([Wire("x"), Wire("y"), Op(Or)])], None)
  {
    ExampleLoads2(lines);
    ExampleNames();
    OperatorTokens();
    ParseBinaryGate("x", "AND", "y", "->", "d", 3);
    ParseBinaryGate("x", "OR", "y", "->", "e", 4);
    var m := map["x" := Expr([Lit(123)]), "y" := Expr([Lit(456)])];
    LoadPrefixParsed(lines, 2, m, "d", [Wire("x"), Wire("y"), Op(And)]);
    LoadPrefixParsed(lines, 3, m["d" := Expr([Wire("x"), Wire("y"), Op(And)])], "e", [Wire("x"), Wire("y"), Op(Or)]);
  }

  lemma ExampleLoads6(lines: seq<seq<string>>)
    requires IsExample(lines)
    ensures Load(lines[..6]) == (map["x" := Expr([Lit(123)]), "y" := Expr([Lit(456)]),
      "d" := Expr([Wire("x"), Wire("y"), Op(And)]), "e" := Expr([Wire("x"), Wire("y"), Op(Or)]),
      "f" := Expr([Wire("x"), Lit(2), Op(LShift)]), "g" := Expr([Wire("y"), Lit(2), Op(RShift)])], None)
  {
    ExampleLoads4(lines);
    ExampleNumbers();
    ExampleNames();
    OperatorTokens();
    ParseBinaryGate("x", "LSHIFT", "2", "->", "f", 5);
    ParseBinaryGate("y", "RSHIFT", "2", "->", "g", 6);
    var m := map["x" := Expr([Lit(123)]), "y" := Expr([Lit(456)]),
      "d" := Expr([Wire("x"), Wire("y"), Op(And)]), "e" := Expr([Wire("x"), Wire("y"), Op(Or)])];
    LoadPrefixParsed(lines, 4, m, "f", [Wire("x"), Lit(2), Op(LShift)]);
    LoadPrefixParsed(lines, 5, m["f" := Expr([Wire("x"), Lit(2), Op(LShift)])], "g", [Wire("y"), Lit(2), Op(RShift)]);
  }

  lemma ExampleLoads7(lines: seq<seq<string>>)
    requires IsExample(lines)
    ensures Load(lines[..7]) == (map["x" := Expr([Lit(123)]), "y" := Expr([Lit(456)]),
      "d" := Expr([Wire("x"), Wire("y"), Op(And)]), "e" := Expr([Wire("x"), Wire("y"), Op(Or)]),
      "f" := Expr([Wire("x"), Lit(2), Op(LShift)]), "g" := Expr([Wire("y"), Lit(2), Op(RShift)]),
      "h" := Expr([Wire("x"), Op(Not)])], None)
  {
    ExampleLoads6(lines);
    ExampleNames();
    ParseNotGate("x", "->", "h", 7);
    var m := map["x" := Expr([Lit(123)]), "y" := Expr([Lit(456)]),
      "d" := Expr([Wire("x"), Wire("y"), Op(And)]), "e" := Expr([Wire("x"), Wire("y"), Op(Or)]),
      "f" := Expr([Wire("x"), Lit(2), Op(LShift)]), "g" := Expr([Wire("y"), Lit(2), Op(RShift)])];
    LoadPrefixParsed(lines, 6, m, "h", [Wire("x"), Op(Not)]);
  }

  lemma ExampleLoads8(lines: seq<seq<string>>)
    requires IsExample(lines)
    ensures Load(lines[..8]) == (ExampleTable, None)
  {
    ExampleLoads7(lines);
    ExampleNames();
    ParseNotGate("y", "->", "i", 8);
    var m := map["x" := Expr([Lit(123)]), "y" := Expr([Lit(456)]),
      "d" := Expr([Wire("x"), Wire("y"), Op(And)]), "e" := Expr([Wire("x"), Wire("y"), Op(Or)]),
      "f" := Expr([Wire("x"), Lit(2), Op(LShift)]), "g" := Expr([Wire("y"), Lit(2), Op(RShift)]),
      "h" := Expr([Wire("x"), Op(Not)])];
    LoadPrefixParsed(lines, 7, m, "i", [Wire("y"), Op(Not)]);
  }

  /** Reading the example gives the table above, without error. */
  lemma ExampleLoads()
    ensures Load(Example) == (ExampleTable, None)
  {
    assert IsExample(Example);
    ExampleLoads8(Example);
    assert Example[..8] == Example;
  }

  /** The operator tables on the example's inputs, masked to 16 bits. */
  lemma ExampleArithmetic()
    ensures Mask(123) == 123 && Mask(456) == 456
    ensures Mask(Binary(And, 123, 456)) == 72 && Mask(Binary(Or, 123, 456)) == 507
    ensures Mask(Binary(LShift, 123, 2)) == 492 && Mask(Binary(RShift, 456, 2)) == 114
    ensures Mask(Complement(123)) == 65412 && Mask(Complement(456)) == 65079
  {
    ExampleAnd();
    ExampleOr();
    assert Pow2(2) == 4;
  }

  lemma ExampleAnd()
    ensures BitAnd(123, 456) == 72
  {
    assert BitAnd(0, 3) == 0;
    assert BitAnd(1, 7) == 1;
    assert BitAnd(3, 14) == 2;
    assert BitAnd(7, 28) == 4;
    assert BitAnd(15, 57) == 9;
    assert BitAnd(30, 114) == 18;
    assert BitAnd(61, 228) == 36;
  }

  lemma ExampleOr()
    ensures BitOr(123, 456) == 507
  {
    assert BitOr(0, 3) == 3;
    assert BitOr(1, 7) == 7;
    assert BitOr(3, 14) == 15;
    assert BitOr(7, 28) == 31;
    assert BitOr(15, 57) == 63;
    assert BitOr(30, 114) == 126;
    assert BitOr(61, 228) == 253;
  }

  lemma ExampleInputs(d: map<string, Entry>)
    requires d == ExampleTable
    ensures Eval(d, "x", 1) == Some(123) && Eval(d, "y", 1) == Some(456)
  {
    LetterIsLower('x');
    LetterIsLower('y');
    ExampleArithmetic();
    AssignmentEval(d, "x", Lit(123), 123, 0);
    AssignmentEval(d, "y", Lit(456), 456, 0);
  }

  lemma ExampleAndOr(d: map<string, Entry>)
    requires d == ExampleTable
    ensures Eval(d, "d", 2) == Some(72) && Eval(d, "e", 2) == Some(507)
  {
    ExampleInputs(d);
    LetterIsLower('d');
    LetterIsLower('e');
    ExampleArithmetic();
    BinaryGateEval(d, "d", Wire("x"), Wire("y"), And, 123, 456, 1);
    BinaryGateEval(d, "e", Wire("x"), Wire("y"), Or, 123, 456, 1);
  }

  lemma ExampleShifts(d: map<string, Entry>)
    requires d == ExampleTable
    ensures Eval(d, "f", 2) == Some(492) && Eval(d, "g", 2) == Some(114)
  {
    ExampleInputs(d);
    LetterIsLower('f');
    LetterIsLower('g');
    ExampleArithmetic();
    BinaryGateEval(d, "f", Wire("x"), Lit(2), LShift, 123, 2, 1);
    BinaryGateEval(d, "g", Wire("y"), Lit(2), RShift, 456, 2, 1);
  }

  lemma ExampleNots(d: map<string, Entry>)
    requires d == ExampleTable
    ensures Eval(d, "h", 2) == Some(65412) && Eval(d, "i", 2) == Some(65079)
  {
    ExampleInputs(d);
    LetterIsLower('h');
    LetterIsLower('i');
    ExampleArithmetic();
    NotGateEval(d, "h", Wire("x"), 123, 1);
    NotGateEval(d, "i", Wire("y"), 456, 1);
  }

  /** Every wire of the example gets the value the puzzle gives for it. */
  lemma ExampleSignals()
    ensures Means(ExampleTable, "x", 123) && Means(ExampleTable, "y", 456)
    ensures Means(ExampleTable, "d", 72) && Means(ExampleTable, "e", 507)
    ensures Means(ExampleTable, "f", 492) && Means(ExampleTable, "g", 114)
    ensures Means(ExampleTable, "h", 65412) && Means(ExampleTable, "i", 65079)
  {
    var d := ExampleTable;
    ExampleInputs(d);
    ExampleAndOr(d);
    ExampleShifts(d);
    ExampleNots(d);
  }

  /**
   * Any value a wire of the example has, in the table the example is read
   * into, is the one the puzzle gives: whatever wire the computer is asked
   * for first, every signal it then reports agrees with these.
   */
  lemma ExampleAnswers(w: string, v: nat)
    requires Means(Load(Example).0, w, v)
    ensures w == "x" ==> v == 123
    ensures w == "y" ==> v == 456
    ensures w == "d" ==> v == 72
    ensures w == "e" ==> v == 507
    ensures w == "f" ==> v == 492
    ensures w == "g" ==> v == 114
    ensures w == "h" ==> v == 65412
    ensures w == "i" ==> v == 65079
  {
    ExampleLoads();
    var d := Load(Example).0;
    ExampleSignals();
    if w == "x" {
      MeansUnique(d, w, v, 123);
    } else if w == "y" {
      MeansUnique(d, w, v, 456);
    } else if w == "d" {
      MeansUnique(d, w, v, 72);
    } else if w == "e" {
      MeansUnique(d, w, v, 507);
    } else if w == "f" {
      MeansUnique(d, w, v, 492);
    } else if w == "g" {
      MeansUnique(d, w, v, 114);
    } else if w == "h" {
      MeansUnique(d, w, v, 65412);
    } else if w == "i" {
      MeansUnique(d, w, v, 65079);
    }
  }
}
