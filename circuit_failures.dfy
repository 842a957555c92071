/**
 * Day 7: two circuits without a value, and the error the computer reports
 * for each.
 *
 *   b -> a        a -> b             (a loop: Cycle(["a", "b", "a"]))
 *   NOT x -> a                       (an undefined operand: Undefined("x"))
 */
module CircuitFailures {
  import opened Wrappers
  import opened CircuitSyntax
  import opened CircuitSemantics
  import opened Circuit
  import CircuitExample

  const Loop: seq<seq<string>> := [["b", "->", "a"], ["a", "->", "b"]]

  const LoopTable: map<string, Entry> := map["a" := Expr([Wire("b")]), "b" := Expr([Wire("a")])]

  const Dangling: seq<seq<string>> := [["NOT", "x", "->", "a"]]

  const DanglingTable: map<string, Entry> := map["a" := Expr([Wire("x"), Op(Not)])]

  lemma LoopLoads()
    ensures Load(Loop) == (LoopTable, None)
  {
    CircuitExample.LetterIsLower('a');
    CircuitExample.LetterIsLower('b');
    ParseAssignment("b", "->", "a", 1);
    ParseAssignment("a", "->", "b", 2);
    assert Loop[..0] == [];
    LoadPrefixParsed(Loop, 0, map[], "a", [Wire("b")]);
    LoadPrefixParsed(Loop, 1, map["a" := Expr([Wire("b")])], "b", [Wire("a")]);
    assert Loop[..2] == Loop;
  }

  /** In the loop, `a` needs `b` and `b` needs `a`, and nothing else. */
  lemma LoopOperands(x: string, y: string)
    requires Operand(LoopTable, x, y)
    ensures (x == "a" && y == "b") || (x == "b" && y == "a")
  {
    assert FirstOp([Wire("b")]) == 1 && FirstOp([Wire("a")]) == 1;
  }

  lemma LoopIsCycle()
    ensures IsCycle(LoopTable, ["a", "b", "a"])
    ensures HasNoValue(LoopTable, "a") && HasNoValue(LoopTable, "b")
  {
    var d := LoopTable;
    var p := ["a", "b", "a"];
    assert FirstOp([Wire("b")]) == 1 && FirstOp([Wire("a")]) == 1;
    assert d["a"].symbols[0] == Wire("b") && d["b"].symbols[0] == Wire("a");
    assert Operand(d, p[0], p[1]) && Operand(d, p[1], p[2]);
    CycleNoValue(d, p);
    assert p[0] == "a" && p[1] == "b";
  }

  /** Every chain of evaluation from `a` alternates `a`, `b`, `a`, … */
  lemma LoopPath(c: seq<string>)
    requires Path(LoopTable, [], "a", c)
    ensures forall k :: 0 <= k < |c| ==> c[k] == "a" || c[k] == "b"
    ensures |c| > 1 ==> c[1] == "b"
    ensures |c| > 2 ==> c[2] == "a"
  {
    forall k | 0 <= k < |c|
      ensures c[k] == "a" || c[k] == "b"
    {
      if k > 0 {
        LoopOperands(c[k - 1], c[k]);
      }
    }
    if |c| > 1 {
      LoopOperands(c[0], c[1]);
    }
    if |c| > 2 {
      LoopOperands(c[1], c[2]);
    }
  }

  /** A closed chain at the end of a chain from `a` whose wires are distinct but the last is `a`, `b`, `a`. */
  lemma LoopCycleOnly(p: seq<string>, c: seq<string>)
    requires IsCycle(LoopTable, p) && Path(LoopTable, [], "a", c)
    requires Distinct(c[..|c| - 1]) && 2 <= |p| <= |c| && p == c[|c| - |p|..]
    ensures p == ["a", "b", "a"]
  {
    LoopPath(c);
    if |c| > 3 {
      assert false;
    }
    assert p[0] == p[|p| - 1];
  }

  /** Neither wire of the loop fails on its own account. */
  lemma LoopFailsNowhere(n: string, e: Error)
    requires n == "a" || n == "b"
    ensures !FailsAt(LoopTable, n, e)
  {
    var d := LoopTable;
    LoopIsCycle();
    CircuitExample.LetterIsLower('a');
    CircuitExample.LetterIsLower('b');
    assert FirstOp([Wire("b")]) == 1 && FirstOp([Wire("a")]) == 1;
  }

  /** The only error that can explain the failure of `a` in the loop is the cycle `a`, `b`, `a`. */
  lemma LoopError(e: Error)
    requires Explains(LoopTable, [], "a", e)
    ensures e == Cycle(["a", "b", "a"])
  {
    var d := LoopTable;
    if e.Cycle? {
      var c :| Path(d, [], "a", c) && Distinct(c[..|c| - 1]) && 2 <= |e.path| <= |c| && e.path == c[|c| - |e.path|..];
      LoopCycleOnly(e.path, c);
    } else if !e.NotLoaded? && !e.EmptyLine? {
      var c :| Path(d, [], "a", c) && FailsAt(d, c[|c| - 1], e);
      LoopPath(c);
      LoopFailsNowhere(c[|c| - 1], e);
      assert false;
    }
  }

  /** Asking for `a` in the loop reports the cycle through `a` and `b`. */
  method LoopReport() returns (r: Result<Word, Error>)
    ensures r == Err(Cycle(["a", "b", "a"]))
  {
    var computer := new CircuitComputer();
    var err := computer.ParseFile(Loop);
    LoopLoads();
    r := computer.GetWireSignal("a");
    LoopIsCycle();
    LoopError(r.error);
  }

  lemma DanglingLoads()
    ensures Load(Dangling) == (DanglingTable, None)
  {
    CircuitExample.LetterIsLower('x');
    ParseNotGate("x", "->", "a", 1);
    assert Dangling[..0] == [];
    LoadPrefixParsed(Dangling, 0, map[], "a", [Wire("x"), Op(Not)]);
    assert Dangling[..1] == Dangling;
  }

  /** In the circuit with the undefined operand, `a` needs `x` and nothing else needs anything. */
  lemma DanglingOperands(x: string, y: string)
    requires Operand(DanglingTable, x, y)
    ensures x == "a" && y == "x"
  {
    assert FirstOp([Wire("x"), Op(Not)]) == 1;
  }

  lemma DanglingNoValue()
    ensures HasNoValue(DanglingTable, "x") && HasNoValue(DanglingTable, "a")
  {
    var d := DanglingTable;
    forall f: nat
      ensures Eval(d, "x", f).None?
    {
    }
    assert FirstOp([Wire("x"), Op(Not)]) == 1;
    assert d["a"].symbols[0] == Wire("x");
    OperandNoValue(d, "a", "x");
  }

  /** The circuit has no cycle: `x` needs nothing, and nothing needs `a`. */
  lemma DanglingNoCycle(p: seq<string>)
    ensures !IsCycle(DanglingTable, p)
  {
    if IsCycle(DanglingTable, p) {
      DanglingOperands(p[0], p[1]);
      if |p| > 2 {
        DanglingOperands(p[1], p[2]);
      }
    }
  }

  /** Every chain of evaluation from `a` ends at `a` or at `x`. */
  lemma DanglingPath(c: seq<string>)
    requires Path(DanglingTable, [], "a", c)
    ensures c[|c| - 1] == "a" || c[|c| - 1] == "x"
  {
    if |c| > 1 {
      DanglingOperands(c[|c| - 2], c[|c| - 1]);
    }
  }

  /** Of the two wires, only `x` fails on its own account, as undefined. */
  lemma DanglingFailsAt(n: string, e: Error)
    requires n == "a" || n == "x"
    ensures FailsAt(DanglingTable, n, e) <==> n == "x" && e == Undefined("x")
  {
    DanglingNoValue();
    CircuitExample.LetterIsLower('a');
    assert FirstOp([Wire("x"), Op(Not)]) == 1;
  }

  /** The only error that can explain the failure of `a` is that `x` is undefined. */
  lemma DanglingError(e: Error)
    requires Explains(DanglingTable, [], "a", e)
    ensures e == Undefined("x")
  {
    var d := DanglingTable;
    if e.Cycle? {
      DanglingNoCycle(e.path);
      assert false;
    } else if !e.NotLoaded? && !e.EmptyLine? {
      var c :| Path(d, [], "a", c) && FailsAt(d, c[|c| - 1], e);
      DanglingPath(c);
      DanglingFailsAt(c[|c| - 1], e);
    }
  }

  /** Asking for `a`, whose gate reads the undefined wire `x`, reports `x`. */
  method DanglingReport() returns (r: Result<Word, Error>)
    ensures r == Err(Undefined("x"))
  {
    var computer := new CircuitComputer();
    var err := computer.ParseFile(Dangling);
    DanglingLoads();
    r := computer.GetWireSignal("a");
    DanglingNoValue();
    DanglingError(r.error);
  }
}
