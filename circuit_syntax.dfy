/**
 * Day 7, "Some Assembly Required": the circuit description language and how a
 * file of it is read into a table of wires.
 *
 * A line such as `x AND y -> d` is already split at white space into tokens.
 * Every token before the last two is parsed into a symbol (a number, an
 * operator or a wire name); the last token names the wire the line defines;
 * the token before it is not looked at. When a line has more than one symbol,
 * the last two are swapped, so that in `x AND y` and `NOT x` the operator
 * ends up last: `[x, y, AND]` and `[x, NOT]`.
 */
module CircuitSyntax {
  import opened Wrappers
  import opened Decimal

  const Modulus: nat := 65536

  /** A 16-bit unsigned signal, the only kind of value the wire table stores. */
  type Word = v: nat | v < Modulus

  /** The entries of the operator tables: four binary operators and one unary one. */
  datatype Operator = And | Or | LShift | RShift | Not

  /**
   * A parsed token. A literal keeps the number exactly as written, even when
   * it is wider than 16 bits; a resolved operand becomes the literal of its
   * wire's signal.
   */
  datatype Symbol = Lit(n: nat) | Wire(name: string) | Op(op: Operator)

  /** A wire's entry: its computed (or assigned) signal, or the symbols still to be evaluated. */
  datatype Entry = Signal(value: Word) | Expr(symbols: seq<Symbol>)

  /** Why an operation of the circuit computer fails. */
  datatype Error =
    | NotLoaded                          // no table: no file has been parsed
    | EmptyLine(line: nat)               // the line (numbered from 1) has no token, so no wire name
    | InvalidIdentifier(name: string)    // a wire name that is not lower case
    | Undefined(wire: string)            // a wire with no entry in the table
    | Cycle(path: seq<string>)           // wires that depend on each other, first and last the same
    | Malformed(wire: string)            // the wire's symbols do not form an evaluable gate

  predicate IsLowerChar(c: char) {
    'a' <= c <= 'z'
  }

  predicate IsUpperChar(c: char) {
    'A' <= c <= 'Z'
  }

  /**
   * Python's `str.islower()` on ASCII text: at least one cased character, and
   * no upper-case one.
   */
  predicate IsLower(s: string) {
    (exists i :: 0 <= i < |s| && IsLowerChar(s[i])) && forall i :: 0 <= i < |s| ==> !IsUpperChar(s[i])
  }

  /** The operator tables, keyed by the operator's token. */
  function OperatorOf(token: string): Option<Operator> {
    if token == "AND" then Some(And)
    else if token == "OR" then Some(Or)
    else if token == "LSHIFT" then Some(LShift)
    else if token == "RSHIFT" then Some(RShift)
    else if token == "NOT" then Some(Not)
    else None
  }

  /** No operator token is a number. */
  lemma OperatorIsNotNumber(token: string)
    requires OperatorOf(token).Some?
    ensures !IsDigits(token)
  {
    assert !IsDigit(token[0]);
  }

  /**
   * `__parse_symbol`: a number if the token is one, else an operator if it is
   * one, else a wire name, which must be lower case.
   */
  function ParseSymbol(token: string): (r: Result<Symbol, Error>)
    ensures r.Ok? && r.value.Wire? ==> r.value.name == token && IsLower(token)
    ensures r.Err? ==> r.error == InvalidIdentifier(token)
    ensures r.Err? <==> !IsDigits(token) && OperatorOf(token).None? && !IsLower(token)
  {
    if IsDigits(token) then Ok(Lit(Value(token)))
    else if OperatorOf(token).Some? then Ok(Op(OperatorOf(token).value))
    else if IsLower(token) then Ok(Wire(token))
    else Err(InvalidIdentifier(token))
  }

  /** A number written by `str` is read back as that number. */
  lemma LiteralRoundTrip(n: nat)
    ensures ParseSymbol(NatToString(n)) == Ok(Lit(n))
  {
    ValueOfNatToString(n);
  }

  /** Each operator token is read as its operator, whatever else is defined. */
  lemma OperatorTokens()
    ensures ParseSymbol("AND") == Ok(Op(And)) && ParseSymbol("OR") == Ok(Op(Or))
    ensures ParseSymbol("LSHIFT") == Ok(Op(LShift)) && ParseSymbol("RSHIFT") == Ok(Op(RShift))
    ensures ParseSymbol("NOT") == Ok(Op(Not))
  {
    OperatorIsNotNumber("AND");
    OperatorIsNotNumber("OR");
    OperatorIsNotNumber("LSHIFT");
    OperatorIsNotNumber("RSHIFT");
    OperatorIsNotNumber("NOT");
  }

  /** The tokens parsed from left to right; the first token that fails gives the error. */
  function ParseSymbols(tokens: seq<string>): Result<seq<Symbol>, Error> {
    if tokens == [] then Ok([])
    else
      var init := tokens[..|tokens| - 1];
      match ParseSymbols(init)
      case Err(e) => Err(e)
      case Ok(ss) =>
        match ParseSymbol(tokens[|tokens| - 1])
        case Err(e) => Err(e)
        case Ok(s) => Ok(ss + [s])
  }

  /** The tokens parse exactly when each one does, and then each symbol is its token's. */
  lemma {:induction false} ParseSymbolsEach(tokens: seq<string>)
    ensures ParseSymbols(tokens).Ok? <==> forall k :: 0 <= k < |tokens| ==> ParseSymbol(tokens[k]).Ok?
    ensures ParseSymbols(tokens).Ok? ==> |ParseSymbols(tokens).value| == |tokens|
    ensures ParseSymbols(tokens).Ok? ==> forall k :: 0 <= k < |tokens| ==> ParseSymbols(tokens).value[k] == ParseSymbol(tokens[k]).value
  {
    if tokens != [] {
      var init := tokens[..|tokens| - 1];
      ParseSymbolsEach(init);
      assert forall k :: 0 <= k < |init| ==> init[k] == tokens[k];
    }
  }

  /** The last two symbols swapped, so that the operator of a gate comes last. */
  function OperatorLast(ss: seq<Symbol>): (r: seq<Symbol>)
    ensures |r| == |ss|
    ensures |ss| > 1 ==> r[..|ss| - 2] == ss[..|ss| - 2] && r[|ss| - 2] == ss[|ss| - 1] && r[|ss| - 1] == ss[|ss| - 2]
    ensures |ss| <= 1 ==> r == ss
  {
    if |ss| > 1 then
      var n := |ss|;
      ss[..n - 2] + [ss[n - 1], ss[n - 2]]
    else ss
  }

  /** One line of the file: the wire it defines and that wire's symbols. */
  function ParseLine(tokens: seq<string>, number: nat): (r: Result<(string, seq<Symbol>), Error>)
    ensures r.Ok? ==> r.value.0 == Target(tokens)
    ensures tokens == [] ==> r == Err(EmptyLine(number))
  {
    if tokens == [] then Err(EmptyLine(number))
    else
      var operands := if |tokens| >= 2 then tokens[..|tokens| - 2] else [];
      match ParseSymbols(operands)
      case Err(e) => Err(e)
      case Ok(ss) => Ok((tokens[|tokens| - 1], OperatorLast(ss)))
  }

  /** A binary gate `a OP b -> w` becomes `[a, b, OP]`. */
  lemma ParseBinaryGate(a: string, op: string, b: string, arrow: string, w: string, number: nat)
    requires OperatorOf(op).Some? && OperatorOf(op) != Some(Not)
    requires ParseSymbol(a).Ok? && ParseSymbol(b).Ok?
    ensures ParseLine([a, op, b, arrow, w], number) == Ok((w, [ParseSymbol(a).value, ParseSymbol(b).value, Op(OperatorOf(op).value)]))
  {
    OperatorIsNotNumber(op);
    var operands := [a, op, b];
    ParseSymbolsEach(operands);
    assert [a, op, b, arrow, w][..3] == operands;
    var r := ParseSymbols(operands);
    assert forall k :: 0 <= k < 3 ==> ParseSymbol(operands[k]).Ok?;
    assert r.value == [ParseSymbol(a).value, Op(OperatorOf(op).value), ParseSymbol(b).value];
    assert OperatorLast(r.value) == [ParseSymbol(a).value, ParseSymbol(b).value, Op(OperatorOf(op).value)];
  }

  /** A negation `NOT a -> w` becomes `[a, NOT]`. */
  lemma ParseNotGate(a: string, arrow: string, w: string, number: nat)
    requires ParseSymbol(a).Ok?
    ensures ParseLine(["NOT", a, arrow, w], number) == Ok((w, [ParseSymbol(a).value, Op(Not)]))
  {
    OperatorIsNotNumber("NOT");
    var operands := ["NOT", a];
    ParseSymbolsEach(operands);
    assert ["NOT", a, arrow, w][..2] == operands;
    var r := ParseSymbols(operands);
    assert forall k :: 0 <= k < 2 ==> ParseSymbol(operands[k]).Ok?;
    assert r.value == [Op(Not), ParseSymbol(a).value];
  }

  /** A plain assignment `a -> w` keeps its single symbol. */
  lemma ParseAssignment(a: string, arrow: string, w: string, number: nat)
    requires ParseSymbol(a).Ok?
    ensures ParseLine([a, arrow, w], number) == Ok((w, [ParseSymbol(a).value]))
  {
    var operands := [a];
    ParseSymbolsEach(operands);
    assert [a, arrow, w][..1] == operands;
    var r := ParseSymbols(operands);
    assert ParseSymbol(operands[0]).Ok?;
    assert r.value == [ParseSymbol(a).value];
  }

  /** Reading one more line: the table so far, or the first error, with the line installed. */
  function LoadLine(sofar: (map<string, Entry>, Option<Error>), tokens: seq<string>, number: nat): (map<string, Entry>, Option<Error>) {
    if sofar.1.Some? then sofar
    else
      match ParseLine(tokens, number)
      case Err(e) => (sofar.0, Some(e))
      case Ok(def) => (sofar.0[def.0 := Expr(def.1)], None)
  }

  /**
   * The table after reading the lines in order, each line's wire set to that
   * line's symbols, and the error of the first line that fails (the lines
   * before it stay in the table).
   */
  function Load(lines: seq<seq<string>>): (r: (map<string, Entry>, Option<Error>))
    ensures forall w :: w in r.0 ==> r.0[w].Expr?
  {
    if lines == [] then (map[], None)
    else LoadLine(Load(lines[..|lines| - 1]), lines[|lines| - 1], |lines|)
  }

  /** Once a line fails, the lines after it are not read. */
  lemma {:induction false} LoadStops(lines: seq<seq<string>>, k: nat)
    requires k <= |lines| && Load(lines[..k]).1.Some?
    ensures Load(lines) == Load(lines[..k])
  {
    if k < |lines| {
      var n := |lines| - 1;
      assert lines[..n][..k] == lines[..k];
      LoadStops(lines[..n], k);
    } else {
      assert lines[..k] == lines;
    }
  }

  /** The wire a line defines: its last token. */
  function Target(tokens: seq<string>): string {
    if tokens == [] then "" else tokens[|tokens| - 1]
  }

  /** Reading the first `i + 1` lines is reading the first `i`, then line `i`. */
  lemma LoadPrefixStep(lines: seq<seq<string>>, i: nat)
    requires i < |lines|
    ensures Load(lines[..i + 1]) == LoadLine(Load(lines[..i]), lines[i], i + 1)
  {
    assert lines[..i + 1][..i] == lines[..i];
  }

  /**
   * A file read without error was read without error up to its last line,
   * and that line parsed and installed its symbols at its target.
   */
  lemma LoadLast(lines: seq<seq<string>>)
    requires lines != [] && Load(lines).1.None?
    ensures Load(lines[..|lines| - 1]).1.None? && ParseLine(lines[|lines| - 1], |lines|).Ok?
    ensures Load(lines).0 == Load(lines[..|lines| - 1]).0[Target(lines[|lines| - 1]) :=
      Expr(ParseLine(lines[|lines| - 1], |lines|).value.1)]
  {
    assert Load(lines) == LoadLine(Load(lines[..|lines| - 1]), lines[|lines| - 1], |lines|);
  }

  /** Every prefix of a file read without error was read without error. */
  lemma {:induction false} LoadPrefixOk(lines: seq<seq<string>>, k: nat)
    requires k <= |lines| && Load(lines).1.None?
    ensures Load(lines[..k]).1.None?
  {
    if k < |lines| {
      var n := |lines| - 1;
      LoadLast(lines);
      assert lines[..n][..k] == lines[..k];
      LoadPrefixOk(lines[..n], k);
    } else {
      assert lines[..k] == lines;
    }
  }

  /** Reading line `k` of a file whose first `k` lines were read without error. */
  lemma LoadPrefixParsed(lines: seq<seq<string>>, k: nat, t: map<string, Entry>, w: string, syms: seq<Symbol>)
    requires k < |lines| && Load(lines[..k]) == (t, None) && ParseLine(lines[k], k + 1) == Ok((w, syms))
    ensures Load(lines[..k + 1]) == (t[w := Expr(syms)], None)
  {
    LoadPrefixStep(lines, k);
  }

  /** The first token that fails gives the error of the whole list. */
  lemma {:induction false} ParseSymbolsFirstError(tokens: seq<string>, j: nat)
    requires j < |tokens| && ParseSymbol(tokens[j]).Err?
    requires forall k :: 0 <= k < j ==> ParseSymbol(tokens[k]).Ok?
    ensures ParseSymbols(tokens) == Err(InvalidIdentifier(tokens[j]))
  {
    var n := |tokens| - 1;
    var init := tokens[..n];
    if j < n {
      assert forall k :: 0 <= k <= j ==> init[k] == tokens[k];
      ParseSymbolsFirstError(init, j);
    } else {
      ParseSymbolsEach(init);
      assert forall k :: 0 <= k < |init| ==> init[k] == tokens[k];
    }
  }

  /**
   * An operand token that is neither a number, an operator nor lower case
   * stops the reading of the file at its line, with InvalidIdentifier of
   * that token, when the lines and the tokens before it were read without
   * error.
   */
  lemma InvalidTokenStopsLoad(lines: seq<seq<string>>, k: nat, j: nat)
    requires k < |lines| && Load(lines[..k]).1.None?
    requires j + 2 < |lines[k]|
    requires !IsDigits(lines[k][j]) && OperatorOf(lines[k][j]).None? && !IsLower(lines[k][j])
    requires forall i :: 0 <= i < j ==> ParseSymbol(lines[k][i]).Ok?
    ensures Load(lines) == (Load(lines[..k]).0, Some(InvalidIdentifier(lines[k][j])))
  {
    var tokens := lines[k];
    var operands := tokens[..|tokens| - 2];
    assert forall i :: 0 <= i <= j ==> operands[i] == tokens[i];
    ParseSymbolsFirstError(operands, j);
    LoadPrefixStep(lines, k);
    LoadStops(lines, k + 1);
  }

  /** When the whole file is read without error, every line parsed. */
  lemma LoadAllParsed(lines: seq<seq<string>>)
    requires Load(lines).1.None?
    ensures forall k :: 0 <= k < |lines| ==> ParseLine(lines[k], k + 1).Ok?
  {
    forall k | 0 <= k < |lines|
      ensures ParseLine(lines[k], k + 1).Ok?
    {
      LoadPrefixOk(lines, k + 1);
      LoadPrefixStep(lines, k);
    }
  }

  /** Some line of the file names `w` as its target. */
  ghost predicate Defines(lines: seq<seq<string>>, w: string) {
    exists k :: 0 <= k < |lines| && Target(lines[k]) == w
  }

  /** The targets of a file are those of all lines but the last, and the last line's. */
  lemma DefinesLast(lines: seq<seq<string>>, w: string)
    requires lines != []
    ensures Defines(lines, w) <==> Defines(lines[..|lines| - 1], w) || Target(lines[|lines| - 1]) == w
  {
    var init := lines[..|lines| - 1];
    if Defines(init, w) {
      var k :| 0 <= k < |init| && Target(init[k]) == w;
      assert lines[k] == init[k];
    }
    if Defines(lines, w) {
      var k :| 0 <= k < |lines| && Target(lines[k]) == w;
      if k < |init| {
        assert init[k] == lines[k];
      }
    }
  }

  /** When the whole file is read without error, the table's wires are exactly the lines' targets. */
  lemma {:induction false} LoadDefinesTargets(lines: seq<seq<string>>)
    requires Load(lines).1.None?
    ensures forall w :: w in Load(lines).0 <==> Defines(lines, w)
  {
    if lines != [] {
      var n := |lines| - 1;
      var init := lines[..n];
      LoadLast(lines);
      LoadDefinesTargets(init);
      forall w ensures w in Load(lines).0 <==> Defines(lines, w) {
        DefinesLast(lines, w);
      }
    }
  }

  /**
   * After the first `m` lines of a file read without error, a wire that no
   * later line up to `m` redefines holds the symbols of the line `k` that
   * last defined it.
   */
  lemma {:induction false} LastDefinitionFrom(lines: seq<seq<string>>, k: nat, m: nat)
    requires Load(lines).1.None? && k < m <= |lines|
    requires forall j :: k < j < m ==> Target(lines[j]) != Target(lines[k])
    ensures ParseLine(lines[k], k + 1).Ok?
    ensures Target(lines[k]) in Load(lines[..m]).0
    ensures Load(lines[..m]).0[Target(lines[k])] == Expr(ParseLine(lines[k], k + 1).value.1)
    decreases m
  {
    LoadPrefixOk(lines, m);
    LoadPrefixStep(lines, m - 1);
    if k < m - 1 {
      LastDefinitionFrom(lines, k, m - 1);
      assert Target(lines[m - 1]) != Target(lines[k]);
    }
  }

  /** When the whole file is read without error, each wire holds the symbols of the last line that defines it. */
  lemma LoadLastDefinitionWins(lines: seq<seq<string>>, k: nat)
    requires Load(lines).1.None? && k < |lines|
    requires forall j :: k < j < |lines| ==> Target(lines[j]) != Target(lines[k])
    ensures ParseLine(lines[k], k + 1).Ok?
    ensures Target(lines[k]) in Load(lines).0
    ensures Load(lines).0[Target(lines[k])] == Expr(ParseLine(lines[k], k + 1).value.1)
  {
    LastDefinitionFrom(lines, k, |lines|);
    assert lines[..|lines|] == lines;
  }
}
