/**
 * Day 7: what a circuit means. A wire's value is defined here without
 * memoisation, by evaluating its symbols exactly as the circuit computer
 * does (operands up to the first operator, then the operator that ends the
 * list) with a bound on the depth of evaluation. The computer's table, which
 * overwrites operands and entries with values as it goes, is related to this
 * meaning by `Consistent`.
 */
module CircuitSemantics {
  import opened Wrappers
  import opened CircuitSyntax

  // ---------------------------------------------------------------------------
  // 16-bit signals and the operator tables
  // ---------------------------------------------------------------------------

  /** Python's `v & 0xffff` on any integer, negative ones included (two's complement). */
  function Mask(v: int): (m: Word)
    ensures (v - m) % Modulus == 0
  {
    v % Modulus
  }

  function Pow2(k: nat): (p: nat)
    ensures p >= 1
  {
    if k == 0 then 1 else 2 * Pow2(k - 1)
  }

  /** Python's `&` on natural numbers, bit by bit from the least significant. */
  function BitAnd(a: nat, b: nat): (r: nat)
    ensures r <= a && r <= b
  {
    if a == 0 || b == 0 then 0
    else 2 * BitAnd(a / 2, b / 2) + (if a % 2 == 1 && b % 2 == 1 then 1 else 0)
  }

  /** Python's `|` on natural numbers, bit by bit from the least significant. */
  function BitOr(a: nat, b: nat): (r: nat)
    ensures a <= r && b <= r && r <= a + b
  {
    if a == 0 then b
    else if b == 0 then a
    else 2 * BitOr(a / 2, b / 2) + (if a % 2 == 1 || b % 2 == 1 then 1 else 0)
  }

  /** The binary operator table: `x & y`, `x | y`, `x << y`, `x >> y`. */
  function Binary(op: Operator, x: nat, y: nat): int
    requires op != Not
  {
    match op
    case And => BitAnd(x, y)
    case Or => BitOr(x, y)
    case LShift => x * Pow2(y)
    case RShift => x / Pow2(y)
  }

  /** The unary operator table: Python's `~x`, which is negative for every natural x. */
  function Complement(x: nat): int {
    -(x as int) - 1
  }

  lemma {:induction false} MulAtLeast(a: nat, m: nat)
    requires a >= 1
    ensures a * m >= m
    decreases a
  {
    if a > 1 {
      MulAtLeast(a - 1, m);
      assert a * m == (a - 1) * m + m;
    }
  }

  /** Division by a modulus determines the remainder. */
  lemma ModUnique(n: int, q: int, r: int, m: int)
    requires m > 0 && 0 <= r < m && n == q * m + r
    ensures n % m == r
  {
    var q', r' := n / m, n % m;
    assert n == q' * m + r';
    assert 0 <= r' < m;
    assert (q - q') * m == r' - r;
    if q > q' {
      MulAtLeast(q - q', m);
    } else if q < q' {
      MulAtLeast(q' - q, m);
    }
  }

  /** Halving splits a remainder by an even modulus into its low bit and the rest. */
  lemma HalveMod(n: nat, p: nat)
    requires p >= 1
    ensures n % (2 * p) == 2 * ((n / 2) % p) + n % 2
  {
    var h, r := n / 2, n % 2;
    var q, b := h / p, h % p;
    assert h == q * p + b && 0 <= b < p;
    assert n == 2 * h + r;
    assert n == q * (2 * p) + (2 * b + r);
    ModUnique(n, q, 2 * b + r, 2 * p);
  }

  lemma LowOnesHalve(p: nat)
    requires p >= 1
    ensures (2 * p - 1) / 2 == p - 1 && (2 * p - 1) % 2 == 1
  {
  }

  /** `n & (2p - 1)` takes n's low bit and `(n >> 1) & (p - 1)` above it. */
  lemma BitAndOddMask(n: nat, p: nat)
    requires n > 0 && p >= 1
    ensures BitAnd(n, 2 * p - 1) == 2 * BitAnd(n / 2, p - 1) + n % 2
  {
    LowOnesHalve(p);
  }

  /** Keeping the low k bits with `&` is taking the remainder by 2^k. */
  lemma {:induction false} BitAndLowOnes(n: nat, k: nat)
    ensures BitAnd(n, Pow2(k) - 1) == n % Pow2(k)
  {
    if k == 0 {
      assert Pow2(k) == 1;
    } else if n == 0 {
      assert BitAnd(n, Pow2(k) - 1) == 0;
    } else {
      var p := Pow2(k - 1);
      assert Pow2(k) == 2 * p;
      BitAndOddMask(n, p);
      BitAndLowOnes(n / 2, k - 1);
      HalveMod(n, p);
    }
  }

  /** Storing a signal, `value & 0xffff`, keeps exactly its low 16 bits. */
  lemma MaskIsLow16Bits(n: nat)
    ensures Mask(n) == BitAnd(n, 0xffff)
  {
    assert Pow2(4) == 16;
    assert Pow2(8) == 256 by {
      assert Pow2(6) == 64;
    }
    assert Pow2(12) == 4096 by {
      assert Pow2(10) == 1024;
    }
    assert Pow2(16) == Modulus by {
      assert Pow2(14) == 16384;
    }
    BitAndLowOnes(n, 16);
  }

  /** `~x & 0xffff` is the 16-bit complement of x's low 16 bits. */
  lemma NotIsComplement(n: int)
    ensures Mask(-n - 1) == 0xffff - Mask(n)
  {
    var q, m := n / Modulus, n % Modulus;
    assert n == q * Modulus + m;
    ModUnique(-n - 1, -q - 1, 0xffff - m, Modulus);
  }

  /** Negating a stored signal twice gives it back. */
  lemma NotTwice(v: Word)
    ensures Mask(Complement(Mask(Complement(v)))) == v
  {
    NotIsComplement(v);
    NotIsComplement(Mask(Complement(v)));
    ModUnique(v, 0, v, Modulus);
  }

  // ---------------------------------------------------------------------------
  // Evaluating a list of symbols
  // ---------------------------------------------------------------------------

  /** The position of the first operator, or the length when there is none. */
  function FirstOp(ss: seq<Symbol>): (k: nat)
    ensures k <= |ss|
    ensures forall j :: 0 <= j < k ==> !ss[j].Op?
    ensures k < |ss| ==> ss[k].Op?
  {
    if ss == [] then 0
    else if ss[0].Op? then 0
    else 1 + FirstOp(ss[1..])
  }

  /**
   * Calling the operator that ends the list: on the first symbol when the
   * list has two, on the first two otherwise. It fails (as Python's call
   * would raise) when the last symbol is not an operator, the operator takes
   * a different number of arguments, an argument is not a number, or there
   * is no second symbol.
   */
  function Fire(ss: seq<Symbol>): Option<int>
    requires |ss| >= 1
  {
    var f := ss[|ss| - 1];
    if !f.Op? then None
    else if |ss| == 2 then
      if f.op == Not && ss[0].Lit? then Some(Complement(ss[0].n)) else None
    else if |ss| >= 3 && f.op != Not && ss[0].Lit? && ss[1].Lit? then Some(Binary(f.op, ss[0].n, ss[1].n))
    else None
  }

  /**
   * The raw (unmasked) result of a list whose operands before the first
   * operator are numbers: the operator's result if there is an operator,
   * else the first symbol, which must be a number.
   */
  function Outcome(ss: seq<Symbol>): Option<int> {
    if FirstOp(ss) < |ss| then Fire(ss)
    else if ss != [] && ss[0].Lit? then Some(ss[0].n)
    else None
  }

  /**
   * The value of wire `w` in table `d`, evaluating at most `fuel` wires deep.
   * An assigned signal is its own value. A wire defined by symbols has the
   * masked outcome of those symbols once each wire operand before the first
   * operator is replaced by its value, provided the wire's name is lower
   * case (the check made when a signal is stored).
   */
  function Eval(d: map<string, Entry>, w: string, fuel: nat): Option<nat>
    decreases fuel, 0
  {
    if fuel == 0 || w !in d then None
    else
      match d[w]
      case Signal(v) => Some(v)
      case Expr(ss) =>
        match Subst(d, ss, 0, fuel - 1)
        case None => None
        case Some(rs) =>
          match Outcome(rs)
          case None => None
          case Some(r) => if IsLower(w) then Some(Mask(r)) else None
  }

  /**
   * The symbols from position `i` on, with every operand before the first
   * operator replaced by its value; `None` if one of them has none.
   */
  function Subst(d: map<string, Entry>, ss: seq<Symbol>, i: nat, fuel: nat): Option<seq<Symbol>>
    requires i <= |ss|
    decreases fuel, 1, |ss| - i
  {
    if i == |ss| || ss[i].Op? then Some(ss[i..])
    else
      var head := if ss[i].Lit? then Some(ss[i].n) else Eval(d, ss[i].name, fuel);
      var rest := Subst(d, ss, i + 1, fuel);
      if head.Some? && rest.Some? then Some([Lit(head.value)] + rest.value) else None
  }

  /** The wire has value `v` in the table. */
  ghost predicate Means(d: map<string, Entry>, w: string, v: nat) {
    exists fuel: nat :: Eval(d, w, fuel) == Some(v)
  }

  /** The wire has no value in the table, however deep the evaluation goes. */
  ghost predicate HasNoValue(d: map<string, Entry>, w: string) {
    forall fuel: nat :: Eval(d, w, fuel).None?
  }

  /** More fuel never changes a value that was found. */
  lemma {:induction false} EvalMono(d: map<string, Entry>, w: string, f: nat, g: nat)
    requires f <= g && Eval(d, w, f).Some?
    ensures Eval(d, w, g) == Eval(d, w, f)
    decreases f, 0
  {
    if d[w].Expr? {
      SubstMono(d, d[w].symbols, 0, f - 1, g - 1);
    }
  }

  lemma {:induction false} SubstMono(d: map<string, Entry>, ss: seq<Symbol>, i: nat, f: nat, g: nat)
    requires i <= |ss| && f <= g && Subst(d, ss, i, f).Some?
    ensures Subst(d, ss, i, g) == Subst(d, ss, i, f)
    decreases f, 1, |ss| - i
  {
    if i < |ss| && !ss[i].Op? {
      if ss[i].Wire? {
        EvalMono(d, ss[i].name, f, g);
      }
      SubstMono(d, ss, i + 1, f, g);
    }
  }

  /** A wire has at most one value. */
  lemma MeansUnique(d: map<string, Entry>, w: string, a: nat, b: nat)
    requires Means(d, w, a) && Means(d, w, b)
    ensures a == b
  {
    var f: nat :| Eval(d, w, f) == Some(a);
    var g: nat :| Eval(d, w, g) == Some(b);
    if f <= g {
      EvalMono(d, w, f, g);
    } else {
      EvalMono(d, w, g, f);
    }
  }

  /** An assigned signal is the wire's value. */
  lemma SignalMeans(d: map<string, Entry>, w: string)
    requires w in d && d[w].Signal?
    ensures Means(d, w, d[w].value)
  {
    assert Eval(d, w, 1) == Some(d[w].value);
  }

  /** The operand symbol `s` has value `v` within `fuel`: a number is its own value. */
  ghost predicate ValuedWithin(d: map<string, Entry>, s: Symbol, v: nat, fuel: nat) {
    match s
    case Lit(n) => n == v
    case Wire(m) => Eval(d, m, fuel) == Some(v)
    case Op(_) => false
  }

  /** Substituting a single operand at position i. */
  lemma SubstOperand(d: map<string, Entry>, ss: seq<Symbol>, i: nat, x: nat, fuel: nat, rest: seq<Symbol>)
    requires i < |ss| && ValuedWithin(d, ss[i], x, fuel) && Subst(d, ss, i + 1, fuel) == Some(rest)
    ensures Subst(d, ss, i, fuel) == Some([Lit(x)] + rest)
  {
  }

  /** An assignment `a -> w` gives `w` the value of `a`, masked to 16 bits. */
  lemma AssignmentEval(d: map<string, Entry>, w: string, s0: Symbol, x: nat, fuel: nat)
    requires w in d && d[w] == Expr([s0]) && IsLower(w) && ValuedWithin(d, s0, x, fuel)
    ensures Eval(d, w, fuel + 1) == Some(Mask(x))
  {
    var ss := [s0];
    assert ss[1..] == [];
    SubstOperand(d, ss, 0, x, fuel, []);
    assert [Lit(x)] + [] == [Lit(x)];
    assert FirstOp([Lit(x)]) == 1;
  }

  /** A negation `NOT a -> w` gives `w` the 16-bit complement of `a`'s value. */
  lemma NotGateEval(d: map<string, Entry>, w: string, s0: Symbol, x: nat, fuel: nat)
    requires w in d && d[w] == Expr([s0, Op(Not)]) && IsLower(w) && ValuedWithin(d, s0, x, fuel)
    ensures Eval(d, w, fuel + 1) == Some(Mask(Complement(x)))
  {
    var ss := [s0, Op(Not)];
    assert Subst(d, ss, 1, fuel) == Some([Op(Not)]);
    SubstOperand(d, ss, 0, x, fuel, [Op(Not)]);
    assert FirstOp([Lit(x), Op(Not)]) == 1;
  }

  /** A binary gate `a OP b -> w` gives `w` the operator's result on the operands' values, masked. */
  lemma BinaryGateEval(d: map<string, Entry>, w: string, s0: Symbol, s1: Symbol, op: Operator, x: nat, y: nat, fuel: nat)
    requires w in d && d[w] == Expr([s0, s1, Op(op)]) && op != Not && IsLower(w)
    requires ValuedWithin(d, s0, x, fuel) && ValuedWithin(d, s1, y, fuel)
    ensures Eval(d, w, fuel + 1) == Some(Mask(Binary(op, x, y)))
  {
    var ss := [s0, s1, Op(op)];
    assert Subst(d, ss, 2, fuel) == Some([Op(op)]);
    SubstOperand(d, ss, 1, y, fuel, [Op(op)]);
    assert [Lit(y)] + [Op(op)] == [Lit(y), Op(op)];
    SubstOperand(d, ss, 0, x, fuel, [Lit(y), Op(op)]);
    assert [Lit(x)] + [Lit(y), Op(op)] == [Lit(x), Lit(y), Op(op)];
    assert FirstOp([Lit(x), Lit(y), Op(op)]) == 2;
  }

  // ---------------------------------------------------------------------------
  // Dependencies, cycles and missing values
  // ---------------------------------------------------------------------------

  /** Wire `b` is an operand that evaluating `a` needs: it comes before `a`'s first operator. */
  ghost predicate Operand(d: map<string, Entry>, a: string, b: string) {
    a in d && d[a].Expr? &&
    exists j :: 0 <= j < FirstOp(d[a].symbols) && d[a].symbols[j] == Wire(b)
  }

  lemma {:induction false} SubstNeedsOperand(d: map<string, Entry>, ss: seq<Symbol>, i: nat, f: nat, j: nat)
    requires i <= j < FirstOp(ss) && Subst(d, ss, i, f).Some? && ss[j].Wire?
    ensures Eval(d, ss[j].name, f).Some?
    decreases j - i
  {
    if i < j {
      SubstNeedsOperand(d, ss, i + 1, f, j);
    }
  }

  /** A wire with a value needs a value, one level less deep, for each operand. */
  lemma OperandNeedsValue(d: map<string, Entry>, a: string, b: string, f: nat)
    requires Operand(d, a, b) && Eval(d, a, f).Some?
    ensures f >= 1 && Eval(d, b, f - 1).Some?
  {
    var j :| 0 <= j < FirstOp(d[a].symbols) && d[a].symbols[j] == Wire(b);
    SubstNeedsOperand(d, d[a].symbols, 0, f - 1, j);
  }

  /** A wire one of whose operands has no value has none either. */
  lemma OperandNoValue(d: map<string, Entry>, a: string, b: string)
    requires Operand(d, a, b) && HasNoValue(d, b)
    ensures HasNoValue(d, a)
  {
    forall f: nat ensures Eval(d, a, f).None? {
      if Eval(d, a, f).Some? {
        OperandNeedsValue(d, a, b, f);
      }
    }
  }

  /** Evaluating `a` can need `b`: a chain of operands leads from `a` to `b` (or `a` is `b`). */
  ghost predicate Reaches(d: map<string, Entry>, a: string, b: string) {
    exists c: seq<string> :: |c| >= 1 && c[0] == a && c[|c| - 1] == b &&
      forall k :: 0 <= k < |c| - 1 ==> Operand(d, c[k], c[k + 1])
  }

  lemma ReachesStep(d: map<string, Entry>, a: string, m: string, b: string)
    requires Operand(d, a, m) && Reaches(d, m, b)
    ensures Reaches(d, a, b)
  {
    var c :| |c| >= 1 && c[0] == m && c[|c| - 1] == b && forall k :: 0 <= k < |c| - 1 ==> Operand(d, c[k], c[k + 1]);
    var c' := [a] + c;
    forall k | 0 <= k < |c'| - 1
      ensures Operand(d, c'[k], c'[k + 1])
    {
      if k > 0 {
        assert c'[k] == c[k - 1] && c'[k + 1] == c[k];
      }
    }
    assert c'[0] == a && c'[|c'| - 1] == b;
  }

  /**
   * Replacing the entry of `b` leaves the value of every wire that does not
   * reach `b` as it was, however deep the evaluation goes.
   */
  lemma {:induction false} OverrideEval(d: map<string, Entry>, b: string, e: Entry, a: string, f: nat)
    requires !Reaches(d, a, b)
    ensures Eval(d[b := e], a, f) == Eval(d, a, f)
    decreases f, 0
  {
    assert a != b by {
      var c := [a];
      assert |c| >= 1 && c[0] == a && c[|c| - 1] == a;
    }
    if f > 0 && a in d && d[a].Expr? {
      OverrideSubst(d, b, e, a, 0, f - 1);
    }
  }

  lemma {:induction false} OverrideSubst(d: map<string, Entry>, b: string, e: Entry, a: string, i: nat, f: nat)
    requires a in d && d[a].Expr? && i <= FirstOp(d[a].symbols) && !Reaches(d, a, b)
    ensures Subst(d[b := e], d[a].symbols, i, f) == Subst(d, d[a].symbols, i, f)
    decreases f, 1, |d[a].symbols| - i
  {
    var ss := d[a].symbols;
    if i < |ss| && !ss[i].Op? {
      if ss[i].Wire? {
        var m := ss[i].name;
        assert Operand(d, a, m);
        if Reaches(d, m, b) {
          ReachesStep(d, a, m, b);
        }
        OverrideEval(d, b, e, m, f);
      }
      OverrideSubst(d, b, e, a, i + 1, f);
    }
  }

  /**
   * Setting `b` to a signal by hand keeps the value of every wire that does
   * not depend on `b`, and gives such a wire no value it lacked.
   */
  lemma OverrideKeeps(d: map<string, Entry>, a: string, b: string, v: Word, value: nat)
    requires !Reaches(d, a, b)
    ensures Means(d[b := Signal(v)], a, value) <==> Means(d, a, value)
  {
    if Means(d, a, value) {
      var f: nat :| Eval(d, a, f) == Some(value);
      OverrideEval(d, b, Signal(v), a, f);
    }
    if Means(d[b := Signal(v)], a, value) {
      var f: nat :| Eval(d[b := Signal(v)], a, f) == Some(value);
      OverrideEval(d, b, Signal(v), a, f);
    }
  }


  /** A closed chain of operands: each wire needs the next, and the last is the first. */
  ghost predicate IsCycle(d: map<string, Entry>, p: seq<string>) {
    |p| >= 2 && p[0] == p[|p| - 1] &&
    forall k :: 0 <= k < |p| - 1 ==> Operand(d, p[k], p[k + 1])
  }

  lemma {:induction false} ChainFuel(d: map<string, Entry>, p: seq<string>, k: nat, f: nat)
    requires IsCycle(d, p) && k < |p| && Eval(d, p[k], f).Some?
    ensures f >= |p| - 1 - k && Eval(d, p[|p| - 1], f - (|p| - 1 - k)).Some?
    decreases |p| - k
  {
    if k < |p| - 1 {
      OperandNeedsValue(d, p[k], p[k + 1], f);
      ChainFuel(d, p, k + 1, f - 1);
    }
  }

  lemma {:induction false} CycleStartNoValue(d: map<string, Entry>, p: seq<string>, f: nat)
    requires IsCycle(d, p)
    ensures Eval(d, p[0], f).None?
    decreases f
  {
    if Eval(d, p[0], f).Some? {
      ChainFuel(d, p, 0, f);
      CycleStartNoValue(d, p, f - (|p| - 1));
    }
  }

  /** No wire on a cycle has a value. */
  lemma CycleNoValue(d: map<string, Entry>, p: seq<string>)
    requires IsCycle(d, p)
    ensures forall k :: 0 <= k < |p| ==> HasNoValue(d, p[k])
  {
    forall k, f: nat | 0 <= k < |p|
      ensures Eval(d, p[k], f).None?
    {
      if Eval(d, p[k], f).Some? {
        ChainFuel(d, p, k, f);
        CycleStartNoValue(d, p, f - (|p| - 1 - k));
      }
    }
  }

  /** A wire defined by symbols whose name is not lower case never gets a value. */
  lemma InvalidNameNoValue(d: map<string, Entry>, w: string)
    requires w in d && d[w].Expr? && !IsLower(w)
    ensures HasNoValue(d, w)
  {
    forall f: nat ensures Eval(d, w, f).None? {
    }
  }

  // ---------------------------------------------------------------------------
  // Partly evaluated symbol lists
  // ---------------------------------------------------------------------------

  /** The operand symbol `s` has value `v`: a number is its own value, a wire has its value. */
  ghost predicate Resolves(d: map<string, Entry>, s: Symbol, v: nat) {
    match s
    case Lit(n) => n == v
    case Wire(m) => Means(d, m, v)
    case Op(_) => false
  }

  /**
   * `ss` is the definition `D` with some of the operands before the first
   * operator replaced by their values: the state of a wire's symbols while it
   * is being evaluated, or after an evaluation that failed part way.
   */
  ghost predicate Relaxed(d: map<string, Entry>, D: seq<Symbol>, ss: seq<Symbol>) {
    |ss| == |D| &&
    forall j :: 0 <= j < |D| ==> ss[j] == D[j] || (j < FirstOp(D) && D[j].Wire? && ss[j].Lit? && Means(d, D[j].name, ss[j].n))
  }

  /** `ss` is `D` with every operand before the first operator replaced by its value. */
  ghost predicate Settled(d: map<string, Entry>, D: seq<Symbol>, ss: seq<Symbol>) {
    |ss| == |D| &&
    (forall j :: 0 <= j < FirstOp(D) ==> ss[j].Lit? && Resolves(d, D[j], ss[j].n)) &&
    (forall j :: FirstOp(D) <= j < |D| ==> ss[j] == D[j])
  }

  /** Once every operand before the first operator is a number, a relaxed list is settled. */
  lemma RelaxedSettles(d: map<string, Entry>, D: seq<Symbol>, ss: seq<Symbol>)
    requires Relaxed(d, D, ss) && forall j :: 0 <= j < FirstOp(D) ==> ss[j].Lit?
    ensures Settled(d, D, ss)
  {
    forall j | 0 <= j < FirstOp(D)
      ensures Resolves(d, D[j], ss[j].n)
    {
      assert ss[j] == D[j] || (D[j].Wire? && Means(d, D[j].name, ss[j].n));
    }
  }

  /**
   * When the operands before position i are numbers and position i ends
   * them (an operator or the end), position i is the first operator and the
   * list is settled.
   */
  lemma RelaxedPrefixSettles(d: map<string, Entry>, D: seq<Symbol>, ss: seq<Symbol>, i: nat)
    requires Relaxed(d, D, ss) && i <= FirstOp(D) && i <= |ss|
    requires forall j :: 0 <= j < i ==> ss[j].Lit?
    requires i == |ss| || ss[i].Op?
    ensures FirstOp(D) == i && FirstOp(ss) == i && Settled(d, D, ss)
  {
    if i < |ss| {
      assert D[i] == ss[i];
    }
    RelaxedSettles(d, D, ss);
  }

  /** Replacing an operand by its value keeps a list relaxed. */
  lemma RelaxedSlot(d: map<string, Entry>, D: seq<Symbol>, ss: seq<Symbol>, j: nat, v: nat)
    requires Relaxed(d, D, ss) && j < FirstOp(D) && D[j].Wire? && Means(d, D[j].name, v)
    ensures Relaxed(d, D, ss[j := Lit(v)])
  {
  }

  lemma {:induction false} SettledSubstFrom(d: map<string, Entry>, D: seq<Symbol>, ss: seq<Symbol>, i: nat)
    requires Settled(d, D, ss) && i <= FirstOp(D)
    ensures exists f: nat :: Subst(d, D, i, f) == Some(ss[i..])
    decreases FirstOp(D) - i
  {
    if i == FirstOp(D) {
      assert ss[i..] == D[i..];
      assert Subst(d, D, i, 0) == Some(ss[i..]);
    } else {
      assert ss[i].Lit? && Resolves(d, D[i], ss[i].n);
      SettledSubstFrom(d, D, ss, i + 1);
      var f1: nat :| Subst(d, D, i + 1, f1) == Some(ss[i + 1..]);
      var f := f1;
      if D[i].Wire? {
        assert Means(d, D[i].name, ss[i].n);
        var f2: nat :| Eval(d, D[i].name, f2) == Some(ss[i].n);
        f := if f1 <= f2 then f2 else f1;
        EvalMono(d, D[i].name, f2, f);
      }
      SubstMono(d, D, i + 1, f1, f);
      assert ss[i..] == [Lit(ss[i].n)] + ss[i + 1..];
      assert Subst(d, D, i, f) == Some(ss[i..]);
    }
  }

  /** Evaluating a settled list's definition gives the settled list. */
  lemma SettledSubst(d: map<string, Entry>, D: seq<Symbol>, ss: seq<Symbol>)
    requires Settled(d, D, ss)
    ensures exists f: nat :: Subst(d, D, 0, f) == Some(ss)
  {
    SettledSubstFrom(d, D, ss, 0);
    assert ss[0..] == ss;
  }

  /** A wire whose settled symbols have an outcome has that outcome, masked, as its value. */
  lemma SettledMeans(d: map<string, Entry>, w: string, ss: seq<Symbol>, out: int)
    requires w in d && d[w].Expr? && Settled(d, d[w].symbols, ss) && Outcome(ss) == Some(out) && IsLower(w)
    ensures Means(d, w, Mask(out))
  {
    SettledSubst(d, d[w].symbols, ss);
    var f: nat :| Subst(d, d[w].symbols, 0, f) == Some(ss);
    assert Eval(d, w, f + 1) == Some(Mask(out));
  }

  /** A wire whose settled symbols have no outcome has no value. */
  lemma SettledNoOutcome(d: map<string, Entry>, w: string, ss: seq<Symbol>)
    requires w in d && d[w].Expr? && Settled(d, d[w].symbols, ss) && Outcome(ss).None?
    ensures HasNoValue(d, w)
  {
    SettledSubst(d, d[w].symbols, ss);
    var g: nat :| Subst(d, d[w].symbols, 0, g) == Some(ss);
    var D := d[w].symbols;
    forall f: nat ensures Eval(d, w, f).None? {
      if f > 0 && Subst(d, D, 0, f - 1).Some? {
        var e: nat := f - 1;
        var h: nat := if e <= g then g else e;
        SubstMono(d, D, 0, e, h);
        SubstMono(d, D, 0, g, h);
        assert Subst(d, D, 0, e) == Some(ss);
      }
    }
  }

  // ---------------------------------------------------------------------------
  // The computer's table against the definitions
  // ---------------------------------------------------------------------------

  /**
   * The entry a table holds for `w` is what the definitions say, or the
   * value of `w`, or the definition partly evaluated.
   */
  ghost predicate Agrees(d: map<string, Entry>, w: string, e: Entry)
    requires w in d
  {
    e == d[w] ||
    (d[w].Expr? && e.Signal? && Means(d, w, e.value)) ||
    (d[w].Expr? && e.Expr? && Relaxed(d, d[w].symbols, e.symbols))
  }

  /** The table `t` has the wires of the definitions `d`, each entry agreeing with its definition. */
  ghost predicate Consistent(d: map<string, Entry>, t: map<string, Entry>) {
    t.Keys == d.Keys && forall w :: w in t ==> Agrees(d, w, t[w])
  }

  /** A table holding exactly the definitions is consistent with them. */
  lemma ConsistentWithItself(d: map<string, Entry>)
    ensures Consistent(d, d)
  {
  }

  /** A signal in a consistent table is the wire's value. */
  lemma ConsistentSignal(d: map<string, Entry>, t: map<string, Entry>, w: string)
    requires Consistent(d, t) && w in t && t[w].Signal?
    ensures Means(d, w, t[w].value)
  {
    if t[w] == d[w] {
      SignalMeans(d, w);
    }
  }

  /** Symbols in a consistent table are the wire's definition, partly evaluated. */
  lemma ConsistentExpr(d: map<string, Entry>, t: map<string, Entry>, w: string)
    requires Consistent(d, t) && w in t && t[w].Expr?
    ensures d[w].Expr? && Relaxed(d, d[w].symbols, t[w].symbols)
  {
    if t[w] == d[w] {
      assert forall j :: 0 <= j < |d[w].symbols| ==> t[w].symbols[j] == d[w].symbols[j];
    }
  }

  /** Replacing an operand by its value keeps the table consistent. */
  lemma ConsistentSlot(d: map<string, Entry>, t: map<string, Entry>, w: string, ss: seq<Symbol>, j: nat, v: nat)
    requires Consistent(d, t) && w in t && t[w] == Expr(ss)
    requires j < FirstOp(d[w].symbols) && d[w].symbols[j].Wire? && Means(d, d[w].symbols[j].name, v)
    ensures Consistent(d, t[w := Expr(ss[j := Lit(v)])])
  {
    ConsistentExpr(d, t, w);
    RelaxedSlot(d, d[w].symbols, ss, j, v);
  }

  /** Storing a wire's value in place of its symbols keeps the table consistent. */
  lemma ConsistentMemo(d: map<string, Entry>, t: map<string, Entry>, w: string, v: Word)
    requires Consistent(d, t) && w in t && d[w].Expr? && Means(d, w, v)
    ensures Consistent(d, t[w := Signal(v)])
  {
  }
}
