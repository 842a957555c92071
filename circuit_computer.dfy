/**
 * Day 7: the circuit computer. It holds the tokens of the last file it read,
 * a table from wire names to entries, and whether a signal has been asked
 * for since the file was read. Asking for a wire's signal evaluates the
 * wires it depends on, writes each operand's value into the wire's symbols
 * as it goes, and finally replaces the wire's symbols by its signal.
 *
 * The ghost field `defs` is the table as the file (and any signals set by
 * hand) defines it; `Valid` says the working table agrees with it, so that
 * every signal the computer reports is the value `Eval` gives the wire.
 */
module Circuit {
  import opened Wrappers
  import opened CircuitSyntax
  import opened CircuitSemantics

  /** The position of the first occurrence of `x` in `s` (Python's `list.index`). */
  function IndexOf(s: seq<string>, x: string): (k: nat)
    requires x in s
    ensures k < |s| && s[k] == x
    ensures forall j :: 0 <= j < k ==> s[j] != x
  {
    if s[0] == x then 0 else 1 + IndexOf(s[1..], x)
  }

  ghost function Elems(s: seq<string>): set<string> {
    set x | x in s
  }

  /**
   * The wires being evaluated when `wire` is asked for: distinct, all in
   * the table, each an operand of the one before, and `wire` an operand of
   * the last.
   */
  ghost predicate Stack(d: map<string, Entry>, visited: seq<string>, wire: string) {
    (forall i, j :: 0 <= i < j < |visited| ==> visited[i] != visited[j]) &&
    (forall k :: 0 <= k < |visited| ==> visited[k] in d) &&
    (forall k :: 0 <= k < |visited| - 1 ==> Operand(d, visited[k], visited[k + 1])) &&
    (visited != [] ==> Operand(d, visited[|visited| - 1], wire))
  }

  /** A wire met again on the stack closes a cycle, so it has no value. */
  lemma StackCycle(d: map<string, Entry>, visited: seq<string>, wire: string)
    requires Stack(d, visited, wire) && wire in visited
    ensures IsCycle(d, visited[IndexOf(visited, wire)..] + [wire])
    ensures HasNoValue(d, wire)
  {
    var index := IndexOf(visited, wire);
    var path := visited[index..] + [wire];
    forall k | 0 <= k < |path| - 1
      ensures Operand(d, path[k], path[k + 1])
    {
      if k < |path| - 2 {
        assert path[k] == visited[index + k] && path[k + 1] == visited[index + k + 1];
      }
    }
    CycleNoValue(d, path);
    assert path[0] == wire;
  }

  /** Evaluating an operand of a wire not yet on the stack pushes the wire. */
  lemma StackPush(d: map<string, Entry>, visited: seq<string>, wire: string, operand: string)
    requires Stack(d, visited, wire) && wire in d && wire !in visited && Operand(d, wire, operand)
    ensures Stack(d, visited + [wire], operand)
    ensures d.Keys - Elems(visited + [wire]) < d.Keys - Elems(visited)
  {
    assert Elems(visited + [wire]) == Elems(visited) + {wire};
  }

  /** Same wires, and every signal of `t` still there in `u`. */
  ghost predicate KeepsSignals(t: map<string, Entry>, u: map<string, Entry>) {
    t.Keys == u.Keys && forall x :: x in t && t[x].Signal? ==> u[x] == t[x]
  }

  /** The entries of the wires in `xs` are the same in both tables. */
  ghost predicate SameOn(t: map<string, Entry>, u: map<string, Entry>, xs: seq<string>) {
    forall k :: 0 <= k < |xs| && xs[k] in t ==> xs[k] in u && u[xs[k]] == t[xs[k]]
  }

  /** Writing an entry that was not a signal, of a wire not on the stack, keeps both frames. */
  lemma FrameStore(o: map<string, Entry>, a: map<string, Entry>, visited: seq<string>, wire: string, e: Entry)
    requires KeepsSignals(o, a) && SameOn(o, a, visited)
    requires wire in o && !o[wire].Signal? && wire !in visited
    ensures KeepsSignals(o, a[wire := e]) && SameOn(o, a[wire := e], visited)
  {
  }

  /**
   * After evaluating an operand of `wire` with `wire` pushed on the stack,
   * `wire`'s entry is as it was, and writing it keeps both frames.
   */
  lemma FramePush(o: map<string, Entry>, a: map<string, Entry>, b: map<string, Entry>, visited: seq<string>, wire: string, e: Entry)
    requires KeepsSignals(o, a) && SameOn(o, a, visited)
    requires KeepsSignals(a, b) && SameOn(a, b, visited + [wire])
    requires wire in a && wire in o && !o[wire].Signal? && wire !in visited
    ensures b[wire] == a[wire]
    ensures KeepsSignals(o, b[wire := e]) && SameOn(o, b[wire := e], visited)
  {
    assert (visited + [wire])[|visited|] == wire;
    forall k | 0 <= k < |visited| && visited[k] in o
      ensures visited[k] in b && b[visited[k]] == o[visited[k]]
    {
      assert (visited + [wire])[k] == visited[k];
    }
  }

  lemma FrameTrans(o: map<string, Entry>, a: map<string, Entry>, b: map<string, Entry>, visited: seq<string>)
    requires KeepsSignals(o, a) && SameOn(o, a, visited)
    requires KeepsSignals(a, b) && SameOn(a, b, visited)
    ensures KeepsSignals(o, b) && SameOn(o, b, visited)
  {
  }

  /** No wire occurs twice. */
  ghost predicate Distinct(s: seq<string>) {
    forall i, j :: 0 <= i < j < |s| ==> s[i] != s[j]
  }

  /**
   * A chain of evaluation that starts with the stack `visited`, goes on with
   * `wire`, and then with further wires, each an operand of the one before.
   */
  ghost predicate Path(d: map<string, Entry>, visited: seq<string>, wire: string, c: seq<string>) {
    |c| > |visited| && c[..|visited|] == visited && c[|visited|] == wire &&
    forall k :: 0 <= k < |c| - 1 ==> Operand(d, c[k], c[k + 1])
  }

  /**
   * The error wire `n` itself fails with: it is undefined, it has a name that
   * is not lower case, or its symbols, once every operand is resolved, do
   * not form a gate.
   */
  ghost predicate FailsAt(d: map<string, Entry>, n: string, e: Error) {
    match e
    case Undefined(m) => m == n && n !in d
    case InvalidIdentifier(m) => m == n && n in d && d[n].Expr? && !IsLower(n)
    case Malformed(m) =>
      m == n && n in d && d[n].Expr? && exists ss :: Settled(d, d[n].symbols, ss) && Outcome(ss).None?
    case _ => false
  }

  /**
   * What an error reported for `wire`, asked for with the stack `visited`,
   * says about the definitions. A cycle is the end of a chain from the
   * stack through `wire` whose wires are all distinct except the last,
   * which closes the cycle: the first wire the depth-first evaluation meets
   * twice. Any other error is that of the last wire of such a chain.
   */
  ghost predicate Explains(d: map<string, Entry>, visited: seq<string>, wire: string, e: Error) {
    match e
    case Cycle(p) =>
      IsCycle(d, p) &&
      exists c :: Path(d, visited, wire, c) && Distinct(c[..|c| - 1]) && 2 <= |p| <= |c| && p == c[|c| - |p|..]
    case NotLoaded => false
    case EmptyLine(_) => false
    case _ => exists c :: Path(d, visited, wire, c) && FailsAt(d, c[|c| - 1], e)
  }

  lemma StackPath(d: map<string, Entry>, visited: seq<string>, wire: string)
    requires Stack(d, visited, wire)
    ensures Path(d, visited, wire, visited + [wire])
  {
    var c := visited + [wire];
    assert c[..|visited|] == visited;
    forall k | 0 <= k < |c| - 1
      ensures Operand(d, c[k], c[k + 1])
    {
      if k < |visited| - 1 {
        assert c[k] == visited[k] && c[k + 1] == visited[k + 1];
      }
    }
  }

  /** An error of the wire itself explains the wire's failure. */
  lemma ExplainsHere(d: map<string, Entry>, visited: seq<string>, wire: string, e: Error)
    requires Stack(d, visited, wire) && FailsAt(d, wire, e)
    ensures Explains(d, visited, wire, e)
  {
    StackPath(d, visited, wire);
    var c := visited + [wire];
    assert c[|c| - 1] == wire;
  }

  /** A wire met again on the stack is reported with the cycle it closes. */
  lemma ExplainsStackCycle(d: map<string, Entry>, visited: seq<string>, wire: string)
    requires Stack(d, visited, wire) && wire in visited
    ensures Explains(d, visited, wire, Cycle(visited[IndexOf(visited, wire)..] + [wire]))
  {
    StackCycle(d, visited, wire);
    StackPath(d, visited, wire);
    var c := visited + [wire];
    var p := visited[IndexOf(visited, wire)..] + [wire];
    assert c[..|c| - 1] == visited;
    assert p == c[|c| - |p|..];
  }

  /** A chain through the stack and an operand is a chain through the wire that needs it. */
  lemma PathPush(d: map<string, Entry>, visited: seq<string>, wire: string, name: string, c: seq<string>)
    requires Path(d, visited + [wire], name, c)
    ensures Path(d, visited, wire, c)
  {
    assert c[..|visited|] == c[..|visited| + 1][..|visited|];
    assert c[|visited|] == c[..|visited| + 1][|visited|];
  }

  /** The error of an operand, evaluated with the wire pushed, explains the wire's failure. */
  lemma ExplainsPush(d: map<string, Entry>, visited: seq<string>, wire: string, name: string, e: Error)
    requires Explains(d, visited + [wire], name, e)
    ensures Explains(d, visited, wire, e)
  {
    match e
    case Cycle(p) =>
      var c :| Path(d, visited + [wire], name, c) && Distinct(c[..|c| - 1]) && 2 <= |p| <= |c| && p == c[|c| - |p|..];
      PathPush(d, visited, wire, name, c);
    case NotLoaded =>
    case EmptyLine(_) =>
    case Undefined(_) =>
      var c :| Path(d, visited + [wire], name, c) && FailsAt(d, c[|c| - 1], e);
      PathPush(d, visited, wire, name, c);
    case InvalidIdentifier(_) =>
      var c :| Path(d, visited + [wire], name, c) && FailsAt(d, c[|c| - 1], e);
      PathPush(d, visited, wire, name, c);
    case Malformed(_) =>
      var c :| Path(d, visited + [wire], name, c) && FailsAt(d, c[|c| - 1], e);
      PathPush(d, visited, wire, name, c);
  }

  class CircuitComputer {
    /** The tokens of the last file read, kept so that the table can be rebuilt. */
    var lines: Option<seq<seq<string>>>
    /** The working table; `None` until a file is read. */
    var wires: Option<map<string, Entry>>
    var hasComputedWires: bool
    /** The definitions: the table as read, with signals set by hand. */
    ghost var defs: map<string, Entry>

    ghost predicate Valid()
      reads this
    {
      (wires.None? ==> defs == map[]) &&
      (wires.Some? ==> Consistent(defs, wires.value)) &&
      (wires.Some? && !hasComputedWires ==> wires.value == defs)
    }

    constructor ()
      ensures Valid()
      ensures lines.None? && wires.None? && !hasComputedWires
    {
      lines := None;
      wires := None;
      hasComputedWires := false;
      defs := map[];
    }

    /**
     * Reads a file, given as its lines split into tokens: the table becomes
     * the lines' definitions, the last definition of a wire winning. A line
     * that fails stops the reading and leaves the lines before it in the
     * table.
     */
    method ParseFile(file: seq<seq<string>>) returns (err: Option<Error>)
      modifies this
      ensures lines == Some(file)
      ensures wires == Some(Load(file).0) && defs == Load(file).0
      ensures err == Load(file).1
      ensures hasComputedWires == (old(hasComputedWires) && err.Some?)
      ensures Valid()
    {
      lines := Some(file);
      wires := Some(map[]);
      defs := map[];
      var i := 0;
      while i < |file|
        invariant 0 <= i <= |file|
        invariant lines == Some(file) && hasComputedWires == old(hasComputedWires)
        invariant wires.Some? && Load(file[..i]) == (wires.value, None)
        invariant defs == wires.value
      {
        var parsed := ParseLine(file[i], i + 1);
        LoadPrefixStep(file, i);
        if parsed.Err? {
          LoadStops(file, i + 1);
          ConsistentWithItself(defs);
          return Some(parsed.error);
        }
        wires := Some(wires.value[parsed.value.0 := Expr(parsed.value.1)]);
        defs := wires.value;
        i := i + 1;
      }
      assert file[..i] == file;
      hasComputedWires := false;
      ConsistentWithItself(defs);
      return None;
    }

    /** Stores `value & 0xffff` as the wire's signal, if the wire's name is lower case. */
    method SetWireSignalRaw(wire: string, value: int) returns (err: Option<Error>)
      modifies this`wires
      ensures !IsLower(wire) ==> err == Some(InvalidIdentifier(wire)) && wires == old(wires)
      ensures IsLower(wire) && old(wires).None? ==> err == Some(NotLoaded) && wires == old(wires)
      ensures IsLower(wire) && old(wires).Some? ==> err.None? && wires == Some(old(wires).value[wire := Signal(Mask(value))])
    {
      if !IsLower(wire) {
        return Some(InvalidIdentifier(wire));
      }
      if wires.None? {
        return Some(NotLoaded);
      }
      wires := Some(wires.value[wire := Signal(Mask(value))]);
      return None;
    }

    /**
     * The signal on `wire`, with `visited` the wires whose evaluation is
     * waiting for it. On success the wire's entry is its signal, which is
     * the wire's value; on failure the wire has no value.
     */
    method Resolve(wire: string, visited: seq<string>) returns (r: Result<Word, Error>)
      requires Valid() && wires.Some? && Stack(defs, visited, wire)
      modifies this`wires, this`hasComputedWires
      decreases defs.Keys - Elems(visited), 2
      ensures Valid() && wires.Some? && hasComputedWires
      ensures wire !in old(wires.value) ==> r == Err(Undefined(wire)) && wires == old(wires)
      ensures wire in old(wires.value) && wire in visited ==>
        r == Err(Cycle(visited[IndexOf(visited, wire)..] + [wire])) && wires == old(wires)
      ensures wire in old(wires.value) && wire !in visited && old(wires.value)[wire].Signal? ==>
        r == Ok(old(wires.value)[wire].value) && wires == old(wires)
      ensures KeepsSignals(old(wires.value), wires.value)
      ensures r.Ok? ==> SameOn(old(wires.value), wires.value, visited)
      ensures r.Ok? ==> wire in wires.value && wires.value[wire] == Signal(r.value)
      ensures r.Ok? ==> Means(defs, wire, r.value)
      ensures r.Err? ==> HasNoValue(defs, wire) && Explains(defs, visited, wire, r.error)
    {
      hasComputedWires := true;
      var table := wires.value;
      if wire !in table {
        forall f: nat ensures Eval(defs, wire, f).None? {
        }
        ExplainsHere(defs, visited, wire, Undefined(wire));
        assert Explains(defs, visited, wire, Undefined(wire));
        return Err(Undefined(wire));
      }
      if wire in visited {
        var index := IndexOf(visited, wire);
        StackCycle(defs, visited, wire);
        ExplainsStackCycle(defs, visited, wire);
        assert Explains(defs, visited, wire, Cycle(visited[index..] + [wire]));
        return Err(Cycle(visited[index..] + [wire]));
      }
      var entry := table[wire];
      if entry.Signal? {
        ConsistentSignal(defs, table, wire);
        return Ok(entry.value);
      }
      r := Evaluate(wire, visited);
    }

    /**
     * The second half of `Resolve`, for a wire whose entry holds symbols:
     * each operand up to the first operator is replaced by its signal, then
     * the outcome is stored as the wire's signal.
     */
    method Evaluate(wire: string, visited: seq<string>) returns (r: Result<Word, Error>)
      requires Valid() && wires.Some? && hasComputedWires && Stack(defs, visited, wire)
      requires wire in wires.value && wires.value[wire].Expr? && wire !in visited
      modifies this`wires, this`hasComputedWires
      decreases defs.Keys - Elems(visited), 1
      ensures Valid() && wires.Some? && hasComputedWires
      ensures KeepsSignals(old(wires.value), wires.value)
      ensures r.Ok? ==> SameOn(old(wires.value), wires.value, visited)
      ensures r.Ok? ==> wire in wires.value && wires.value[wire] == Signal(r.value)
      ensures r.Ok? ==> Means(defs, wire, r.value)
      ensures r.Err? ==> HasNoValue(defs, wire) && Explains(defs, visited, wire, r.error)
    {
      ConsistentExpr(defs, wires.value, wire);
      ghost var D := defs[wire].symbols;
      var syms := wires.value[wire].symbols;
      var i := 0;
      while i < |syms| && !syms[i].Op?
        invariant Valid() && wires.Some? && hasComputedWires
        invariant wire in wires.value && wires.value[wire] == Expr(syms)
        invariant Relaxed(defs, D, syms)
        invariant 0 <= i <= |syms| && i <= FirstOp(D)
        invariant forall j :: 0 <= j < i ==> syms[j].Lit?
        invariant KeepsSignals(old(wires.value), wires.value)
        invariant SameOn(old(wires.value), wires.value, visited)
      {
        if syms[i].Wire? {
          ghost var before := wires.value;
          var next := ResolveOperand(wire, visited, syms, i);
          if next.Err? {
            return Err(next.error);
          }
          FrameTrans(old(wires.value), before, wires.value, visited);
          syms := next.value;
        }
        i := i + 1;
      }
      RelaxedPrefixSettles(defs, D, syms, i);
      ghost var before := wires.value;
      r := Finish(wire, syms, i);
      if r.Err? {
        ExplainsHere(defs, visited, wire, r.error);
      }
      if r.Ok? {
        FrameStore(old(wires.value), before, visited, wire, Signal(r.value));
      }
    }

    /**
     * One step of `Evaluate`: the operand at position `i` is a wire, whose
     * signal replaces it in `wire`'s symbols, in the table as well.
     */
    method ResolveOperand(wire: string, visited: seq<string>, syms: seq<Symbol>, i: nat) returns (r: Result<seq<Symbol>, Error>)
      requires Valid() && wires.Some? && hasComputedWires && Stack(defs, visited, wire) && wire !in visited
      requires wire in wires.value && wires.value[wire] == Expr(syms)
      requires wire in defs && defs[wire].Expr? && Relaxed(defs, defs[wire].symbols, syms)
      requires i < FirstOp(defs[wire].symbols) && syms[i].Wire?
      modifies this`wires, this`hasComputedWires
      decreases defs.Keys - Elems(visited), 0
      ensures Valid() && wires.Some? && hasComputedWires
      ensures KeepsSignals(old(wires.value), wires.value)
      ensures r.Ok? ==> SameOn(old(wires.value), wires.value, visited)
      ensures r.Ok? ==> |r.value| == |syms| && r.value[i].Lit? && Means(defs, syms[i].name, r.value[i].n)
      ensures r.Ok? ==> r.value == syms[i := r.value[i]] && Relaxed(defs, defs[wire].symbols, r.value)
      ensures r.Ok? ==> wire in wires.value && wires.value[wire] == Expr(r.value)
      ensures r.Err? ==> HasNoValue(defs, wire) && Explains(defs, visited, wire, r.error)
      ensures r.Err? ==> Explains(defs, visited + [wire], syms[i].name, r.error)
    {
      ghost var D := defs[wire].symbols;
      var name := syms[i].name;
      assert D[i] == syms[i];
      StackPush(defs, visited, wire, name);
      var sub := Resolve(name, visited + [wire]);
      if sub.Err? {
        OperandNoValue(defs, wire, name);
        ExplainsPush(defs, visited, wire, name, sub.error);
        return Err(sub.error);
      }
      var next := syms[i := Lit(sub.value)];
      FramePush(old(wires.value), old(wires.value), wires.value, visited, wire, Expr(next));
      ConsistentSlot(defs, wires.value, wire, syms, i, sub.value);
      RelaxedSlot(defs, D, syms, i, sub.value);
      wires := Some(wires.value[wire := Expr(next)]);
      return Ok(next);
    }

    /**
     * The end of `Evaluate`, once the operands before position `i` are
     * numbers: at an operator, the operator's result; past the end, the
     * first symbol. The result is stored as the wire's signal.
     */
    method Finish(wire: string, syms: seq<Symbol>, i: nat) returns (r: Result<Word, Error>)
      requires Valid() && wires.Some? && hasComputedWires && wire in wires.value && wires.value[wire] == Expr(syms)
      requires wire in defs && defs[wire].Expr? && Settled(defs, defs[wire].symbols, syms) && FirstOp(syms) == i
      modifies this`wires
      ensures Valid() && wires.Some?
      ensures KeepsSignals(old(wires.value), wires.value)
      ensures r.Ok? ==> wires.value == old(wires.value)[wire := Signal(r.value)]
      ensures r.Ok? ==> Outcome(syms).Some? && r.value == Mask(Outcome(syms).value) && Means(defs, wire, r.value)
      ensures r.Err? ==> (r.error == Malformed(wire) || r.error == InvalidIdentifier(wire)) && FailsAt(defs, wire, r.error)
      ensures r.Err? ==> HasNoValue(defs, wire) && wires == old(wires)
    {
      if i < |syms| {
        var out := Fire(syms);
        if out.None? {
          SettledNoOutcome(defs, wire, syms);
          return Err(Malformed(wire));
        }
        r := Store(wire, out.value, syms);
      } else if syms == [] {
        SettledNoOutcome(defs, wire, syms);
        return Err(Malformed(wire));
      } else {
        r := Store(wire, syms[0].n, syms);
      }
    }

    /** The last step of `Resolve`: storing the outcome of the wire's settled symbols. */
    method Store(wire: string, out: int, ghost syms: seq<Symbol>) returns (r: Result<Word, Error>)
      requires Valid() && wires.Some? && hasComputedWires && wire in wires.value && wires.value[wire] == Expr(syms)
      requires wire in defs && defs[wire].Expr? && Settled(defs, defs[wire].symbols, syms) && Outcome(syms) == Some(out)
      modifies this`wires
      ensures Valid() && wires.Some?
      ensures KeepsSignals(old(wires.value), wires.value)
      ensures r.Ok? ==> wires.value == old(wires.value)[wire := Signal(r.value)]
      ensures r.Ok? ==> r.value == Mask(out) && Means(defs, wire, r.value)
      ensures r.Err? ==> r.error == InvalidIdentifier(wire) && !IsLower(wire) && HasNoValue(defs, wire) && wires == old(wires)
    {
      var err := SetWireSignalRaw(wire, out);
      if err.Some? {
        InvalidNameNoValue(defs, wire);
        return Err(err.value);
      }
      SettledMeans(defs, wire, syms, out);
      ConsistentMemo(defs, old(wires.value), wire, Mask(out));
      return Ok(Mask(out));
    }

    /**
     * The signal on `wire`, computing only the wires it depends on. Fails
     * when no file has been read, or when the wire has no value: it is not
     * defined, depends on itself, has a name that is not lower case, has
     * symbols that do not form a gate, or depends on a wire that fails.
     */
    method GetWireSignal(wire: string) returns (r: Result<Word, Error>)
      requires Valid()
      modifies this`wires, this`hasComputedWires
      ensures Valid() && hasComputedWires
      ensures old(wires).None? ==> r == Err(NotLoaded) && wires.None?
      ensures old(wires).Some? ==> wires.Some? && KeepsSignals(old(wires).value, wires.value)
      ensures old(wires).Some? && wire !in old(wires).value ==> r == Err(Undefined(wire)) && wires == old(wires)
      ensures old(wires).Some? && wire in old(wires).value && old(wires).value[wire].Signal? ==>
        r == Ok(old(wires).value[wire].value) && wires == old(wires)
      ensures old(wires).Some? && r.Ok? ==> wire in wires.value && wires.value[wire] == Signal(r.value) && Means(defs, wire, r.value)
      ensures old(wires).Some? && r.Err? ==> HasNoValue(defs, wire) && Explains(defs, [], wire, r.error)
    {
      hasComputedWires := true;
      if wires.None? {
        return Err(NotLoaded);
      }
      r := Resolve(wire, []);
    }

    /** The signals of all wires, computing those not yet computed. */
    method GetAllWireSignals() returns (r: Result<map<string, Word>, Error>)
      requires Valid()
      modifies this`wires, this`hasComputedWires
      ensures Valid() && defs == old(defs)
      ensures old(wires).None? ==> r == Err(NotLoaded) && wires.None? && hasComputedWires == old(hasComputedWires)
      ensures old(wires).Some? ==> wires.Some? && KeepsSignals(old(wires).value, wires.value)
      ensures old(wires).Some? && old(wires).value != map[] ==> hasComputedWires
      ensures old(wires) == Some(map[]) ==> r == Ok(map[]) && wires == old(wires) && hasComputedWires == old(hasComputedWires)
      ensures r.Ok? ==> wires.Some? && r.value.Keys == defs.Keys
      ensures r.Ok? ==> forall w :: w in r.value ==> wires.value[w] == Signal(r.value[w]) && Means(defs, w, r.value[w])
      ensures r.Err? && old(wires).Some? ==> exists w :: w in defs && HasNoValue(defs, w) && Explains(defs, [], w, r.error)
    {
      if wires.None? {
        return Err(NotLoaded);
      }
      var todo := wires.value.Keys;
      while todo != {}
        invariant Valid() && wires.Some? && wires.value.Keys == defs.Keys && defs == old(defs)
        invariant KeepsSignals(old(wires).value, wires.value)
        invariant hasComputedWires || todo == old(wires).value.Keys
        invariant todo == old(wires).value.Keys ==> wires == old(wires) && hasComputedWires == old(hasComputedWires)
        invariant todo <= defs.Keys
        invariant forall w :: w in wires.value && w !in todo ==> wires.value[w].Signal?
        decreases todo
      {
        var key :| key in todo;
        var s := GetWireSignal(key);
        if s.Err? {
          return Err(s.error);
        }
        todo := todo - {key};
      }
      var t := wires.value;
      forall w | w in t
        ensures Means(defs, w, t[w].value)
      {
        ConsistentSignal(defs, t, w);
      }
      return Ok(map w | w in t && t[w].Signal? :: t[w].value);
    }

    /** The table as it stands, without computing anything. */
    method GetAllWireSignalsRaw() returns (r: Result<map<string, Entry>, Error>)
      requires Valid()
      ensures wires.None? ==> r == Err(NotLoaded)
      ensures wires.Some? ==> r == Ok(wires.value) && Consistent(defs, r.value)
    {
      if wires.None? {
        return Err(NotLoaded);
      }
      return Ok(wires.value);
    }

    /** The table the computer works from when a signal is set by hand. */
    ghost function Base(): map<string, Entry>
      reads this
    {
      if hasComputedWires && lines.Some? then Load(lines.value).0 else defs
    }

    /**
     * Sets a wire's signal by hand. Once a signal has been computed, the
     * table is first rebuilt from the file, so that no computed signal
     * survives the change.
     */
    method SetWireSignal(wire: string, value: int) returns (err: Option<Error>)
      requires Valid()
      modifies this
      ensures Valid() && lines == old(lines)
      ensures old(hasComputedWires) && old(lines).None? ==> err == Some(NotLoaded) && wires == Some(map[]) && hasComputedWires
      ensures old(hasComputedWires) && old(lines).Some? && Load(old(lines).value).1.Some? ==>
        err == Load(old(lines).value).1 && wires == Some(Load(old(lines).value).0) && hasComputedWires
      ensures !old(hasComputedWires) && old(wires).None? ==>
        err == Some(if IsLower(wire) then NotLoaded else InvalidIdentifier(wire)) && wires.None? && !hasComputedWires
      ensures (old(hasComputedWires) && old(lines).Some? && Load(old(lines).value).1.None?) || (!old(hasComputedWires) && old(wires).Some?) ==>
        !hasComputedWires && (err.None? <==> IsLower(wire))
      ensures (old(hasComputedWires) && old(lines).Some? && Load(old(lines).value).1.None?) || (!old(hasComputedWires) && old(wires).Some?) ==>
        !IsLower(wire) ==> err == Some(InvalidIdentifier(wire)) && wires == Some(old(Base())) && defs == old(Base())
      ensures !IsLower(wire) ==> err.Some?
      ensures err.None? ==> IsLower(wire) && !hasComputedWires && wires == Some(defs)
      ensures err.None? ==> defs == old(Base())[wire := Signal(Mask(value))]
      ensures err.None? ==> Means(defs, wire, Mask(value))
      ensures err.None? ==> forall a, v: nat :: !Reaches(old(Base()), a, wire) ==> (Means(defs, a, v) <==> Means(old(Base()), a, v))
    {
      if hasComputedWires {
        if lines.None? {
          wires := Some(map[]);
          defs := map[];
          return Some(NotLoaded);
        }
        var e := ParseFile(lines.value);
        if e.Some? {
          return e;
        }
      }
      ghost var base := defs;
      err := SetWireSignalRaw(wire, value);
      if err.None? {
        defs := base[wire := Signal(Mask(value))];
        ConsistentWithItself(defs);
        SignalMeans(defs, wire);
        forall a, v: nat | !Reaches(base, a, wire)
          ensures Means(defs, a, v) <==> Means(base, a, v)
        {
          OverrideKeeps(base, a, wire, Mask(value), v);
        }
      }
    }
  }
}
