/**
 * Day 3, "Perfectly Spherical Houses": Santa (and later Robo-Santa) walks an
 * infinite grid of houses following '^', 'v', '<' and '>' and leaves a present
 * at every house reached. The grid is a `MagicMatrix`, a sparse matrix keyed
 * by the text "row, column" that grows its extents as cells are written.
 */
module SphericalHouses {
  import opened Wrappers
  import opened Decimal

  /** A cell index: (row, column). The walkers use (y, x). */
  type Pos = (int, int)

  /**
   * `str.format` on integer arguments: every "{}" of the template, left to right,
   * becomes the decimal text of the next argument; a "{}" with no argument left
   * stays as it is.
   */
  function Format(template: string, args: seq<int>): string {
    if template == [] then []
    else if |template| >= 2 && template[0] == '{' && template[1] == '}' && args != [] then
      IntToString(args[0]) + Format(template[2..], args[1..])
    else [template[0]] + Format(template[1..], args)
  }

  /** `__translate_index`: the dictionary key of a cell, "row, column". */
  function Key(row: int, col: int): string {
    Format("{}, {}", [row, col])
  }

  lemma KeyText(row: int, col: int)
    ensures Key(row, col) == IntToString(row) + ", " + IntToString(col)
  {
    var t := "{}, {}";
    assert t[2..] == ", {}" && t[2..][1..] == " {}" && t[2..][1..][1..] == "{}" && t[2..][1..][1..][2..] == "";
    assert [row, col][1..] == [col] && [col][1..] == [];
    assert Format("{}", [col]) == IntToString(col);
    assert Format(" {}", [col]) == " " + IntToString(col);
    assert Format(", {}", [col]) == ", " + IntToString(col);
  }

  /** The position of the first comma of `k`, or `|k|` if it has none. */
  function FirstComma(k: string): (n: nat)
    ensures n <= |k|
  {
    if k == [] || k[0] == ',' then 0 else 1 + FirstComma(k[1..])
  }

  lemma {:induction false} FirstCommaAfter(s: string, rest: string)
    requires ',' !in s && rest != [] && rest[0] == ','
    ensures FirstComma(s + rest) == |s|
  {
    if s != [] {
      assert (s + rest)[1..] == s[1..] + rest;
      FirstCommaAfter(s[1..], rest);
    }
  }

  /** Reads a key back: the integers before and after the first ", ". */
  function ParseKey(k: string): Option<Pos> {
    var c := FirstComma(k);
    if c + 2 <= |k| && k[c + 1] == ' ' then
      match (ParseInt(k[..c]), ParseInt(k[c + 2..]))
      case (Some(row), Some(col)) => Some((row, col))
      case _ => None
    else None
  }

  /** Every key reads back as its cell. */
  lemma ParseKeyOfKey(row: int, col: int)
    ensures ParseKey(Key(row, col)) == Some((row, col))
  {
    var s, rest := IntToString(row), ", " + IntToString(col);
    var k := Key(row, col);
    KeyText(row, col);
    assert k == s + rest;
    // the first comma of a key ends its row, as the decimal text of an integer has no comma
    FirstCommaAfter(s, rest);
    assert k[..|s|] == s && k[|s| + 2..] == IntToString(col);
    ParseIntOfIntToString(row);
    ParseIntOfIntToString(col);
  }

  /** Different cells have different keys, so the dictionary never mixes two cells up. */
  lemma KeyInjective(a: int, b: int, c: int, d: int)
    requires Key(a, b) == Key(c, d)
    ensures a == c && b == d
  {
    ParseKeyOfKey(a, b);
    ParseKeyOfKey(c, d);
  }

  function Min(a: int, b: int): int { if a <= b then a else b }
  function Max(a: int, b: int): int { if a <= b then b else a }

  /** The list [x1, y1, x2, y2]: x1..x2 bounds the first index and y1..y2 the second. */
  datatype Extents = Extents(x1: int, y1: int, x2: int, y2: int)

  /** The extents hold the origin and every cell. */
  ghost predicate Bounded(cells: map<Pos, int>, e: Extents) {
    && e.x1 <= 0 <= e.x2 && e.y1 <= 0 <= e.y2
    && (forall row, col {:trigger (row, col) in cells} :: (row, col) in cells ==> e.x1 <= row <= e.x2 && e.y1 <= col <= e.y2)
  }

  /** The extents once a cell at (row, col) is added: grown just enough to hold it. */
  function Widened(e: Extents, row: int, col: int): (w: Extents)
    ensures w.x1 <= e.x1 && w.y1 <= e.y1 && w.x2 >= e.x2 && w.y2 >= e.y2
    ensures w.x1 <= row <= w.x2 && w.y1 <= col <= w.y2
    ensures w.x1 == e.x1 || w.x1 == row
    ensures w.y1 == e.y1 || w.y1 == col
    ensures w.x2 == e.x2 || w.x2 == row
    ensures w.y2 == e.y2 || w.y2 == col
  {
    Extents(Min(e.x1, row), Min(e.y1, col), Max(e.x2, row), Max(e.y2, col))
  }

  /** Writing a cell keeps the extents around every cell, widened when the cell is new. */
  lemma BoundedSet(cells: map<Pos, int>, e: Extents, row: int, col: int, value: int)
    requires Bounded(cells, e)
    ensures (row, col) in cells ==> Bounded(cells[(row, col) := value], e)
    ensures Bounded(cells[(row, col) := value], Widened(e, row, col))
  {
  }

  /** `min` and `max` are the least and greatest of the values written, None before any. */
  ghost predicate Ranged(written: set<int>, min: Option<int>, max: Option<int>) {
    && (min.None? <==> written == {}) && (max.None? <==> written == {})
    && (min.Some? ==> min.value in written && forall v :: v in written ==> min.value <= v)
    && (max.Some? ==> max.value in written && forall v :: v in written ==> v <= max.value)
  }

  /** Taking one more value into the running minimum and maximum keeps them exact. */
  lemma RangedSet(written: set<int>, min: Option<int>, max: Option<int>, value: int)
    requires Ranged(written, min, max)
    ensures min.None? ==> Ranged(written + {value}, Some(value), Some(value))
    ensures min.Some? ==> Ranged(written + {value}, Some(Min(min.value, value)), Some(Max(max.value, value)))
  {
  }

  /**
   * `MagicMatrix`: a dictionary from cells to values, the extents of the written
   * cells (which always hold the origin) and the smallest and largest value ever
   * written. The source keys its dictionary by `Key(row, col)`; as `Key` is
   * injective (`KeyInjective`), keying by the cell itself holds the same entries.
   */
  class MagicMatrix {
    var data: map<Pos, int>
    var extents: Extents
    var min: Option<int>
    var max: Option<int>

    /** Every value ever written, overwritten ones included. */
    ghost var Assigned: set<int>

    ghost predicate Valid()
      reads this
    {
      Bounded(data, extents) && Ranged(Assigned, min, max)
    }

    /** An empty matrix whose extents are the origin alone. */
    constructor ()
      ensures Valid()
      ensures data == map[] && Assigned == {}
      ensures extents == Extents(0, 0, 0, 0)
    {
      data := map[];
      extents := Extents(0, 0, 0, 0);
      min, max := None, None;
      Assigned := {};
    }

    /** `__getitem__`: the value of a cell, or None if it was never written. */
    function Get(row: int, col: int): (r: Option<int>)
      reads this
      ensures r.Some? <==> (row, col) in data
      ensures r.Some? ==> r.value == data[(row, col)]
    {
      if (row, col) in data then Some(data[(row, col)]) else None
    }

    /**
     * `__setitem__`: writes a cell. A new cell widens the extents to cover it; the
     * running minimum and maximum take the value in.
     */
    method Set(row: int, col: int, value: int)
      requires Valid()
      modifies this
      ensures Valid()
      ensures data == old(data)[(row, col) := value]
      ensures Assigned == old(Assigned) + {value}
      ensures extents == if (row, col) in old(data) then old(extents) else Widened(old(extents), row, col)
      ensures Get(row, col) == Some(value)
    {
      BoundedSet(data, extents, row, col, value);
      RangedSet(Assigned, min, max, value);
      if (row, col) !in data {
        extents := Widened(extents, row, col);
      }
      if min.None? {
        min, max := Some(value), Some(value);
      } else {
        min, max := Some(Min(min.value, value)), Some(Max(max.value, value));
      }
      data := data[(row, col) := value];
      Assigned := Assigned + {value};
    }

    /** `__len__`: the number of cells written. */
    function Length(): (n: nat)
      reads this
      ensures n == |data.Keys|
    {
      |data|
    }

    /** `get_width`: the extent along the first index, which covers every written cell. */
    function GetWidth(): (w: int)
      reads this
      requires Valid()
      ensures w >= 1
      ensures forall row, col :: (row, col) in data ==> extents.x1 <= row < extents.x1 + w
    {
      extents.x2 - extents.x1 + 1
    }

    /** `get_height`: the extent along the second index, which covers every written cell. */
    function GetHeight(): (h: int)
      reads this
      requires Valid()
      ensures h >= 1
      ensures forall row, col :: (row, col) in data ==> extents.y1 <= col < extents.y1 + h
    {
      extents.y2 - extents.y1 + 1
    }
  }

  /** One step of a walker at (y, x): '^' goes up a row, 'v' down, '<' left, anything else right. */
  function Move(p: Pos, c: char): Pos {
    if c == '^' then (p.0 - 1, p.1)
    else if c == 'v' then (p.0 + 1, p.1)
    else if c == '<' then (p.0, p.1 - 1)
    else (p.0, p.1 + 1)
  }

  /** The houses a walker reaches, in order, starting from the origin. */
  function Walk(ds: string): (w: seq<Pos>)
    ensures |w| == |ds| + 1 && w[0] == (0, 0)
  {
    if ds == [] then [(0, 0)]
    else
      var w := Walk(ds[..|ds| - 1]);
      w + [Move(w[|w| - 1], ds[|ds| - 1])]
  }

  /** Each house of the walk is one move away from the previous one. */
  lemma {:induction false} WalkSteps(ds: string)
    ensures forall k :: 0 <= k < |ds| ==> Walk(ds)[k + 1] == Move(Walk(ds)[k], ds[k])
  {
    if ds != [] {
      var pre := ds[..|ds| - 1];
      WalkSteps(pre);
      forall k | 0 <= k < |ds|
        ensures Walk(ds)[k + 1] == Move(Walk(ds)[k], ds[k])
      {
        if k < |ds| - 1 {
          assert Walk(ds)[k + 1] == Walk(pre)[k + 1] && Walk(ds)[k] == Walk(pre)[k];
          assert ds[k] == pre[k];
        }
      }
    }
  }

  /** How many times `c` occurs in `s`. */
  function Occurrences(s: string, c: char): (n: nat)
    ensures n <= |s|
  {
    if s == [] then 0 else Occurrences(s[..|s| - 1], c) + (if s[|s| - 1] == c then 1 else 0)
  }

  /** The house a walk ends at. */
  function Last(w: seq<Pos>): Pos
    requires |w| > 0
  {
    w[|w| - 1]
  }

  /** One more direction extends the walk by the house it leads to. */
  lemma WalkAppend(ds: string, c: char)
    ensures Walk(ds + [c]) == Walk(ds) + [Move(Last(Walk(ds)), c)]
  {
    assert (ds + [c])[..|ds|] == ds;
  }

  /**
   * Where the walk ends: the row is the number of 'v' less the number of '^';
   * the column is the number of other steps less twice the number of '<'.
   */
  lemma {:induction false} EndOfWalk(ds: string)
    ensures Last(Walk(ds)) == (Occurrences(ds, 'v') - Occurrences(ds, '^'),
                               |ds| - Occurrences(ds, '^') - Occurrences(ds, 'v') - 2 * Occurrences(ds, '<'))
  {
    if ds != [] {
      var pre := ds[..|ds| - 1];
      EndOfWalk(pre);
      WalkAppend(pre, ds[|ds| - 1]);
      assert pre + [ds[|ds| - 1]] == ds;
    }
  }

  /** Grid value of a cell after one more present. */
  function OneMore(v: Option<int>): int {
    if v.Some? then v.value + 1 else 1
  }

  /** The value of a cell of the grid, None if it holds nothing. */
  function Lookup(cells: map<Pos, int>, p: Pos): Option<int> {
    if p in cells then Some(cells[p]) else None
  }

  /** The grid the gift loop builds: one more present at each house visited, in order. */
  function Tally(visits: seq<Pos>): map<Pos, int> {
    if visits == [] then map[]
    else
      var cells := Tally(visits[..|visits| - 1]);
      var p := visits[|visits| - 1];
      cells[p := OneMore(Lookup(cells, p))]
  }

  lemma TallyAppend(visits: seq<Pos>, p: Pos)
    ensures Tally(visits + [p]) == Tally(visits)[p := OneMore(Lookup(Tally(visits), p))]
  {
    assert (visits + [p])[..|visits|] == visits;
  }

  /** `cells` holds, for every house, the number of visits `m` makes to it, and nothing else. */
  ghost predicate Counts(cells: map<Pos, int>, m: multiset<Pos>) {
    && (forall p :: p in cells <==> p in m)
    && (forall p :: p in cells ==> cells[p] == m[p])
  }

  /** The tally holds, for every house, the number of visits to it, whatever their order. */
  lemma {:induction false} TallyCounts(visits: seq<Pos>)
    ensures Counts(Tally(visits), multiset(visits))
  {
    if visits != [] {
      var pre := visits[..|visits| - 1];
      TallyCounts(pre);
      assert visits == pre + [visits[|visits| - 1]];
      assert multiset(visits) == multiset(pre) + multiset{visits[|visits| - 1]};
    }
  }

  /** The houses with at least one visit. */
  ghost function Houses(m: multiset<Pos>): set<Pos> {
    set p | p in m
  }

  /** The number of houses with presents is the number of distinct houses visited. */
  lemma CountsHouses(cells: map<Pos, int>, m: multiset<Pos>)
    requires Counts(cells, m)
    ensures |cells| == |Houses(m)|
  {
    assert cells.Keys == Houses(m);
  }

  /** The number of cells of the tally is the number of distinct houses visited. */
  lemma TallyHouses(visits: seq<Pos>)
    ensures |Tally(visits)| == |Houses(multiset(visits))|
  {
    TallyCounts(visits);
    CountsHouses(Tally(visits), multiset(visits));
  }

  /** One more direction moves Santa one house on and adds a present there. */
  lemma GiftStep(ds: string, i: nat)
    requires i < |ds|
    ensures var p := Move(Last(Walk(ds[..i])), ds[i]);
      && Last(Walk(ds[..i + 1])) == p
      && Tally(Walk(ds[..i + 1])) == Tally(Walk(ds[..i]))[p := OneMore(Lookup(Tally(Walk(ds[..i])), p))]
  {
    assert ds[..i + 1] == ds[..i] + [ds[i]];
    WalkAppend(ds[..i], ds[i]);
    TallyAppend(Walk(ds[..i]), Move(Last(Walk(ds[..i])), ds[i]));
  }

  /**
   * `give_gifts`: Santa follows the directions; every house holds the number of
   * times it was reached, and the count is the number of distinct houses.
   */
  method GiveGifts(directions: string) returns (count: nat, grid: MagicMatrix)
    ensures fresh(grid) && grid.Valid()
    ensures grid.data == Tally(Walk(directions))
    ensures count == |Houses(multiset(Walk(directions)))|
  {
    grid := new MagicMatrix();
    var x, y := 0, 0;
    grid.Set(y, x, 1);
    assert grid.data == Tally(Walk(directions[..0]));
    for i := 0 to |directions|
      invariant fresh(grid) && grid.Valid()
      invariant (y, x) == Last(Walk(directions[..i]))
      invariant grid.data == Tally(Walk(directions[..i]))
    {
      var c := directions[i];
      ghost var here := (y, x);
      if c == '^' {
        y := y - 1;
      } else if c == 'v' {
        y := y + 1;
      } else if c == '<' {
        x := x - 1;
      } else {
        x := x + 1;
      }
      assert (y, x) == Move(here, c);
      GiftStep(directions, i);
      var v := grid.Get(y, x);
      grid.Set(y, x, OneMore(v));
    }
    assert directions[..|directions|] == directions;
    count := grid.Length();
    TallyHouses(Walk(directions));
  }

  /** Santa's directions: the characters at even positions. */
  function Evens(s: string): (e: string)
    ensures |e| == (|s| + 1) / 2
  {
    if s == [] then []
    else if (|s| - 1) % 2 == 0 then Evens(s[..|s| - 1]) + [s[|s| - 1]]
    else Evens(s[..|s| - 1])
  }

  /** Robo-Santa's directions: the characters at odd positions. */
  function Odds(s: string): (o: string)
    ensures |o| == |s| / 2
  {
    if s == [] then []
    else if (|s| - 1) % 2 == 1 then Odds(s[..|s| - 1]) + [s[|s| - 1]]
    else Odds(s[..|s| - 1])
  }

  /** The walkers take the directions in turns: an even position goes to Santa, an odd one to Robo-Santa. */
  lemma TakeTurns(s: string, i: nat)
    requires i < |s|
    ensures i % 2 == 0 ==> Evens(s[..i + 1]) == Evens(s[..i]) + [s[i]] && Odds(s[..i + 1]) == Odds(s[..i])
    ensures i % 2 == 1 ==> Odds(s[..i + 1]) == Odds(s[..i]) + [s[i]] && Evens(s[..i + 1]) == Evens(s[..i])
  {
    assert s[..i + 1][..i] == s[..i];
  }

  /** Appending one element adds it once to the multiset. */
  lemma OneMoreVisit<T>(before: seq<T>, after: seq<T>, x: T)
    requires after == before + [x]
    ensures multiset(after) == multiset(before) + multiset{x}
  {
  }

  /** One more visit to a total shared by two parts is one more visit to one part, the other unchanged. */
  lemma ShareOneMore<T>(total: multiset<T>, total': multiset<T>, part: multiset<T>, part': multiset<T>,
                        other: multiset<T>, other': multiset<T>, x: T)
    requires total == part + other || total == other + part
    requires total' == total + multiset{x} && part' == part + multiset{x} && other' == other
    ensures total' == part' + other && total' == other + part'
  {
  }

  /** Between them the two walkers take every direction once. */
  lemma {:induction false} EvensOddsSplit(s: string)
    ensures multiset(Evens(s)) + multiset(Odds(s)) == multiset(s)
  {
    if s != [] {
      var i := |s| - 1;
      var pre := s[..i];
      EvensOddsSplit(pre);
      assert s[..i + 1] == s;
      TakeTurns(s, i);
      OneMoreVisit(pre, s, s[i]);
      if i % 2 == 0 {
        OneMoreVisit(Evens(pre), Evens(s), s[i]);
        ShareOneMore(multiset(pre), multiset(s), multiset(Evens(pre)), multiset(Evens(s)),
                     multiset(Odds(pre)), multiset(Odds(s)), s[i]);
      } else {
        OneMoreVisit(Odds(pre), Odds(s), s[i]);
        ShareOneMore(multiset(pre), multiset(s), multiset(Odds(pre)), multiset(Odds(s)),
                     multiset(Evens(pre)), multiset(Evens(s)), s[i]);
      }
    }
  }

  /** Where Santa and Robo-Santa stand once the directions are taken in turns, Santa first. */
  function Positions(ds: string): (Pos, Pos) {
    if ds == [] then ((0, 0), (0, 0))
    else
      var pre := ds[..|ds| - 1];
      var at := Positions(pre);
      if |pre| % 2 == 0 then (Move(at.0, ds[|ds| - 1]), at.1) else (at.0, Move(at.1, ds[|ds| - 1]))
  }

  /** Each walker stands at the end of the walk along its own share of the directions. */
  lemma {:induction false} PositionsEndWalks(ds: string)
    ensures Positions(ds) == (Last(Walk(Evens(ds))), Last(Walk(Odds(ds))))
  {
    if ds != [] {
      var i := |ds| - 1;
      PositionsEndWalks(ds[..i]);
      TakeTurns(ds, i);
      assert ds[..i + 1] == ds;
      WalkAppend(Evens(ds[..i]), ds[i]);
      WalkAppend(Odds(ds[..i]), ds[i]);
    }
  }

  /** The house the last direction leads its walker to. */
  function Reached(ds: string): Pos
    requires ds != []
  {
    if (|ds| - 1) % 2 == 0 then Positions(ds).0 else Positions(ds).1
  }

  /**
   * The houses the tandem visits, in order: the origin twice, then after each
   * direction the house of whichever walker took it.
   */
  function TandemVisits(ds: string): (v: seq<Pos>)
    ensures |v| == |ds| + 2
  {
    if ds == [] then [(0, 0), (0, 0)] else TandemVisits(ds[..|ds| - 1]) + [Reached(ds)]
  }

  /** Every visit of the tandem is a visit of one of the two walkers. */
  lemma {:induction false} TandemVisitsSplit(ds: string)
    ensures multiset(TandemVisits(ds)) == multiset(Walk(Evens(ds))) + multiset(Walk(Odds(ds)))
  {
    if ds != [] {
      var i := |ds| - 1;
      var pre := ds[..i];
      TandemVisitsSplit(pre);
      var p := Reached(ds);
      OneMoreVisit(TandemVisits(pre), TandemVisits(ds), p);
      ReachedExtendsWalk(ds);
      if i % 2 == 0 {
        OneMoreVisit(Walk(Evens(pre)), Walk(Evens(ds)), p);
        ShareOneMore(multiset(TandemVisits(pre)), multiset(TandemVisits(ds)), multiset(Walk(Evens(pre))),
                     multiset(Walk(Evens(ds))), multiset(Walk(Odds(pre))), multiset(Walk(Odds(ds))), p);
      } else {
        OneMoreVisit(Walk(Odds(pre)), Walk(Odds(ds)), p);
        ShareOneMore(multiset(TandemVisits(pre)), multiset(TandemVisits(ds)), multiset(Walk(Odds(pre))),
                     multiset(Walk(Odds(ds))), multiset(Walk(Evens(pre))), multiset(Walk(Evens(ds))), p);
      }
    } else {
      OneMoreVisit([(0, 0)], TandemVisits(ds), (0, 0));
    }
  }

  /** The house the last direction leads to extends the walk of the walker who took it; the other walk stays. */
  lemma ReachedExtendsWalk(ds: string)
    requires ds != []
    ensures var i := |ds| - 1;
      && (i % 2 == 0 ==> Walk(Evens(ds)) == Walk(Evens(ds[..i])) + [Reached(ds)] && Odds(ds) == Odds(ds[..i]))
      && (i % 2 == 1 ==> Walk(Odds(ds)) == Walk(Odds(ds[..i])) + [Reached(ds)] && Evens(ds) == Evens(ds[..i]))
  {
    var i := |ds| - 1;
    var pre, c := ds[..i], ds[i];
    PositionsEndWalks(pre);
    assert ds[..i + 1] == ds;
    TakeTurns(ds, i);
    WalkAppend(Evens(pre), c);
    WalkAppend(Odds(pre), c);
  }

  /** One more direction moves the walker whose turn it is and adds a present at the house it reaches. */
  lemma TandemStep(ds: string, i: nat)
    requires i < |ds|
    ensures Positions(ds[..i + 1]) ==
      if i % 2 == 0 then (Move(Positions(ds[..i]).0, ds[i]), Positions(ds[..i]).1)
      else (Positions(ds[..i]).0, Move(Positions(ds[..i]).1, ds[i]))
    ensures Reached(ds[..i + 1]) == if i % 2 == 0 then Positions(ds[..i + 1]).0 else Positions(ds[..i + 1]).1
    ensures Tally(TandemVisits(ds[..i + 1])) == Tally(TandemVisits(ds[..i]))[Reached(ds[..i + 1]) :=
      OneMore(Lookup(Tally(TandemVisits(ds[..i])), Reached(ds[..i + 1])))]
  {
    assert ds[..i + 1][..i] == ds[..i];
    TallyAppend(TandemVisits(ds[..i]), Reached(ds[..i + 1]));
  }

  /** Turns alternate: the next direction goes to the other walker. */
  lemma TurnsAlternate(i: nat)
    ensures (i + 1) % 2 == 1 <==> i % 2 != 1
  {
  }

  /** Before any direction both walkers stand at the origin, which holds two presents. */
  lemma TandemStart(ds: string)
    ensures Positions(ds[..0]) == ((0, 0), (0, 0))
    ensures Tally(TandemVisits(ds[..0])) == map[(0, 0) := 2]
  {
    assert ds[..0] == [];
    assert Tally([(0, 0)]) == map[(0, 0) := 1];
    TallyAppend([(0, 0)], (0, 0));
    assert [(0, 0)] + [(0, 0)] == [(0, 0), (0, 0)];
  }

  /** The tandem's count is the number of distinct houses either walker reached. */
  lemma TandemHouses(ds: string)
    ensures |Tally(TandemVisits(ds))| == |Houses(multiset(Walk(Evens(ds))) + multiset(Walk(Odds(ds))))|
  {
    TallyHouses(TandemVisits(ds));
    TandemVisitsSplit(ds);
  }

  /**
   * `give_gifts_tandem`: Santa and Robo-Santa start together at the origin (two
   * presents there) and take turns; every house holds the number of times either
   * of them reached it.
   */
  method GiveGiftsTandem(directions: string) returns (count: nat, grid: MagicMatrix)
    ensures fresh(grid) && grid.Valid()
    ensures grid.data == Tally(TandemVisits(directions))
    ensures count == |Houses(multiset(Walk(Evens(directions))) + multiset(Walk(Odds(directions))))|
  {
    grid := new MagicMatrix();
    var santaX, santaY, roboX, roboY := 0, 0, 0, 0;
    grid.Set(santaY, santaX, 2);
    var robo := false;
    TandemStart(directions);
    for i := 0 to |directions|
      invariant fresh(grid) && grid.Valid()
      invariant robo <==> i % 2 == 1
      invariant (santaY, santaX) == Positions(directions[..i]).0
      invariant (roboY, roboX) == Positions(directions[..i]).1
      invariant grid.data == Tally(TandemVisits(directions[..i]))
    {
      TandemStep(directions, i);
      var c := directions[i];
      // the walker whose turn it is takes one step
      if robo {
        var next := Move((roboY, roboX), c);
        roboY, roboX := next.0, next.1;
      } else {
        var next := Move((santaY, santaX), c);
        santaY, santaX := next.0, next.1;
      }
      var x := if robo then roboX else santaX;
      var y := if robo then roboY else santaY;
      assert (y, x) == Reached(directions[..i + 1]);
      var v := grid.Get(y, x);
      grid.Set(y, x, OneMore(v));
      robo := !robo;
      TurnsAlternate(i);
    }
    assert directions[..|directions|] == directions;
    count := grid.Length();
    TandemHouses(directions);
  }

  /** The tandem's grid holds, for every house, the number of times either walker reached it. */
  lemma TandemCounts(ds: string)
    ensures Counts(Tally(TandemVisits(ds)), multiset(Walk(Evens(ds))) + multiset(Walk(Odds(ds))))
  {
    TallyCounts(TandemVisits(ds));
    TandemVisitsSplit(ds);
  }
}
