/**
 * The crossword structure the solver works on: slots, the cells two slots
 * share, and what it means for a set of words to fill the slots.
 */
module CrosswordPuzzle {
  import opened Wrappers

  datatype Direction = Across | Down

  /** A slot of the grid: its first cell (row i, column j), its direction and its number of cells. */
  datatype Variable = Variable(i: nat, j: nat, direction: Direction, length: nat)

  /** An ordered pair of slots. */
  type Arc = (Variable, Variable)

  /**
   * A puzzle: the grid size, the slots, the word list and, for ordered pairs
   * of distinct slots, the offsets (k, l) such that letter k of the first slot
   * and letter l of the second sit on the same cell, or None when they do not
   * cross.
   */
  datatype Puzzle = Puzzle(
    height: nat,
    width: nat,
    variables: set<Variable>,
    words: set<string>,
    overlaps: map<Arc, Option<(nat, nat)>>)

  /** The crossing seen from the other slot: the two offsets change places. */
  function Swap(ov: Option<(nat, nat)>): Option<(nat, nat)> {
    if ov.None? then None else Some((ov.value.1, ov.value.0))
  }

  /**
   * Every ordered pair of distinct slots has an overlaps entry, only such
   * pairs have one, the offsets of a crossing lie inside both slots, and the
   * entry of (y, x) is that of (x, y) seen from y.
   */
  predicate WellFormed(p: Puzzle) {
    (forall x, y :: x in p.variables && y in p.variables && x != y ==> (x, y) in p.overlaps) &&
    (forall arc :: arc in p.overlaps ==> arc.0 in p.variables && arc.1 in p.variables && arc.0 != arc.1) &&
    (forall arc :: arc in p.overlaps && p.overlaps[arc].Some? ==>
       p.overlaps[arc].value.0 < arc.0.length && p.overlaps[arc].value.1 < arc.1.length) &&
    (forall x, y :: x in p.variables && y in p.variables && (x, y) in p.overlaps ==> (y, x) in p.overlaps && p.overlaps[(y, x)] == Swap(p.overlaps[(x, y)]))
  }

  /** The slots that cross v. */
  function Neighbors(p: Puzzle, v: Variable): (r: set<Variable>)
    ensures forall u :: u in r ==> u in p.variables && u != v
  {
    set u | u in p.variables && u != v && (v, u) in p.overlaps && p.overlaps[(v, u)].Some?
  }

  /** The cell that holds letter k of slot v. */
  function Pos(v: Variable, k: nat): (nat, nat) {
    (v.i + (if v.direction == Down then k else 0), v.j + (if v.direction == Across then k else 0))
  }

  /** Words w1 and w2 put the same letter on the shared cell `ov`, if there is one. */
  predicate Agree(w1: string, w2: string, ov: Option<(nat, nat)>) {
    ov.None? || (ov.value.0 < |w1| && ov.value.1 < |w2| && w1[ov.value.0] == w2[ov.value.1])
  }

  /** Agreement does not depend on which of the two slots is looked at first. */
  lemma AgreeSwap(w1: string, w2: string, ov: Option<(nat, nat)>)
    ensures Agree(w1, w2, ov) <==> Agree(w2, w1, Swap(ov))
  {
  }

  /** Crossing is symmetric: u crosses v exactly when v crosses u. */
  lemma NeighborsSymmetric(p: Puzzle, u: Variable, v: Variable)
    requires WellFormed(p)
    ensures v in Neighbors(p, u) <==> u in Neighbors(p, v)
  {
    if v in Neighbors(p, u) {
      assert (v, u) in p.overlaps && p.overlaps[(v, u)] == Swap(p.overlaps[(u, v)]);
    }
    if u in Neighbors(p, v) {
      assert (u, v) in p.overlaps && p.overlaps[(u, v)] == Swap(p.overlaps[(v, u)]);
    }
  }

  /** Distinct slots x and y of `a` hold different words that agree where they cross. */
  predicate PairOk(p: Puzzle, a: map<Variable, string>, x: Variable, y: Variable)
    requires x in a && y in a
  {
    a[x] != a[y] && ((x, y) in p.overlaps ==> Agree(a[x], a[y], p.overlaps[(x, y)]))
  }

  /**
   * A (partial) assignment of words to slots is consistent: every word has
   * its slot's length, no word is used twice and crossing slots agree.
   */
  predicate ConsistentFill(p: Puzzle, a: map<Variable, string>) {
    (forall v :: v in a ==> |a[v]| == v.length) &&
    (forall x, y :: x in a && y in a && x != y ==> PairOk(p, a, x, y))
  }

  /** Every slot has a word. */
  predicate Complete(p: Puzzle, a: map<Variable, string>) {
    p.variables <= a.Keys
  }

  /** A solution drawn from the domains d: complete, only on slots, every word from its slot's domain, consistent. */
  predicate Solution(p: Puzzle, d: map<Variable, set<string>>, a: map<Variable, string>) {
    a.Keys == p.variables && (forall v :: v in a ==> v in d && a[v] in d[v]) && ConsistentFill(p, a)
  }

  /**
   * The check the program performs: a pair of slots is skipped when its two
   * words are the same string object. Since every domain is a copy of the
   * same word set, equal words are the same object, so a pair is skipped
   * exactly when its words are equal. Everything the intended check accepts
   * passes, and the two agree on assignments that never repeat a word.
   */
  predicate ConsistentAsWritten(p: Puzzle, a: map<Variable, string>)
    ensures ConsistentFill(p, a) ==> ConsistentAsWritten(p, a)
    ensures ConsistentAsWritten(p, a) && (forall x, y :: x in a && y in a && x != y ==> a[x] != a[y]) ==> ConsistentFill(p, a)
  {
    (forall v :: v in a ==> |a[v]| == v.length) &&
    (forall x, y :: x in a && y in a && a[x] != a[y] ==>
       (x, y) in p.overlaps ==> Agree(a[x], a[y], p.overlaps[(x, y)]))
  }

  /** A puzzle of two distinct slots whose crossing, seen from x, is ov. */
  function TwoSlots(height: nat, width: nat, x: Variable, y: Variable, words: set<string>, ov: Option<(nat, nat)>): Puzzle {
    Puzzle(height, width, {x, y}, words, map[(x, y) := ov, (y, x) := Swap(ov)])
  }

  /** Such a puzzle is well formed when the crossing lies inside both slots. */
  lemma TwoSlotsWellFormed(height: nat, width: nat, x: Variable, y: Variable, words: set<string>, ov: Option<(nat, nat)>)
    requires x != y
    requires ov.Some? ==> ov.value.0 < x.length && ov.value.1 < y.length
    ensures WellFormed(TwoSlots(height, width, x, y, words, ov))
  {
    var p := TwoSlots(height, width, x, y, words, ov);
    forall u, v | (u, v) in p.overlaps
      ensures (v, u) in p.overlaps && p.overlaps[(v, u)] == Swap(p.overlaps[(u, v)])
    {
      assert (u, v) == (x, y) || (u, v) == (y, x);
    }
  }

  /** In such a puzzle with a crossing, each slot crosses the other and nothing else. */
  lemma TwoSlotsNeighbors(height: nat, width: nat, x: Variable, y: Variable, words: set<string>, ov: Option<(nat, nat)>)
    requires x != y && ov.Some?
    ensures Neighbors(TwoSlots(height, width, x, y, words, ov), x) == {y}
    ensures Neighbors(TwoSlots(height, width, x, y, words, ov), y) == {x}
  {
    var p := TwoSlots(height, width, x, y, words, ov);
    forall u | u in Neighbors(p, x) ensures u == y {
      assert u in {x, y};
    }
    forall u | u in Neighbors(p, y) ensures u == x {
      assert u in {x, y};
    }
    assert p.overlaps[(x, y)] == ov && p.overlaps[(y, x)] == Swap(ov);
  }

  /**
   * The check as written accepts one word w in two crossing slots even
   * though the letters at the crossing differ; for instance "ab" across at
   * (0, 0) and "ab" down at (0, 1) put 'b' and 'a' on cell (0, 1).
   */
  lemma ConsistentAsWrittenAcceptsRepeatedWord(x: Variable, y: Variable, w: string, k: nat, l: nat)
    requires x != y && x.length == |w| && y.length == |w|
    requires k < |w| && l < |w| && w[k] != w[l]
    ensures var p := TwoSlots(x.i + |w|, x.j + |w|, x, y, {w}, Some((k, l)));
            var a := map[x := w, y := w];
            WellFormed(p) && ConsistentAsWritten(p, a) && !ConsistentFill(p, a)
  {
    TwoSlotsWellFormed(x.i + |w|, x.j + |w|, x, y, {w}, Some((k, l)));
    var p := TwoSlots(x.i + |w|, x.j + |w|, x, y, {w}, Some((k, l)));
    var a := map[x := w, y := w];
    assert p.overlaps[(x, y)] == Some((k, l));
    forall u | u in a ensures a[u] == w && |a[u]| == u.length {
      assert u == x || u == y;
    }
    OneWordPassesAsWritten(p, a, w);
    assert !PairOk(p, a, x, y);
  }

  /** The check as written skips every pair of an assignment that uses one word throughout. */
  lemma OneWordPassesAsWritten(p: Puzzle, a: map<Variable, string>, w: string)
    requires forall u :: u in a ==> a[u] == w && |a[u]| == u.length
    ensures ConsistentAsWritten(p, a)
  {
  }
}
