/**
 * The crossword generator: a constraint-satisfaction solver that cuts each
 * slot's domain of words by length (node consistency) and by crossings
 * (AC-3), then fills the slots by backtracking search.
 */
module Crossword {
  import opened Wrappers
  import opened CrosswordPuzzle

  /** The candidate words of each slot. */
  type Domains = map<Variable, set<string>>

  /** Every word in a slot's domain has the slot's length. */
  predicate NodeConsistent(d: Domains) {
    forall v, w :: v in d && w in d[v] ==> |w| == v.length
  }

  /** The domains with every word of the wrong length removed. */
  function LengthFiltered(d: Domains): (r: Domains)
    ensures r.Keys == d.Keys
  {
    map v | v in d :: set w | w in d[v] && |w| == v.length
  }

  /** A word stays exactly when it was in the domain and has the slot's length; so the result is node consistent. */
  lemma LengthFilteredMeaning(d: Domains)
    ensures NodeConsistent(LengthFiltered(d))
    ensures forall v, w :: v in d ==> (w in LengthFiltered(d)[v] <==> w in d[v] && |w| == v.length)
  {
  }

  /** Filtering twice is filtering once. */
  lemma LengthFilteredIdempotent(d: Domains)
    ensures LengthFiltered(LengthFiltered(d)) == LengthFiltered(d)
  {
    var once := LengthFiltered(d);
    forall v | v in d ensures LengthFiltered(once)[v] == once[v] {
      LengthFilteredMeaning(d);
      LengthFilteredMeaning(once);
    }
  }

  /** Filtering by length loses no solution. */
  lemma LengthFilteredKeepsSolutions(p: Puzzle, d: Domains, a: map<Variable, string>)
    requires Solution(p, d, a)
    ensures Solution(p, LengthFiltered(d), a)
  {
    LengthFilteredMeaning(d);
  }

  /**
   * The words of x's domain that some word of y's domain meets at the
   * crossing `ov`; all of them when the slots do not cross.
   */
  function Supported(d: Domains, x: Variable, y: Variable, ov: Option<(nat, nat)>): (r: set<string>)
    requires x in d && y in d
    ensures r <= d[x]
  {
    if ov.None? then d[x] else set w | w in d[x] && exists u :: u in d[y] && Agree(w, u, ov)
  }

  /** Narrowing x's domain to its supported words loses no solution. */
  lemma SupportedKeepsSolutions(p: Puzzle, d: Domains, x: Variable, y: Variable, a: map<Variable, string>)
    requires WellFormed(p) && x in d && y in d && x != y && (x, y) in p.overlaps
    requires Solution(p, d, a)
    ensures Solution(p, d[x := Supported(d, x, y, p.overlaps[(x, y)])], a)
  {
    var ov := p.overlaps[(x, y)];
    if ov.Some? {
      assert PairOk(p, a, x, y);
      assert a[x] in Supported(d, x, y, ov);
    }
  }

  /**
   * Once x is narrowed across a crossing, every word of x meets some word of
   * y: x is arc consistent with y. Without a crossing nothing is removed.
   */
  lemma SupportedIsArcConsistent(d: Domains, x: Variable, y: Variable, ov: Option<(nat, nat)>)
    requires x in d && y in d && x != y
    ensures var e := d[x := Supported(d, x, y, ov)];
            ov.Some? ==> forall w :: w in e[x] ==> exists u :: u in e[y] && Agree(w, u, ov)
    ensures ov.None? ==> Supported(d, x, y, ov) == d[x]
  {
  }

  /** A map equal to d away from x is d updated at x. */
  lemma UpdateAt(d: Domains, e: Domains, x: Variable)
    requires x in d && e.Keys == d.Keys
    requires forall u :: u in e && u != x ==> e[u] == d[u]
    ensures e == d[x := e[x]]
  {
  }

  /** One revision keeps every solution that the domains before it kept. */
  lemma ReviseKeepsSolutions(p: Puzzle, start: Domains, before: Domains, x: Variable, y: Variable)
    requires WellFormed(p) && x in before && y in before && x != y && (x, y) in p.overlaps
    requires forall a :: Solution(p, start, a) ==> Solution(p, before, a)
    ensures forall a :: Solution(p, start, a) ==> Solution(p, before[x := Supported(before, x, y, p.overlaps[(x, y)])], a)
  {
    forall a | Solution(p, start, a) ensures Solution(p, before[x := Supported(before, x, y, p.overlaps[(x, y)])], a) {
      SupportedKeepsSolutions(p, before, x, y, a);
    }
  }

  /**
   * x is arc consistent with y: every word of x's domain meets some word of
   * y's domain at their crossing.
   */
  ghost predicate ArcConsistent(p: Puzzle, d: Domains, x: Variable, y: Variable) {
    x in d && y in d && (x, y) in p.overlaps &&
    forall w :: w in d[x] ==> exists u :: u in d[y] && Agree(w, u, p.overlaps[(x, y)])
  }

  /** Every arc between crossing slots is arc consistent or still waits in the queue q. */
  ghost predicate Pending(p: Puzzle, d: Domains, q: seq<Arc>) {
    forall x, y :: x in p.variables && y in Neighbors(p, x) ==> (x, y) in q || ArcConsistent(p, d, x, y)
  }

  /** Every arc between crossing slots is arc consistent. */
  ghost predicate ArcConsistentAll(p: Puzzle, d: Domains) {
    forall x, y :: x in p.variables && y in Neighbors(p, x) ==> ArcConsistent(p, d, x, y)
  }

  /** Taking the first arc off the queue leaves every other waiting arc waiting. */
  lemma PopPending(p: Puzzle, d: Domains, q: seq<Arc>)
    requires |q| > 0 && Pending(p, d, q)
    ensures forall x, y :: x in p.variables && y in Neighbors(p, x) ==>
              (x, y) in q[1..] || (x, y) == q[0] || ArcConsistent(p, d, x, y)
  {
    assert q == [q[0]] + q[1..];
  }

  /**
   * Narrowing x against y keeps y arc consistent with x: a word of x that
   * meets a word of y is supported by it, so it stays.
   */
  lemma ReverseArcSurvives(p: Puzzle, d: Domains, x: Variable, y: Variable)
    requires WellFormed(p) && x in p.variables && y in p.variables && x != y
    requires ArcConsistent(p, d, y, x)
    ensures ArcConsistent(p, d[x := Supported(d, x, y, p.overlaps[(x, y)])], y, x)
  {
    var ov := p.overlaps[(x, y)];
    var e := d[x := Supported(d, x, y, ov)];
    assert ov == Swap(p.overlaps[(y, x)]);
    forall b | b in e[y] ensures exists a :: a in e[x] && Agree(b, a, p.overlaps[(y, x)]) {
      var a :| a in d[x] && Agree(b, a, p.overlaps[(y, x)]);
      AgreeSwap(b, a, p.overlaps[(y, x)]);
      assert a in e[x];
    }
  }

  /**
   * Revising the arc (x, y) just taken off the queue q makes it consistent,
   * keeps every other arc as it was, and can only spoil the arcs (z, x)
   * with z other than y; when nothing is removed, nothing is spoilt.
   */
  lemma ReviseKeepsPending(p: Puzzle, d: Domains, x: Variable, y: Variable, q: seq<Arc>)
    requires WellFormed(p) && x in d && y in d && x in p.variables && y in p.variables && x != y
    requires forall u, w :: u in p.variables && w in Neighbors(p, u) ==>
               (u, w) in q || (u, w) == (x, y) || ArcConsistent(p, d, u, w)
    ensures var e := d[x := Supported(d, x, y, p.overlaps[(x, y)])];
            forall u, w :: u in p.variables && w in Neighbors(p, u) ==>
              (u, w) in q || (w == x && u != y) || ArcConsistent(p, e, u, w)
    ensures Supported(d, x, y, p.overlaps[(x, y)]) == d[x] ==> Pending(p, d, q)
  {
    var ov := p.overlaps[(x, y)];
    var e := d[x := Supported(d, x, y, ov)];
    forall u, w | u in p.variables && w in Neighbors(p, u) && (u, w) !in q && !(w == x && u != y)
      ensures ArcConsistent(p, e, u, w)
    {
      if (u, w) == (x, y) {
        SupportedIsArcConsistent(d, x, y, ov);
      } else if w == x {
        ReverseArcSurvives(p, d, x, y);
      } else {
        assert ArcConsistent(p, d, u, w);
        assert e[w] == d[w] && e[u] <= d[u];
      }
    }
    if Supported(d, x, y, ov) == d[x] {
      assert e == d;
      forall u, w | u in p.variables && w in Neighbors(p, u) && (u, w) !in q
        ensures ArcConsistent(p, d, u, w)
      {
        if (u, w) == (x, y) {
          SupportedIsArcConsistent(d, x, y, ov);
        }
      }
    }
  }

  /** Queuing (z, x) for every neighbour z of x but y restores the queue's promise. */
  lemma PendingAfterRequeue(p: Puzzle, e: Domains, q: seq<Arc>, next: seq<Arc>, x: Variable, y: Variable)
    requires WellFormed(p) && x in p.variables
    requires forall u, w :: u in p.variables && w in Neighbors(p, u) ==>
               (u, w) in q || (w == x && u != y) || ArcConsistent(p, e, u, w)
    requires forall arc :: arc in q ==> arc in next
    requires forall z :: z in Neighbors(p, x) - {y} ==> (z, x) in next
    ensures Pending(p, e, next)
  {
    forall u, w | u in p.variables && w in Neighbors(p, u) && !ArcConsistent(p, e, u, w) && (u, w) !in q
      ensures (u, w) in next
    {
      NeighborsSymmetric(p, u, x);
    }
  }

  /** A revision that removes nothing leaves the rest of the queue with the queue's promise. */
  lemma PendingUnrevised(p: Puzzle, d: Domains, q: seq<Arc>)
    requires WellFormed(p) && |q| > 0 && Pending(p, d, q)
    requires q[0].0 in d && q[0].1 in d && q[0].0 in p.variables && q[0].1 in p.variables && q[0].0 != q[0].1
    requires Supported(d, q[0].0, q[0].1, p.overlaps[q[0]]) == d[q[0].0]
    ensures Pending(p, d, q[1..])
  {
    PopPending(p, d, q);
    ReviseKeepsPending(p, d, q[0].0, q[0].1, q[1..]);
  }

  /**
   * A revision of the first arc (x, y) that removes words, followed by
   * queuing (z, x) for every other neighbour z of x, keeps the promise.
   */
  lemma PendingRevised(p: Puzzle, d: Domains, q: seq<Arc>, next: seq<Arc>)
    requires WellFormed(p) && |q| > 0 && Pending(p, d, q)
    requires q[0].0 in d && q[0].1 in d && q[0].0 in p.variables && q[0].1 in p.variables && q[0].0 != q[0].1
    requires forall arc :: arc in q[1..] ==> arc in next
    requires forall z :: z in Neighbors(p, q[0].0) - {q[0].1} ==> (z, q[0].0) in next
    ensures Pending(p, d[q[0].0 := Supported(d, q[0].0, q[0].1, p.overlaps[q[0]])], next)
  {
    var (x, y) := q[0];
    PopPending(p, d, q);
    ReviseKeepsPending(p, d, x, y, q[1..]);
    PendingAfterRequeue(p, d[x := Supported(d, x, y, p.overlaps[(x, y)])], q[1..], next, x, y);
  }

  /**
   * Of x's words {a, a2} only a meets a word of y, namely b; and b2, the
   * other word of y, does not meet a. Then narrowing x against y keeps just
   * a, and leaves b2 without a partner.
   */
  lemma LoneSupport(d: Domains, x: Variable, y: Variable, ov: Option<(nat, nat)>, a: string, a2: string, b: string, b2: string)
    requires x != y && x in d && y in d && d[x] == {a, a2} && d[y] == {b, b2}
    requires Agree(a, b, ov) && !Agree(a2, b, ov) && !Agree(a2, b2, ov) && !Agree(b2, a, Swap(ov))
    ensures Supported(d, x, y, ov) == {a}
    ensures b2 in d[x := {a}][y] && forall u :: u in d[x := {a}][x] ==> !Agree(b2, u, Swap(ov))
  {
    assert ov.Some?;
    assert a in Supported(d, x, y, ov);
  }

  /**
   * Seeding the queue with one direction of a crossing is not enough. Let x
   * and y cross at offsets (k, l), x's domain be {a, a2} and y's {b, b2},
   * where only a and b meet at the crossing (for instance "ab" and "zq"
   * across at (0, 0), "bc" and "zz" down at (0, 1)). Whichever of (x, y)
   * and (y, x) is the only arc queued, its revision removes one word, queues
   * nothing, and the arc the other way is left inconsistent.
   */
  lemma OneDirectionLeavesArcOpen(x: Variable, y: Variable, k: nat, l: nat, a: string, a2: string, b: string, b2: string)
    requires x != y && k < x.length && l < y.length
    requires |a| == x.length && |a2| == x.length && |b| == y.length && |b2| == y.length
    requires a[k] == b[l] && a2[k] != b[l] && a2[k] != b2[l] && a[k] != b2[l]
    ensures var p := TwoSlots(x.i + x.length + y.length, x.j + x.length + y.length, x, y, {a, a2, b, b2}, Some((k, l)));
            var d := map[x := {a, a2}, y := {b, b2}];
            && WellFormed(p)
            && Neighbors(p, x) - {y} == {} && Neighbors(p, y) - {x} == {}
            && Supported(d, x, y, p.overlaps[(x, y)]) == {a}
            && !ArcConsistent(p, d[x := {a}], y, x)
            && Supported(d, y, x, p.overlaps[(y, x)]) == {b}
            && !ArcConsistent(p, d[y := {b}], x, y)
  {
    var d := map[x := {a, a2}, y := {b, b2}];
    LoneSupport(d, x, y, Some((k, l)), a, a2, b, b2);
    LoneSupport(d, y, x, Some((l, k)), b, b2, a, a2);
    TwoSlotsWellFormed(x.i + x.length + y.length, x.j + x.length + y.length, x, y, {a, a2, b, b2}, Some((k, l)));
    TwoSlotsNeighbors(x.i + x.length + y.length, x.j + x.length + y.length, x, y, {a, a2, b, b2}, Some((k, l)));
  }

  /** Entering a key and removing it again leaves the map without the key. */
  lemma PutThenRemove<K, V>(m: map<K, V>, k: K, x: V)
    ensures m[k := x] - {k} == m - {k}
    ensures (m - {k}) - {k} == m - {k}
  {
  }

  /** Every (slot, word) candidate; a strictly smaller set measures AC-3's progress. */
  function Candidates(d: Domains): set<(Variable, string)> {
    set v, w | v in d && w in d[v] :: (v, w)
  }

  /** Strictly shrinking one domain strictly shrinks the candidates. */
  lemma CandidatesShrink(d: Domains, x: Variable, s: set<string>)
    requires x in d && s < d[x]
    ensures Candidates(d[x := s]) < Candidates(d)
  {
    var w :| w in d[x] && w !in s;
    assert (x, w) in Candidates(d);
    assert (x, w) !in Candidates(d[x := s]);
  }

  /** Domains within domains within o are within o. */
  lemma WithinTrans(o: Domains, d: Domains, e: Domains)
    requires forall v :: v in d ==> v in o && d[v] <= o[v]
    requires forall v :: v in e ==> v in d && e[v] <= d[v]
    ensures forall v :: v in e ==> v in o && e[v] <= o[v]
  {
  }

  /** A word with the number of neighbouring domains it would rule out. */
  type Ranked = (string, nat)

  /** The counts never decrease along s. */
  predicate Ascending(s: seq<Ranked>) {
    forall i, j :: 0 <= i < j < |s| ==> s[i].1 <= s[j].1
  }

  /** The counts never increase along s. */
  predicate Descending(s: seq<Ranked>) {
    forall i, j :: 0 <= i < j < |s| ==> s[i].1 >= s[j].1
  }

  /** Puts r in front of the first entry whose count is not smaller. */
  function Insert(r: Ranked, s: seq<Ranked>): seq<Ranked> {
    if s == [] then [r] else if r.1 <= s[0].1 then [r] + s else [s[0]] + Insert(r, s[1..])
  }

  /** A sort by count, smallest first (insertion sort). */
  function SortByCount(s: seq<Ranked>): seq<Ranked> {
    if s == [] then [] else Insert(s[0], SortByCount(s[1..]))
  }

  lemma {:induction false} InsertMultiset(r: Ranked, s: seq<Ranked>)
    ensures multiset(Insert(r, s)) == multiset(s) + multiset{r}
  {
    if s != [] && r.1 > s[0].1 {
      InsertMultiset(r, s[1..]);
      assert s == [s[0]] + s[1..];
    }
  }

  /** Inserting into a list whose counts are all at least b, a count of at least b, keeps them so. */
  lemma {:induction false} InsertBound(r: Ranked, s: seq<Ranked>, b: nat)
    requires b <= r.1 && forall k :: 0 <= k < |s| ==> b <= s[k].1
    ensures forall k :: 0 <= k < |Insert(r, s)| ==> b <= Insert(r, s)[k].1
  {
    if s != [] && r.1 > s[0].1 {
      InsertBound(r, s[1..], b);
    }
  }

  lemma {:induction false} InsertAscending(r: Ranked, s: seq<Ranked>)
    requires Ascending(s)
    ensures Ascending(Insert(r, s))
  {
    if s != [] && r.1 > s[0].1 {
      InsertAscending(r, s[1..]);
      InsertBound(r, s[1..], s[0].1);
    }
  }

  /** The sort is a permutation and orders by ascending count. */
  lemma {:induction false} SortByCountFacts(s: seq<Ranked>)
    ensures multiset(SortByCount(s)) == multiset(s)
    ensures Ascending(SortByCount(s))
  {
    if s != [] {
      SortByCountFacts(s[1..]);
      InsertMultiset(s[0], SortByCount(s[1..]));
      InsertAscending(s[0], SortByCount(s[1..]));
      assert s == [s[0]] + s[1..];
    }
  }

  function Reverse<T>(s: seq<T>): (r: seq<T>)
    ensures |r| == |s|
    ensures forall k :: 0 <= k < |s| ==> r[k] == s[|s| - 1 - k]
  {
    if s == [] then [] else Reverse(s[1..]) + [s[0]]
  }

  /** The words of a ranked list, in its order. */
  function Words(s: seq<Ranked>): (r: seq<string>)
    ensures |r| == |s| && forall k :: 0 <= k < |s| ==> r[k] == s[k].0
  {
    seq(|s|, k requires 0 <= k < |s| => s[k].0)
  }

  /**
   * The value order as the program builds it: sorted by ascending count,
   * then reversed. It is a permutation that puts the words ruling out most first.
   */
  function AsWrittenOrder(s: seq<Ranked>): (r: seq<Ranked>)
    ensures Descending(r)
    ensures multiset(r) == multiset(s)
  {
    SortByCountFacts(s);
    ReverseOfAscending(SortByCount(s));
    ReverseKeepsMultiset(SortByCount(s));
    Reverse(SortByCount(s))
  }

  /** Reversing an ascending list gives a descending one. */
  lemma ReverseOfAscending(t: seq<Ranked>)
    requires Ascending(t)
    ensures Descending(Reverse(t))
  {
    forall i, j | 0 <= i < j < |t| ensures Reverse(t)[i].1 >= Reverse(t)[j].1 {
      assert t[|t| - 1 - j].1 <= t[|t| - 1 - i].1;
    }
  }

  lemma {:induction false} ReverseKeepsMultiset<T>(s: seq<T>)
    ensures multiset(Reverse(s)) == multiset(s)
  {
    if s != [] {
      ReverseKeepsMultiset(s[1..]);
      assert s == [s[0]] + s[1..];
    }
  }

  /**
   * So a word that rules out more comes before one that rules out less:
   * "a" rules out nothing, "b" rules out one word, and "b" comes first.
   */
  lemma AsWrittenOrderPutsMostRuledOutFirst()
    ensures AsWrittenOrder([("a", 0), ("b", 1)]) == [("b", 1), ("a", 0)]
  {
    assert SortByCount([("b", 1)]) == [("b", 1)];
    assert SortByCount([("a", 0), ("b", 1)]) == [("a", 0), ("b", 1)];
  }

  /** The assignment of words to slots that the search fills in place. */
  class Assignment {
    var entries: map<Variable, string>

    constructor()
      ensures entries == map[]
    {
      entries := map[];
    }
  }

  /** The grid has the puzzle's size. */
  predicate Shape(height: nat, width: nat, letters: seq<seq<Option<char>>>) {
    |letters| == height && forall r :: 0 <= r < height ==> |letters[r]| == width
  }

  /** Slot v of `a` puts its k-th letter on row r, column c. */
  predicate Writes(a: map<Variable, string>, v: Variable, k: int, r: int, c: int) {
    v in a && 0 <= k < |a[v]| && Pos(v, k) == (r, c)
  }

  /**
   * The grid shows the letters of `a`: a cell is empty exactly when no
   * letter of any word falls on it, and otherwise holds a letter that some
   * word puts there.
   */
  ghost predicate Renders(height: nat, width: nat, a: map<Variable, string>, letters: seq<seq<Option<char>>>) {
    Shape(height, width, letters) &&
    (forall r, c :: 0 <= r < height && 0 <= c < width ==>
       (letters[r][c].None? <==> forall v, k :: !Writes(a, v, k, r, c))) &&
    (forall r, c :: 0 <= r < height && 0 <= c < width && letters[r][c].Some? ==>
       exists v, k :: Writes(a, v, k, r, c) && a[v][k] == letters[r][c].value)
  }

  /** As Renders, for the letters `painted` so far. */
  ghost predicate RendersPainted(height: nat, width: nat, a: map<Variable, string>, painted: set<(Variable, int)>,
                           letters: seq<seq<Option<char>>>) {
    Shape(height, width, letters) &&
    (forall r, c :: 0 <= r < height && 0 <= c < width ==>
       (letters[r][c].None? <==> forall v, k :: (v, k) in painted ==> !Writes(a, v, k, r, c))) &&
    (forall r, c :: 0 <= r < height && 0 <= c < width && letters[r][c].Some? ==>
       exists v, k :: (v, k) in painted && Writes(a, v, k, r, c) && a[v][k] == letters[r][c].value)
  }

  /** Any two letters of `a` that fall on one cell are the same letter. */
  ghost predicate NoClash(a: map<Variable, string>) {
    forall v1, k1, v2, k2 :: v1 in a && v2 in a && 0 <= k1 < |a[v1]| && 0 <= k2 < |a[v2]| && Pos(v1, k1) == Pos(v2, k2) ==>
      a[v1][k1] == a[v2][k2]
  }

  /** Painting one more letter onto its cell. */
  lemma PaintStep(height: nat, width: nat, a: map<Variable, string>, painted: set<(Variable, int)>,
                  letters: seq<seq<Option<char>>>, v: Variable, k: nat)
    requires RendersPainted(height, width, a, painted, letters)
    requires v in a && k < |a[v]| && Pos(v, k).0 < height && Pos(v, k).1 < width
    ensures var (r, c) := Pos(v, k);
            RendersPainted(height, width, a, painted + {(v, k)}, letters[r := letters[r][c := Some(a[v][k])]])
  {
    var (r0, c0) := Pos(v, k);
    var next: seq<seq<Option<char>>> := letters[r0 := letters[r0][c0 := Some(a[v][k])]];
    var more: set<(Variable, int)> := painted + {(v, k)};
    forall r, c | 0 <= r < height && 0 <= c < width
      ensures next[r][c].None? <==> forall u, t :: (u, t) in more ==> !Writes(a, u, t, r, c)
      ensures next[r][c].Some? ==> exists u, t :: (u, t) in more && Writes(a, u, t, r, c) && a[u][t] == next[r][c].value
    {
      if (r, c) == (r0, c0) {
        assert Writes(a, v, k, r, c);
      } else {
        assert next[r][c] == letters[r][c];
        assert !Writes(a, v, k, r, c);
      }
    }
  }

  /** Once every letter is painted, the grid renders the assignment; without clashes every letter is on its cell. */
  lemma PaintedAll(height: nat, width: nat, a: map<Variable, string>, painted: set<(Variable, int)>,
                   letters: seq<seq<Option<char>>>)
    requires RendersPainted(height, width, a, painted, letters)
    requires forall v, k :: (v, k) in painted <==> v in a && 0 <= k < |a[v]|
    ensures Renders(height, width, a, letters)
  {
  }

  /**
   * When no two letters clash, every letter of every word sits on its own
   * cell of a grid that renders the assignment.
   */
  lemma RendersEveryLetter(height: nat, width: nat, a: map<Variable, string>, letters: seq<seq<Option<char>>>)
    requires Renders(height, width, a, letters) && NoClash(a)
    requires forall v, k :: v in a && 0 <= k < |a[v]| ==> Pos(v, k).0 < height && Pos(v, k).1 < width
    ensures forall v, k :: v in a && 0 <= k < |a[v]| ==> letters[Pos(v, k).0][Pos(v, k).1] == Some(a[v][k])
  {
    forall v, k | v in a && 0 <= k < |a[v]| ensures letters[Pos(v, k).0][Pos(v, k).1] == Some(a[v][k]) {
      var (r, c) := Pos(v, k);
      assert Writes(a, v, k, r, c);
      var u, t :| Writes(a, u, t, r, c) && a[u][t] == letters[r][c].value;
    }
  }

  /** The solver: the puzzle and the domain of every slot, which its methods narrow in place. */
  class CrosswordCreator {
    const crossword: Puzzle
    var domains: Domains

    predicate Valid()
      reads this
    {
      WellFormed(crossword) && Covered()
    }

    /** Every slot, and nothing else, has a domain. */
    predicate Covered()
      reads this
    {
      domains.Keys == crossword.variables
    }

    /** An arc between two distinct slots, so that its overlaps entry exists. */
    predicate ArcOk(arc: Arc) {
      arc.0 in crossword.variables && arc.1 in crossword.variables && arc.0 != arc.1
    }

    /** Every slot starts with the whole word list. */
    constructor(crossword: Puzzle)
      requires WellFormed(crossword)
      ensures Valid() && this.crossword == crossword
      ensures forall v :: v in crossword.variables ==> domains[v] == crossword.words
    {
      this.crossword := crossword;
      domains := map v | v in crossword.variables :: crossword.words;
    }

    /** Removes from every domain the words whose length differs from the slot's. */
    method EnforceNodeConsistency()
      requires Valid()
      modifies this
      ensures Valid()
      ensures domains == LengthFiltered(old(domains))
    {
      ghost var target := LengthFiltered(domains);
      var todo := crossword.variables;
      while todo != {}
        invariant todo <= crossword.variables && domains.Keys == old(domains).Keys
        invariant forall v :: v in domains ==> domains[v] == if v in todo then old(domains)[v] else target[v]
        decreases todo
      {
        var v :| v in todo;
        FitLength(v);
        todo := todo - {v};
      }
    }

    /** Removes from v's domain the words whose length differs from v's. */
    method FitLength(v: Variable)
      requires v in domains
      modifies this
      ensures domains == old(domains)[v := set w | w in old(domains)[v] && |w| == v.length]
    {
      ghost var fit := set w | w in domains[v] && |w| == v.length;
      var words := domains[v];
      while words != {}
        invariant words <= old(domains)[v] && domains.Keys == old(domains).Keys
        invariant forall u :: u in domains && u != v ==> domains[u] == old(domains)[u]
        invariant domains[v] == words + (fit - words)
        decreases words
      {
        var w :| w in words;
        if |w| != v.length {
          domains := domains[v := domains[v] - {w}];
        }
        words := words - {w};
      }
      assert domains[v] == fit;
      UpdateAt(old(domains), domains, v);
    }

    /**
     * Removes from x's domain every word that no word of y's domain meets
     * where x and y cross; reports whether anything was removed.
     */
    method Revise(x: Variable, y: Variable) returns (revised: bool)
      requires Valid() && NodeConsistent(domains)
      requires x in crossword.variables && y in crossword.variables && x != y
      modifies this
      ensures Valid() && NodeConsistent(domains)
      ensures domains == old(domains)[x := Supported(old(domains), x, y, crossword.overlaps[(x, y)])]
      ensures revised <==> domains[x] < old(domains)[x]
      ensures !revised ==> domains == old(domains)
      ensures crossword.overlaps[(x, y)].None? ==> !revised
    {
      revised := false;
      var ov := crossword.overlaps[(x, y)];
      ghost var kept := Supported(domains, x, y, ov);
      if ov.Some? {
        var words := domains[x];
        while words != {}
          invariant words <= old(domains)[x] && domains.Keys == old(domains).Keys
          invariant forall u :: u in domains && u != x ==> domains[u] == old(domains)[u]
          invariant domains[x] == words + (kept - words)
          invariant revised <==> !(old(domains)[x] - words <= kept)
          decreases words
        {
          var w :| w in words;
          var found := HasPartner(w, x, y);
          if !found {
            domains := domains[x := domains[x] - {w}];
            revised := true;
          }
          words := words - {w};
        }
        assert revised <==> !(old(domains)[x] <= kept);
      }
      assert domains[x] == kept;
      UpdateAt(old(domains), domains, x);
      if !revised {
        assert kept == old(domains)[x];
        UpdateAt(old(domains), old(domains), x);
      }
    }

    /** Whether some word of y's domain meets w where x and y cross. */
    method HasPartner(w: string, x: Variable, y: Variable) returns (found: bool)
      requires Valid() && NodeConsistent(domains) && x in domains && y in domains && w in domains[x]
      requires (x, y) in crossword.overlaps && crossword.overlaps[(x, y)].Some?
      ensures found <==> exists u :: u in domains[y] && Agree(w, u, crossword.overlaps[(x, y)])
    {
      var ov := crossword.overlaps[(x, y)];
      var (i, j) := ov.value;
      var others := domains[y];
      while others != {}
        invariant others <= domains[y]
        invariant forall u :: u in domains[y] && u !in others ==> !Agree(w, u, ov)
        decreases others
      {
        var u :| u in others;
        if w[i] == u[j] {
          assert Agree(w, u, ov);
          return true;
        }
        others := others - {u};
      }
      return false;
    }

    /** Arcs between crossing slots, each at most once and never in both directions. */
    ghost predicate ArcsFine(arcs: seq<Arc>) {
      (forall x, y :: (x, y) in arcs ==> x in crossword.variables && y in Neighbors(crossword, x)) &&
      (forall x, y :: (x, y) in arcs ==> (y, x) !in arcs) &&
      (forall k, l :: 0 <= k < l < |arcs| ==> arcs[k] != arcs[l])
    }

    /** The seed as the program builds it: every crossing pair of slots once, in one of its two directions. */
    method InitialArcsAsWritten() returns (arcs: seq<Arc>)
      requires Valid()
      ensures ArcsFine(arcs)
      ensures forall x, y :: x in crossword.variables && y in Neighbors(crossword, x) ==> (x, y) in arcs || (y, x) in arcs
    {
      arcs := [];
      var seen: set<Arc> := {};
      var todo := crossword.variables;
      while todo != {}
        invariant todo <= crossword.variables
        invariant ArcsFine(arcs) && forall arc :: arc in seen <==> arc in arcs
        invariant forall x, y :: x in crossword.variables && x !in todo && y in Neighbors(crossword, x) ==> (x, y) in arcs || (y, x) in arcs
        decreases todo
      {
        var x :| x in todo;
        arcs, seen := ArcsFromAsWritten(x, arcs, seen);
        todo := todo - {x};
      }
    }

    /** Appends (x, y) for every neighbour y of x unless the pair is already seen in either direction. */
    method ArcsFromAsWritten(x: Variable, arcs: seq<Arc>, seen: set<Arc>) returns (arcs': seq<Arc>, seen': set<Arc>)
      requires x in crossword.variables
      requires ArcsFine(arcs) && forall arc :: arc in seen <==> arc in arcs
      ensures ArcsFine(arcs') && forall arc :: arc in seen' <==> arc in arcs'
      ensures forall arc :: arc in arcs ==> arc in arcs'
      ensures forall y :: y in Neighbors(crossword, x) ==> (x, y) in arcs' || (y, x) in arcs'
    {
      arcs', seen' := arcs, seen;
      var ys := Neighbors(crossword, x);
      while ys != {}
        invariant ys <= Neighbors(crossword, x)
        invariant ArcsFine(arcs') && forall arc :: arc in seen' <==> arc in arcs'
        invariant forall arc :: arc in arcs ==> arc in arcs'
        invariant forall y :: y in Neighbors(crossword, x) && y !in ys ==> (x, y) in arcs' || (y, x) in arcs'
        decreases ys
      {
        var y :| y in ys;
        if (x, y) !in seen' && (y, x) !in seen' {
          arcs' := arcs' + [(x, y)];
          seen' := seen' + {(x, y)};
        }
        ys := ys - {y};
      }
    }

    /** Every arc between crossing slots, in both directions. */
    method InitialArcs() returns (arcs: seq<Arc>)
      ensures forall k :: 0 <= k < |arcs| ==> ArcOk(arcs[k]) && arcs[k].1 in Neighbors(crossword, arcs[k].0)
      ensures forall x, y :: x in crossword.variables && y in Neighbors(crossword, x) ==> (x, y) in arcs
    {
      arcs := [];
      var todo := crossword.variables;
      while todo != {}
        invariant todo <= crossword.variables
        invariant forall k :: 0 <= k < |arcs| ==> ArcOk(arcs[k]) && arcs[k].1 in Neighbors(crossword, arcs[k].0)
        invariant forall x, y :: x in crossword.variables && x !in todo && y in Neighbors(crossword, x) ==> (x, y) in arcs
        decreases todo
      {
        var x :| x in todo;
        arcs := ArcsOf(x, arcs);
        todo := todo - {x};
      }
    }

    /** Appends (x, y) for every neighbour y of x. */
    method ArcsOf(x: Variable, arcs: seq<Arc>) returns (arcs': seq<Arc>)
      requires x in crossword.variables
      requires forall k :: 0 <= k < |arcs| ==> ArcOk(arcs[k]) && arcs[k].1 in Neighbors(crossword, arcs[k].0)
      ensures forall k :: 0 <= k < |arcs'| ==> ArcOk(arcs'[k]) && arcs'[k].1 in Neighbors(crossword, arcs'[k].0)
      ensures |arcs'| >= |arcs| && arcs'[..|arcs|] == arcs
      ensures forall y :: y in Neighbors(crossword, x) ==> (x, y) in arcs'
    {
      arcs' := arcs;
      var ys := Neighbors(crossword, x);
      while ys != {}
        invariant ys <= Neighbors(crossword, x)
        invariant forall k :: 0 <= k < |arcs'| ==> ArcOk(arcs'[k]) && arcs'[k].1 in Neighbors(crossword, arcs'[k].0)
        invariant |arcs'| >= |arcs| && arcs'[..|arcs|] == arcs
        invariant forall y :: y in Neighbors(crossword, x) && y !in ys ==> (x, y) in arcs'
        decreases ys
      {
        var y :| y in ys;
        arcs' := arcs' + [(x, y)];
        ys := ys - {y};
      }
    }

    /**
     * AC-3: revises the arcs of a first-in first-out worklist, seeded with
     * every arc between crossing slots, in both directions, when none is
     * given; after revising x against y it queues (z, x) for every other
     * neighbour z of x. Returns false as soon as a revised domain is empty;
     * on true every crossing arc is consistent, provided that the arcs left
     * out of a given worklist were consistent to begin with.
     */
    method AC3(arcs: Option<seq<Arc>>) returns (ok: bool)
      requires Valid() && NodeConsistent(domains)
      requires arcs.Some? ==> forall k :: 0 <= k < |arcs.value| ==> ArcOk(arcs.value[k])
      modifies this
      ensures Valid() && NodeConsistent(domains)
      ensures forall v :: v in domains ==> domains[v] <= old(domains)[v]
      ensures !ok ==> exists v :: v in domains && domains[v] == {}
      ensures ok && (arcs.None? || old(Pending(crossword, domains, arcs.value))) ==> ArcConsistentAll(crossword, domains)
      ensures forall a :: Solution(crossword, old(domains), a) ==> Solution(crossword, domains, a)
    {
      ghost var tracking := arcs.None? || Pending(crossword, domains, arcs.value);
      var queue: seq<Arc>;
      if arcs.None? {
        queue := InitialArcs();
      } else {
        queue := arcs.value;
      }
      while |queue| > 0
        invariant Valid() && NodeConsistent(domains)
        invariant forall k :: 0 <= k < |queue| ==> ArcOk(queue[k])
        invariant forall v :: v in domains ==> domains[v] <= old(domains)[v]
        invariant forall a :: Solution(crossword, old(domains), a) ==> Solution(crossword, domains, a)
        invariant tracking ==> Pending(crossword, domains, queue)
        decreases Candidates(domains), |queue|
      {
        ghost var before := domains;
        var going, next := ReviseFirst(queue, tracking);
        WithinTrans(old(domains), before, domains);
        if !going {
          return false;
        }
        queue := next;
      }
      ok := true;
    }

    /**
     * One round of AC-3: revises the first arc (x, y) of the queue, and when
     * x lost words but kept some, queues (z, x) for every other neighbour z
     * of x. Says false when x's domain became empty.
     */
    method ReviseFirst(queue: seq<Arc>, ghost tracking: bool) returns (going: bool, next: seq<Arc>)
      requires Valid() && NodeConsistent(domains)
      requires |queue| > 0 && forall k :: 0 <= k < |queue| ==> ArcOk(queue[k])
      requires tracking ==> Pending(crossword, domains, queue)
      modifies this
      ensures Valid() && NodeConsistent(domains)
      ensures forall v :: v in domains ==> v in old(domains) && domains[v] <= old(domains)[v]
      ensures forall a :: Solution(crossword, old(domains), a) ==> Solution(crossword, domains, a)
      ensures !going ==> queue[0].0 in domains && domains[queue[0].0] == {}
      ensures going ==> forall k :: 0 <= k < |next| ==> ArcOk(next[k])
      ensures going && tracking ==> Pending(crossword, domains, next)
      ensures going ==> Candidates(domains) < old(Candidates(domains)) || (domains == old(domains) && next == queue[1..])
    {
      var (x, y) := queue[0];
      var rest := queue[1..];
      var revised := Revise(x, y);
      ReviseKeepsSolutions(crossword, old(domains), old(domains), x, y);
      if revised {
        CandidatesShrink(old(domains), x, domains[x]);
        if |domains[x]| == 0 {
          return false, [];
        }
        next := Requeue(rest, x, y);
        if tracking {
          PendingRevised(crossword, old(domains), queue, next);
        }
      } else {
        next := rest;
        if tracking {
          PendingUnrevised(crossword, old(domains), queue);
        }
      }
      going := true;
    }

    /** Queues (z, x) for every neighbour z of x other than y. */
    method Requeue(queue: seq<Arc>, x: Variable, y: Variable) returns (next: seq<Arc>)
      requires forall k :: 0 <= k < |queue| ==> ArcOk(queue[k])
      requires x in crossword.variables
      ensures forall k :: 0 <= k < |next| ==> ArcOk(next[k])
      ensures |next| >= |queue| && next[..|queue|] == queue
      ensures forall k :: |queue| <= k < |next| ==> next[k].1 == x && next[k].0 in Neighbors(crossword, x) - {y}
      ensures forall arc :: arc in queue ==> arc in next
      ensures forall z :: z in Neighbors(crossword, x) - {y} ==> (z, x) in next
    {
      next := queue;
      var zs := Neighbors(crossword, x) - {y};
      while zs != {}
        invariant zs <= Neighbors(crossword, x) - {y}
        invariant forall k :: 0 <= k < |next| ==> ArcOk(next[k])
        invariant |next| >= |queue| && next[..|queue|] == queue
        invariant forall k :: |queue| <= k < |next| ==> next[k].1 == x && next[k].0 in Neighbors(crossword, x) - {y}
        invariant forall arc :: arc in queue ==> arc in next
        invariant forall z :: z in Neighbors(crossword, x) - {y} && z !in zs ==> (z, x) in next
        decreases zs
      {
        var z :| z in zs;
        next := next + [(z, x)];
        zs := zs - {z};
      }
    }

    /** Whether every slot has a word. */
    method AssignmentComplete(a: Assignment) returns (complete: bool)
      ensures complete <==> Complete(crossword, a.entries)
    {
      var todo := crossword.variables;
      while todo != {}
        invariant todo <= crossword.variables
        invariant forall v :: v in crossword.variables && v !in todo ==> v in a.entries
        decreases todo
      {
        var v :| v in todo;
        if v !in a.entries {
          return false;
        }
        todo := todo - {v};
      }
      return true;
    }

    /**
     * Whether the words of `a` fit: right lengths, and for every pair of
     * distinct slots different words that agree where they cross.
     */
    method Consistent(a: Assignment) returns (consistent: bool)
      requires Valid() && a.entries.Keys <= crossword.variables
      ensures consistent <==> ConsistentFill(crossword, a.entries)
    {
      var e := a.entries;
      var todo := e.Keys;
      while todo != {}
        invariant todo <= e.Keys
        invariant forall v :: v in e && v !in todo ==> |e[v]| == v.length
        decreases todo
      {
        var v :| v in todo;
        if |e[v]| != v.length {
          return false;
        }
        todo := todo - {v};
      }
      var firsts := e.Keys;
      while firsts != {}
        invariant firsts <= e.Keys
        invariant forall x, y :: x in e && x !in firsts && y in e && x != y ==> PairOk(crossword, e, x, y)
        decreases firsts
      {
        var x :| x in firsts;
        var seconds := e.Keys;
        while seconds != {}
          invariant seconds <= e.Keys
          invariant forall y :: y in e && y !in seconds && x != y ==> PairOk(crossword, e, x, y)
          decreases seconds
        {
          var y :| y in seconds;
          seconds := seconds - {y};
          if x == y {
            continue;
          }
          if e[x] == e[y] {
            return false;
          }
          var ov := crossword.overlaps[(x, y)];
          if ov.Some? {
            var (i, j) := ov.value;
            if e[x][i] != e[y][j] {
              return false;
            }
          }
        }
        firsts := firsts - {x};
      }
      return true;
    }

    /** The slots among `among` whose domains hold w. */
    function Holders(w: string, among: set<Variable>): set<Variable>
      reads this
    {
      set u | u in among && u in domains && w in domains[u]
    }

    /** How many neighbours of v would lose w if v took it. */
    function RuledOut(v: Variable, w: string): nat
      reads this
    {
      |Holders(w, Neighbors(crossword, v))|
    }

    /** Counts the neighbours of v whose domains hold w. */
    method CountRuledOut(v: Variable, w: string) returns (n: nat)
      requires Covered()
      ensures n == RuledOut(v, w)
    {
      n := 0;
      var todo := Neighbors(crossword, v);
      while todo != {}
        invariant todo <= Neighbors(crossword, v)
        invariant n == |Holders(w, Neighbors(crossword, v) - todo)|
        decreases todo
      {
        var u :| u in todo;
        ghost var done := Neighbors(crossword, v) - todo;
        if crossword.overlaps[(v, u)].Some? {
          var copies := Occurrences(w, u);
          n := n + copies;
        }
        HoldersStep(w, done, u);
        todo := todo - {u};
        assert Neighbors(crossword, v) - todo == done + {u};
      }
      assert Neighbors(crossword, v) - todo == Neighbors(crossword, v);
    }

    /** Adding one slot u to `among` adds one holder of w exactly when u's domain holds w. */
    lemma HoldersStep(w: string, among: set<Variable>, u: Variable)
      requires u in domains && u !in among
      ensures |Holders(w, among + {u})| == |Holders(w, among)| + if w in domains[u] then 1 else 0
    {
      assert Holders(w, among + {u}) == Holders(w, among) + if w in domains[u] then {u} else {};
    }

    /** How many words of u's domain equal w: one or none. */
    method Occurrences(w: string, u: Variable) returns (copies: nat)
      requires u in domains
      ensures copies == if w in domains[u] then 1 else 0
    {
      copies := 0;
      var others := domains[u];
      while others != {}
        invariant others <= domains[u]
        invariant copies == if w in domains[u] && w !in others then 1 else 0
        decreases others
      {
        var other :| other in others;
        if other == w {
          copies := copies + 1;
        }
        others := others - {other};
      }
    }

    /**
     * The words of v's domain, each once, ordered so that the word ruling
     * out the fewest neighbouring words comes first.
     */
    method OrderDomainValues(v: Variable, a: Assignment) returns (values: seq<string>)
      requires Valid() && v in crossword.variables
      modifies a
      ensures |values| == |domains[v]| && forall w :: w in values <==> w in domains[v]
      ensures forall i, j :: 0 <= i < j < |values| ==> RuledOut(v, values[i]) <= RuledOut(v, values[j])
      ensures a.entries == if domains[v] == {} then old(a.entries) else old(a.entries) - {v}
    {
      var ranked := Rank(v, a);
      var sorted := SortByCount(ranked);
      SortByCountFacts(ranked);
      values := Words(sorted);
      assert |sorted| == |ranked| by {
        assert |multiset(sorted)| == |multiset(ranked)|;
      }
      forall k | 0 <= k < |sorted| ensures sorted[k].0 in domains[v] && sorted[k].1 == RuledOut(v, sorted[k].0) {
        assert sorted[k] in multiset(ranked);
      }
      forall w | w in domains[v] ensures w in values {
        var k :| 0 <= k < |ranked| && ranked[k].0 == w;
        assert ranked[k] in multiset(sorted);
        var m :| 0 <= m < |sorted| && sorted[m] == ranked[k];
        assert values[m] == w;
      }
    }

    /**
     * Every word of v's domain with the count of neighbouring words it rules
     * out. Each word is put into the assignment for v while it is ranked and
     * taken out again.
     */
    method Rank(v: Variable, a: Assignment) returns (ranked: seq<Ranked>)
      requires Covered() && v in crossword.variables
      modifies a
      ensures |ranked| == |domains[v]|
      ensures forall k :: 0 <= k < |ranked| ==> ranked[k].0 in domains[v] && ranked[k].1 == RuledOut(v, ranked[k].0)
      ensures forall w :: w in domains[v] ==> exists k :: 0 <= k < |ranked| && ranked[k].0 == w
      ensures a.entries == if domains[v] == {} then old(a.entries) else old(a.entries) - {v}
    {
      ranked := [];
      ghost var cleared := old(a.entries) - {v};
      var todo := domains[v];
      while todo != {}
        invariant todo <= domains[v]
        invariant a.entries == if todo == domains[v] then old(a.entries) else cleared
        invariant |ranked| + |todo| == |domains[v]|
        invariant forall k :: 0 <= k < |ranked| ==>
          ranked[k].0 in domains[v] && ranked[k].0 !in todo && ranked[k].1 == RuledOut(v, ranked[k].0)
        invariant forall w :: w in domains[v] && w !in todo ==> exists k :: 0 <= k < |ranked| && ranked[k].0 == w
        decreases todo
      {
        var w :| w in todo;
        PutThenRemove(a.entries, v, w);
        assert a.entries - {v} == cleared;
        a.entries := a.entries[v := w];
        var n := CountRuledOut(v, w);
        ghost var prev := ranked;
        ranked := ranked + [(w, n)];
        forall x | x in domains[v] && x !in todo - {w} ensures exists k :: 0 <= k < |ranked| && ranked[k].0 == x {
          if x == w {
            assert ranked[|ranked| - 1].0 == x;
          } else {
            var k :| 0 <= k < |prev| && prev[k].0 == x;
            assert ranked[k].0 == x;
          }
        }
        a.entries := a.entries - {v};
        todo := todo - {w};
      }
    }

    /**
     * An unassigned slot with the fewest words left in its domain and, among
     * those, with the most neighbours.
     */
    method SelectUnassignedVariable(a: Assignment) returns (v: Variable)
      requires Valid() && !Complete(crossword, a.entries)
      ensures v in crossword.variables && v !in a.entries
      ensures forall u :: u in crossword.variables && u !in a.entries ==> |domains[v]| <= |domains[u]|
      ensures forall u :: u in crossword.variables && u !in a.entries && |domains[u]| == |domains[v]| ==>
        |Neighbors(crossword, u)| <= |Neighbors(crossword, v)|
    {
      var unassigned := crossword.variables - a.entries.Keys;
      var some :| some in crossword.variables && some !in a.entries;
      assert some in unassigned;
      var minVal := FewestValues(unassigned);
      var ties := set u | u in unassigned && |domains[u]| == minVal;
      var first :| first in unassigned && |domains[first]| == minVal;
      assert first in ties;
      if |ties| == 1 {
        assert |ties - {first}| == 0;
        assert ties == {first};
        forall u | u in crossword.variables && u !in a.entries && |domains[u]| == |domains[first]|
          ensures u == first
        {
          assert u in ties;
        }
        return first;
      }
      var maxDegree := MostNeighbors(ties);
      v :| v in ties && |Neighbors(crossword, v)| == maxDegree;
      forall u | u in crossword.variables && u !in a.entries && |domains[u]| == |domains[v]|
        ensures |Neighbors(crossword, u)| <= maxDegree
      {
        assert u in ties;
      }
    }

    /** The smallest domain size among the non-empty set of slots `among`. */
    method FewestValues(among: set<Variable>) returns (fewest: nat)
      requires among != {} && among <= domains.Keys
      ensures exists u :: u in among && |domains[u]| == fewest
      ensures forall u :: u in among ==> fewest <= |domains[u]|
    {
      var first :| first in among;
      fewest := |domains[first]|;
      var todo := among;
      while todo != {}
        invariant todo <= among
        invariant exists u :: u in among && |domains[u]| == fewest
        invariant forall u :: u in among && u !in todo ==> fewest <= |domains[u]|
        decreases todo
      {
        var u :| u in todo;
        if |domains[u]| < fewest {
          fewest := |domains[u]|;
        }
        todo := todo - {u};
      }
    }

    /** The largest neighbour count among the non-empty set of slots `among`. */
    method MostNeighbors(among: set<Variable>) returns (most: nat)
      requires among != {}
      ensures exists u :: u in among && |Neighbors(crossword, u)| == most
      ensures forall u :: u in among ==> |Neighbors(crossword, u)| <= most
    {
      var first :| first in among;
      most := |Neighbors(crossword, first)|;
      var todo := among;
      while todo != {}
        invariant todo <= among
        invariant exists u :: u in among && |Neighbors(crossword, u)| == most
        invariant forall u :: u in among && u !in todo ==> |Neighbors(crossword, u)| <= most
        decreases todo
      {
        var u :| u in todo;
        if |Neighbors(crossword, u)| > most {
          most := |Neighbors(crossword, u)|;
        }
        todo := todo - {u};
      }
    }

    /**
     * Backtracking search from the partial assignment `a`, which it extends
     * in place. A result is `a` itself, complete and, unless `a` was already
     * complete on entry, consistent; the words it adds come from the domains.
     * A word that fails the consistency check is not taken out again.
     */
    method Backtrack(a: Assignment) returns (result: Option<Assignment>)
      requires Valid() && a.entries.Keys <= crossword.variables
      modifies a
      ensures a.entries.Keys <= crossword.variables
      ensures forall v :: v in old(a.entries) ==> v in a.entries && a.entries[v] == old(a.entries)[v]
      ensures forall v :: v in a.entries && v !in old(a.entries) ==> a.entries[v] in domains[v]
      ensures result.Some? ==> result.value == a && Complete(crossword, a.entries)
      ensures result.Some? ==> a.entries == old(a.entries) || ConsistentFill(crossword, a.entries)
      ensures Complete(crossword, old(a.entries)) ==> result == Some(a) && a.entries == old(a.entries)
      decreases crossword.variables - a.entries.Keys
    {
      var complete := AssignmentComplete(a);
      if complete {
        return Some(a);
      }
      var v := SelectUnassignedVariable(a);
      var values := OrderDomainValues(v, a);
      assert a.entries == old(a.entries);
      for k := 0 to |values|
        invariant a.entries.Keys <= crossword.variables
        invariant forall u :: u in old(a.entries) ==> u in a.entries && a.entries[u] == old(a.entries)[u]
        invariant forall u :: u in a.entries && u !in old(a.entries) ==> a.entries[u] in domains[u]
      {
        var w := values[k];
        a.entries := a.entries[v := w];
        var consistent := Consistent(a);
        if consistent {
          assert crossword.variables - a.entries.Keys < crossword.variables - old(a.entries).Keys by {
            assert v in crossword.variables - old(a.entries).Keys;
          }
          var r := Backtrack(a);
          if r.Some? {
            return r;
          }
          a.entries := a.entries - {v};
        }
      }
      return None;
    }

    /**
     * Node consistency, then AC-3 (whose verdict is not used), then the
     * search from an empty assignment. No solution is lost on the way, and
     * a result is a complete, consistent assignment drawn from the domains.
     */
    method Solve() returns (result: Option<Assignment>)
      requires Valid()
      modifies this
      ensures Valid() && NodeConsistent(domains)
      ensures forall a :: Solution(crossword, old(domains), a) ==> Solution(crossword, domains, a)
      ensures (forall v :: v in domains ==> domains[v] != {}) ==> ArcConsistentAll(crossword, domains)
      ensures result.Some? ==> Complete(crossword, result.value.entries) && ConsistentFill(crossword, result.value.entries)
      ensures result.Some? ==> forall v :: v in result.value.entries ==> v in crossword.variables && result.value.entries[v] in domains[v]
    {
      ghost var start := domains;
      EnforceNodeConsistency();
      LengthFilteredMeaning(start);
      forall a | Solution(crossword, start, a) ensures Solution(crossword, domains, a) {
        LengthFilteredKeepsSolutions(crossword, start, a);
      }
      var arcConsistent := AC3(None);
      var a := new Assignment();
      result := Backtrack(a);
    }

    /**
     * The grid of letters of an assignment: row by row, None where no word
     * puts a letter. Every word must fit inside the grid.
     */
    method LetterGrid(a: map<Variable, string>) returns (letters: seq<seq<Option<char>>>)
      requires forall v, k :: v in a && 0 <= k < |a[v]| ==> Pos(v, k).0 < crossword.height && Pos(v, k).1 < crossword.width
      ensures Renders(crossword.height, crossword.width, a, letters)
    {
      letters := seq(crossword.height, _ => seq(crossword.width, _ => None));
      ghost var painted: set<(Variable, int)> := {};
      var todo := a.Keys;
      while todo != {}
        invariant todo <= a.Keys
        invariant RendersPainted(crossword.height, crossword.width, a, painted, letters)
        invariant forall u, t :: (u, t) in painted <==> u in a && u !in todo && 0 <= t < |a[u]|
        decreases todo
      {
        var v :| v in todo;
        var word := a[v];
        for k := 0 to |word|
          invariant RendersPainted(crossword.height, crossword.width, a, painted, letters)
          invariant forall u, t :: (u, t) in painted <==> (u in a && u !in todo && 0 <= t < |a[u]|) || (u == v && 0 <= t < k)
        {
          var (r, c) := Pos(v, k);
          PaintStep(crossword.height, crossword.width, a, painted, letters, v, k);
          letters := letters[r := letters[r][c := Some(word[k])]];
          painted := painted + {(v, k)};
        }
        todo := todo - {v};
      }
      PaintedAll(crossword.height, crossword.width, a, painted, letters);
    }
  }
}
