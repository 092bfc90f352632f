/**
 * The crossword puzzle the solver works on: its word slots (variables),
 * the letter positions at which two slots cross (overlaps), and the word
 * pool; and the facts about candidate-word domains the solver keeps.
 */
module Crossword {
  import opened Wrappers

  datatype Direction = Across | Down

  /** A word slot: the cell of its first letter, its direction and its length. */
  datatype Variable = Variable(i: int, j: int, direction: Direction, length: int)

  type Word = string

  /** An arc `(x, y)`: the slot `x` is to be made consistent with the slot `y`. */
  type Arc = (Variable, Variable)

  /**
   * A puzzle: the grid size, the slots, the words, and for every ordered
   * pair of distinct slots either `None` or `Some((a, b))`, meaning that
   * letter `a` of the first slot is letter `b` of the second.
   */
  datatype Puzzle = Puzzle(
    height: nat,
    width: nat,
    variables: set<Variable>,
    words: set<Word>,
    overlaps: map<Arc, Option<(int, int)>>)

  /** The same crossing seen from the other slot. */
  function Swap(o: Option<(int, int)>): Option<(int, int)>
  {
    match o
    case None => None
    case Some((a, b)) => Some((b, a))
  }

  /**
   * What the solver relies on in a puzzle: overlaps are given for exactly
   * the pairs of distinct slots, they are symmetric, and their offsets lie
   * within the slots' lengths.
   */
  ghost predicate WellFormed(p: Puzzle)
  {
    (forall x, y :: (x, y) in p.overlaps <==> x in p.variables && y in p.variables && x != y) &&
    (forall x, y :: (x, y) in p.overlaps ==> (y, x) in p.overlaps && p.overlaps[(y, x)] == Swap(p.overlaps[(x, y)])) &&
    (forall x, y :: (x, y) in p.overlaps && p.overlaps[(x, y)].Some? ==>
       0 <= p.overlaps[(x, y)].value.0 < x.length && 0 <= p.overlaps[(x, y)].value.1 < y.length)
  }

  /** The crossing of `x` and `y`, if any. */
  function Overlap(p: Puzzle, x: Variable, y: Variable): Option<(int, int)>
  {
    if (x, y) in p.overlaps then p.overlaps[(x, y)] else None
  }

  /** `neighbors(x)`: the other slots that cross `x`. */
  function Neighbors(p: Puzzle, x: Variable): set<Variable>
  {
    set y | y in p.variables && y != x && Overlap(p, x, y).Some?
  }

  /** Crossing is symmetric. */
  lemma NeighborsSymmetric(p: Puzzle, x: Variable, y: Variable)
    requires WellFormed(p)
    ensures y in Neighbors(p, x) <==> x in Neighbors(p, y)
    ensures y in Neighbors(p, x) ==> Overlap(p, y, x) == Swap(Overlap(p, x, y))
  {
    if y in Neighbors(p, x) {
      assert (x, y) in p.overlaps;
    }
    if x in Neighbors(p, y) {
      assert (y, x) in p.overlaps;
      assert p.overlaps[(x, y)] == Swap(p.overlaps[(y, x)]);
    }
  }

  /** Every arc of the puzzle: a slot and one of its neighbours. */
  function Arcs(p: Puzzle): set<Arc>
  {
    set x, y | x in p.variables && y in Neighbors(p, x) :: (x, y)
  }

  /** Letter `a` of `wx` and letter `b` of `wy` exist and are equal. */
  predicate Agree(wx: Word, a: int, wy: Word, b: int)
  {
    0 <= a < |wx| && 0 <= b < |wy| && wx[a] == wy[b]
  }

  /** Some word of `dy` agrees with `wx` at the crossing `(a, b)`. */
  ghost predicate Supported(wx: Word, a: int, dy: set<Word>, b: int)
  {
    exists wy :: wy in dy && Agree(wx, a, wy, b)
  }

  /** Every candidate word has its slot's length. */
  ghost predicate NodeConsistent(d: map<Variable, set<Word>>)
  {
    forall v, w :: v in d && w in d[v] ==> |w| == v.length
  }

  /** Every word left for `x` has a partner for `y` at their crossing. */
  ghost predicate ArcConsistent(p: Puzzle, d: map<Variable, set<Word>>, x: Variable, y: Variable)
    requires x in d && y in d
  {
    match Overlap(p, x, y)
    case None => true
    case Some((a, b)) => forall wx :: wx in d[x] ==> Supported(wx, a, d[y], b)
  }

  /** `ArcConsistent` for an arc, false when a slot has no domain. */
  ghost predicate ArcHolds(p: Puzzle, d: map<Variable, set<Word>>, arc: Arc)
  {
    arc.0 in d && arc.1 in d && ArcConsistent(p, d, arc.0, arc.1)
  }

  /** Every arc of the puzzle holds. */
  ghost predicate AllArcsConsistent(p: Puzzle, d: map<Variable, set<Word>>)
  {
    forall arc :: arc in Arcs(p) ==> ArcHolds(p, d, arc)
  }

  /** The words of `dx` with a partner in `dy` at the crossing `(a, b)`. */
  ghost function Revised(dx: set<Word>, a: int, dy: set<Word>, b: int): set<Word>
  {
    set wx | wx in dx && Supported(wx, a, dy, b)
  }

  /** The domain `revise(x, y)` leaves for `x`. */
  ghost function ReviseDomain(p: Puzzle, d: map<Variable, set<Word>>, x: Variable, y: Variable): set<Word>
    requires x in d && y in d
  {
    match Overlap(p, x, y)
    case None => d[x]
    case Some((a, b)) => Revised(d[x], a, d[y], b)
  }

  /**
   * Revising keeps exactly the words of `x` with a partner for `y`: it
   * removes only words, it is a no-op without a crossing, the arc holds
   * afterwards, and it changes nothing when the arc already held.
   */
  lemma ReviseDomainMeaning(p: Puzzle, d: map<Variable, set<Word>>, x: Variable, y: Variable)
    requires x in d && y in d && x != y
    ensures ReviseDomain(p, d, x, y) <= d[x]
    ensures Overlap(p, x, y).None? ==> ReviseDomain(p, d, x, y) == d[x]
    ensures ArcConsistent(p, d[x := ReviseDomain(p, d, x, y)], x, y)
    ensures ArcConsistent(p, d, x, y) <==> ReviseDomain(p, d, x, y) == d[x]
  {
    var d' := d[x := ReviseDomain(p, d, x, y)];
    match Overlap(p, x, y)
    case None =>
    case Some((a, b)) =>
      assert d'[y] == d[y];
      if ReviseDomain(p, d, x, y) == d[x] {
        forall wx | wx in d[x]
          ensures Supported(wx, a, d[y], b)
        {
          assert wx in Revised(d[x], a, d[y], b);
        }
      }
  }

  /**
   * After `revise(x, y)`, an arc that held still holds unless it points at
   * `x` from a slot other than `y`; `(y, x)` keeps holding because every
   * word removed from `x` agreed with no word of `y`.
   */
  lemma ReviseKeepsArc(p: Puzzle, d: map<Variable, set<Word>>, x: Variable, y: Variable, arc: Arc)
    requires WellFormed(p) && x in d && y in d && x != y
    requires ArcHolds(p, d, arc)
    requires arc.1 != x || arc.0 == y
    ensures ArcHolds(p, d[x := ReviseDomain(p, d, x, y)], arc)
  {
    var d' := d[x := ReviseDomain(p, d, x, y)];
    ReviseDomainMeaning(p, d, x, y);
    var (u, v) := arc;
    if v != x {
      if u == x {
        match Overlap(p, u, v)
        case None =>
        case Some((a, b)) =>
          forall wx | wx in d'[u]
            ensures Supported(wx, a, d'[v], b)
          {
            assert wx in d[u];
          }
      }
    } else {
      assert u == y;
      match Overlap(p, y, x)
      case None =>
      case Some((b, a)) =>
        assert (y, x) in p.overlaps;
        assert Overlap(p, x, y) == Some((a, b));
        forall wy | wy in d'[y]
          ensures Supported(wy, b, d'[x], a)
        {
          assert wy in d[y];
          var wx :| wx in d[x] && Agree(wy, b, wx, a);
          assert Agree(wx, a, wy, b);
          assert wx in Revised(d[x], a, d[y], b);
        }
    }
  }

  /** The two words agree where their slots cross, if they do. */
  predicate CrossingAgrees(p: Puzzle, v: Variable, wv: Word, u: Variable, wu: Word)
  {
    match Overlap(p, v, u)
    case None => true
    case Some((a, b)) => Agree(wv, a, wu, b)
  }

  /** Any two slots of `a` agree where they cross. */
  ghost predicate Agreeing(p: Puzzle, a: map<Variable, Word>)
  {
    forall v, u :: v in a && u in a ==> CrossingAgrees(p, v, a[v], u, a[u])
  }

  /** Every word of `a` is still a candidate of its slot in `d`. */
  ghost predicate Within(a: map<Variable, Word>, d: map<Variable, set<Word>>)
  {
    forall v :: v in a ==> v in d && a[v] in d[v]
  }

  /** `a` gives every slot a word from its domain in `d`, and the words agree at every crossing. */
  ghost predicate Solves(p: Puzzle, a: map<Variable, Word>, d: map<Variable, set<Word>>)
  {
    a.Keys == p.variables && Agreeing(p, a) && Within(a, d)
  }

  /**
   * Revising removes no word that is part of a solution: the word `a` gives
   * `x` agrees with the word it gives `y`, which supports it.
   */
  lemma ReviseKeepsSolutions(p: Puzzle, d: map<Variable, set<Word>>, x: Variable, y: Variable, a: map<Variable, Word>)
    requires x in p.variables && y in p.variables && x in d && y in d
    requires Solves(p, a, d)
    ensures Solves(p, a, d[x := ReviseDomain(p, d, x, y)])
  {
    assert CrossingAgrees(p, x, a[x], y, a[y]);
    match Overlap(p, x, y)
    case None =>
    case Some((i, j)) =>
      assert Supported(a[x], i, d[y], j) by {
        assert Agree(a[x], i, a[y], j);
      }
  }

  /** A slot with no word left leaves nothing to solve with. */
  lemma EmptyDomainUnsolvable(p: Puzzle, d: map<Variable, set<Word>>, v: Variable)
    requires v in p.variables && v in d && d[v] == {}
    ensures forall a :: !Solves(p, a, d)
  {
    forall a: map<Variable, Word> | a.Keys == p.variables
      ensures !Within(a, d)
    {
      assert v in a;
    }
  }

  /**
   * A slot that crosses no other is in no arc, so emptying its domain
   * leaves every arc as it was: arc consistency does not see it.
   */
  lemma UncrossedSlotUnseen(p: Puzzle, d: map<Variable, set<Word>>, v: Variable)
    requires WellFormed(p) && v in p.variables && v in d && Neighbors(p, v) == {}
    ensures AllArcsConsistent(p, d[v := {}]) <==> AllArcsConsistent(p, d)
  {
    var e := d[v := {}];
    forall arc | arc in Arcs(p)
      ensures arc.0 != v && arc.1 != v
      ensures ArcHolds(p, e, arc) <==> ArcHolds(p, d, arc)
    {
      NeighborsSymmetric(p, arc.0, arc.1);
    }
  }

  /** The first `n` letters of slot `v` include the grid cell `(r, c)`. */
  predicate Covers(v: Variable, n: int, r: int, c: int)
  {
    match v.direction
    case Down => c == v.j && v.i <= r < v.i + n
    case Across => r == v.i && v.j <= c < v.j + n
  }

  /** Which letter of slot `v` lies on the grid cell `(r, c)`. */
  function Offset(v: Variable, r: int, c: int): int
  {
    match v.direction
    case Down => r - v.i
    case Across => c - v.j
  }

  /** Every (slot, word) candidate pair: the measure the arc-consistency loop shrinks. */
  ghost function Candidates(d: map<Variable, set<Word>>): set<(Variable, Word)>
  {
    set v, w | v in d && w in d[v] :: (v, w)
  }

  /** Narrowing one domain narrows the candidate pairs, strictly when a word goes. */
  lemma CandidatesShrink(d: map<Variable, set<Word>>, x: Variable, s: set<Word>)
    requires x in d && s <= d[x]
    ensures Candidates(d[x := s]) <= Candidates(d)
    ensures s != d[x] ==> Candidates(d[x := s]) != Candidates(d)
  {
    if s != d[x] {
      var w :| w in d[x] && w !in s;
      assert (x, w) in Candidates(d);
      assert (x, w) !in Candidates(d[x := s]);
    }
  }
}
