/**
 * `CrosswordCreator`: fills a crossword by node consistency, arc
 * consistency (AC-3) and backtracking search over word domains.
 */
module Generate {
  import opened Wrappers
  import Sets
  import opened Crossword

  type Assignment = map<Variable, Word>

  /** `enforce_node_consistency`'s filter: each slot keeps the words of its length. */
  function NodeFiltered(d: map<Variable, set<Word>>): (r: map<Variable, set<Word>>)
    ensures r.Keys == d.Keys
    ensures NodeConsistent(r)
    ensures forall v :: v in r ==> r[v] <= d[v]
    ensures forall v, w :: v in d && w in d[v] && |w| == v.length ==> w in r[v]
  {
    map v | v in d :: set w | w in d[v] && |w| == v.length
  }

  /** Node consistency removes no word of a solution, since each has its slot's length. */
  lemma NodeFilteredKeepsSolutions(p: Puzzle, d: map<Variable, set<Word>>)
    ensures forall sol :: Solution(p, sol, d) ==> Solution(p, sol, NodeFiltered(d))
  {
  }

  /**
   * One step of the arc-consistency loop keeps every tracked arc either on
   * the worklist or holding: the popped arc holds after its revision, the
   * others stay queued, and an arc into `x` that revising `x` may break is
   * queued again.
   */
  lemma ArcStaysPending(p: Puzzle, d: map<Variable, set<Word>>, x: Variable, y: Variable,
                        popped: seq<Arc>, q: seq<Arc>, arc: Arc)
    requires WellFormed(p) && x in d && y in d && x != y
    requires |popped| > 0 && popped[|popped| - 1] == (x, y)
    requires arc in Arcs(p) && (arc in popped || ArcHolds(p, d, arc))
    requires forall a :: a in popped[..|popped| - 1] ==> a in q
    requires ReviseDomain(p, d, x, y) != d[x] ==> forall z :: z in Neighbors(p, x) && z != y ==> (z, x) in q
    ensures arc in q || ArcHolds(p, d[x := ReviseDomain(p, d, x, y)], arc)
  {
    ReviseDomainMeaning(p, d, x, y);
    if arc == (x, y) {
    } else if arc in popped {
      var k :| 0 <= k < |popped| && popped[k] == arc;
      assert popped[..|popped| - 1][k] == arc;
    } else if arc.1 != x || arc.0 == y {
      ReviseKeepsArc(p, d, x, y, arc);
    } else if ReviseDomain(p, d, x, y) != d[x] {
      NeighborsSymmetric(p, arc.0, x);
    } else {
      assert d[x := ReviseDomain(p, d, x, y)] == d;
    }
  }

  /**
   * The words of neighbour `n`'s domain that `w`, placed in slot `x`, rules
   * out: those that differ from `w` where the two slots cross, each paired
   * with `n`.
   */
  ghost function Clashes(p: Puzzle, d: map<Variable, set<Word>>, x: Variable, w: Word, n: Variable): set<(Variable, Word)>
    requires n in d
  {
    set nw | nw in d[n] && !CrossingAgrees(p, x, w, n, nw) :: (n, nw)
  }

  /** What `w` in slot `x` rules out among the neighbours in `ns`. */
  ghost function RuleOutsAmong(p: Puzzle, d: map<Variable, set<Word>>, x: Variable, w: Word, ns: set<Variable>): set<(Variable, Word)>
  {
    set n, nw | n in ns && n in d && nw in d[n] && !CrossingAgrees(p, x, w, n, nw) :: (n, nw)
  }

  /** Taking in one more neighbour adds its clashes, which are new. */
  lemma RuleOutsAmongAdd(p: Puzzle, d: map<Variable, set<Word>>, x: Variable, w: Word, ns: set<Variable>, n: Variable)
    requires n in d && n !in ns
    ensures RuleOutsAmong(p, d, x, w, ns + {n}) == RuleOutsAmong(p, d, x, w, ns) + Clashes(p, d, x, w, n)
    ensures RuleOutsAmong(p, d, x, w, ns) !! Clashes(p, d, x, w, n)
  {
  }

  /**
   * The least-constraining-value score of `w` for slot `x`: the words it
   * rules out in the domains of `x`'s neighbours that `assignment` leaves
   * unassigned.
   */
  ghost function RuleOuts(p: Puzzle, d: map<Variable, set<Word>>, x: Variable, assignment: Assignment, w: Word): nat
  {
    |RuleOutsAmong(p, d, x, w, set n | n in Neighbors(p, x) && n !in assignment)|
  }

  /** Every word of `s` has a rating. */
  ghost predicate Rated(s: seq<Word>, rating: map<Word, int>)
  {
    forall k :: 0 <= k < |s| ==> s[k] in rating
  }

  /** `s` is in non-decreasing order of rating. */
  ghost predicate SortedBy(s: seq<Word>, rating: map<Word, int>)
    requires Rated(s, rating)
  {
    forall i, j :: 0 <= i < j < |s| ==> rating[s[i]] <= rating[s[j]]
  }

  /** `w` put before the first word of `s` rated at least as high. */
  function InsertByRating(w: Word, s: seq<Word>, rating: map<Word, int>): (r: seq<Word>)
    requires w in rating && Rated(s, rating)
    ensures multiset(r) == multiset(s) + multiset{w}
    decreases |s|
  {
    if |s| == 0 then [w]
    else if rating[w] <= rating[s[0]] then [w] + s
    else
      assert s == [s[0]] + s[1..];
      [s[0]] + InsertByRating(w, s[1..], rating)
  }

  /** A rearrangement of rated words is rated. */
  lemma RatedPermutation(s: seq<Word>, t: seq<Word>, rating: map<Word, int>)
    requires Rated(s, rating) && multiset(t) == multiset(s)
    ensures Rated(t, rating)
  {
    forall k | 0 <= k < |t|
      ensures t[k] in rating
    {
      assert t[k] in multiset(s);
      var i :| 0 <= i < |s| && s[i] == t[k];
    }
  }

  /** Inserting into a sorted sequence keeps it sorted. */
  lemma {:induction false} InsertByRatingSorted(w: Word, s: seq<Word>, rating: map<Word, int>)
    requires w in rating && Rated(s, rating) && SortedBy(s, rating)
    ensures Rated(InsertByRating(w, s, rating), rating)
    ensures SortedBy(InsertByRating(w, s, rating), rating)
    decreases |s|
  {
    var r := InsertByRating(w, s, rating);
    RatedPermutation(s + [w], r, rating);
    if |s| > 0 && rating[w] > rating[s[0]] {
      var rest := InsertByRating(w, s[1..], rating);
      InsertByRatingSorted(w, s[1..], rating);
      assert r == [s[0]] + rest;
      forall k | 0 <= k < |rest|
        ensures rating[s[0]] <= rating[rest[k]]
      {
        assert rest[k] in multiset(s[1..]) + multiset{w};
        if rest[k] != w {
          var i :| 0 <= i < |s[1..]| && s[1..][i] == rest[k];
          assert s[i + 1] == rest[k];
        }
      }
    }
  }

  /** `sorted(s, key=rating)`: insertion sort, which keeps words of equal rating in their order. */
  function SortByRating(s: seq<Word>, rating: map<Word, int>): (r: seq<Word>)
    requires Rated(s, rating)
    ensures multiset(r) == multiset(s)
    ensures Rated(r, rating) && SortedBy(r, rating)
  {
    if |s| == 0 then []
    else
      assert s == [s[0]] + s[1..];
      var sortedRest := SortByRating(s[1..], rating);
      InsertByRatingSorted(s[0], sortedRest, rating);
      InsertByRating(s[0], sortedRest, rating)
  }

  /** `u` comes before `v` in `select_unassigned_variable`'s order: fewer words left, then more neighbours. */
  predicate Before(p: Puzzle, d: map<Variable, set<Word>>, u: Variable, v: Variable)
    requires u in d && v in d
  {
    |d[u]| < |d[v]| || (|d[u]| == |d[v]| && |Neighbors(p, u)| > |Neighbors(p, v)|)
  }

  /** A non-empty set of slots has one that no other comes before. */
  lemma {:induction false} FirstExists(p: Puzzle, d: map<Variable, set<Word>>, s: set<Variable>)
    requires s != {} && s <= d.Keys
    ensures exists v :: v in s && forall u :: u in s ==> !Before(p, d, u, v)
    decreases s
  {
    var x :| x in s;
    if s == {x} {
      assert forall u :: u in s ==> u == x;
    } else {
      FirstExists(p, d, s - {x});
      var v :| v in s - {x} && forall u :: u in s - {x} ==> !Before(p, d, u, v);
      if Before(p, d, x, v) {
        forall u | u in s
          ensures !Before(p, d, u, x)
        {
          if u != x {
            assert !Before(p, d, u, v);
          }
        }
      } else {
        assert forall u :: u in s ==> !Before(p, d, u, v);
      }
    }
  }

  /** Deleting an entry just added gives back the assignment it was added to. */
  lemma DeleteAdded(a: Assignment, x: Variable, w: Word)
    requires x !in a
    ensures a[x := w] - {x} == a
  {
    assert (a[x := w] - {x}).Keys == a.Keys;
  }

  /** `r` keeps every word `a` gives. */
  ghost predicate Extends(a: Assignment, r: Assignment)
  {
    forall v :: v in a ==> v in r && r[v] == a[v]
  }

  /** Every word `r` adds to `a` comes from its slot's domain in `d`. */
  ghost predicate DrawnFrom(a: Assignment, r: Assignment, d: map<Variable, set<Word>>)
  {
    forall v :: v in r && v !in a ==> v in d && r[v] in d[v]
  }

  /**
   * `sol` solves the puzzle within the domains `d`: every slot gets a word
   * of its domain, of its length, no word twice, agreeing at every crossing.
   */
  ghost predicate Solution(p: Puzzle, sol: Assignment, d: map<Variable, set<Word>>)
  {
    Solves(p, sol, d) && Sets.Injective(sol) && forall v :: v in sol ==> |sol[v]| == v.length
  }

  /** A complete agreeing answer drawn from narrowed domains is a solution within the wider ones. */
  lemma AnswerFromEmpty(p: Puzzle, r: Assignment, narrowed: map<Variable, set<Word>>, initial: map<Variable, set<Word>>)
    requires r.Keys == p.variables && Agreeing(p, r) && Sets.Injective(r)
    requires forall v :: v in r ==> |r[v]| == v.length
    requires DrawnFrom(map[], r, narrowed)
    requires forall v :: v in narrowed ==> v in initial && narrowed[v] <= initial[v]
    ensures Solution(p, r, initial)
  {
    forall v | v in r
      ensures v in initial && r[v] in initial[v]
    {
      var none: Assignment := map[];
      assert v !in none;
    }
  }

  /**
   * The arcs `front` pushed so far for the neighbours `done` of `x`: one arc
   * `(z, x)` for each of them other than `y`, and nothing else.
   */
  ghost predicate FrontArcs(p: Puzzle, front: seq<Arc>, x: Variable, y: Variable, done: set<Variable>)
    requires WellFormed(p)
  {
    && (forall arc :: arc in front ==> arc.1 == x && arc.0 != y && arc in Arcs(p))
    && (forall z :: z in done && z != y ==> (z, x) in front)
    && |front| == |done - {y}|
  }

  /** Visiting `y` itself pushes nothing and keeps `FrontArcs`. */
  lemma FrontSkip(p: Puzzle, front: seq<Arc>, x: Variable, y: Variable, done: set<Variable>)
    requires WellFormed(p) && FrontArcs(p, front, x, y, done)
    ensures FrontArcs(p, front, x, y, done + {y})
  {
    assert done + {y} - {y} == done - {y};
  }

  /** Visiting another neighbour `z` pushes the arc `(z, x)` and keeps `FrontArcs`. */
  lemma FrontPush(p: Puzzle, front: seq<Arc>, x: Variable, y: Variable, done: set<Variable>, z: Variable)
    requires WellFormed(p) && x in p.variables && FrontArcs(p, front, x, y, done)
    requires z in Neighbors(p, x) && z !in done && z != y
    ensures FrontArcs(p, [(z, x)] + front, x, y, done + {z})
  {
    NeighborsSymmetric(p, x, z);
    assert (z, x) in Arcs(p);
    var pushed := [(z, x)] + front;
    forall arc | arc in pushed
      ensures arc.1 == x && arc.0 != y && arc in Arcs(p)
    {
      if arc != (z, x) {
        assert arc in front;
      }
    }
    forall u | u in done + {z} && u != y
      ensures (u, x) in pushed
    {
      if u != z {
        assert (u, x) in front;
      }
    }
    assert done + {z} - {y} == (done - {y}) + {z};
  }

  /** `FrontArcs` for the neighbours of `x` outside `rest`, the ones the loop has still to visit. */
  ghost predicate FrontPending(p: Puzzle, front: seq<Arc>, x: Variable, y: Variable, rest: set<Variable>)
    requires WellFormed(p)
  {
    rest <= Neighbors(p, x) && FrontArcs(p, front, x, y, Neighbors(p, x) - rest)
  }

  /** One turn of the loop over the neighbours still to visit keeps `FrontPending`. */
  lemma FrontPendingStep(p: Puzzle, front: seq<Arc>, x: Variable, y: Variable, rest: set<Variable>, z: Variable)
    requires WellFormed(p) && x in p.variables && FrontPending(p, front, x, y, rest) && z in rest
    ensures FrontPending(p, if z != y then [(z, x)] + front else front, x, y, rest - {z})
  {
    var done := Neighbors(p, x) - rest;
    assert Neighbors(p, x) - (rest - {z}) == done + {z};
    if z != y {
      FrontPush(p, front, x, y, done, z);
    } else {
      FrontSkip(p, front, x, y, done);
    }
  }

  /** Once every neighbour is done, `front + queue` is the worklist with those arcs in front. */
  lemma FrontQueued(p: Puzzle, front: seq<Arc>, queue: seq<Arc>, x: Variable, y: Variable)
    requires WellFormed(p) && FrontArcs(p, front, x, y, Neighbors(p, x))
    ensures var q := front + queue;
            && |q| >= |queue| && q[|q| - |queue|..] == queue
            && (forall arc :: arc in queue ==> arc in q)
            && (forall k :: 0 <= k < |q| - |queue| ==> q[k].1 == x && q[k].0 != y && q[k] in Arcs(p))
            && (forall z :: z in Neighbors(p, x) && z != y ==> (z, x) in q[..|q| - |queue|])
            && |q| - |queue| == |Neighbors(p, x) - {y}|
  {
    var q := front + queue;
    assert q[..|q| - |queue|] == front;
    assert q[|q| - |queue|..] == queue;
    forall k | 0 <= k < |q| - |queue|
      ensures q[k].1 == x && q[k].0 != y && q[k] in Arcs(p)
    {
      assert q[k] == front[k];
    }
  }

  /** What the recursive call draws from the narrowed domains it drew from the wider ones too. */
  lemma DrawnFromNarrower(a: Assignment, x: Variable, w: Word, r: Assignment,
                          narrow: map<Variable, set<Word>>, wide: map<Variable, set<Word>>)
    requires x in wide && w in wide[x] && Extends(a[x := w], r)
    requires DrawnFrom(a[x := w], r, narrow)
    requires forall v :: v in narrow ==> v in wide && narrow[v] <= wide[v]
    ensures DrawnFrom(a, r, wide)
  {
    forall v | v in r && v !in a
      ensures v in wide && r[v] in wide[v]
    {
      if v == x {
        assert r[v] == w;
      }
    }
  }

  /** Assigning one more slot leaves fewer unassigned: the measure of the search. */
  lemma Unassigned(vs: set<Variable>, a: Assignment, x: Variable, w: Word)
    requires x in vs && x !in a
    ensures |vs - a[x := w].Keys| < |vs - a.Keys|
  {
    assert vs - a[x := w].Keys == (vs - a.Keys) - {x};
  }

  /** What extends `a` and gives `x` the word `w` extends `a` with `x` set to `w`. */
  lemma ExtendsWith(a: Assignment, x: Variable, w: Word, r: Assignment)
    requires Extends(a, r) && x in r && r[x] == w
    ensures Extends(a[x := w], r)
  {
  }

  /** What extends `a` with `x` added extends `a`. */
  lemma ExtendsAdded(a: Assignment, x: Variable, w: Word, r: Assignment)
    requires x !in a && Extends(a[x := w], r)
    ensures Extends(a, r)
    ensures x in r && r[x] == w
  {
    assert x in a[x := w];
    forall v | v in a
      ensures v in r && r[v] == a[v]
    {
      assert v in a[x := w];
    }
  }

  /** The letters of a `height` by `width` grid, `None` where no word is written. */
  type Grid = seq<seq<Option<char>>>

  /** `g` has `h` rows of `w` cells. */
  ghost predicate Shaped(g: Grid, h: nat, w: nat)
  {
    |g| == h && forall r :: 0 <= r < h ==> |g[r]| == w
  }

  /** A word of `n` letters in slot `v` stays inside a `h` by `w` grid. */
  predicate Fits(v: Variable, n: nat, h: nat, w: nat)
  {
    n == 0 ||
    match v.direction
    case Down => 0 <= v.i && v.i + n <= h && 0 <= v.j < w
    case Across => 0 <= v.j && v.j + n <= w && 0 <= v.i < h
  }

  /** Some slot of `vs` is assigned a word that covers the cell `(r, c)`. */
  ghost predicate CoveredBy(a: Assignment, vs: set<Variable>, r: int, c: int)
  {
    exists v :: v in vs && v in a && Covers(v, |a[v]|, r, c)
  }

  /** Some slot of `vs` is assigned a word whose letter on the cell `(r, c)` is `ch`. */
  ghost predicate LetterFrom(a: Assignment, vs: set<Variable>, r: int, c: int, ch: char)
  {
    exists v :: v in vs && v in a && Covers(v, |a[v]|, r, c) && 0 <= Offset(v, r, c) < |a[v]| &&
      a[v][Offset(v, r, c)] == ch
  }

  /** Any two assigned words that cover the same cell have the same letter there. */
  ghost predicate CellsAgree(a: Assignment)
  {
    forall u, v, r, c :: u in a && v in a && Covers(u, |a[u]|, r, c) && Covers(v, |a[v]|, r, c) ==>
      a[u][Offset(u, r, c)] == a[v][Offset(v, r, c)]
  }

  /** The loop of `letter_grid` over the letters of one word: write `word` into slot `v` of the grid. */
  method WriteWord(g: Grid, h: nat, w: nat, v: Variable, word: Word) returns (g': Grid)
    requires Shaped(g, h, w) && Fits(v, |word|, h, w)
    ensures Shaped(g', h, w)
    ensures forall r, c :: 0 <= r < h && 0 <= c < w ==>
              g'[r][c] == if Covers(v, |word|, r, c) then Some(word[Offset(v, r, c)]) else g[r][c]
  {
    g' := g;
    for k := 0 to |word|
      invariant Shaped(g', h, w)
      invariant forall r, c :: 0 <= r < h && 0 <= c < w ==>
                  g'[r][c] == if Covers(v, k, r, c) then Some(word[Offset(v, r, c)]) else g[r][c]
    {
      var i := v.i + (if v.direction == Down then k else 0);
      var j := v.j + (if v.direction == Across then k else 0);
      g' := g'[i := g'[i][j := Some(word[k])]];
    }
  }

  /** `CoveredBy` and `LetterFrom` for a set that has gained `v` at a cell `v` does not cover. */
  lemma AddNonCovering(a: Assignment, vs: set<Variable>, v: Variable, r: int, c: int)
    requires v in a && !Covers(v, |a[v]|, r, c)
    ensures CoveredBy(a, vs + {v}, r, c) == CoveredBy(a, vs, r, c)
    ensures forall ch :: LetterFrom(a, vs + {v}, r, c, ch) == LetterFrom(a, vs, r, c, ch)
  {
  }

  class CrosswordCreator {
    const crossword: Puzzle
    var domains: map<Variable, set<Word>>

    /** Every slot starts with the whole word pool. */
    constructor (crossword: Puzzle)
      ensures this.crossword == crossword
      ensures domains.Keys == crossword.variables
      ensures forall v :: v in domains ==> domains[v] == crossword.words
    {
      this.crossword := crossword;
      domains := map v | v in crossword.variables :: crossword.words;
    }

    /**
     * `letter_grid`: a `height` by `width` grid with each assigned word
     * written into its slot. A cell is empty exactly when no assigned word
     * covers it, and otherwise holds the letter of some word that covers it
     * (the one written last); when crossing words agree, that is the letter
     * of every word covering the cell.
     */
    method LetterGrid(assignment: Assignment) returns (letters: Grid)
      requires forall v :: v in assignment ==> Fits(v, |assignment[v]|, crossword.height, crossword.width)
      ensures Shaped(letters, crossword.height, crossword.width)
      ensures forall r, c :: 0 <= r < crossword.height && 0 <= c < crossword.width ==>
                (letters[r][c].None? <==> !CoveredBy(assignment, assignment.Keys, r, c))
      ensures forall r, c :: 0 <= r < crossword.height && 0 <= c < crossword.width && letters[r][c].Some? ==>
                LetterFrom(assignment, assignment.Keys, r, c, letters[r][c].value)
      ensures CellsAgree(assignment) ==>
                forall v, r, c ::
                  v in assignment && Covers(v, |assignment[v]|, r, c) && 0 <= r < crossword.height && 0 <= c < crossword.width
                  ==> letters[r][c] == Some(assignment[v][Offset(v, r, c)])
    {
      var h, w := crossword.height, crossword.width;
      letters := seq(h, _ => seq(w, _ => None));
      var rest := assignment.Keys;
      while rest != {}
        invariant rest <= assignment.Keys
        invariant Shaped(letters, h, w)
        invariant forall r, c :: 0 <= r < h && 0 <= c < w ==>
                    (letters[r][c].None? <==> !CoveredBy(assignment, assignment.Keys - rest, r, c))
        invariant forall r, c :: 0 <= r < h && 0 <= c < w && letters[r][c].Some? ==>
                    LetterFrom(assignment, assignment.Keys - rest, r, c, letters[r][c].value)
        decreases rest
      {
        var variable :| variable in rest;
        ghost var done := assignment.Keys - rest;
        ghost var before := letters;
        letters := WriteWord(letters, h, w, variable, assignment[variable]);
        rest := rest - {variable};
        assert assignment.Keys - rest == done + {variable};
        forall r, c | 0 <= r < h && 0 <= c < w
          ensures letters[r][c].None? <==> !CoveredBy(assignment, done + {variable}, r, c)
          ensures letters[r][c].Some? ==> LetterFrom(assignment, done + {variable}, r, c, letters[r][c].value)
        {
          if !Covers(variable, |assignment[variable]|, r, c) {
            AddNonCovering(assignment, done, variable, r, c);
          }
        }
      }
      assert assignment.Keys - rest == assignment.Keys;
      if CellsAgree(assignment) {
        forall v, r, c | v in assignment && Covers(v, |assignment[v]|, r, c) && 0 <= r < h && 0 <= c < w
          ensures letters[r][c] == Some(assignment[v][Offset(v, r, c)])
        {
          assert CoveredBy(assignment, assignment.Keys, r, c);
          var u :| u in assignment && Covers(u, |assignment[u]|, r, c) && 0 <= Offset(u, r, c) < |assignment[u]| &&
            assignment[u][Offset(u, r, c)] == letters[r][c].value;
        }
      }
    }

    /** The puzzle is well formed and every slot has a domain. */
    ghost predicate Valid()
      reads this
    {
      WellFormed(crossword) && domains.Keys == crossword.variables
    }

    /** `enforce_node_consistency`: drop from each domain the words of the wrong length. */
    method EnforceNodeConsistency()
      modifies this
      ensures domains == NodeFiltered(old(domains))
    {
      domains := NodeFiltered(domains);
    }

    /**
     * `revise(x, y)`: remove from the domain of `x` each word with no
     * partner in the domain of `y` at their crossing; report whether any
     * word went.
     */
    method Revise(x: Variable, y: Variable) returns (revised: bool)
      requires Valid() && NodeConsistent(domains) && (x, y) in crossword.overlaps
      modifies this
      ensures domains == old(domains)[x := ReviseDomain(crossword, old(domains), x, y)]
      ensures revised <==> domains[x] != old(domains)[x]
      ensures domains[x] <= old(domains)[x]
      ensures ArcConsistent(crossword, domains, x, y)
    {
      ReviseDomainMeaning(crossword, domains, x, y);
      assert x != y && x in domains && y in domains;
      revised := false;
      var overlap := crossword.overlaps[(x, y)];
      if overlap.Some? {
        var (a, b) := overlap.value;
        var words := domains[x];
        ghost var partners := domains[y];
        var rest := words;
        assert Revised(words - rest, a, partners, b) == {};
        while rest != {}
          invariant rest <= words
          invariant x in domains && domains == old(domains)[x := domains[x]]
          invariant domains[x] == Revised(words - rest, a, partners, b) + rest
          invariant revised <==> domains[x] != words
          decreases rest
        {
          var wordX :| wordX in rest;
          ghost var done := words - rest;
          if forall wordY :: wordY in domains[y] ==> wordX[a] != wordY[b] {
            assert !Supported(wordX, a, partners, b);
            assert Revised(done + {wordX}, a, partners, b) == Revised(done, a, partners, b);
            domains := domains[x := domains[x] - {wordX}];
            revised := true;
          } else {
            var wordY :| wordY in domains[y] && wordX[a] == wordY[b];
            assert Agree(wordX, a, wordY, b);
            assert Revised(done + {wordX}, a, partners, b) == Revised(done, a, partners, b) + {wordX};
          }
          rest := rest - {wordX};
          assert words - rest == done + {wordX};
        }
        assert words - rest == words;
        assert Overlap(crossword, x, y) == Some((a, b));
        assert domains[x] == Revised(words, a, partners, b);
        assert domains[x] == ReviseDomain(crossword, old(domains), x, y);
      } else {
        assert domains == old(domains)[x := domains[x]];
      }
    }

    /**
     * The loop `for z in neighbors(x): if z != y: queue.insert(0, (z, x))`,
     * over the neighbours in some order.
     */
    method EnqueueNeighbors(queue: seq<Arc>, x: Variable, y: Variable) returns (q: seq<Arc>)
      requires Valid() && x in crossword.variables
      ensures |q| >= |queue| && q[|q| - |queue|..] == queue
      ensures forall arc :: arc in queue ==> arc in q
      ensures forall k :: 0 <= k < |q| - |queue| ==> q[k].1 == x && q[k].0 != y && q[k] in Arcs(crossword)
      ensures forall z :: z in Neighbors(crossword, x) && z != y ==> (z, x) in q[..|q| - |queue|]
      ensures |q| - |queue| == |Neighbors(crossword, x) - {y}|
    {
      q := queue;
      ghost var front: seq<Arc> := [];
      var rest := Neighbors(crossword, x);
      while rest != {}
        invariant q == front + queue
        invariant FrontPending(crossword, front, x, y, rest)
        decreases rest
      {
        var z :| z in rest;
        FrontPendingStep(crossword, front, x, y, rest, z);
        if z != y {
          Sets.PushFront((z, x), front, queue);
          front := [(z, x)] + front;
          q := [(z, x)] + q;
        }
        rest := rest - {z};
      }
      assert Neighbors(crossword, x) - {} == Neighbors(crossword, x);
      FrontQueued(crossword, front, queue, x, y);
    }

    /**
     * One turn of the `ac3` loop after popping `(x, y)`: revise `x`, and if
     * that removed words but left some, put the arcs into `x` back on the
     * worklist.
     */
    method ReviseAndRequeue(x: Variable, y: Variable, queue: seq<Arc>) returns (revised: bool, next: seq<Arc>)
      requires Valid() && NodeConsistent(domains) && (x, y) in Arcs(crossword)
      requires forall k :: 0 <= k < |queue| ==> queue[k] in Arcs(crossword)
      modifies this
      ensures Valid() && NodeConsistent(domains)
      ensures domains == old(domains)[x := ReviseDomain(crossword, old(domains), x, y)]
      ensures revised <==> domains[x] != old(domains)[x]
      ensures forall k :: 0 <= k < |next| ==> next[k] in Arcs(crossword)
      ensures forall arc :: arc in queue ==> arc in next
      ensures revised && domains[x] != {} ==>
                && |next| - |queue| == |Neighbors(crossword, x) - {y}|
                && next[|next| - |queue|..] == queue
                && (forall k :: 0 <= k < |next| - |queue| ==> next[k].1 == x && next[k].0 != y)
                && (forall z :: z in Neighbors(crossword, x) && z != y ==> (z, x) in next[..|next| - |queue|])
      ensures !revised || domains[x] == {} ==> next == queue
    {
      assert (x, y) in crossword.overlaps;
      revised := Revise(x, y);
      next := queue;
      if revised && |domains[x]| != 0 {
        next := EnqueueNeighbors(queue, x, y);
      }
    }

    /**
     * One turn of the `ac3` loop: pop the last arc, revise it, and either
     * fail on an emptied domain or go on with the arcs it requeues.  Every
     * arc tracked since `start` stays queued or holding, and the domains
     * shrink, or stay and leave a shorter worklist.
     */
    method AC3Turn(queue: seq<Arc>, ghost initial: seq<Arc>, ghost start: map<Variable, set<Word>>)
      returns (next: seq<Arc>, failed: bool)
      requires Valid() && NodeConsistent(domains) && |queue| > 0 && start.Keys == domains.Keys
      requires forall v :: v in domains ==> domains[v] <= start[v]
      requires forall k :: 0 <= k < |queue| ==> queue[k] in Arcs(crossword)
      requires forall arc :: arc in Arcs(crossword) && (arc in initial || ArcHolds(crossword, start, arc)) ==>
                 arc in queue || ArcHolds(crossword, domains, arc)
      requires AllArcsConsistent(crossword, start) ==> domains == start
      requires forall a :: Solves(crossword, a, start) ==> Solves(crossword, a, domains)
      modifies this
      ensures Valid() && NodeConsistent(domains)
      ensures forall v :: v in domains ==> domains[v] <= start[v]
      ensures failed ==> exists v :: v in domains && domains[v] == {}
      ensures failed ==> !AllArcsConsistent(crossword, start)
      ensures !failed ==> forall k :: 0 <= k < |next| ==> next[k] in Arcs(crossword)
      ensures !failed ==> forall arc :: arc in Arcs(crossword) && (arc in initial || ArcHolds(crossword, start, arc)) ==>
                            arc in next || ArcHolds(crossword, domains, arc)
      ensures AllArcsConsistent(crossword, start) ==> domains == start
      ensures forall a :: Solves(crossword, a, start) ==> Solves(crossword, a, domains)
      ensures Candidates(domains) < Candidates(old(domains)) || (domains == old(domains) && |next| < |queue|)
    {
      var (x, y) := queue[|queue| - 1];
      assert (x, y) in Arcs(crossword);
      assert (x, y) in crossword.overlaps;
      next := queue[..|queue| - 1];
      var revised;
      revised, next := ReviseAndRequeue(x, y, next);
      ReviseDomainMeaning(crossword, old(domains), x, y);
      if AllArcsConsistent(crossword, start) {
        assert ArcHolds(crossword, old(domains), (x, y));
      }
      CandidatesShrink(old(domains), x, domains[x]);
      forall a | Solves(crossword, a, start)
        ensures Solves(crossword, a, domains)
      {
        ReviseKeepsSolutions(crossword, old(domains), x, y, a);
      }
      if revised && |domains[x]| == 0 {
        return next, true;
      }
      if !revised {
        assert domains == old(domains);
      }
      forall arc | arc in Arcs(crossword) && (arc in initial || ArcHolds(crossword, start, arc))
        ensures arc in next || ArcHolds(crossword, domains, arc)
      {
        ArcStaysPending(crossword, old(domains), x, y, queue, next, arc);
      }
      failed := false;
    }

    /**
     * `ac3(arcs)`: revise arcs from a worklist until none is left, putting
     * back the arcs into a slot whose domain shrank; fail as soon as a
     * domain becomes empty.  Without `arcs` the worklist starts with every
     * arc of the puzzle.
     */
    method AC3(arcs: Option<seq<Arc>>) returns (ok: bool)
      requires Valid() && NodeConsistent(domains)
      requires arcs.Some? ==> forall k :: 0 <= k < |arcs.value| ==> arcs.value[k] in Arcs(crossword)
      modifies this
      ensures Valid() && NodeConsistent(domains)
      ensures forall v :: v in domains ==> domains[v] <= old(domains)[v]
      ensures !ok ==> exists v :: v in domains && domains[v] == {}
      ensures ok && arcs.None? ==> AllArcsConsistent(crossword, domains)
      ensures ok && arcs.Some? ==>
                forall arc :: arc in Arcs(crossword) && (arc in arcs.value || old(ArcHolds(crossword, domains, arc))) ==>
                  ArcHolds(crossword, domains, arc)
      ensures old(AllArcsConsistent(crossword, domains)) ==> ok && domains == old(domains)
      ensures forall a :: Solves(crossword, a, old(domains)) ==> Solves(crossword, a, domains)
      ensures !ok ==> forall a :: !Solves(crossword, a, old(domains))
    {
      var queue: seq<Arc>;
      if arcs.Some? {
        queue := arcs.value;
      } else {
        queue := Sets.SetToSeq(Arcs(crossword));
      }
      ghost var initial, start := queue, domains;
      while |queue| > 0
        invariant Valid() && NodeConsistent(domains)
        invariant forall v :: v in domains ==> domains[v] <= start[v]
        invariant forall k :: 0 <= k < |queue| ==> queue[k] in Arcs(crossword)
        invariant forall arc :: arc in Arcs(crossword) && (arc in initial || ArcHolds(crossword, start, arc)) ==>
                    arc in queue || ArcHolds(crossword, domains, arc)
        invariant AllArcsConsistent(crossword, start) ==> domains == start
        invariant forall a :: Solves(crossword, a, start) ==> Solves(crossword, a, domains)
        decreases Candidates(domains), |queue|
      {
        var failed;
        queue, failed := AC3Turn(queue, initial, start);
        if failed {
          ghost var v :| v in domains && domains[v] == {};
          EmptyDomainUnsolvable(crossword, domains, v);
          return false;
        }
      }
      return true;
    }

    /** `assignment_complete`: every slot has a word. */
    function AssignmentComplete(assignment: Assignment): (complete: bool)
      ensures complete <==> (forall v :: v in crossword.variables ==> v in assignment) &&
                            (forall v :: v in assignment ==> v in crossword.variables)
    {
      crossword.variables == assignment.Keys
    }

    /**
     * `consistent`: the words are distinct, each has its slot's length, and
     * each agrees with the word of every assigned neighbour at their crossing.
     */
    predicate Consistent(assignment: Assignment): (consistent: bool)
      requires WellFormed(crossword)
      ensures consistent ==> Sets.Injective(assignment)
    {
      Sets.ValuesCardinality(assignment);
      |assignment.Values| == |assignment| &&
      (forall v :: v in assignment ==> v.length == |assignment[v]|) &&
      (forall v, u :: v in assignment && u in Neighbors(crossword, v) && u in assignment ==>
         assignment[v][Overlap(crossword, v, u).value.0] == assignment[u][Overlap(crossword, v, u).value.1])
    }

    /**
     * An assignment is consistent exactly when no two slots share a word,
     * every word fits its slot's length, and any two assigned slots agree
     * where they cross.
     */
    lemma ConsistentMeaning(assignment: Assignment)
      requires WellFormed(crossword)
      ensures Consistent(assignment) <==>
                Sets.Injective(assignment) &&
                (forall v :: v in assignment ==> |assignment[v]| == v.length) &&
                Agreeing(crossword, assignment)
    {
      Sets.ValuesCardinality(assignment);
      if (forall v :: v in assignment ==> |assignment[v]| == v.length) {
        forall v, u | v in assignment && u in assignment && Overlap(crossword, v, u).Some?
          ensures u in Neighbors(crossword, v)
        {
          assert (v, u) in crossword.overlaps;
        }
      }
    }

    /** Every part of a solution is consistent. */
    lemma ConsistentPart(assignment: Assignment, sol: Assignment, d: map<Variable, set<Word>>)
      requires WellFormed(crossword) && Extends(assignment, sol)
      ensures Solution(crossword, sol, d) ==> Consistent(assignment)
    {
      ConsistentMeaning(assignment);
      if !Solution(crossword, sol, d) {
        return;
      }
      forall v, u | v in assignment && u in assignment
        ensures CrossingAgrees(crossword, v, assignment[v], u, assignment[u])
      {
        assert CrossingAgrees(crossword, v, sol[v], u, sol[u]);
      }
      forall v, u | v in assignment && u in assignment && v != u
        ensures assignment[v] != assignment[u]
      {
        assert sol[v] != sol[u];
      }
    }

    /** The loop over the words of neighbour `n`: count those `w` in slot `x` rules out. */
    method CountClashes(x: Variable, w: Word, n: Variable) returns (count: nat)
      requires Valid() && NodeConsistent(domains) && x in crossword.variables && n in Neighbors(crossword, x)
      requires |w| == x.length
      ensures count == |Clashes(crossword, domains, x, w, n)|
    {
      assert (x, n) in crossword.overlaps;
      var (i, j) := crossword.overlaps[(x, n)].value;
      count := 0;
      var rest := domains[n];
      while rest != {}
        invariant rest <= domains[n]
        invariant count == |set nw | nw in domains[n] - rest && !CrossingAgrees(crossword, x, w, n, nw) :: (n, nw)|
        decreases rest
      {
        var nw :| nw in rest;
        ghost var seen := set nw' | nw' in domains[n] - rest && !CrossingAgrees(crossword, x, w, n, nw') :: (n, nw');
        if w[i] != nw[j] {
          assert (set nw' | nw' in domains[n] - (rest - {nw}) && !CrossingAgrees(crossword, x, w, n, nw') :: (n, nw'))
              == seen + {(n, nw)};
          count := count + 1;
        } else {
          assert (set nw' | nw' in domains[n] - (rest - {nw}) && !CrossingAgrees(crossword, x, w, n, nw') :: (n, nw'))
              == seen;
        }
        rest := rest - {nw};
      }
      assert domains[n] - rest == domains[n];
    }

    /** The loop over the unassigned neighbours `ns` of `x`: count what `w` rules out among them. */
    method CountRuleOuts(x: Variable, w: Word, ns: set<Variable>) returns (count: nat)
      requires Valid() && NodeConsistent(domains) && x in crossword.variables && ns <= Neighbors(crossword, x)
      requires |w| == x.length
      ensures count == |RuleOutsAmong(crossword, domains, x, w, ns)|
    {
      count := 0;
      var rest := ns;
      while rest != {}
        invariant rest <= ns
        invariant count == |RuleOutsAmong(crossword, domains, x, w, ns - rest)|
        decreases rest
      {
        var n :| n in rest;
        var clashes := CountClashes(x, w, n);
        assert ns - (rest - {n}) == (ns - rest) + {n};
        RuleOutsAmongAdd(crossword, domains, x, w, ns - rest, n);
        count := count + clashes;
        rest := rest - {n};
      }
      assert ns - rest == ns;
    }

    /**
     * The `rating` dictionary of `order_domain_values`: for each word of
     * `values`, what it rules out among the neighbours `ns` of `x`.
     */
    method Ratings(x: Variable, ns: set<Variable>, values: seq<Word>) returns (rating: map<Word, int>)
      requires Valid() && NodeConsistent(domains) && x in crossword.variables && ns <= Neighbors(crossword, x)
      requires forall w :: w in values <==> w in domains[x]
      requires forall i, j :: 0 <= i < j < |values| ==> values[i] != values[j]
      ensures rating.Keys == domains[x]
      ensures forall w :: w in rating ==> rating[w] == |RuleOutsAmong(crossword, domains, x, w, ns)|
    {
      rating := map w | w in domains[x] :: 0;
      for k := 0 to |values|
        invariant rating.Keys == domains[x]
        invariant forall w :: w in rating ==>
                    rating[w] == if w in values[..k] then |RuleOutsAmong(crossword, domains, x, w, ns)| else 0
      {
        var w := values[k];
        var count := CountRuleOuts(x, w, ns);
        Sets.NotInPrefix(values, k);
        Sets.PrefixStep(values, k);
        rating := rating[w := rating[w] + count];
      }
      assert values[..|values|] == values;
    }

    /**
     * `order_domain_values`: the words of the domain of `x`, least
     * constraining first, scored by what they rule out among the
     * unassigned neighbours of `x`.
     */
    method OrderDomainValues(x: Variable, assignment: Assignment) returns (ordered: seq<Word>)
      requires Valid() && NodeConsistent(domains) && x in crossword.variables
      ensures forall w :: w in ordered <==> w in domains[x]
      ensures |ordered| == |domains[x]|
      ensures forall i, j :: 0 <= i < j < |ordered| ==>
                RuleOuts(crossword, domains, x, assignment, ordered[i]) <= RuleOuts(crossword, domains, x, assignment, ordered[j])
    {
      var unassignedNeighbors := set n | n in Neighbors(crossword, x) && n !in assignment;
      var values := Sets.SetToSeq(domains[x]);
      var rating := Ratings(x, unassignedNeighbors, values);
      ordered := SortByRating(values, rating);
      assert forall w :: w in ordered <==> w in multiset(values);
      assert |ordered| == |multiset(ordered)| == |multiset(values)| == |values|;
      forall i, j | 0 <= i < j < |ordered|
        ensures RuleOuts(crossword, domains, x, assignment, ordered[i]) <= RuleOuts(crossword, domains, x, assignment, ordered[j])
      {
        assert rating[ordered[i]] <= rating[ordered[j]];
      }
    }

    /**
     * `select_unassigned_variable`: an unassigned slot with the fewest
     * words left, and among those one with the most neighbours; which of
     * several equal ones is left open.
     */
    method SelectUnassignedVariable(assignment: Assignment) returns (v: Variable)
      requires Valid() && !(crossword.variables <= assignment.Keys)
      ensures v in crossword.variables && v !in assignment
      ensures forall u :: u in crossword.variables && u !in assignment ==> |domains[v]| <= |domains[u]|
      ensures forall u :: u in crossword.variables && u !in assignment && |domains[u]| == |domains[v]| ==>
                |Neighbors(crossword, u)| <= |Neighbors(crossword, v)|
    {
      var unassigned := set u | u in crossword.variables && u !in assignment;
      var some :| some in crossword.variables && some !in assignment.Keys;
      assert some in unassigned;
      FirstExists(crossword, domains, unassigned);
      v :| v in unassigned && forall u :: u in unassigned ==> !Before(crossword, domains, u, v);
      forall u | u in crossword.variables && u !in assignment
        ensures |domains[v]| <= |domains[u]|
        ensures |domains[u]| == |domains[v]| ==> |Neighbors(crossword, u)| <= |Neighbors(crossword, v)|
      {
        assert u in unassigned;
      }
    }

    /** `[(neighbor, x) for neighbor in neighbors(x)]`, in some order. */
    method ArcsInto(x: Variable) returns (arcs: seq<Arc>)
      requires Valid() && x in crossword.variables
      ensures forall k :: 0 <= k < |arcs| ==> arcs[k] in Arcs(crossword) && arcs[k].1 == x
      ensures forall n :: n in Neighbors(crossword, x) ==> (n, x) in arcs
    {
      var ns := Sets.SetToSeq(Neighbors(crossword, x));
      arcs := seq(|ns|, k requires 0 <= k < |ns| => (ns[k], x));
      forall k | 0 <= k < |arcs|
        ensures arcs[k] in Arcs(crossword)
      {
        NeighborsSymmetric(crossword, x, ns[k]);
      }
      forall n | n in Neighbors(crossword, x)
        ensures (n, x) in arcs
      {
        var k :| 0 <= k < |ns| && ns[k] == n;
        assert arcs[k] == (n, x);
      }
    }

    /**
     * `backtrack(assignment)`: if every slot has a word, the assignment is
     * the answer; otherwise pick a slot with `select_unassigned_variable`
     * and try its words in `order_domain_values` order, each that keeps the
     * assignment consistent through `TryValue`. A result extends the
     * assignment, fills every slot, stays consistent, and takes each new
     * word from the slot's domain; on failure the domains are as before.
     */
    method Backtrack(assignment: Assignment) returns (result: Option<Assignment>)
      requires Valid() && NodeConsistent(domains) && assignment.Keys <= crossword.variables
      modifies this
      ensures Valid() && NodeConsistent(domains)
      ensures result.Some? ==> AssignmentComplete(result.value)
      ensures result.Some? && Consistent(assignment) ==> Consistent(result.value)
      ensures result.Some? ==> Extends(assignment, result.value)
      ensures result.Some? ==> DrawnFrom(assignment, result.value, old(domains))
      ensures result.None? ==> domains == old(domains)
      ensures result.None? ==> forall sol :: Extends(assignment, sol) ==> !Solution(crossword, sol, old(domains))
      ensures old(AllArcsConsistent(crossword, domains)) ==> domains == old(domains)
      decreases |crossword.variables - assignment.Keys|, 2
    {
      if AssignmentComplete(assignment) {
        return Some(assignment);
      }
      var x := SelectUnassignedVariable(assignment);
      var values := OrderDomainValues(x, assignment);
      result := TryValues(assignment, x, values);
    }

    /** The loop of `backtrack` over the ordered words `values` of slot `x`: the first that leads to a solution. */
    method TryValues(assignment: Assignment, x: Variable, values: seq<Word>) returns (result: Option<Assignment>)
      requires Valid() && NodeConsistent(domains) && assignment.Keys <= crossword.variables
      requires x in crossword.variables && x !in assignment
      requires forall k :: 0 <= k < |values| ==> values[k] in domains[x]
      requires forall w :: w in domains[x] ==> w in values
      modifies this
      ensures Valid() && NodeConsistent(domains)
      ensures result.Some? ==> AssignmentComplete(result.value) && Consistent(result.value)
      ensures result.Some? ==> Extends(assignment, result.value)
      ensures result.Some? ==> DrawnFrom(assignment, result.value, old(domains))
      ensures result.Some? ==>
                && x in result.value
                && exists k :: 0 <= k < |values| && values[k] == result.value[x] &&
                     forall sol :: Extends(assignment, sol) && x in sol && sol[x] in values[..k] ==>
                       !Solution(crossword, sol, old(domains))
      ensures result.None? ==> domains == old(domains)
      ensures result.None? ==> forall sol :: Extends(assignment, sol) ==> !Solution(crossword, sol, old(domains))
      ensures old(AllArcsConsistent(crossword, domains)) ==> domains == old(domains)
      decreases |crossword.variables - assignment.Keys|, 1
    {
      for k := 0 to |values|
        invariant Valid() && NodeConsistent(domains)
        invariant domains == old(domains)
        invariant forall sol :: Extends(assignment, sol) && x in sol && sol[x] in values[..k] ==>
                    !Solution(crossword, sol, old(domains))
      {
        var value := values[k];
        if Consistent(assignment[x := value]) {
          result := TryValue(assignment, x, value);
          if result.Some? {
            ExtendsAdded(assignment, x, value, result.value);
            assert x in result.value && values[k] == result.value[x];
            return;
          }
        }
        forall sol | Extends(assignment, sol) && x in sol && sol[x] == value
          ensures !Solution(crossword, sol, domains)
        {
          ExtendsWith(assignment, x, value, sol);
          ConsistentPart(assignment[x := value], sol, domains);
        }
        Sets.PrefixStep(values, k);
      }
      forall sol | Extends(assignment, sol)
        ensures !Solution(crossword, sol, domains)
      {
        assert values[..|values|] == values;
      }
      return None;
    }

    /**
     * The inference step of `backtrack`: `ac3` on the arcs into the slot
     * just assigned. It only narrows domains, loses no solution, reports
     * failure only when nothing is left to solve with, and changes nothing
     * when every arc already held.
     */
    method Infer(x: Variable) returns (ok: bool)
      requires Valid() && NodeConsistent(domains) && x in crossword.variables
      modifies this
      ensures Valid() && NodeConsistent(domains)
      ensures forall v :: v in domains ==> domains[v] <= old(domains)[v]
      ensures forall a :: Solves(crossword, a, old(domains)) ==> Solves(crossword, a, domains)
      ensures !ok ==> forall a :: !Solves(crossword, a, old(domains))
      ensures old(AllArcsConsistent(crossword, domains)) ==> ok && domains == old(domains)
    {
      var arcs := ArcsInto(x);
      ok := AC3(Some(arcs));
    }

    /**
     * One turn of the loop in `backtrack`, for a word `value` of slot `x`
     * that keeps the assignment consistent (checked by the caller): add it, snapshot the domains,
     * run `ac3` on the arcs into `x`, and if no domain emptied recurse; when
     * that finds nothing, drop the word and restore the snapshot.
     */
    method TryValue(assignment: Assignment, x: Variable, value: Word) returns (result: Option<Assignment>)
      requires Valid() && NodeConsistent(domains) && assignment.Keys <= crossword.variables
      requires x in crossword.variables && x !in assignment && value in domains[x]
      requires Consistent(assignment[x := value])
      modifies this
      ensures Valid() && NodeConsistent(domains)
      ensures result.Some? ==> AssignmentComplete(result.value) && Consistent(result.value)
      ensures result.Some? ==> Extends(assignment[x := value], result.value)
      ensures result.Some? ==> DrawnFrom(assignment, result.value, old(domains))
      ensures result.None? ==> domains == old(domains)
      ensures result.None? ==>
                forall sol :: Extends(assignment[x := value], sol) ==> !Solution(crossword, sol, old(domains))
      ensures old(AllArcsConsistent(crossword, domains)) ==> domains == old(domains)
      decreases |crossword.variables - assignment.Keys|, 0
    {
      var current := assignment[x := value];
      var backup := domains;
      var inferences := Infer(x);
      if inferences {
        Unassigned(crossword.variables, assignment, x, value);
        ghost var narrowed := domains;
        result := Backtrack(current);
        if result.Some? {
          DrawnFromNarrower(assignment, x, value, result.value, narrowed, backup);
          return;
        }
        assert forall sol :: Solution(crossword, sol, backup) ==> Solution(crossword, sol, narrowed);
      }
      current := current - {x};
      DeleteAdded(assignment, x, value);
      domains := backup;
      result := None;
    }

    /**
     * `solve`: node consistency, then arc consistency (whose answer is not
     * looked at), then search from the empty assignment. An answer fills
     * every slot consistently with words of the slots' domains; no answer
     * means the puzzle has no solution with those words.
     */
    method Solve() returns (result: Option<Assignment>)
      requires Valid()
      modifies this
      ensures Valid() && NodeConsistent(domains)
      ensures result.Some? ==> AssignmentComplete(result.value) && Consistent(result.value)
      ensures result.Some? ==> Solution(crossword, result.value, old(domains))
      ensures result.None? <==> forall sol :: !Solution(crossword, sol, old(domains))
    {
      ghost var initial := domains;
      EnforceNodeConsistency();
      NodeFilteredKeepsSolutions(crossword, initial);
      var _ := AC3(None);
      ghost var narrowed := domains;
      var empty: Assignment := map[];
      assert empty.Values == {};
      assert Consistent(empty);
      result := Backtrack(empty);
      if result.Some? {
        ConsistentMeaning(result.value);
        assert empty == map[];
        AnswerFromEmpty(crossword, result.value, narrowed, initial);
      } else {
        forall sol | Solution(crossword, sol, initial)
          ensures Solution(crossword, sol, narrowed) && Extends(empty, sol)
        {
        }
      }
    }
  }
}
