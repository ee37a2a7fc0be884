/**
  The puzzle structure the crossword solver of crossword/generate.py works on.

  The structure itself (grid, slots, overlaps, word list) is computed by
  crossword.py, which is not part of this model: here it is a given value.
  A variable (slot) is its start cell, direction and length; the overlap
  relation has an entry for every ordered pair of distinct variables, `None`
  when they do not cross and otherwise the pair of letter offsets
  `(k, l)`: letter `k` of the first must equal letter `l` of the second.
*/
module Crossword {
  import opened Options

  datatype Direction = Across | Down

  datatype Variable = Variable(i: int, j: int, direction: Direction, length: nat)

  type Offsets = (nat, nat)

  /** An ordered pair of variables: a key of the overlap relation. */
  type Arc = (Variable, Variable)

  datatype Structure = Structure(
    height: nat,
    width: nat,
    variables: set<Variable>,
    overlaps: map<Arc, Option<Offsets>>,
    words: set<string>)

  function Swap(o: Option<Offsets>): Option<Offsets> {
    match o
    case None => None
    case Some(p) => Some((p.1, p.0))
  }

  /** What the solver relies on: the overlap keys are exactly the ordered pairs
      of distinct variables, offsets index into both words (`revise` reads
      `xword[overlap[0]]`), and crossing is symmetric, as the geometry makes it. */
  predicate ValidStructure(s: Structure) {
    && (forall x, y | x in s.variables && y in s.variables && x != y :: (x, y) in s.overlaps)
    && (forall arc | arc in s.overlaps :: arc.0 in s.variables && arc.1 in s.variables && arc.0 != arc.1)
    && (forall arc | arc in s.overlaps && s.overlaps[arc].Some? ::
          s.overlaps[arc].value.0 < arc.0.length && s.overlaps[arc].value.1 < arc.1.length)
    && (forall x, y | x in s.variables && y in s.variables && x != y ::
          (x, y) in s.overlaps && (y, x) in s.overlaps && s.overlaps[(y, x)] == Swap(s.overlaps[(x, y)]))
  }

  /** `neighbors(x)`: the variables that cross `x`. */
  function Neighbors(s: Structure, x: Variable): set<Variable> {
    set v | v in s.variables && v != x && (x, v) in s.overlaps && s.overlaps[(x, v)].Some?
  }

  /** Letter `o.0` of `wx` equals letter `o.1` of `wy`. */
  predicate Agree(wx: string, wy: string, o: Offsets) {
    o.0 < |wx| && o.1 < |wy| && wx[o.0] == wy[o.1]
  }

  /** `wx` has a partner in `dy` at the overlap `o`. */
  predicate Supported(wx: string, dy: set<string>, o: Offsets) {
    exists wy | wy in dy :: Agree(wx, wy, o)
  }

  /** The unary constraint: the words of `d` that have length `n`. */
  function NodeFilter(d: set<string>, n: nat): set<string> {
    set w | w in d && |w| == n
  }

  /** The domain `revise` leaves for `x`: the words with a partner in `y`'s domain. */
  function Revised(dx: set<string>, dy: set<string>, o: Offsets): set<string> {
    set w | w in dx && Supported(w, dy, o)
  }

  /** `x -> y` is arc consistent in the domains `d`. */
  predicate ArcConsistent(s: Structure, d: map<Variable, set<string>>, arc: Arc) {
    arc in s.overlaps && arc.0 in d && arc.1 in d &&
    (s.overlaps[arc].Some? ==> forall w | w in d[arc.0] :: Supported(w, d[arc.1], s.overlaps[arc].value))
  }

  /** Every domain word has its variable's length. */
  predicate NodeConsistent(d: map<Variable, set<string>>) {
    forall v, w | v in d && w in d[v] :: |w| == v.length
  }

  /** Every domain of `d` is contained in the corresponding one of `d0`. */
  predicate Shrunk(d: map<Variable, set<string>>, d0: map<Variable, set<string>>) {
    d.Keys == d0.Keys && forall v | v in d :: d[v] <= d0[v]
  }

  /** The (variable, word) pairs of a domain store; it shrinks strictly when
      a domain does, which bounds the work of arc consistency. */
  ghost function Pairs(d: map<Variable, set<string>>): set<(Variable, string)> {
    set v, w | v in d && w in d[v] :: (v, w)
  }

  lemma {:induction false} PairsShrink(d: map<Variable, set<string>>, x: Variable, dx: set<string>)
    requires x in d && dx < d[x]
    ensures Pairs(d[x := dx]) < Pairs(d)
  {
    var w :| w in d[x] && w !in dx;
    assert (x, w) in Pairs(d) && (x, w) !in Pairs(d[x := dx]);
    assert Pairs(d[x := dx]) <= Pairs(d);
  }

  // ---------------------------------------------------------------------------
  // Revision facts

  /** `Revised` keeps exactly the supported words, so it is arc consistent and
      a no-op exactly when every word was supported already. */
  lemma RevisedFacts(dx: set<string>, dy: set<string>, o: Offsets)
    ensures Revised(dx, dy, o) <= dx
    ensures forall w | w in Revised(dx, dy, o) :: Supported(w, dy, o)
    ensures Revised(dx, dy, o) == dx <==> forall w | w in dx :: Supported(w, dy, o)
  {
  }

  /** A removed word supports nothing on the other side: if `y -> x` was arc
      consistent before revising `x` against `y`, it still is after. */
  lemma {:induction false} ReverseArcKept(dx: set<string>, dy: set<string>, o: Offsets)
    requires forall w | w in dy :: Supported(w, dx, (o.1, o.0))
    ensures forall w | w in dy :: Supported(w, Revised(dx, dy, o), (o.1, o.0))
  {
    forall w | w in dy ensures Supported(w, Revised(dx, dy, o), (o.1, o.0)) {
      var wx :| wx in dx && Agree(w, wx, (o.1, o.0));
      assert Agree(wx, w, o);
      assert wx in Revised(dx, dy, o);
    }
  }

  // ---------------------------------------------------------------------------
  // Assignments

  /** An assignment maps variables to a word or, after the Python code's undo, to
      `None`. */
  type Assignment = map<Variable, Option<string>>

  /** `consistent` as the Python code's docstring and loops mean it: every value is
      a word of its variable's length, all values are distinct, and crossing
      variables agree at their overlap. */
  predicate IsConsistent(s: Structure, a: Assignment) {
    && (forall x | x in a :: a[x].Some? && |a[x].value| == x.length)
    && (forall x, y | x in a && y in a && x != y :: a[x] != a[y])
    && (forall x, y | x in a && y in a && x != y && (x, y) in s.overlaps && s.overlaps[(x, y)].Some? ::
          Agree(a[x].value, a[y].value, s.overlaps[(x, y)].value))
  }

  /** A complete assignment gives a word to every variable. */
  predicate IsComplete(s: Structure, a: Assignment) {
    a.Keys == s.variables && forall x | x in a :: a[x].Some?
  }

  /** Every assigned word comes from the word list and has the right length. */
  predicate FromWords(s: Structure, a: Assignment) {
    forall x | x in a && a[x].Some? :: a[x].value in s.words && |a[x].value| == x.length
  }

  /** The grid cell of letter `k` of `v`. */
  function Cell(v: Variable, k: int): (int, int) {
    if v.direction == Down then (v.i + k, v.j) else (v.i, v.j + k)
  }

  /** A Python list of length `n` accepts the indices `-n .. n-1`; a
      negative one counts from the end. */
  predicate Indexable(i: int, n: nat) {
    -(n as int) <= i < n
  }

  function Wrap(i: int, n: nat): nat
    requires Indexable(i, n)
  {
    if i < 0 then i + n else i
  }

  /** Every cell of every word that `vs` assign in `a` indexes the
      `height` by `width` grid. */
  predicate DrawableOn(s: Structure, a: Assignment, vs: set<Variable>) {
    forall v | v in vs && v in a :: a[v].Some? &&
      forall k | 0 <= k < |a[v].value| ::
        Indexable(Cell(v, k).0, s.height) && Indexable(Cell(v, k).1, s.width)
  }

  /** `letter_grid` can draw `a`: every value is a word and every cell of
      every word indexes the grid. */
  predicate Drawable(s: Structure, a: Assignment) {
    DrawableOn(s, a, a.Keys)
  }

  /** The first `n` letters of `w` placed as `v`, as (row, column, letter)
      with the indices wrapped. */
  function WordLetters(s: Structure, v: Variable, w: string, n: nat): set<(nat, nat, char)>
    requires n <= |w|
    requires forall k | 0 <= k < n :: Indexable(Cell(v, k).0, s.height) && Indexable(Cell(v, k).1, s.width)
  {
    set k | 0 <= k < n :: (Wrap(Cell(v, k).0, s.height), Wrap(Cell(v, k).1, s.width), w[k])
  }

  /** The letters `letter_grid` writes for the variables `done` of `a`. */
  function Letters(s: Structure, a: Assignment, done: set<Variable>): set<(nat, nat, char)>
    requires DrawableOn(s, a, done)
  {
    set v, k | v in done && v in a && 0 <= k < |a[v].value| ::
      (Wrap(Cell(v, k).0, s.height), Wrap(Cell(v, k).1, s.width), a[v].value[k])
  }
}
