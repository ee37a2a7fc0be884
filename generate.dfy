/**
  The constraint-satisfaction solver of crossword/generate.py: the
  `CrosswordCreator` class with its domain store, node consistency, AC-3,
  the backtracking search and its heuristics and inference.

  The Python code's crashes on the paths its undo logic reaches (reading a word
  out of `None`, `next(iter({}))`) are the `Failed` outcome of `Result`.
*/
module Generate {
  import opened Options
  import opened Crossword

  /** The Python exceptions a call can end in. */
  datatype PyError = TypeError | IndexError | StopIteration

  datatype Result<T> = Ok(value: T) | Failed(error: PyError)

  /** Every arc of the structure is waiting in `queue`, was left out on
      purpose (`bad`), or is arc consistent in `d`. */
  ghost predicate Settled(s: Structure, d: map<Variable, set<string>>, queue: seq<Arc>, bad: set<Arc>) {
    forall arc | arc in s.overlaps :: arc in queue || arc in bad || ArcConsistent(s, d, arc)
  }

  /** A neighbour `z` of `x` gives the crossing arc `(z, x)`. */
  lemma NeighborArc(s: Structure, x: Variable, z: Variable)
    requires ValidStructure(s) && z in Neighbors(s, x)
    ensures (z, x) in s.overlaps && s.overlaps[(z, x)].Some?
  {
    assert s.overlaps[(z, x)] == Swap(s.overlaps[(x, z)]);
  }

  /** An arc of the queue other than its head is in its tail. */
  lemma InTail(queue: seq<Arc>, arc: Arc)
    requires arc in queue && arc != queue[0]
    ensures arc in queue[1..]
  {
    var k :| 0 <= k < |queue| && queue[k] == arc;
    assert queue[1..][k - 1] == arc;
  }

  /** Popping an arc that `revise` left alone keeps the AC-3 invariant; the
      domains `d'` after that `revise` are the ones before it. */
  lemma UnrevisedSettled(s: Structure, d: map<Variable, set<string>>, d': map<Variable, set<string>>,
                         x: Variable, y: Variable, queue: seq<Arc>, bad: set<Arc>)
    requires ValidStructure(s) && d.Keys == s.variables && (x, y) in s.overlaps
    requires |queue| > 0 && queue[0] == (x, y) && Settled(s, d, queue, bad)
    requires s.overlaps[(x, y)].None? ==> d' == d
    requires s.overlaps[(x, y)].Some? ==> d' == d[x := Revised(d[x], d[y], s.overlaps[(x, y)].value)]
    requires !(d'[x] < d[x])
    ensures d' == d
    ensures Settled(s, d', queue[1..], bad)
  {
    if s.overlaps[(x, y)].Some? {
      RevisedFacts(d[x], d[y], s.overlaps[(x, y)].value);
      assert d'[x] == d[x];
      assert d' == d;
    }
    assert ArcConsistent(s, d, (x, y));
    forall arc | arc in s.overlaps ensures arc in queue[1..] || arc in bad || ArcConsistent(s, d, arc) {
      assert arc in queue || arc in bad || ArcConsistent(s, d, arc);
      if arc in queue && arc != (x, y) {
        InTail(queue, arc);
      }
    }
  }

  /** Revising `x` against `y` leaves every other arc consistent, except
      the arcs `(z, x)` from the other neighbours `z` of `x`. */
  lemma RevisedKeeps(s: Structure, d: map<Variable, set<string>>, x: Variable, y: Variable, arc: Arc)
    requires ValidStructure(s) && d.Keys == s.variables && (x, y) in s.overlaps && s.overlaps[(x, y)].Some?
    requires arc in s.overlaps && arc != (x, y) && ArcConsistent(s, d, arc)
    requires !(arc.1 == x && arc.0 != y && s.overlaps[arc].Some?)
    ensures ArcConsistent(s, d[x := Revised(d[x], d[y], s.overlaps[(x, y)].value)], arc)
  {
    var o := s.overlaps[(x, y)].value;
    var d' := d[x := Revised(d[x], d[y], o)];
    RevisedFacts(d[x], d[y], o);
    var (u, v) := arc;
    if v == x && u == y && s.overlaps[arc].Some? {
      assert s.overlaps[arc] == Some((o.1, o.0));
      ReverseArcKept(d[x], d[y], o);
    } else if u == x && s.overlaps[arc].Some? {
      assert v != x;
      forall w | w in d'[x] ensures Supported(w, d'[v], s.overlaps[arc].value) {
        assert w in d[x];
      }
    }
  }

  /** Revising `x` against `y` and queueing every `(z, x)` for the other
      neighbours `z` of `x` keeps the AC-3 invariant. */
  lemma RevisedSettled(s: Structure, d: map<Variable, set<string>>, x: Variable, y: Variable,
                       queue: seq<Arc>, queue': seq<Arc>, bad: set<Arc>)
    requires ValidStructure(s) && d.Keys == s.variables && (x, y) in s.overlaps && s.overlaps[(x, y)].Some?
    requires |queue| > 0 && queue[0] == (x, y) && Settled(s, d, queue, bad)
    requires forall arc | arc in queue[1..] :: arc in queue'
    requires forall z | z in Neighbors(s, x) && z != y :: (z, x) in queue'
    ensures Settled(s, d[x := Revised(d[x], d[y], s.overlaps[(x, y)].value)], queue', bad)
  {
    var o := s.overlaps[(x, y)].value;
    var d' := d[x := Revised(d[x], d[y], o)];
    forall arc | arc in s.overlaps ensures arc in queue' || arc in bad || ArcConsistent(s, d', arc) {
      assert arc in queue || arc in bad || ArcConsistent(s, d, arc);
      if arc == (x, y) {
        RevisedFacts(d[x], d[y], o);
        assert ArcConsistent(s, d', arc);
      } else if arc in queue {
        InTail(queue, arc);
      } else if arc.1 == x && arc.0 != y && s.overlaps[arc].Some? {
        assert s.overlaps[(x, arc.0)] == Swap(s.overlaps[arc]);
        assert arc.0 in Neighbors(s, x);
      } else if arc !in bad {
        RevisedKeeps(s, d, x, y, arc);
      }
    }
  }

  /** The domain store covers the variables, and holds only listed words. */
  ghost predicate StoreValid(s: Structure, d: map<Variable, set<string>>) {
    && ValidStructure(s)
    && d.Keys == s.variables
    && forall v | v in d :: d[v] <= s.words
  }

  /** After node consistency: every word left has its variable's length. */
  ghost predicate StoreReady(s: Structure, d: map<Variable, set<string>>) {
    StoreValid(s, d) && NodeConsistent(d)
  }

  /** The word loop of `enforce_node_consistency`: remove, one by one, the
      words of the wrong length from a variable's domain. */
  method RemoveWrongLength(domain: set<string>, n: nat) returns (kept: set<string>)
    ensures kept == NodeFilter(domain, n)
  {
    kept := domain;
    var copy := domain;
    while copy != {}
      invariant copy <= domain
      invariant kept == set w | w in domain && (w in copy || |w| == n)
      decreases copy
    {
      var word :| word in copy;
      copy := copy - {word};
      if |word| != n {
        kept := kept - {word};
      }
    }
  }

  /** Shrinking one domain keeps the store shrunk with respect to `d0`. */
  lemma ShrunkStep(d: map<Variable, set<string>>, d0: map<Variable, set<string>>, x: Variable, dx: set<string>)
    requires Shrunk(d, d0) && x in d && dx <= d[x]
    ensures Shrunk(d[x := dx], d0)
  {
  }

  lemma ShrunkTrans(d2: map<Variable, set<string>>, d1: map<Variable, set<string>>, d0: map<Variable, set<string>>)
    requires Shrunk(d2, d1) && Shrunk(d1, d0)
    ensures Shrunk(d2, d0)
  {
  }

  /** Removing words keeps the store valid and node consistent. */
  lemma ShrunkReady(s: Structure, d: map<Variable, set<string>>, d0: map<Variable, set<string>>)
    requires StoreReady(s, d0) && Shrunk(d, d0)
    ensures StoreReady(s, d)
  {
  }

  /** The re-queueing step of `ac3` after `x` was revised against `y`: the
      arcs `(z, x)` for every other neighbour `z` of `x`, in the order
      generate.py appends them. */
  method Requeue(s: Structure, x: Variable, y: Variable) returns (added: seq<Arc>)
    ensures forall k | 0 <= k < |added| :: added[k].1 == x && added[k].0 in Neighbors(s, x) && added[k].0 != y
    ensures forall z | z in Neighbors(s, x) && z != y :: (z, x) in added
  {
    added := [];
    var neighbors := Neighbors(s, x);
    var todo := neighbors;
    while todo != {}
      invariant todo <= neighbors
      invariant forall k | 0 <= k < |added| :: added[k].1 == x && added[k].0 in neighbors && added[k].0 != y
      invariant forall z | z in neighbors - todo && z != y :: (z, x) in added
      decreases todo
    {
      var z :| z in todo;
      todo := todo - {z};
      if z != y {
        added := added + [(z, x)];
      }
    }
  }

  /** The arcs `Requeue` appends are overlap keys. */
  lemma RequeuedArcs(s: Structure, x: Variable, added: seq<Arc>)
    requires ValidStructure(s)
    requires forall k | 0 <= k < |added| :: added[k].1 == x && added[k].0 in Neighbors(s, x)
    ensures forall k | 0 <= k < |added| :: added[k] in s.overlaps
  {
    forall k | 0 <= k < |added| ensures added[k] in s.overlaps {
      NeighborArc(s, x, added[k].0);
    }
  }

  /** The queue `ac3` starts from when given no arcs: every overlap key once,
      in the dictionary's order. */
  method AllArcs(s: Structure) returns (queue: seq<Arc>)
    ensures forall arc :: arc in queue <==> arc in s.overlaps
  {
    queue := [];
    var keys := s.overlaps.Keys;
    while keys != {}
      invariant keys <= s.overlaps.Keys
      invariant forall arc :: arc in queue <==> arc in s.overlaps && arc !in keys
      decreases keys
    {
      var arc :| arc in keys;
      queue := queue + [arc];
      keys := keys - {arc};
    }
  }

  lemma SubsetSameSize<T>(A: set<T>, B: set<T>)
    requires A <= B && |A| == |B|
    ensures A == B
  {
    assert |B - A| == |B| - |A|;
  }

  /** `y` passes the checks `consistent` makes of the pair `(x, y)` in its
      inner loop. */
  ghost predicate PairOk(s: Structure, a: Assignment, x: Variable, y: Variable)
    requires x in a && y in a && a[x].Some?
  {
    x == y ||
    (a[x] != a[y] &&
     ((x, y) in s.overlaps && s.overlaps[(x, y)].Some? ==>
        a[y].Some? && Agree(a[x].value, a[y].value, s.overlaps[(x, y)].value)))
  }

  /** `x` passes every check `consistent` makes in its turn of the outer loop. */
  ghost predicate Checked(s: Structure, a: Assignment, x: Variable)
    requires x in a
  {
    a[x].Some? && |a[x].value| == x.length && forall y | y in a :: PairOk(s, a, x, y)
  }

  lemma {:induction false} CheckedConsistent(s: Structure, a: Assignment)
    requires forall x | x in a :: Checked(s, a, x)
    ensures IsConsistent(s, a)
  {
    forall x, y | x in a && y in a && x != y
      ensures a[x] != a[y]
    {
      assert PairOk(s, a, x, y);
    }
    forall x, y | x in a && y in a && x != y && (x, y) in s.overlaps && s.overlaps[(x, y)].Some?
      ensures Agree(a[x].value, a[y].value, s.overlaps[(x, y)].value)
    {
      assert PairOk(s, a, x, y);
    }
  }

  /** The words of `n`'s candidates `ys` that the word `w`, placed in `v`,
      rules out, each tagged with `n`. */
  ghost function ClashesAt(s: Structure, v: Variable, n: Variable, w: string, ys: set<string>): set<(Variable, string)>
    requires (v, n) in s.overlaps
  {
    set y | y in ys && s.overlaps[(v, n)].Some? && !Agree(w, y, s.overlaps[(v, n)].value) :: (n, y)
  }

  /** The words that `w`, placed in `v`, rules out in the domains of the
      variables `ns`, as (variable, word) pairs. */
  ghost function Clashes(s: Structure, d: map<Variable, set<string>>, v: Variable, w: string, ns: set<Variable>): set<(Variable, string)>
  {
    set n, y | n in ns && n in d && y in d[n] && (v, n) in s.overlaps && s.overlaps[(v, n)].Some? &&
               !Agree(w, y, s.overlaps[(v, n)].value) :: (n, y)
  }

  /** How many values `w`, placed in `v`, rules out among the neighbours of
      `v` that the assignment has not reached yet: the key
      `order_domain_values` sorts by. */
  ghost function Conflicts(s: Structure, d: map<Variable, set<string>>, v: Variable, a: Assignment, w: string): nat
  {
    |Clashes(s, d, v, w, Neighbors(s, v) - a.Keys)|
  }

  /** Taking `n` out of the unvisited set `ns` adds it to the visited ones
      outside `K`. */
  lemma Visit<T>(all: set<T>, ns: set<T>, K: set<T>, n: T)
    requires n in ns
    ensures n in K ==> (all - (ns - {n})) - K == (all - ns) - K
    ensures n !in K && n in all ==> (all - (ns - {n})) - K == ((all - ns) - K) + {n}
  {
  }

  lemma ClashesNone(s: Structure, d: map<Variable, set<string>>, v: Variable, counts: map<string, nat>)
    requires v in d && counts == map w | w in d[v] :: 0
    ensures forall w | w in counts :: counts[w] == |Clashes(s, d, v, w, {})|
  {
    forall w | w in counts
      ensures Clashes(s, d, v, w, {}) == {}
    {
    }
  }

  lemma CountsComplete(s: Structure, d: map<Variable, set<string>>, v: Variable, a: Assignment,
                       counts: map<string, nat>, done: set<Variable>)
    requires v in d && counts.Keys == d[v] && done == Neighbors(s, v) - a.Keys
    requires forall w | w in counts :: counts[w] == |Clashes(s, d, v, w, done)|
    ensures counts == ConflictCounts(s, d, v, a)
  {
  }

  lemma ClashesSplit(s: Structure, d: map<Variable, set<string>>, v: Variable, w: string, ns: set<Variable>, n: Variable)
    requires n !in ns && n in d && (v, n) in s.overlaps
    ensures |Clashes(s, d, v, w, ns + {n})| == |Clashes(s, d, v, w, ns)| + |ClashesAt(s, v, n, w, d[n])|
  {
    assert Clashes(s, d, v, w, ns + {n}) == Clashes(s, d, v, w, ns) + ClashesAt(s, v, n, w, d[n]);
    assert Clashes(s, d, v, w, ns) !! ClashesAt(s, v, n, w, d[n]);
  }

  /** The dictionary `words` of `order_domain_values` after its first loop:
      the words in an unspecified insertion order, each with count 0. */
  method ZeroCounts(domain: set<string>) returns (keys: seq<string>, counts: map<string, nat>)
    ensures multiset(keys) == multiset(domain)
    ensures forall w | w in keys :: w in domain
    ensures counts == map w | w in domain :: 0
  {
    keys, counts := [], map[];
    var rest := domain;
    while rest != {}
      invariant rest <= domain
      invariant multiset(keys) + multiset(rest) == multiset(domain)
      invariant counts == map w | w in domain - rest :: 0
      decreases rest
    {
      var w :| w in rest;
      keys := keys + [w];
      counts := counts[w := 0];
      rest := rest - {w};
    }
    assert forall w | w in keys :: w in multiset(keys);
  }

  /** `Conflicts` for every word of `v`'s domain. */
  ghost function ConflictCounts(s: Structure, d: map<Variable, set<string>>, v: Variable, a: Assignment): map<string, nat>
    requires v in d
  {
    map w | w in d[v] :: Conflicts(s, d, v, a, w)
  }

  /** `ws` is in non-decreasing order of `key`. */
  predicate SortedBy(ws: seq<string>, key: string -> nat) {
    forall i, j | 0 <= i < j < |ws| :: key(ws[i]) <= key(ws[j])
  }

  lemma SortedCons(x: string, ws: seq<string>, key: string -> nat)
    requires SortedBy(ws, key) && forall k | 0 <= k < |ws| :: key(x) <= key(ws[k])
    ensures SortedBy([x] + ws, key)
  {
    forall i, j | 0 <= i < j < |[x] + ws|
      ensures key(([x] + ws)[i]) <= key(([x] + ws)[j])
    {
      if i > 0 {
        assert ([x] + ws)[i] == ws[i - 1];
      }
      assert ([x] + ws)[j] == ws[j - 1];
    }
  }

  /** A lower bound on the keys of `ws` and of `w` bounds every key of a
      permutation of `ws` with `w` added. */
  lemma KeyBound(lo: string, ws: seq<string>, w: string, rest: seq<string>, key: string -> nat)
    requires forall k | 0 <= k < |ws| :: key(lo) <= key(ws[k])
    requires key(lo) <= key(w) && multiset(rest) == multiset(ws) + multiset{w}
    ensures forall k | 0 <= k < |rest| :: key(lo) <= key(rest[k])
  {
    forall k | 0 <= k < |rest| ensures key(lo) <= key(rest[k]) {
      assert rest[k] in multiset(rest);
      if rest[k] != w {
        assert rest[k] in multiset(ws);
        var m :| 0 <= m < |ws| && ws[m] == rest[k];
      }
    }
  }

  /** Inserts `w` in front of the first word whose key is not smaller. */
  function InsertByKey(w: string, ws: seq<string>, key: string -> nat): (r: seq<string>)
    requires SortedBy(ws, key)
    ensures multiset(r) == multiset(ws) + multiset{w}
    ensures SortedBy(r, key)
  {
    if ws == [] || key(w) <= key(ws[0]) then
      SortedCons(w, ws, key);
      [w] + ws
    else
      var rest := InsertByKey(w, ws[1..], key);
      KeyBound(ws[0], ws[1..], w, rest, key);
      assert ws == [ws[0]] + ws[1..];
      SortedCons(ws[0], rest, key);
      [ws[0]] + rest
  }

  /** Python's `sorted(ws, key=key)`: the same words, in non-decreasing
      order of their keys. */
  function SortByKey(ws: seq<string>, key: string -> nat): (r: seq<string>)
    ensures multiset(r) == multiset(ws)
    ensures SortedBy(r, key)
  {
    if ws == [] then []
    else
      assert ws == [ws[0]] + ws[1..];
      InsertByKey(ws[0], SortByKey(ws[1..], key), key)
  }

  /** The innermost loop of `order_domain_values`: how many words of
      `n`'s domain disagree with `x`, placed in `v`, at their crossing. */
  method CountRuledOut(s: Structure, d: map<Variable, set<string>>, v: Variable, n: Variable, x: string) returns (count: nat)
    requires StoreReady(s, d) && v in s.variables && n in Neighbors(s, v)
    requires |x| == v.length
    ensures (v, n) in s.overlaps
    ensures count == |ClashesAt(s, v, n, x, d[n])|
  {
    NeighborArc(s, n, v);
    count := 0;
    ghost var clashes: set<(Variable, string)> := {};
    var ys := d[n];
    while ys != {}
      invariant ys <= d[n]
      invariant count == |clashes|
      invariant clashes == ClashesAt(s, v, n, x, d[n] - ys)
      decreases ys
    {
      var y :| y in ys;
      ghost var before := d[n] - ys;
      ys := ys - {y};
      var overlap := s.overlaps[(v, n)];
      if overlap == None {
        continue;
      } else if x[overlap.value.0] != y[overlap.value.1] {
        assert (n, y) !in clashes;
        count := count + 1;
        clashes := clashes + {(n, y)};
      }
      assert d[n] - ys == before + {y};
    }
    assert d[n] - ys == d[n];
  }

  /** The loop of `order_domain_values` over `words` for one unassigned
      neighbour `n`: every count grows by the number of `n`'s words the
      word rules out. */
  method TallyNeighbor(s: Structure, d: map<Variable, set<string>>, v: Variable, n: Variable, counts: map<string, nat>, ghost done: set<Variable>)
    returns (counts': map<string, nat>)
    requires StoreReady(s, d) && v in s.variables && n in Neighbors(s, v) && n !in done
    requires counts.Keys == d[v]
    requires forall w | w in counts :: counts[w] == |Clashes(s, d, v, w, done)|
    ensures counts'.Keys == d[v]
    ensures forall w | w in counts' :: counts'[w] == |Clashes(s, d, v, w, done + {n})|
  {
    counts' := counts;
    NeighborArc(s, n, v);
    assert n in d;
    assert forall w | w in d[v] :: |w| == v.length;
    var pending := counts.Keys;
    while pending != {}
      invariant pending <= counts'.Keys == d[v]
      invariant forall w | w in pending :: counts'[w] == |Clashes(s, d, v, w, done)|
      invariant forall w | w in counts'.Keys - pending ::
                  counts'[w] == |Clashes(s, d, v, w, done + {n})|
      decreases pending
    {
      var x :| x in pending;
      pending := pending - {x};
      var more := CountRuledOut(s, d, v, n, x);
      ClashesSplit(s, d, v, x, done, n);
      counts' := counts'[x := counts'[x] + more];
    }
  }

  /** The loop of `order_domain_values` over `v`'s neighbours: skipping
      the assigned ones, it leaves every word's count at `Conflicts`. */
  method TallyNeighbors(s: Structure, d: map<Variable, set<string>>, v: Variable, a: Assignment, counts: map<string, nat>) returns (counts': map<string, nat>)
    requires StoreReady(s, d) && v in s.variables
    requires counts == map w | w in d[v] :: 0
    ensures counts' == ConflictCounts(s, d, v, a)
  {
    ClashesNone(s, d, v, counts);
    ghost var done;
    counts', done := TallyLoop(s, d, v, a, counts);
    CountsComplete(s, d, v, a, counts', done);
  }

  method TallyLoop(s: Structure, d: map<Variable, set<string>>, v: Variable, a: Assignment, counts: map<string, nat>)
    returns (counts': map<string, nat>, ghost done: set<Variable>)
    requires StoreReady(s, d) && v in s.variables
    requires counts.Keys == d[v] && forall w | w in counts :: counts[w] == |Clashes(s, d, v, w, {})|
    ensures done == Neighbors(s, v) - a.Keys
    ensures counts'.Keys == d[v] && forall w | w in counts' :: counts'[w] == |Clashes(s, d, v, w, done)|
  {
    counts' := counts;
    done := {};
    var neighbors := Neighbors(s, v);
    var ns := neighbors;
    while ns != {}
      invariant ns <= neighbors
      invariant done == (neighbors - ns) - a.Keys
      invariant counts'.Keys == d[v]
      invariant forall w | w in counts' :: counts'[w] == |Clashes(s, d, v, w, done)|
      decreases ns
    {
      var n :| n in ns;
      ghost var ns0 := ns;
      ns := ns - {n};
      Visit(neighbors, ns0, a.Keys, n);
      if n in a {
        continue;
      }
      counts' := TallyNeighbor(s, d, v, n, counts', done);
      done := done + {n};
    }
  }

  /** The queue `maintaining_arc_consistency` builds: every arc into `v`,
      in the dictionary's order. */
  method ArcsInto(s: Structure, v: Variable) returns (queue: seq<Arc>)
    ensures forall arc :: arc in queue <==> arc in s.overlaps && arc.1 == v
  {
    queue := [];
    var keys := s.overlaps.Keys;
    while keys != {}
      invariant keys <= s.overlaps.Keys
      invariant forall arc :: arc in queue <==> arc in s.overlaps && arc !in keys && arc.1 == v
      decreases keys
    {
      var arc :| arc in keys;
      if arc.1 == v {
        queue := queue + [arc];
      }
      keys := keys - {arc};
    }
  }

  /** `backtrack`'s loop writing the inferred words into the assignment. */
  method Merge(a: Assignment, inferences: map<Variable, string>) returns (a': Assignment)
    ensures a'.Keys == a.Keys + inferences.Keys
    ensures forall v | v in a' :: a'[v] == if v in inferences then Some(inferences[v]) else a[v]
  {
    a' := a;
    var keys := inferences.Keys;
    while keys != {}
      invariant keys <= inferences.Keys
      invariant a'.Keys == a.Keys + (inferences.Keys - keys)
      invariant forall v | v in a' :: a'[v] == if v in inferences && v !in keys then Some(inferences[v]) else a[v]
      decreases keys
    {
      var v :| v in keys;
      a' := a'[v := Some(inferences[v])];
      keys := keys - {v};
    }
  }

  /** `backtrack`'s undo of the inferences: their keys stay, with `None`. */
  method Unset(a: Assignment, inferences: map<Variable, string>) returns (a': Assignment)
    ensures a'.Keys == a.Keys + inferences.Keys
    ensures forall v | v in a' :: a'[v] == if v in inferences then None else a[v]
  {
    a' := a;
    var keys := inferences.Keys;
    while keys != {}
      invariant keys <= inferences.Keys
      invariant a'.Keys == a.Keys + (inferences.Keys - keys)
      invariant forall v | v in a' :: a'[v] == if v in inferences && v !in keys then None else a[v]
      decreases keys
    {
      var v :| v in keys;
      a' := a'[v := None];
      keys := keys - {v};
    }
  }

  /** `backtrack`'s undo after a failed recursion: `variable` and every
      inferred variable are set to `None`; with no inferences the undo loop
      iterates `None`, which raises `TypeError`. */
  method Undo(s: Structure, a: Assignment, variable: Variable, inferences: Option<map<Variable, string>>)
    returns (a': Assignment, r: Result<Option<Assignment>>)
    requires variable in a && FromWords(s, a)
    requires inferences.Some? ==> inferences.value.Keys <= a.Keys
    ensures a'.Keys == a.Keys && FromWords(s, a')
    ensures a'[variable] == None
    ensures inferences.None? ==> a' == a[variable := None]
    ensures inferences.Some? ==>
      forall v | v in a' :: a'[v] == if v == variable || v in inferences.value then None else a[v]
    ensures r == if inferences.None? then Failed(TypeError) else Ok(None)
  {
    a' := a[variable := None];
    assert a'.Keys == a.Keys;
    if inferences.None? {
      // `for inference in None`
      return a', Failed(TypeError);
    }
    a' := Unset(a', inferences.value);
    r := Ok(None);
  }

  /** In a valid structure, with every assigned word of its variable's
      length, both offsets of every crossing index the two crossing words,
      so `consistent` cannot raise `IndexError`. */
  lemma NoIndexError(s: Structure, a: Assignment)
    requires ValidStructure(s) && a.Keys <= s.variables && FromWords(s, a)
    ensures forall x, y | x in a && y in a && x != y && a[x].Some? && a[y].Some? && s.overlaps[(x, y)].Some? ::
      s.overlaps[(x, y)].value.0 < |a[x].value| && s.overlaps[(x, y)].value.1 < |a[y].value|
  {
  }

  /** Inferred words are listed words of the right length. */
  lemma InferredFromWords(s: Structure, d0: map<Variable, set<string>>, a: Assignment, inferences: map<Variable, string>)
    requires StoreReady(s, d0) && Inferable(s, d0, a, inferences)
    ensures forall n | n in inferences :: inferences[n] in s.words && |inferences[n]| == n.length
  {
  }

  /** Keying one more variable leaves fewer unassigned ones: `backtrack`
      recurses on a smaller problem. */
  lemma FewerUnassigned(vars: set<Variable>, K: set<Variable>, K': set<Variable>, v: Variable)
    requires K <= K' && v in vars && v !in K && v in K'
    ensures |vars - K'| < |vars - K|
  {
    var smaller := (vars - K) - {v};
    assert vars - K' <= smaller;
    assert smaller == (vars - K') + (smaller - (vars - K'));
    assert |(vars - K) - {v}| == |vars - K| - 1;
  }

  /** The copy of the domain store that `select_unassigned_variable` makes
      and then pops every assigned variable from. */
  method Unassigned(d: map<Variable, set<string>>, a: Assignment) returns (temp: map<Variable, set<string>>)
    ensures temp == map v | v in d && v !in a :: d[v]
  {
    temp := d;
    var copy := temp.Keys;
    while copy != {}
      invariant copy <= d.Keys
      invariant temp == map v | v in d && (v in copy || v !in a) :: d[v]
      decreases copy
    {
      var v :| v in copy;
      copy := copy - {v};
      if v in a {
        temp := temp - {v};
      }
    }
  }

  /** The first entry of `sorted(temp, key=lambda v: len(temp[v]))`: a
      variable with a smallest domain. */
  method SmallestDomain(temp: map<Variable, set<string>>) returns (best: Variable)
    requires temp != map[]
    ensures best in temp && forall u | u in temp :: |temp[best]| <= |temp[u]|
  {
    best :| best in temp;
    var todo := temp.Keys - {best};
    while todo != {}
      invariant todo <= temp.Keys && best in temp
      invariant forall u | u in temp.Keys - todo :: |temp[best]| <= |temp[u]|
      decreases todo
    {
      var u :| u in todo;
      if |temp[u]| < |temp[best]| {
        best := u;
      }
      todo := todo - {u};
    }
  }

  /** The last entry of `sorted(temp, key=lambda v: len(neighbors(v)))`: a
      variable with most neighbours. */
  method MostNeighbors(s: Structure, temp: map<Variable, set<string>>) returns (best: Variable)
    requires temp != map[]
    ensures best in temp && forall u | u in temp :: |Neighbors(s, u)| <= |Neighbors(s, best)|
  {
    best :| best in temp;
    var todo := temp.Keys - {best};
    while todo != {}
      invariant todo <= temp.Keys && best in temp
      invariant forall u | u in temp.Keys - todo :: |Neighbors(s, u)| <= |Neighbors(s, best)|
      decreases todo
    {
      var u :| u in todo;
      if |Neighbors(s, u)| >= |Neighbors(s, best)| {
        best := u;
      }
      todo := todo - {u};
    }
  }

  /** The words of `dn` that agree with `wx` at the crossing `o`. */
  function Fitting(dn: set<string>, wx: string, o: Offsets): set<string> {
    set w | w in dn && Agree(wx, w, o)
  }

  /** `n`'s domain holds only words that fit the word assigned to `x`. */
  ghost predicate FitsAt(s: Structure, d: map<Variable, set<string>>, a: Assignment, x: Variable, n: Variable) {
    x in a && a[x].Some? && (x, n) in s.overlaps && s.overlaps[(x, n)].Some? && n in d ==>
      forall w | w in d[n] :: Agree(a[x].value, w, s.overlaps[(x, n)].value)
  }

  lemma InferableAdd(s: Structure, d0: map<Variable, set<string>>, a: Assignment, inferences: map<Variable, string>,
                     n: Variable, w: string)
    requires Inferable(s, d0, a, inferences)
    requires n in s.variables && n !in a && n in d0 && w in d0[n]
    ensures Inferable(s, d0, a, inferences[n := w])
  {
  }

  /** Removing words keeps every domain fitting. */
  lemma {:induction false} FitsShrunk(s: Structure, d: map<Variable, set<string>>, d': map<Variable, set<string>>,
                                      a: Assignment, x: Variable, ns: set<Variable>)
    requires Shrunk(d', d) && forall n | n in ns :: FitsAt(s, d, a, x, n)
    ensures forall n | n in ns :: FitsAt(s, d', a, x, n)
  {
    forall n | n in ns ensures FitsAt(s, d', a, x, n) {
      assert FitsAt(s, d, a, x, n);
      if n in d' {
        assert d'[n] <= d[n];
      }
    }
  }

  /** Every unassigned neighbour of every variable of `xs` fits that
      variable's word. */
  ghost predicate AllFit(s: Structure, d: map<Variable, set<string>>, a: Assignment, xs: set<Variable>) {
    forall x, n | x in xs && n in Neighbors(s, x) && n !in a :: FitsAt(s, d, a, x, n)
  }

  lemma {:induction false} AllFitShrunk(s: Structure, d: map<Variable, set<string>>, d': map<Variable, set<string>>,
                                        a: Assignment, xs: set<Variable>)
    requires Shrunk(d', d) && AllFit(s, d, a, xs)
    ensures AllFit(s, d', a, xs)
  {
    forall x | x in xs ensures forall n | n in Neighbors(s, x) && n !in a :: FitsAt(s, d', a, x, n) {
      FitsShrunk(s, d, d', a, x, Neighbors(s, x) - a.Keys);
    }
  }

  lemma SingletonIs<T>(A: set<T>, x: T)
    requires |A| == 1 && x in A
    ensures A == {x}
  {
    assert |A - {x}| == 0;
  }

  /** What `inference` may record: a word left in the domain, at its entry,
      of a variable the assignment has no key for. */
  ghost predicate Inferable(s: Structure, d0: map<Variable, set<string>>, a: Assignment, inferences: map<Variable, string>) {
    forall n | n in inferences :: n in s.variables && n !in a && n in d0 && inferences[n] in d0[n]
  }

  /** The grid shows exactly the letters `written`: a cell is `None` when
      nothing was written there and otherwise holds one of its letters. */
  ghost predicate Shows(grid: array2<Option<char>>, written: set<(nat, nat, char)>)
    reads grid
  {
    forall i, j | 0 <= i < grid.Length0 && 0 <= j < grid.Length1 ::
      && (grid[i, j].None? <==> forall c :: (i, j, c) !in written)
      && (grid[i, j].Some? ==> (i, j, grid[i, j].value) in written)
  }

  /** `letters[i][j] = word[k]`. */
  method Paint(grid: array2<Option<char>>, i: nat, j: nat, c: char, ghost written: set<(nat, nat, char)>)
    requires i < grid.Length0 && j < grid.Length1 && Shows(grid, written)
    modifies grid
    ensures Shows(grid, written + {(i, j, c)})
    ensures grid[i, j] == Some(c)
    ensures forall i', j' | 0 <= i' < grid.Length0 && 0 <= j' < grid.Length1 && (i', j') != (i, j) ::
      grid[i', j'] == old(grid[i', j'])
  {
    grid[i, j] := Some(c);
  }

  lemma WordLettersNext(s: Structure, v: Variable, w: string, n: nat)
    requires n < |w|
    requires forall k | 0 <= k <= n :: Indexable(Cell(v, k).0, s.height) && Indexable(Cell(v, k).1, s.width)
    ensures WordLetters(s, v, w, n + 1) ==
      WordLetters(s, v, w, n) + {(Wrap(Cell(v, n).0, s.height), Wrap(Cell(v, n).1, s.width), w[n])}
  {
  }

  /** The cell `(i, j)` is none of the cells the first `n` letters of `w`
      placed as `v` land on. */
  predicate OffWord(s: Structure, v: Variable, w: string, n: nat, i: int, j: int)
  {
    forall k | 0 <= k < n && k < |w| && Indexable(Cell(v, k).0, s.height) && Indexable(Cell(v, k).1, s.width) ::
      (i, j) != (Wrap(Cell(v, k).0, s.height), Wrap(Cell(v, k).1, s.width))
  }

  /** `letter_grid`'s inner loop: write the letters of `word` placed as `v`
      into the grid; `false` is the `IndexError` of a letter past the grid. */
  method PaintWord(s: Structure, grid: array2<Option<char>>, v: Variable, word: string,
                   ghost written: set<(nat, nat, char)>) returns (ok: bool)
    requires grid.Length0 == s.height && grid.Length1 == s.width && Shows(grid, written)
    modifies grid
    ensures ok <==> forall k | 0 <= k < |word| ::
      Indexable(Cell(v, k).0, s.height) && Indexable(Cell(v, k).1, s.width)
    ensures ok ==> Shows(grid, written + WordLetters(s, v, word, |word|))
    ensures forall i', j' | 0 <= i' < grid.Length0 && 0 <= j' < grid.Length1 && OffWord(s, v, word, |word|, i', j') ::
      grid[i', j'] == old(grid[i', j'])
  {
    ghost var painted := written;
    for k := 0 to |word|
      invariant forall k' | 0 <= k' < k :: Indexable(Cell(v, k').0, s.height) && Indexable(Cell(v, k').1, s.width)
      invariant painted == written + WordLetters(s, v, word, k)
      invariant Shows(grid, painted)
      invariant forall i', j' | 0 <= i' < grid.Length0 && 0 <= j' < grid.Length1 && OffWord(s, v, word, k, i', j') ::
        grid[i', j'] == old(grid[i', j'])
    {
      var i := v.i + (if v.direction == Down then k else 0);
      var j := v.j + (if v.direction == Across then k else 0);
      assert Cell(v, k) == (i, j);
      if !Indexable(i, s.height) || !Indexable(j, s.width) {
        return false;
      }
      Paint(grid, Wrap(i, s.height), Wrap(j, s.width), word[k], painted);
      WordLettersNext(s, v, word, k);
      painted := painted + {(Wrap(i, s.height), Wrap(j, s.width), word[k])};
    }
    return true;
  }

  lemma LettersAdd(s: Structure, a: Assignment, done: set<Variable>, v: Variable)
    requires v in a && v !in done && DrawableOn(s, a, done + {v})
    ensures Letters(s, a, done + {v}) == Letters(s, a, done) + WordLetters(s, v, a[v].value, |a[v].value|)
  {
  }

  class CrosswordCreator {
    const crossword: Structure
    var domains: map<Variable, set<string>>

    ghost predicate Valid()
      reads this
    {
      StoreValid(crossword, domains)
    }

    ghost predicate Ready()
      reads this
    {
      StoreReady(crossword, domains)
    }

    /** `__init__`: every variable starts with the whole word list. */
    constructor (crossword: Structure)
      requires ValidStructure(crossword)
      ensures Valid() && this.crossword == crossword
      ensures domains == map v | v in crossword.variables :: crossword.words
    {
      this.crossword := crossword;
      domains := map v | v in crossword.variables :: crossword.words;
    }

    /** `enforce_node_consistency`: drop from every domain the words whose
        length differs from the variable's. */
    method EnforceNodeConsistency()
      requires Valid()
      modifies this
      ensures Ready()
      ensures domains == map v | v in old(domains) :: NodeFilter(old(domains)[v], v.length)
    {
      var todo := domains.Keys;
      while todo != {}
        invariant Valid() && todo <= domains.Keys && domains.Keys == old(domains).Keys
        invariant forall v | v in domains ::
          domains[v] == if v in todo then old(domains)[v] else NodeFilter(old(domains)[v], v.length)
        decreases todo
      {
        var variable :| variable in todo;
        var kept := RemoveWrongLength(domains[variable], variable.length);
        domains := domains[variable := kept];
        todo := todo - {variable};
      }
    }

    /** `revise(x, y)`: remove from `x`'s domain the words with no partner in
        `y`'s domain at the overlap; report whether anything was removed. */
    method Revise(x: Variable, y: Variable) returns (revised: bool)
      requires Ready() && (x, y) in crossword.overlaps
      modifies this
      ensures Ready()
      ensures crossword.overlaps[(x, y)].None? ==> domains == old(domains)
      ensures crossword.overlaps[(x, y)].Some? ==>
        domains == old(domains)[x := Revised(old(domains)[x], old(domains)[y], crossword.overlaps[(x, y)].value)]
      ensures revised <==> domains[x] < old(domains)[x]
    {
      revised := false;
      var overlap := crossword.overlaps[(x, y)];
      if overlap == None {
        return;
      }
      var o := overlap.value;
      assert x != y;
      ghost var dx, dy := domains[x], domains[y];
      var copy := domains[x];
      while copy != {}
        invariant copy <= dx
        invariant domains.Keys == old(domains).Keys && domains[y] == dy
        invariant forall v | v in domains && v != x :: domains[v] == old(domains)[v]
        invariant domains[x] <= dx
        invariant forall w | w in dx :: (w in domains[x] <==> w in copy || Supported(w, dy, o))
        invariant revised <==> domains[x] != dx
        decreases copy
      {
        var xword :| xword in copy;
        copy := copy - {xword};
        assert |xword| == x.length;
        // the inner loop stops at the first partner, as the Python code's `break`
        var consistent := false;
        var ys := domains[y];
        while ys != {} && !consistent
          invariant ys <= dy && domains[y] == dy
          invariant consistent <==> exists w | w in dy - ys :: Agree(xword, w, o)
          decreases ys
        {
          var yword :| yword in ys;
          ys := ys - {yword};
          assert |yword| == y.length && yword in dy - ys;
          if xword[o.0] == yword[o.1] {
            consistent := true;
          }
          assert forall w | w in dy - ys :: w == yword || w in dy - (ys + {yword});
        }
        if !consistent {
          revised := true;
          domains := domains[x := domains[x] - {xword}];
        }
      }
      assert domains[x] == Revised(dx, dy, o);
      assert domains == old(domains)[x := Revised(dx, dy, o)];
      RevisedFacts(dx, dy, o);
      ShrunkReady(crossword, domains, old(domains));
    }

    /** `ac3(arcs)`: FIFO propagation from `arcs`, or from every arc when
        `arcs` is `None`. Domains only shrink; every arc ends arc consistent
        except those that were inconsistent and left out of `arcs`. The Python
        code's empty-domain test compares a set with `None`, never holds,
        and so the result is always true. */
    method AC3(arcs: Option<seq<Arc>>) returns (ok: bool)
      requires Ready()
      requires arcs.Some? ==> forall k | 0 <= k < |arcs.value| :: arcs.value[k] in crossword.overlaps
      modifies this
      ensures Ready() && ok
      ensures Shrunk(domains, old(domains))
      ensures forall arc | arc in crossword.overlaps ::
        || ArcConsistent(crossword, domains, arc)
        || (arcs.Some? && arc !in arcs.value && !ArcConsistent(crossword, old(domains), arc))
    {
      var queue: seq<Arc>;
      if arcs == None {
        queue := AllArcs(crossword);
      } else {
        queue := arcs.value;
      }
      ghost var bad := set arc | arc in crossword.overlaps && arc !in queue && !ArcConsistent(crossword, domains, arc);
      while |queue| != 0
        invariant Ready() && Shrunk(domains, old(domains))
        invariant forall arc | arc in queue :: arc in crossword.overlaps
        invariant Settled(crossword, domains, queue, bad)
        decreases Pairs(domains), |queue|
      {
        queue := ReviseHead(queue, old(domains), bad);
      }
      ok := true;
    }

    /** One turn of the `ac3` loop: pop the head arc `(x, y)`, revise `x`
        against `y` and, when that removed words, queue the arcs `(z, x)`
        from the other neighbours of `x`. Either the domains lose a word or
        the queue gets shorter. */
    method ReviseHead(queue: seq<Arc>, ghost d0: map<Variable, set<string>>, ghost bad: set<Arc>)
      returns (queue': seq<Arc>)
      requires Ready() && Shrunk(domains, d0) && |queue| > 0
      requires forall arc | arc in queue :: arc in crossword.overlaps
      requires Settled(crossword, domains, queue, bad)
      modifies this
      ensures Ready() && Shrunk(domains, d0)
      ensures forall arc | arc in queue' :: arc in crossword.overlaps
      ensures Settled(crossword, domains, queue', bad)
      ensures Pairs(domains) < Pairs(old(domains)) || (domains == old(domains) && |queue'| < |queue|)
    {
      var x, y := queue[0].0, queue[0].1;
      queue' := queue[1..];
      ghost var before := domains;
      var revised := Revise(x, y);
      if revised {
        // the Python code tests `self.domains[x] == None` here, which never holds
        var o := crossword.overlaps[(x, y)].value;
        RevisedFacts(before[x], before[y], o);
        ShrunkStep(before, d0, x, domains[x]);
        PairsShrink(before, x, domains[x]);
        var added := Requeue(crossword, x, y);
        RequeuedArcs(crossword, x, added);
        queue' := queue' + added;
        RevisedSettled(crossword, before, x, y, queue, queue', bad);
      } else {
        UnrevisedSettled(crossword, before, domains, x, y, queue, bad);
      }
    }

    /** `assignment_complete`: as many keys as variables and no `None`
        value. For an assignment over the puzzle's variables that is exactly
        one word for every variable. */
    method AssignmentComplete(a: Assignment) returns (complete: bool)
      requires Valid()
      ensures complete <==> |a| == |crossword.variables| && forall x | x in a :: a[x].Some?
      ensures a.Keys <= crossword.variables ==> (complete <==> IsComplete(crossword, a))
    {
      complete := false;
      if |a| == |domains| {
        var keys := a.Keys;
        while keys != {}
          invariant keys <= a.Keys
          invariant forall x | x in a.Keys - keys :: a[x].Some?
          decreases keys
        {
          var x :| x in keys;
          if a[x] == None {
            return false;
          }
          keys := keys - {x};
        }
        complete := true;
      }
      if a.Keys <= crossword.variables && |a| == |crossword.variables| {
        assert |a.Keys| == |a|;
        SubsetSameSize(a.Keys, crossword.variables);
      }
    }

    /** `consistent`: `Ok(true)` exactly for a consistent assignment. A
        `None` value or a word too short for an offset makes the Python code raise
        when its loops reach it (which one first depends on the dictionary's
        order); with words of the right length everywhere it never raises. */
    method Consistent(a: Assignment) returns (r: Result<bool>)
      requires Valid() && a.Keys <= crossword.variables
      ensures r == Ok(true) <==> IsConsistent(crossword, a)
      ensures r.Failed? ==> r.error == TypeError || r.error == IndexError
      ensures r.Failed? ==> exists x | x in a :: a[x].None? || |a[x].value| != x.length
      ensures r == Failed(IndexError) ==> exists x, y | x in a && y in a && x != y ::
        a[y].Some? && crossword.overlaps[(x, y)].Some? && crossword.overlaps[(x, y)].value.1 >= |a[y].value|
      ensures (forall x | x in a :: a[x].Some? && |a[x].value| == x.length) ==> r.Ok?
    {
      var xs := a.Keys;
      while xs != {}
        invariant xs <= a.Keys
        invariant forall x | x in a.Keys - xs :: Checked(crossword, a, x)
        decreases xs
      {
        var x :| x in xs;
        xs := xs - {x};
        if a[x] == None {
          return Failed(TypeError);          // len(None)
        }
        var wx := a[x].value;
        if |wx| != x.length {
          return Ok(false);
        }
        var ys := a.Keys;
        while ys != {}
          invariant ys <= a.Keys
          invariant forall y | y in a.Keys - ys :: PairOk(crossword, a, x, y)
          decreases ys
        {
          var y :| y in ys;
          ys := ys - {y};
          if x != y {
            if a[x] == a[y] {
              return Ok(false);
            }
            var overlap := crossword.overlaps[(x, y)];
            if overlap != None {
              var o := overlap.value;
              if a[y] == None {
                return Failed(TypeError);    // None[overlap[1]]
              }
              if o.1 >= |a[y].value| {
                return Failed(IndexError);
              }
              if wx[o.0] != a[y].value[o.1] {
                return Ok(false);
              }
            }
          }
        }
      }
      CheckedConsistent(crossword, a);
      return Ok(true);
    }

    /** `order_domain_values`: the words of `v`'s domain, each once, ordered
        so that the ones ruling out fewest values among `v`'s unassigned
        neighbours come first. */
    method OrderDomainValues(v: Variable, a: Assignment) returns (ordered: seq<string>)
      requires Ready() && v in crossword.variables
      ensures multiset(ordered) == multiset(domains[v])
      ensures forall i, j | 0 <= i < j < |ordered| ::
                Conflicts(crossword, domains, v, a, ordered[i]) <= Conflicts(crossword, domains, v, a, ordered[j])
    {
      var keys, counts := ZeroCounts(domains[v]);
      counts := TallyNeighbors(crossword, domains, v, a, counts);
      ordered := SortByKey(keys, w => if w in counts then counts[w] else 0);
      assert forall k | 0 <= k < |ordered| :: ordered[k] in multiset(keys);
    }

    /** `checkMinDomain`: whether two of the dictionary's domains differ in
        size. The Python code reads the first key with `next(iter(...))`, which
        raises on an empty dictionary. */
    method CheckMinDomain(dictionary: map<Variable, set<string>>) returns (r: Result<bool>)
      ensures r.Failed? <==> dictionary == map[]
      ensures r.Failed? ==> r.error == StopIteration
      ensures r.Ok? ==> (r.value <==> exists u, w | u in dictionary && w in dictionary :: |dictionary[u]| != |dictionary[w]|)
    {
      if dictionary == map[] {
        return Failed(StopIteration);
      }
      var first :| first in dictionary;
      var min := |dictionary[first]|;
      var todo := dictionary.Keys;
      while todo != {}
        invariant todo <= dictionary.Keys
        invariant forall v | v in dictionary.Keys - todo :: |dictionary[v]| == min
        decreases todo
      {
        var v :| v in todo;
        if |dictionary[v]| != min {
          return Ok(true);
        }
        todo := todo - {v};
      }
      return Ok(false);
    }

    /** `checkMaxArcs`: whether two of the dictionary's variables differ in
        their number of neighbours; raises like `checkMinDomain` when the
        dictionary is empty. */
    method CheckMaxArcs(dictionary: map<Variable, set<string>>) returns (r: Result<bool>)
      ensures r.Failed? <==> dictionary == map[]
      ensures r.Failed? ==> r.error == StopIteration
      ensures r.Ok? ==> (r.value <==> exists u, w | u in dictionary && w in dictionary ::
                           |Neighbors(crossword, u)| != |Neighbors(crossword, w)|)
    {
      if dictionary == map[] {
        return Failed(StopIteration);
      }
      var first :| first in dictionary;
      var max := |Neighbors(crossword, first)|;
      var todo := dictionary.Keys;
      while todo != {}
        invariant todo <= dictionary.Keys
        invariant forall v | v in dictionary.Keys - todo :: |Neighbors(crossword, v)| == max
        decreases todo
      {
        var v :| v in todo;
        if |Neighbors(crossword, v)| != max {
          return Ok(true);
        }
        todo := todo - {v};
      }
      return Ok(false);
    }

    /** `select_unassigned_variable`: a variable the assignment has no key
        for, with a smallest domain among those. Only when every unassigned
        domain has the same size does it prefer a largest number of
        neighbours; only when those tie as well is the choice free (the Python
        code picks at random). With every variable keyed the Python code raises
        in `checkMinDomain`. */
    method SelectUnassignedVariable(a: Assignment) returns (r: Result<Variable>)
      requires Valid()
      ensures r.Failed? <==> crossword.variables <= a.Keys
      ensures r.Failed? ==> r.error == StopIteration
      ensures r.Ok? ==> r.value in crossword.variables && r.value !in a
      ensures r.Ok? ==> forall u | u in crossword.variables && u !in a :: |domains[r.value]| <= |domains[u]|
      ensures r.Ok? && (forall u, w | u in crossword.variables && u !in a && w in crossword.variables && w !in a ::
                          |domains[u]| == |domains[w]|) ==>
                forall u | u in crossword.variables && u !in a ::
                  |Neighbors(crossword, u)| <= |Neighbors(crossword, r.value)|
    {
      var temp := Unassigned(domains, a);
      assert forall u :: u in temp <==> u in crossword.variables && u !in a;
      assert forall u | u in temp :: temp[u] == domains[u];
      var differ := CheckMinDomain(temp);
      if differ.Failed? {
        assert crossword.variables - a.Keys == {};
        return Failed(differ.error);
      }
      if differ.value {
        // `sorted(temp, key=len)[0]`
        var best := SmallestDomain(temp);
        return Ok(best);
      }
      var spread := CheckMaxArcs(temp);
      if spread.value {
        // `sorted(temp, key=degree)[-1]`
        var best := MostNeighbors(crossword, temp);
        return Ok(best);
      }
      var choice :| choice in temp;
      return Ok(choice);
    }

    /** `maintaining_arc_consistency(variable)`: AC-3 started from the arcs
        into `variable`. Afterwards those arcs are all arc consistent, and
        so is every other arc that was before. */
    method MaintainingArcConsistency(variable: Variable) returns (ok: bool)
      requires Ready()
      modifies this
      ensures Ready() && ok
      ensures Shrunk(domains, old(domains))
      ensures forall arc | arc in crossword.overlaps ::
        ArcConsistent(crossword, domains, arc) || (arc.1 != variable && !ArcConsistent(crossword, old(domains), arc))
    {
      var queue := ArcsInto(crossword, variable);
      assert forall k | 0 <= k < |queue| :: queue[k] in crossword.overlaps;
      ok := AC3(Some(queue));
    }

    /** The word loop of `inference` for the crossing `o` of `x` with `n`:
        drop from `n`'s domain the words that disagree with `x`'s word
        `wx`. Reading a letter of `None` raises on the first word, before
        anything is removed. */
    method Prune(wx: Option<string>, o: Offsets, n: Variable) returns (raised: bool)
      requires Ready() && n in crossword.variables && o.1 < n.length
      requires wx.Some? ==> o.0 < |wx.value|
      modifies this
      ensures Ready() && Shrunk(domains, old(domains))
      ensures raised <==> wx.None? && old(domains)[n] != {}
      ensures wx.None? ==> domains == old(domains)
      ensures wx.Some? ==> domains == old(domains)[n := Fitting(old(domains)[n], wx.value, o)]
    {
      raised := false;
      var copy := domains[n];
      if wx == None {
        if copy != {} {
          raised := true;
        }
        return;
      }
      var word := wx.value;
      ghost var dn := domains[n];
      while copy != {}
        invariant copy <= dn
        invariant domains.Keys == old(domains).Keys
        invariant forall v | v in domains && v != n :: domains[v] == old(domains)[v]
        invariant domains[n] == set w | w in dn && (w in copy || Agree(word, w, o))
        decreases copy
      {
        var w :| w in copy;
        copy := copy - {w};
        assert |w| == n.length;
        if word[o.0] != w[o.1] {
          domains := domains[n := domains[n] - {w}];
        }
      }
      assert domains[n] == Fitting(dn, word, o);
      assert domains == old(domains)[n := Fitting(old(domains)[n], word, o)];
      ShrunkStep(old(domains), old(domains), n, domains[n]);
      ShrunkReady(crossword, domains, old(domains));
    }

    /** One turn of the neighbour loop of `inference`: prune the
        unassigned neighbour `n` against `x`'s word, restore arc consistency
        into `n`, and record `n`'s word when only one is left. */
    method InferAt(a: Assignment, x: Variable, n: Variable, inferences: map<Variable, string>,
                   ghost d0: map<Variable, set<string>>)
      returns (r: Result<map<Variable, string>>)
      requires Ready() && a.Keys <= crossword.variables && x in a && FromWords(crossword, a)
      requires n in Neighbors(crossword, x) && n !in a
      requires Shrunk(domains, d0) && Inferable(crossword, d0, a, inferences)
      modifies this
      ensures Ready() && Shrunk(domains, d0) && Shrunk(domains, old(domains))
      ensures r.Failed? ==> r.error == TypeError && a[x].None?
      ensures r.Ok? ==> Inferable(crossword, d0, a, r.value) && inferences.Keys <= r.value.Keys
      ensures r.Ok? ==> FitsAt(crossword, domains, a, x, n)
      ensures r.Ok? && |domains[n]| == 1 ==> n in r.value && domains[n] == {r.value[n]} && r.value == inferences[n := r.value[n]]
      ensures r.Ok? && |domains[n]| != 1 ==> r.value == inferences
    {
      var overlap := crossword.overlaps[(x, n)];
      if overlap != None {
        var raised := Prune(a[x], overlap.value, n);
        if raised {
          return Failed(TypeError);
        }
        ghost var pruned := domains;
        var _ := MaintainingArcConsistency(n);
        FitsShrunk(crossword, pruned, domains, a, x, {n});
        ShrunkTrans(domains, pruned, old(domains));
      }
      ShrunkTrans(domains, old(domains), d0);
      r := Ok(inferences);
      if |domains[n]| == 1 {
        var w :| w in domains[n];
        SingletonIs(domains[n], w);
        assert n in d0 && domains[n] <= d0[n];
        InferableAdd(crossword, d0, a, inferences, n, w);
        r := Ok(inferences[n := w]);
      }
    }

    /** The neighbour loop of `inference` for one key `x` of the assignment. */
    method InferFrom(a: Assignment, x: Variable, inferences: map<Variable, string>, ghost d0: map<Variable, set<string>>)
      returns (r: Result<map<Variable, string>>)
      requires Ready() && a.Keys <= crossword.variables && x in a && FromWords(crossword, a)
      requires Shrunk(domains, d0) && Inferable(crossword, d0, a, inferences)
      modifies this
      ensures Ready() && Shrunk(domains, d0) && Shrunk(domains, old(domains))
      ensures r.Failed? ==> r.error == TypeError && a[x].None?
      ensures r.Ok? ==> Inferable(crossword, d0, a, r.value) && inferences.Keys <= r.value.Keys
      ensures r.Ok? ==> forall n | n in Neighbors(crossword, x) && n !in a :: FitsAt(crossword, domains, a, x, n)
    {
      var results := inferences;
      var neighbors := Neighbors(crossword, x);
      var ns := neighbors;
      while ns != {}
        invariant ns <= neighbors
        invariant Ready() && Shrunk(domains, d0) && Shrunk(domains, old(domains))
        invariant Inferable(crossword, d0, a, results) && inferences.Keys <= results.Keys
        invariant forall n | n in neighbors - ns && n !in a :: FitsAt(crossword, domains, a, x, n)
        decreases ns
      {
        var n :| n in ns;
        ghost var ns0 := ns;
        ns := ns - {n};
        if n in a {
          continue;
        }
        ghost var before := domains;
        var step := InferAt(a, x, n, results, d0);
        if step.Failed? {
          return step;
        }
        results := step.value;
        FitsShrunk(crossword, before, domains, a, x, (neighbors - ns0) - a.Keys);
        ShrunkTrans(domains, before, old(domains));
      }
      return Ok(results);
    }

    /** `inference`: for every key of the assignment, prune its unassigned
        neighbours' domains to the words that fit, then restore arc
        consistency into them; return the neighbours left with a single
        word, or `None` when there are none. A key whose value is `None`
        raises as soon as an unassigned neighbour still has a word. */
    method Inference(a: Assignment) returns (r: Result<Option<map<Variable, string>>>)
      requires Ready() && a.Keys <= crossword.variables && FromWords(crossword, a)
      modifies this
      ensures Ready() && Shrunk(domains, old(domains))
      ensures r.Failed? ==> r.error == TypeError && exists x | x in a :: a[x].None?
      ensures r.Ok? && r.value.Some? ==> r.value.value != map[] && Inferable(crossword, old(domains), a, r.value.value)
      ensures r.Ok? ==> AllFit(crossword, domains, a, a.Keys)
    {
      var inferences: map<Variable, string> := map[];
      var keys := a.Keys;
      while keys != {}
        invariant keys <= a.Keys
        invariant Ready() && Shrunk(domains, old(domains))
        invariant Inferable(crossword, old(domains), a, inferences)
        invariant AllFit(crossword, domains, a, a.Keys - keys)
        decreases keys
      {
        var x :| x in keys;
        ghost var done := a.Keys - keys;
        keys := keys - {x};
        ghost var before := domains;
        var step := InferFrom(a, x, inferences, old(domains));
        if step.Failed? {
          return Failed(step.error);
        }
        inferences := step.value;
        AllFitShrunk(crossword, before, domains, a, done);
        assert a.Keys - keys == done + {x};
      }
      if |inferences| != 0 {
        return Ok(Some(inferences));
      }
      return Ok(None);
    }

    /** `backtrack(assignment)`: depth-first search over the words of one
        unassigned variable at a time, in `order_domain_values` order, with
        `inference` after every choice. The dictionary the Python code mutates
        in place comes back as `a'`, and a solution is that same dictionary.
        Keys are never removed, only set to `None` on undo; the next
        `consistent` or `inference` that reads such a key raises, and so
        does the undo itself when `inference` returned `None`. */
    method Backtrack(a: Assignment) returns (a': Assignment, r: Result<Option<Assignment>>)
      requires Ready() && a.Keys <= crossword.variables
      requires FromWords(crossword, a) && IsConsistent(crossword, a)
      modifies this
      decreases |crossword.variables - a.Keys|, 2
      ensures Ready() && Shrunk(domains, old(domains))
      ensures a.Keys <= a'.Keys <= crossword.variables && FromWords(crossword, a')
      ensures r.Failed? ==> r.error == TypeError
      ensures r.Ok? && r.value.Some? ==>
        r.value.value == a' && IsComplete(crossword, a') && IsConsistent(crossword, a')
      ensures IsComplete(crossword, a) ==> r == Ok(Some(a))
      ensures (exists v | v in crossword.variables && v !in a :: old(domains)[v] == {}) ==>
        r == Ok(None) && a' == a
    {
      a' := a;
      var complete := AssignmentComplete(a);
      if complete {
        return a', Ok(Some(a));
      }
      var variable, ordered := NextChoices(a);
      for k := 0 to |ordered|
        invariant Ready() && Shrunk(domains, old(domains))
        invariant a.Keys <= a'.Keys <= crossword.variables && FromWords(crossword, a')
        invariant k == 0 ==> a' == a
      {
        var result;
        ghost var before := domains;
        a', result := TryValue(a, a', variable, ordered[k]);
        ShrunkTrans(domains, before, old(domains));
        if result.Failed? || result.value.Some? {
          return a', result;
        }
      }
      r := Ok(None);
    }

    /** `backtrack` on an incomplete consistent assignment: the variable
        `select_unassigned_variable` picks and its values in the order
        `order_domain_values` gives; all of them are listed words that fit. */
    method NextChoices(a: Assignment) returns (variable: Variable, ordered: seq<string>)
      requires Ready() && a.Keys <= crossword.variables
      requires IsConsistent(crossword, a) && !IsComplete(crossword, a)
      ensures variable in crossword.variables && variable !in a
      ensures multiset(ordered) == multiset(domains[variable])
      ensures forall k | 0 <= k < |ordered| :: ordered[k] in crossword.words && |ordered[k]| == variable.length
      ensures (exists v | v in crossword.variables && v !in a :: domains[v] == {}) ==> ordered == []
    {
      var selected := SelectUnassignedVariable(a);
      variable := selected.value;
      ordered := OrderDomainValues(variable, a);
      assert forall k | 0 <= k < |ordered| :: ordered[k] in multiset(domains[variable]);
    }

    /** The first half of a turn of `backtrack`'s loop: assign `value` to
        `variable`, run `inference`, and write the inferred words into the
        assignment. */
    method AssignAndInfer(a: Assignment, variable: Variable, value: string)
      returns (a': Assignment, inferred: Result<Option<map<Variable, string>>>)
      requires Ready() && a.Keys <= crossword.variables && FromWords(crossword, a)
      requires variable in crossword.variables && value in crossword.words && |value| == variable.length
      modifies this
      ensures Ready() && Shrunk(domains, old(domains))
      ensures a.Keys + {variable} <= a'.Keys <= crossword.variables && FromWords(crossword, a')
      ensures inferred.Failed? ==> inferred.error == TypeError
      ensures inferred.Ok? && inferred.value.Some? ==> inferred.value.value.Keys <= a'.Keys
      ensures a'[variable] == Some(value)
      ensures inferred.Ok? && inferred.value.Some? ==>
        forall v | v in inferred.value.value :: a'[v] == Some(inferred.value.value[v])
      ensures !(inferred.Ok? && inferred.value.Some?) ==> a' == a[variable := Some(value)]
      ensures inferred.Ok? && inferred.value.Some? ==>
        a'.Keys == a.Keys + {variable} + inferred.value.value.Keys &&
        forall v | v in a' && v != variable && v !in inferred.value.value :: a'[v] == a[v]
    {
      a' := a[variable := Some(value)];
      ghost var before := domains;
      inferred := Inference(a');
      if inferred.Ok? && inferred.value.Some? {
        var inferences := inferred.value.value;
        InferredFromWords(crossword, before, a', inferences);
        assert variable !in inferences;
        a' := Merge(a', inferences);
        assert FromWords(crossword, a');
      }
    }

    /** One turn of `backtrack`'s loop over the values of `variable`, for
        the call whose assignment was `a0` on entry: assign `value` and
        infer; if the result is consistent, recurse, and when the recursion
        finds nothing, undo. `Ok(None)` lets the loop go on. */
    method TryValue(ghost a0: Assignment, a: Assignment, variable: Variable, value: string)
      returns (a': Assignment, r: Result<Option<Assignment>>)
      requires Ready() && a0.Keys <= a.Keys <= crossword.variables && FromWords(crossword, a)
      requires variable in crossword.variables && variable !in a0
      requires value in crossword.words && |value| == variable.length
      modifies this
      decreases |crossword.variables - a0.Keys|, 1
      ensures Ready() && Shrunk(domains, old(domains))
      ensures a.Keys + {variable} <= a'.Keys <= crossword.variables && FromWords(crossword, a')
      ensures r.Failed? ==> r.error == TypeError
      ensures r.Ok? && r.value.Some? ==>
        r.value.value == a' && IsComplete(crossword, a') && IsConsistent(crossword, a')
      ensures r == Ok(None) ==>
        a'[variable] == None || (a'[variable] == Some(value) && !IsConsistent(crossword, a'))
    {
      var inferences;
      a', inferences := AssignAndInfer(a, variable, value);
      if inferences.Failed? {
        return a', Failed(inferences.error);
      }
      var consistent := Consistent(a');
      if consistent.Failed? {
        NoIndexError(crossword, a');
        return a', Failed(consistent.error);
      }
      if !consistent.value {
        return a', Ok(None);
      }
      a', r := Descend(a0, a', variable, inferences.value);
    }

    /** The second half of a turn of `backtrack`'s loop, once the assignment
        is consistent: recurse, and undo when the recursion finds nothing. */
    method Descend(ghost a0: Assignment, a: Assignment, variable: Variable,
                   inferences: Option<map<Variable, string>>)
      returns (a': Assignment, r: Result<Option<Assignment>>)
      requires Ready() && a0.Keys + {variable} <= a.Keys <= crossword.variables && variable !in a0
      requires FromWords(crossword, a) && IsConsistent(crossword, a)
      requires inferences.Some? ==> inferences.value.Keys <= a.Keys
      modifies this
      decreases |crossword.variables - a0.Keys|, 0
      ensures Ready() && Shrunk(domains, old(domains))
      ensures a.Keys <= a'.Keys <= crossword.variables && FromWords(crossword, a')
      ensures r.Failed? ==> r.error == TypeError
      ensures r.Ok? && r.value.Some? ==>
        r.value.value == a' && IsComplete(crossword, a') && IsConsistent(crossword, a')
      ensures r == Ok(None) ==> a'[variable] == None
      ensures r == Ok(None) ==> inferences.Some? && forall v | v in inferences.value :: a'[v] == None
    {
      FewerUnassigned(crossword.variables, a0.Keys, a.Keys, variable);
      a', r := Backtrack(a);
      if r.Failed? || r.value.Some? {
        return;
      }
      a', r := Undo(crossword, a', variable, inferences);
    }

    /** `solve`: node consistency, arc consistency over every arc, then
        backtracking search from the empty assignment. A solution is a
        complete consistent assignment of listed words; a variable that no
        word fits leaves nothing to find. */
    method Solve() returns (r: Result<Option<Assignment>>)
      requires Valid()
      modifies this
      ensures Ready()
      ensures r.Failed? ==> r.error == TypeError
      ensures r.Ok? && r.value.Some? ==>
        IsComplete(crossword, r.value.value) && IsConsistent(crossword, r.value.value) &&
        FromWords(crossword, r.value.value)
      ensures (exists v | v in crossword.variables :: NodeFilter(crossword.words, v.length) == {}) ==>
        r == Ok(None)
      ensures crossword.variables == {} ==> r == Ok(Some(map[]))
    {
      EnforceNodeConsistency();
      var _ := AC3(None);
      var a;
      a, r := Backtrack(map[]);
    }

    /** `letter_grid`: a fresh `height` by `width` grid holding the letters
        of every assigned word. A `None` value raises `TypeError` (`len`);
        a cell past the grid raises `IndexError`; a negative index counts
        from the end of its row or column. */
    method LetterGrid(a: Assignment) returns (r: Result<array2<Option<char>>>)
      ensures r.Ok? <==> Drawable(crossword, a)
      ensures r.Failed? ==> r.error == TypeError || r.error == IndexError
      ensures r.Ok? ==> fresh(r.value)
      ensures r.Ok? ==> r.value.Length0 == crossword.height && r.value.Length1 == crossword.width
      ensures r.Ok? ==> Drawable(crossword, a) && Shows(r.value, Letters(crossword, a, a.Keys))
    {
      var letters := new Option<char>[crossword.height, crossword.width]((_, _) => None);
      ghost var written: set<(nat, nat, char)> := {};
      var keys := a.Keys;
      while keys != {}
        invariant keys <= a.Keys
        invariant DrawableOn(crossword, a, a.Keys - keys)
        invariant written == Letters(crossword, a, a.Keys - keys)
        invariant Shows(letters, written)
        invariant fresh(letters)
        invariant letters.Length0 == crossword.height && letters.Length1 == crossword.width
        decreases keys
      {
        var v :| v in keys;
        if a[v].None? {
          return Failed(TypeError);   // len(None)
        }
        var word := a[v].value;
        var ok := PaintWord(crossword, letters, v, word, written);
        if !ok {
          return Failed(IndexError);
        }
        written := written + WordLetters(crossword, v, word, |word|);
        LettersAdd(crossword, a, a.Keys - keys, v);
        assert a.Keys - (keys - {v}) == (a.Keys - keys) + {v};
        keys := keys - {v};
      }
      r := Ok(letters);
    }
  }
}
