/** Round-robin scheduling of the matches played between experiment agents.
    A match is an ordered pair (white, black); the schedule is computed over
    agent indices, so agents with equal names at different indices are still
    paired with each other. */
module MatchSchedule {

  /** A pairing of two agent indices: the index playing white and the index
      playing black. */
  datatype Pairing = Pairing(white: nat, black: nat)

  /** The two sides of a match. */
  datatype Side = White | Black

  /** The agent index that plays `side` in pairing `p`. */
  function Player(p: Pairing, side: Side): nat
  {
    match side
    case White => p.white
    case Black => p.black
  }

  /** Lexicographic order on pairings: first by white index, then by black index. */
  predicate LexLess(p: Pairing, q: Pairing)
  {
    p.white < q.white || (p.white == q.white && p.black < q.black)
  }

  /** The pairings the inner loop has appended for outer index `i` after it has
      run over the inner indices i+1 .. j-1: for each such j', first (i, j')
      and then (j', i). */
  function RowPrefix(i: nat, j: nat): (r: seq<Pairing>)
    ensures |r| == if j <= i + 1 then 0 else 2 * (j - i - 1)
    decreases j
  {
    if j <= i + 1 then [] else RowPrefix(i, j - 1) + [Pairing(i, j - 1), Pairing(j - 1, i)]
  }

  /** The number of index pairs i' < j the rows of the outer indices
      0 .. i-1 cover: row i' covers n - 1 - i' of them, each played twice. */
  function PairsBefore(i: nat, n: nat): nat
    requires i <= n
    decreases i
  {
    if i == 0 then 0 else PairsBefore(i - 1, n) + (n - i)
  }

  /** The pairings scheduled for n agents once the outer loop has run over the
      indices 0 .. i-1. */
  function SchedulePrefix(i: nat, n: nat): (r: seq<Pairing>)
    requires i <= n
    ensures |r| == 2 * PairsBefore(i, n)
    decreases i
  {
    if i == 0 then [] else SchedulePrefix(i - 1, n) + RowPrefix(i - 1, n)
  }

  /** The complete schedule of pairings for n agents. */
  function Schedule(n: nat): seq<Pairing>
  {
    SchedulePrefix(n, n)
  }

  /** The position in Schedule(n) at which pairing (i, j), i < j, is played:
      after the rows of the indices before i, and after the j - i - 1 earlier
      pairs of its own row. */
  function Position(n: nat, i: nat, j: nat): nat
    requires i < j < n
  {
    2 * (PairsBefore(i, n) + (j - i - 1))
  }

  /** `matches` is what playing the pairings `s` between `agents` gives. */
  ghost predicate Realizes<A>(agents: seq<A>, matches: seq<(A, A)>, s: seq<Pairing>)
  {
    |matches| == |s| &&
    forall k :: 0 <= k < |s| ==>
      s[k].white < |agents| && s[k].black < |agents| && matches[k] == (agents[s[k].white], agents[s[k].black])
  }

  /** The number of times pairing `p` occurs in `s`. */
  function Occurrences(s: seq<Pairing>, p: Pairing): nat
  {
    if s == [] then 0
    else Occurrences(s[..|s| - 1], p) + (if s[|s| - 1] == p then 1 else 0)
  }

  /** The number of pairings in `s` in which agent index `a` plays `side`. */
  function Appearances(s: seq<Pairing>, side: Side, a: nat): nat
  {
    if s == [] then 0
    else Appearances(s[..|s| - 1], side, a) + (if Player(s[|s| - 1], side) == a then 1 else 0)
  }

  // ---------------------------------------------------------------------
  // The generator itself.

  /** Builds the list of matches between `agents`, playing every pair of
      indices i < j twice, first with agent i as white and then with agent j
      as white. */
  method GenerateMatches<A>(agents: seq<A>) returns (matches: seq<(A, A)>)
    ensures Realizes(agents, matches, Schedule(|agents|))
    ensures |matches| == |agents| * (|agents| - 1)
    ensures forall i, j :: 0 <= i < j < |agents| ==>
      Position(|agents|, i, j) + 1 < |matches| &&
      matches[Position(|agents|, i, j)] == (agents[i], agents[j]) &&
      matches[Position(|agents|, i, j) + 1] == (agents[j], agents[i])
  {
    matches := [];
    var n := |agents|;
    ghost var done: seq<Pairing> := [];
    for i := 0 to n
      invariant done == SchedulePrefix(i, n)
      invariant Realizes(agents, matches, done)
    {
      RowStart(i, n);
      for j := i + 1 to n
        invariant done == SchedulePrefix(i, n) + RowPrefix(i, j)
        invariant Realizes(agents, matches, done)
      {
        ghost var previous := matches;
        matches := matches + [(agents[i], agents[j])];  // agent i as white
        matches := matches + [(agents[j], agents[i])];  // agent j as white
        RealizesExtend(agents, previous, done, i, j);
        RowExtend(i, j, n);
        done := done + [Pairing(i, j), Pairing(j, i)];
      }
    }
    RealizedSchedule(agents, matches);
  }

  /** Before the inner loop runs, row i adds nothing. */
  lemma RowStart(i: nat, n: nat)
    requires i < n
    ensures SchedulePrefix(i, n) + RowPrefix(i, i + 1) == SchedulePrefix(i, n)
  {
    assert RowPrefix(i, i + 1) == [];
  }

  /** One step of the inner loop appends pairings (i, j) and (j, i) to row i. */
  lemma RowExtend(i: nat, j: nat, n: nat)
    requires i < j < n
    ensures SchedulePrefix(i, n) + RowPrefix(i, j) + [Pairing(i, j), Pairing(j, i)] ==
      SchedulePrefix(i, n) + RowPrefix(i, j + 1)
  {
    assert RowPrefix(i, j + 1) == RowPrefix(i, j) + [Pairing(i, j), Pairing(j, i)];
  }

  /** Appending the matches of pairings (i, j) and (j, i) realizes the
      extended list of pairings. */
  lemma RealizesExtend<A>(agents: seq<A>, matches: seq<(A, A)>, s: seq<Pairing>, i: nat, j: nat)
    requires Realizes(agents, matches, s) && i < |agents| && j < |agents|
    ensures Realizes(agents, matches + [(agents[i], agents[j])] + [(agents[j], agents[i])],
                     s + [Pairing(i, j), Pairing(j, i)])
  {
    var matches' := matches + [(agents[i], agents[j])] + [(agents[j], agents[i])];
    var s' := s + [Pairing(i, j), Pairing(j, i)];
    forall k | 0 <= k < |s'|
      ensures s'[k].white < |agents| && s'[k].black < |agents|
      ensures matches'[k] == (agents[s'[k].white], agents[s'[k].black])
    {
      if k < |s| {
        assert s'[k] == s[k] && matches'[k] == matches[k];
      }
    }
  }

  /** What the complete list of matches holds, by agent: n * (n - 1) matches,
      with (agents[i], agents[j]) at Position(n, i, j) and its reverse right
      after it. */
  lemma RealizedSchedule<A>(agents: seq<A>, matches: seq<(A, A)>)
    requires Realizes(agents, matches, Schedule(|agents|))
    ensures |matches| == |agents| * (|agents| - 1)
    ensures forall i, j :: 0 <= i < j < |agents| ==>
      Position(|agents|, i, j) + 1 < |matches| &&
      matches[Position(|agents|, i, j)] == (agents[i], agents[j]) &&
      matches[Position(|agents|, i, j) + 1] == (agents[j], agents[i])
  {
    var n := |agents|;
    ScheduleLength(n);
    forall i, j | 0 <= i < j < n
      ensures Position(n, i, j) + 1 < |matches|
      ensures matches[Position(n, i, j)] == (agents[i], agents[j])
      ensures matches[Position(n, i, j) + 1] == (agents[j], agents[i])
    {
      ScheduleAt(n, i, j);
    }
  }

  // ---------------------------------------------------------------------
  // Length.

  /** The closed form of the number of pairings in the rows below i:
      i * (2 * n - 1 - i). */
  lemma {:induction false} PairsBeforeClosedForm(i: nat, n: nat)
    requires i <= n
    ensures 2 * PairsBefore(i, n) == i * (2 * n - 1 - i)
    decreases i
  {
    if i > 0 {
      var k := 2 * n - i;
      calc {
        2 * PairsBefore(i, n);
        2 * PairsBefore(i - 1, n) + 2 * (n - i);
        { PairsBeforeClosedForm(i - 1, n); assert 2 * n - 1 - (i - 1) == k; }
        (i - 1) * k + 2 * (n - i);
        { MulPredecessor(i, k); }
        i * k - k + 2 * (n - i);
        i * k - i;
        { MulPredecessor(k, i); }
        i * (k - 1);
      }
    }
  }

  /** (a - 1) * b == a * b - b, in both orders of the factors. */
  lemma MulPredecessor(a: int, b: int)
    ensures (a - 1) * b == a * b - b && b * (a - 1) == b * a - b
  {
  }

  /** n agents give n * (n - 1) matches. */
  lemma ScheduleLength(n: nat)
    ensures |Schedule(n)| == n * (n - 1)
  {
    PairsBeforeClosedForm(n, n);
    assert n * (2 * n - 1 - n) == n * (n - 1);
  }

  /** The closed form of Position: i * (2 * n - 1 - i) + 2 * (j - i - 1). */
  lemma PositionClosedForm(n: nat, i: nat, j: nat)
    requires i < j < n
    ensures Position(n, i, j) == i * (2 * n - 1 - i) + 2 * (j - i - 1)
  {
    PairsBeforeClosedForm(i, n);
  }

  /** No agents or a single agent give no matches. */
  lemma ScheduleOfAtMostOne(n: nat)
    requires n <= 1
    ensures Schedule(n) == []
  {
    ScheduleLength(n);
  }

  // ---------------------------------------------------------------------
  // Where each pairing is played.

  /** A position of the rows below i - 1 keeps its pairing in the rows below i. */
  lemma PrefixIndexBefore(i: nat, n: nat, k: nat)
    requires 0 < i <= n && k < 2 * PairsBefore(i - 1, n)
    ensures k < |SchedulePrefix(i, n)| && SchedulePrefix(i, n)[k] == SchedulePrefix(i - 1, n)[k]
  {
  }

  /** The positions after the rows below i - 1 hold row i - 1. */
  lemma PrefixIndexRow(i: nat, n: nat, k: nat)
    requires 0 < i <= n && 2 * PairsBefore(i - 1, n) <= k < |SchedulePrefix(i, n)|
    ensures SchedulePrefix(i, n)[k] == RowPrefix(i - 1, n)[k - 2 * PairsBefore(i - 1, n)]
  {
  }

  /** The m-th pair of row i: (i, i + 1 + m) followed by (i + 1 + m, i). */
  lemma {:induction false} RowAt(i: nat, j: nat, m: nat)
    requires i + 1 + m < j
    ensures 2 * m + 1 < |RowPrefix(i, j)|
    ensures RowPrefix(i, j)[2 * m] == Pairing(i, i + 1 + m)
    ensures RowPrefix(i, j)[2 * m + 1] == Pairing(i + 1 + m, i)
    decreases j
  {
    if i + 1 + m < j - 1 {
      RowAt(i, j - 1, m);
    }
  }

  lemma {:induction false} PrefixAt(i0: nat, n: nat, i: nat, j: nat)
    requires i < i0 <= n && i < j < n
    ensures Position(n, i, j) + 1 < |SchedulePrefix(i0, n)|
    ensures SchedulePrefix(i0, n)[Position(n, i, j)] == Pairing(i, j)
    ensures SchedulePrefix(i0, n)[Position(n, i, j) + 1] == Pairing(j, i)
    decreases i0
  {
    var k := Position(n, i, j);
    if i < i0 - 1 {
      PrefixAt(i0 - 1, n, i, j);
      PrefixIndexBefore(i0, n, k);
      PrefixIndexBefore(i0, n, k + 1);
    } else {
      RowAt(i, n, j - i - 1);
      PrefixIndexRow(i0, n, k);
      PrefixIndexRow(i0, n, k + 1);
    }
  }

  /** Pairing (i, j), i < j, is played at Position(n, i, j), and its reverse
      (j, i) immediately after it. */
  lemma ScheduleAt(n: nat, i: nat, j: nat)
    requires i < j < n
    ensures Position(n, i, j) + 1 < |Schedule(n)|
    ensures Schedule(n)[Position(n, i, j)] == Pairing(i, j)
    ensures Schedule(n)[Position(n, i, j) + 1] == Pairing(j, i)
  {
    PrefixAt(n, n, i, j);
  }

  // ---------------------------------------------------------------------
  // Every ordered pair of distinct indices is played exactly once.

  lemma {:induction false} OccurrencesConcat(s: seq<Pairing>, t: seq<Pairing>, p: Pairing)
    ensures Occurrences(s + t, p) == Occurrences(s, p) + Occurrences(t, p)
    decreases |t|
  {
    if t == [] {
      assert s + t == s;
    } else {
      assert (s + t)[..|s + t| - 1] == s + t[..|t| - 1];
      OccurrencesConcat(s, t[..|t| - 1], p);
    }
  }

  lemma {:induction false} RowOccurrences(i: nat, j: nat, p: Pairing)
    ensures Occurrences(RowPrefix(i, j), p) ==
      if (p.white == i && i < p.black < j) || (p.black == i && i < p.white < j) then 1 else 0
    decreases j
  {
    if j > i + 1 {
      var pair := [Pairing(i, j - 1), Pairing(j - 1, i)];
      var first: seq<Pairing> := [Pairing(i, j - 1)];
      assert pair[..1] == first && first[..0] == [];
      assert Occurrences(first, p) == if first[0] == p then 1 else 0;
      assert Occurrences(pair, p) == Occurrences(first, p) + (if pair[1] == p then 1 else 0);
      RowOccurrences(i, j - 1, p);
      OccurrencesConcat(RowPrefix(i, j - 1), pair, p);
    }
  }

  /** Whether pairing p is one of those scheduled in the rows of the outer
      indices below i, for n agents. */
  predicate InRows(p: Pairing, i: nat, n: nat)
  {
    p.white != p.black && p.white < n && p.black < n && (p.white < i || p.black < i)
  }

  lemma {:induction false} PrefixOccurrences(i: nat, n: nat, p: Pairing)
    requires i <= n
    ensures Occurrences(SchedulePrefix(i, n), p) == if InRows(p, i, n) then 1 else 0
    decreases i
  {
    if i > 0 {
      var before, row := SchedulePrefix(i - 1, n), RowPrefix(i - 1, n);
      var x, y := Occurrences(before, p), Occurrences(row, p);
      assert x == if InRows(p, i - 1, n) then 1 else 0 by {
        PrefixOccurrences(i - 1, n, p);
      }
      assert y == if (p.white == i - 1 && i - 1 < p.black < n) || (p.black == i - 1 && i - 1 < p.white < n)
                  then 1 else 0 by {
        RowOccurrences(i - 1, n, p);
      }
      assert Occurrences(SchedulePrefix(i, n), p) == x + y by {
        OccurrencesConcat(before, row, p);
      }
      RowsStep(p, i - 1, n);
    }
  }

  /** Going from the rows below i to the rows below i + 1 adds exactly the
      pairings of row i. */
  lemma RowsStep(p: Pairing, i: nat, n: nat)
    requires i < n
    ensures InRows(p, i + 1, n) <==>
      InRows(p, i, n) || (p.white == i && i < p.black < n) || (p.black == i && i < p.white < n)
    ensures !(InRows(p, i, n) &&
      ((p.white == i && i < p.black < n) || (p.black == i && i < p.white < n)))
  {
  }

  /** Each ordered pair of distinct indices below n occurs exactly once in the
      schedule, and nothing else occurs: in particular no index is paired with
      itself. */
  lemma ScheduleOccurrences(n: nat, p: Pairing)
    ensures Occurrences(Schedule(n), p) == if p.white != p.black && p.white < n && p.black < n then 1 else 0
  {
    PrefixOccurrences(n, n, p);
  }

  // ---------------------------------------------------------------------
  // How often each agent plays each side.

  lemma {:induction false} AppearancesConcat(s: seq<Pairing>, t: seq<Pairing>, side: Side, a: nat)
    ensures Appearances(s + t, side, a) == Appearances(s, side, a) + Appearances(t, side, a)
    decreases |t|
  {
    if t == [] {
      assert s + t == s;
    } else {
      assert (s + t)[..|s + t| - 1] == s + t[..|t| - 1];
      AppearancesConcat(s, t[..|t| - 1], side, a);
    }
  }

  lemma {:induction false} RowAppearances(i: nat, j: nat, side: Side, a: nat)
    ensures Appearances(RowPrefix(i, j), side, a) ==
      (if a == i && j > i + 1 then j - i - 1 else 0) + (if i < a < j then 1 else 0)
    decreases j
  {
    if j > i + 1 {
      var pair := [Pairing(i, j - 1), Pairing(j - 1, i)];
      RowAppearances(i, j - 1, side, a);
      AppearancesConcat(RowPrefix(i, j - 1), pair, side, a);
      var first: seq<Pairing> := [Pairing(i, j - 1)];
      assert pair[..1] == first && first[..0] == [];
      assert Appearances(first, side, a) == if Player(first[0], side) == a then 1 else 0;
      assert Appearances(pair, side, a) ==
        Appearances(first, side, a) + (if Player(pair[1], side) == a then 1 else 0);
    }
  }

  /** How often index a plays one given side in the rows of the outer indices
      below i, for n agents: once in the row of each smaller index, and, once
      its own row is done, n - 1 - a times there, n - 1 in all. */
  function AppearancesInRows(i: nat, n: nat, a: nat): nat
    requires a < n
  {
    if a < i then n - 1 else i
  }

  lemma {:induction false} PrefixAppearances(i: nat, n: nat, side: Side, a: nat)
    requires i <= n && a < n
    ensures Appearances(SchedulePrefix(i, n), side, a) == AppearancesInRows(i, n, a)
    decreases i
  {
    if i == 0 {
      assert SchedulePrefix(0, n) == [];
    } else {
      PrefixAppearances(i - 1, n, side, a);
      PrefixAppearancesStep(i, n, side, a);
    }
  }

  /** Adding row i - 1 to the rows below it adds its appearances. */
  lemma PrefixAppearancesStep(i: nat, n: nat, side: Side, a: nat)
    requires 0 < i <= n && a < n
    requires Appearances(SchedulePrefix(i - 1, n), side, a) == AppearancesInRows(i - 1, n, a)
    ensures Appearances(SchedulePrefix(i, n), side, a) == AppearancesInRows(i, n, a)
  {
    var y := Appearances(RowPrefix(i - 1, n), side, a);
    assert y == (if a == i - 1 && n > i then n - i else 0) + (if i - 1 < a < n then 1 else 0) by {
      RowAppearances(i - 1, n, side, a);
    }
    assert Appearances(SchedulePrefix(i, n), side, a) == AppearancesInRows(i - 1, n, a) + y by {
      AppearancesConcat(SchedulePrefix(i - 1, n), RowPrefix(i - 1, n), side, a);
    }
    AppearancesStep(i - 1, n, a);
  }

  /** Row i adds n - 1 - i appearances of index i and one of each larger index. */
  lemma AppearancesStep(i: nat, n: nat, a: nat)
    requires i < n && a < n
    ensures AppearancesInRows(i + 1, n, a) == AppearancesInRows(i, n, a) +
      (if a == i && n > i + 1 then n - i - 1 else 0) + (if i < a < n then 1 else 0)
  {
  }

  /** Every agent index below n plays white exactly n - 1 times and black
      exactly n - 1 times. */
  lemma ScheduleAppearances(n: nat, side: Side, a: nat)
    requires a < n
    ensures Appearances(Schedule(n), side, a) == n - 1
  {
    PrefixAppearances(n, n, side, a);
  }

  // ---------------------------------------------------------------------
  // Order.

  lemma {:induction false} PrefixPairAt(i: nat, n: nat, m: nat)
    requires i <= n && 2 * m < |SchedulePrefix(i, n)|
    ensures 2 * m + 1 < |SchedulePrefix(i, n)|
    ensures SchedulePrefix(i, n)[2 * m].white < SchedulePrefix(i, n)[2 * m].black
    ensures SchedulePrefix(i, n)[2 * m].white < i && SchedulePrefix(i, n)[2 * m].black < n
    ensures SchedulePrefix(i, n)[2 * m + 1] ==
      Pairing(SchedulePrefix(i, n)[2 * m].black, SchedulePrefix(i, n)[2 * m].white)
    decreases i
  {
    var h := PairsBefore(i - 1, n);
    if m < h {
      PrefixPairAt(i - 1, n, m);
      PrefixIndexBefore(i, n, 2 * m);
      PrefixIndexBefore(i, n, 2 * m + 1);
    } else {
      RowAt(i - 1, n, m - h);
      PrefixIndexRow(i, n, 2 * m);
      PrefixIndexRow(i, n, 2 * m + 1);
    }
  }

  lemma {:induction false} PrefixOrderedAt(i: nat, n: nat, m: nat, m': nat)
    requires i <= n && m < m' && 2 * m' < |SchedulePrefix(i, n)|
    ensures LexLess(SchedulePrefix(i, n)[2 * m], SchedulePrefix(i, n)[2 * m'])
    decreases i
  {
    var h := PairsBefore(i - 1, n);
    if m' < h {
      PrefixOrderedAt(i - 1, n, m, m');
      PrefixIndexBefore(i, n, 2 * m);
      PrefixIndexBefore(i, n, 2 * m');
    } else if m < h {
      OrderedAcrossRows(i, n, m, m');
    } else {
      OrderedWithinRow(i, n, m, m');
    }
  }

  /** A pairing of the rows below i - 1 comes before one of row i - 1. */
  lemma OrderedAcrossRows(i: nat, n: nat, m: nat, m': nat)
    requires 0 < i <= n && m < PairsBefore(i - 1, n) <= m' && 2 * m' < |SchedulePrefix(i, n)|
    ensures LexLess(SchedulePrefix(i, n)[2 * m], SchedulePrefix(i, n)[2 * m'])
  {
    var h := PairsBefore(i - 1, n);
    assert SchedulePrefix(i, n)[2 * m].white < i - 1 by {
      PrefixPairAt(i - 1, n, m);
      PrefixIndexBefore(i, n, 2 * m);
    }
    assert SchedulePrefix(i, n)[2 * m'].white == i - 1 by {
      RowAt(i - 1, n, m' - h);
      PrefixIndexRow(i, n, 2 * m');
    }
  }

  /** Within row i - 1 the pairings with i - 1 as white go up by black index. */
  lemma OrderedWithinRow(i: nat, n: nat, m: nat, m': nat)
    requires 0 < i <= n && PairsBefore(i - 1, n) <= m < m' && 2 * m' < |SchedulePrefix(i, n)|
    ensures LexLess(SchedulePrefix(i, n)[2 * m], SchedulePrefix(i, n)[2 * m'])
  {
    var h := PairsBefore(i - 1, n);
    RowAt(i - 1, n, m - h);
    RowAt(i - 1, n, m' - h);
    PrefixIndexRow(i, n, 2 * m);
    PrefixIndexRow(i, n, 2 * m');
  }

  /** Even positions hold a pairing (i, j) with i < j, and the following
      position holds its reverse (j, i). */
  lemma ScheduleShape(n: nat)
    ensures |Schedule(n)| % 2 == 0
    ensures forall k :: 0 <= k < |Schedule(n)| && k % 2 == 0 ==>
      Schedule(n)[k].white < Schedule(n)[k].black &&
      Schedule(n)[k + 1] == Pairing(Schedule(n)[k].black, Schedule(n)[k].white)
  {
    forall k | 0 <= k < |Schedule(n)| && k % 2 == 0
      ensures Schedule(n)[k].white < Schedule(n)[k].black
      ensures Schedule(n)[k + 1] == Pairing(Schedule(n)[k].black, Schedule(n)[k].white)
    {
      PrefixPairAt(n, n, k / 2);
    }
  }

  /** Every scheduled pairing joins two different agent indices below n. */
  lemma ScheduleInRange(n: nat)
    ensures forall k :: 0 <= k < |Schedule(n)| ==>
      Schedule(n)[k].white < n && Schedule(n)[k].black < n && Schedule(n)[k].white != Schedule(n)[k].black
  {
    forall k | 0 <= k < |Schedule(n)|
      ensures Schedule(n)[k].white < n && Schedule(n)[k].black < n && Schedule(n)[k].white != Schedule(n)[k].black
    {
      PrefixPairAt(n, n, k / 2);
    }
  }

  /** The pairings at even positions, those with the lower index as white,
      are in strictly increasing lexicographic order. */
  lemma ScheduleOrdered(n: nat)
    ensures forall k, k' :: 0 <= k < k' < |Schedule(n)| && k % 2 == 0 && k' % 2 == 0 ==>
      LexLess(Schedule(n)[k], Schedule(n)[k'])
  {
    forall k, k' | 0 <= k < k' < |Schedule(n)| && k % 2 == 0 && k' % 2 == 0
      ensures LexLess(Schedule(n)[k], Schedule(n)[k'])
    {
      PrefixOrderedAt(n, n, k / 2, k' / 2);
    }
  }
}
