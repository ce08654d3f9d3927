/** Reference definitions for the organism registry: which organisms survive a
    removal by index, how much mutability they carry, and the descending order in
    which removeOrganisms splices positions. */
module Registry {
  import opened Types

  /** The organisms of `s` whose position is not in `gone`, in their original
      order. Defined from the back, the order in which removal splices. */
  function Without(s: seq<Org>, gone: set<nat>): (t: seq<Org>)
    ensures |t| <= |s|
  {
    if s == [] then []
    else Without(s[..|s| - 1], gone) + (if |s| - 1 in gone then [] else [s[|s| - 1]])
  }

  /** Sum of the mutabilities of `s`. */
  function SumMut(s: seq<Org>): real {
    if s == [] then 0.0 else SumMut(s[..|s| - 1]) + s[|s| - 1].mutability
  }

  /** Sum of the mutabilities of the organisms of `s` at the positions in `at`. */
  function SumAt(s: seq<Org>, at: set<nat>): real {
    if s == [] then 0.0
    else SumAt(s[..|s| - 1], at) + (if |s| - 1 in at then s[|s| - 1].mutability else 0.0)
  }

  /** The organisms at the positions in `at`. */
  function OrgsAt(s: seq<Org>, at: set<nat>): set<Org> {
    set j | j in at && j < |s| :: s[j]
  }

  ghost predicate DistinctIds(s: seq<Org>) {
    forall i, j :: 0 <= i < j < |s| ==> s[i].id != s[j].id
  }

  ghost predicate NonNegative(s: seq<Org>) {
    forall i :: 0 <= i < |s| ==> s[i].mutability >= 0.0
  }

  /** The positions listed in `xs`, as a set. */
  function Positions(xs: seq<nat>): (p: set<nat>)
    ensures forall j :: j in p <==> j in xs
  {
    set j | j in xs
  }

  predicate Distinct(xs: seq<nat>) {
    forall i, j :: 0 <= i < j < |xs| ==> xs[i] != xs[j]
  }

  predicate StrictlyDescending(xs: seq<nat>) {
    forall i, j :: 0 <= i < j < |xs| ==> xs[i] > xs[j]
  }

  /** Places `x` into the descending sequence `xs`. */
  function InsertDesc(x: nat, xs: seq<nat>): (r: seq<nat>)
    requires StrictlyDescending(xs) && x !in xs
    ensures StrictlyDescending(r)
    ensures |r| == |xs| + 1
    ensures forall y :: y in r <==> y == x || y in xs
  {
    if xs == [] || x > xs[0] then [x] + xs
    else
      var rest := InsertDesc(x, xs[1..]);
      assert forall k :: 1 <= k < |xs| ==> xs[k] < xs[0];
      assert forall k :: 0 <= k < |rest| ==> rest[k] in rest && rest[k] < xs[0];
      [xs[0]] + rest
  }

  /** The indices of `xs` in descending order (the `sort((a, b) => b - a)` step). */
  function SortDesc(xs: seq<nat>): (r: seq<nat>)
    requires Distinct(xs)
    ensures StrictlyDescending(r)
    ensures |r| == |xs|
    ensures forall y :: y in r <==> y in xs
  {
    if xs == [] then []
    else
      var rest := SortDesc(xs[1..]);
      assert forall y :: y in xs <==> y == xs[0] || y in xs[1..];
      InsertDesc(xs[0], rest)
  }

  /** Walking a strictly descending sequence, each next element lies below
      every element already passed. */
  lemma DescendingPrefix(xs: seq<nat>, k: nat)
    requires StrictlyDescending(xs) && k < |xs|
    ensures Positions(xs[..k + 1]) == Positions(xs[..k]) + {xs[k]}
    ensures forall j :: j in Positions(xs[..k]) ==> j > xs[k]
  {
    assert xs[..k + 1] == xs[..k] + [xs[k]];
    forall j | j in Positions(xs[..k]) ensures j > xs[k] {
      var p :| 0 <= p < k && xs[p] == j;
    }
  }

  /** Positions that lie at or beyond the end of `s` do not affect `Without`. */
  lemma {:induction false} WithoutBeyond(s: seq<Org>, gone: set<nat>)
    requires forall j :: j in gone ==> j >= |s|
    ensures Without(s, gone) == s
  {
    if s != [] {
      WithoutBeyond(s[..|s| - 1], gone);
      assert s[..|s| - 1] + [s[|s| - 1]] == s;
    }
  }

  /** With every removed position beyond the last, splicing out the last
      position removes exactly the last organism. */
  lemma SpliceLast(s: seq<Org>, gone: set<nat>)
    requires |s| > 0 && forall j :: j in gone ==> j >= |s|
    ensures Without(s, gone) == s
    ensures Without(s, gone + {|s| - 1}) == s[..|s| - 1]
  {
    var p := s[..|s| - 1];
    WithoutBeyond(p, gone);
    WithoutBeyond(p, gone + {|s| - 1});
    assert p + [s[|s| - 1]] == s;
  }

  /** Splicing position `i` out of `Without(s, gone)`, where every position in
      `gone` is above `i`, removes exactly the organism at `s[i]`: this is why
      removing in descending order is sound. */
  lemma {:induction false} SpliceBelow(s: seq<Org>, gone: set<nat>, i: nat)
    requires i < |s| && i !in gone
    requires forall j :: j in gone ==> j > i
    ensures |Without(s, gone)| > i
    ensures Without(s, gone)[i] == s[i]
    ensures Without(s, gone + {i}) == Without(s, gone)[..i] + Without(s, gone)[i + 1..]
  {
    var n := |s|;
    var p := s[..n - 1];
    if i == n - 1 {
      SpliceLast(s, gone);
    } else {
      SpliceBelow(p, gone, i);
      var w := Without(p, gone);
      var tail := if n - 1 in gone then [] else [s[n - 1]];
      assert Without(s, gone) == w + tail;
      assert Without(s, gone + {i}) == Without(p, gone + {i}) + tail;
      assert (w + tail)[..i] == w[..i];
      assert (w + tail)[i + 1..] == w[i + 1..] + tail;
      assert (w[..i] + w[i + 1..]) + tail == w[..i] + (w[i + 1..] + tail);
    }
  }

  /** Removing one more position, below every position removed so far, is the
      same as removing the union at once. */
  lemma WithoutStep(s: seq<Org>, gone: set<nat>, i: nat)
    requires i < |s| && i !in gone
    requires forall j :: j in gone ==> j > i
    ensures |Without(s, gone)| > i && Without(s, gone)[i] == s[i]
    ensures Without(Without(s, gone), {i}) == Without(s, gone + {i})
  {
    var w := Without(s, gone);
    SpliceBelow(s, gone, i);
    SpliceBelow(w, {}, i);
    WithoutBeyond(w, {});
    assert {} + {i} == {i};
  }

  /** The mutability carried by the organisms at `gone` plus that of the
      survivors is the total. */
  lemma {:induction false} SumSplit(s: seq<Org>, gone: set<nat>)
    ensures SumMut(s) == SumMut(Without(s, gone)) + SumAt(s, gone)
  {
    if s != [] {
      var p := s[..|s| - 1];
      SumSplit(p, gone);
      var tail := if |s| - 1 in gone then [] else [s[|s| - 1]];
      SumAppend(Without(p, gone), tail);
    }
  }

  lemma {:induction false} SumAppend(a: seq<Org>, b: seq<Org>)
    ensures SumMut(a + b) == SumMut(a) + SumMut(b)
  {
    if b != [] {
      assert (a + b)[..|a + b| - 1] == a + b[..|b| - 1];
      SumAppend(a, b[..|b| - 1]);
    } else {
      assert a + b == a;
    }
  }

  /** Adding a position not yet counted adds that organism's mutability. */
  lemma {:induction false} SumAtInsert(s: seq<Org>, gone: set<nat>, i: nat)
    requires i < |s| && i !in gone
    ensures SumAt(s, gone + {i}) == SumAt(s, gone) + s[i].mutability
  {
    var p := s[..|s| - 1];
    if i == |s| - 1 {
      SumAtBeyond(p, gone + {i}, gone);
    } else {
      SumAtInsert(p, gone, i);
    }
  }

  /** Positions at or beyond the end of `s` do not affect `SumAt`. */
  lemma {:induction false} SumAtBeyond(s: seq<Org>, a: set<nat>, b: set<nat>)
    requires forall j :: j < |s| ==> (j in a <==> j in b)
    ensures SumAt(s, a) == SumAt(s, b)
  {
    if s != [] {
      SumAtBeyond(s[..|s| - 1], a, b);
    }
  }

  lemma {:induction false} SumNonNegative(s: seq<Org>)
    requires NonNegative(s)
    ensures SumMut(s) >= 0.0
  {
    if s != [] {
      SumNonNegative(s[..|s| - 1]);
    }
  }

  /** Every organism of `Without(s, gone)` comes from `s` at a kept position,
      and every kept organism is still there. */
  lemma {:induction false} WithoutMembers(s: seq<Org>, gone: set<nat>)
    ensures forall j :: 0 <= j < |s| && j !in gone ==> s[j] in Without(s, gone)
    ensures forall o :: o in Without(s, gone) ==> exists j :: 0 <= j < |s| && j !in gone && s[j] == o
  {
    if s != [] {
      var p := s[..|s| - 1];
      WithoutMembers(p, gone);
      forall j | 0 <= j < |s| && j !in gone ensures s[j] in Without(s, gone) {
        if j < |s| - 1 { assert s[j] == p[j]; }
      }
      forall o | o in Without(s, gone) ensures exists j :: 0 <= j < |s| && j !in gone && s[j] == o {
        if o in Without(p, gone) {
          var j :| 0 <= j < |p| && j !in gone && p[j] == o;
          assert s[j] == o;
        } else {
          assert s[|s| - 1] == o;
        }
      }
    }
  }

  /** With distinct identities, an organism survives exactly when its position
      was not removed. */
  lemma RemovedExactly(s: seq<Org>, gone: set<nat>, j: nat)
    requires DistinctIds(s) && j < |s|
    ensures s[j] in Without(s, gone) <==> j !in gone
  {
    WithoutMembers(s, gone);
    if s[j] in Without(s, gone) {
      var k :| 0 <= k < |s| && k !in gone && s[k] == s[j];
      assert k == j;
    }
  }

  /** The positions below `n` that are not in `gone`, ascending. */
  function Kept(n: nat, gone: set<nat>): (pos: seq<nat>)
    ensures forall k :: 0 <= k < |pos| ==> pos[k] < n && pos[k] !in gone
    ensures forall k, l :: 0 <= k < l < |pos| ==> pos[k] < pos[l]
  {
    if n == 0 then [] else Kept(n - 1, gone) + (if n - 1 in gone then [] else [n - 1])
  }

  /** Removal keeps the survivors in their original relative order: the k-th
      survivor is the organism at the k-th kept position. */
  lemma {:induction false} WithoutOrdered(s: seq<Org>, gone: set<nat>)
    ensures |Without(s, gone)| == |Kept(|s|, gone)|
    ensures forall k :: 0 <= k < |Kept(|s|, gone)| ==> Without(s, gone)[k] == s[Kept(|s|, gone)[k]]
  {
    if s != [] {
      var n := |s|;
      var p := s[..n - 1];
      WithoutOrdered(p, gone);
      var pos0 := Kept(n - 1, gone);
      assert forall k :: 0 <= k < |pos0| ==> s[pos0[k]] == p[pos0[k]];
    }
  }

  /** The organisms at a set of positions, one position at a time. */
  lemma OrgsAtInsert(s: seq<Org>, gone: set<nat>, i: nat)
    requires i < |s|
    ensures OrgsAt(s, gone + {i}) == OrgsAt(s, gone) + {s[i]}
  {
  }

  /** Survivors keep distinct identities and non-negative mutability. */
  lemma WithoutKeeps(s: seq<Org>, gone: set<nat>)
    ensures DistinctIds(s) ==> DistinctIds(Without(s, gone))
    ensures NonNegative(s) ==> NonNegative(Without(s, gone))
    ensures forall o :: o in Without(s, gone) ==> o in s
  {
    WithoutOrdered(s, gone);
    var w := Without(s, gone);
    var pos := Kept(|s|, gone);
    forall o | o in w ensures o in s {
      var k :| 0 <= k < |w| && w[k] == o;
      assert s[pos[k]] == o;
    }
    if DistinctIds(s) {
      forall k, l | 0 <= k < l < |w| ensures w[k].id != w[l].id {
        assert s[pos[k]].id != s[pos[l]].id;
      }
    }
    if NonNegative(s) {
      forall k | 0 <= k < |w| ensures w[k].mutability >= 0.0 {
        assert w[k] == s[pos[k]];
      }
    }
  }

  /** An empty index list removes nothing and accounts for no mutability. */
  lemma EmptyRemoval(s: seq<Org>)
    ensures Without(s, {}) == s && SumAt(s, {}) == 0.0 && OrgsAt(s, {}) == {}
  {
    WithoutBeyond(s, {});
    SumAtZero(s);
  }

  lemma {:induction false} SumAtZero(s: seq<Org>)
    ensures SumAt(s, {}) == 0.0
  {
    if s != [] { SumAtZero(s[..|s| - 1]); }
  }

  /** Removing all positions empties the population, and only then. */
  lemma {:induction false} WithoutLength(s: seq<Org>, gone: set<nat>)
    ensures Without(s, gone) == [] <==> forall j :: 0 <= j < |s| ==> j in gone
  {
    if s != [] {
      WithoutLength(s[..|s| - 1], gone);
    }
  }

  function Max(a: nat, b: nat): nat { if a < b then b else a }

  /** The floor at zero that removeOrganisms applies to total_mutability. */
  function Clamp(x: real): (y: real)
    ensures y >= 0.0 && (x >= 0.0 ==> y == x)
    ensures x < 0.0 ==> y == 0.0
  {
    if x < 0.0 then 0.0 else x
  }

  /** The registry invariant: identities are distinct, mutabilities are not
      negative, the cached total is the sum of the mutabilities and the cached
      largest cell count bounds every organism's. */
  ghost predicate Consistent(s: seq<Org>, total: real, largest: nat) {
    && DistinctIds(s)
    && NonNegative(s)
    && total == SumMut(s)
    && forall i :: 0 <= i < |s| ==> s[i].CellCount() <= largest
  }

  /** Removal by index keeps the invariant, with the total lowered by the
      removed organisms' mutability and clamped at zero. */
  lemma ConsistentAfterRemoval(s: seq<Org>, total: real, largest: nat, gone: set<nat>)
    requires Consistent(s, total, largest)
    ensures Consistent(Without(s, gone), Clamp(total - SumAt(s, gone)), largest)
  {
    var w := Without(s, gone);
    WithoutKeeps(s, gone);
    SumSplit(s, gone);
    SumNonNegative(w);
    forall k | 0 <= k < |w| ensures w[k].CellCount() <= largest {
      assert w[k] in s;
    }
  }

  /** Appending an organism with a fresh identity and a mutability that is not
      negative keeps the invariant, with the total raised by its mutability
      and the largest cell count raised to its cell count. */
  lemma ConsistentAfterAdd(s: seq<Org>, total: real, largest: nat, o: Org)
    requires Consistent(s, total, largest)
    requires o.mutability >= 0.0
    requires forall i :: 0 <= i < |s| ==> s[i].id != o.id
    ensures Consistent(s + [o], total + o.mutability, Max(largest, o.CellCount()))
  {
    assert (s + [o])[..|s + [o]| - 1] == s;
  }

  /** Removing each dead organism one at a time, highest position first, gives
      the same total as removing them together, when no mutability is
      negative (the clamp never cuts in between). */
  lemma ClampStep(x: real, m: real)
    requires m >= 0.0
    ensures Clamp(Clamp(x) - m) == Clamp(x - m)
  {
  }

  /** The positions of the living organisms at or above `lo`, highest first:
      the organisms whose update() a tick calls, in call order. */
  function LivingFrom(s: seq<Org>, lo: nat): (calls: seq<nat>)
    decreases |s| - lo
  {
    if lo >= |s| then [] else LivingFrom(s, lo + 1) + (if s[lo].living then [lo] else [])
  }

  /** Visiting one more position, downwards, appends it to the calls when
      that organism is living. */
  lemma LivingFromStep(s: seq<Org>, lo: nat)
    requires lo < |s|
    ensures LivingFrom(s, lo) == LivingFrom(s, lo + 1) + (if s[lo].living then [lo] else [])
  {
  }

  /** A tick calls update() exactly on the living organisms at or above `lo`,
      each once, from the highest position down. */
  lemma {:induction false} LivingFromCalls(s: seq<Org>, lo: nat)
    ensures StrictlyDescending(LivingFrom(s, lo))
    ensures forall j :: j in LivingFrom(s, lo) <==> lo <= j < |s| && s[j].living
    decreases |s| - lo
  {
    if lo < |s| {
      LivingFromCalls(s, lo + 1);
      var rest := LivingFrom(s, lo + 1);
      assert forall k :: 0 <= k < |rest| ==> rest[k] in rest;
    }
  }

  /** The positions at or above `lo` that a tick removes: not living, or whose
      update() reported death. */
  function DeadFrom(s: seq<Org>, outcomes: seq<bool>, lo: nat): (d: set<nat>)
    requires |outcomes| == |s|
  {
    set j: nat | lo <= j < |s| && (!s[j].living || !outcomes[j])
  }

  /** Removing position `i` from what is left after removing `gone` (all above
      `i`) is removing `gone + {i}` from the start: the same survivors, the
      removed mutability grows by that organism's, and so do the removed
      organisms. */
  lemma RemoveOneMore(s: seq<Org>, gone: set<nat>, i: nat)
    requires i < |s| && i !in gone
    requires forall j :: j in gone ==> j > i
    ensures |Without(s, gone)| > i && Without(s, gone)[i] == s[i]
    ensures Without(Without(s, gone), {i}) == Without(s, gone + {i})
    ensures SumAt(Without(s, gone), {i}) == s[i].mutability
    ensures SumAt(s, gone + {i}) == SumAt(s, gone) + s[i].mutability
    ensures OrgsAt(Without(s, gone), {i}) == {s[i]}
    ensures OrgsAt(s, gone + {i}) == OrgsAt(s, gone) + {s[i]}
  {
    WithoutStep(s, gone, i);
    var w := Without(s, gone);
    SumAtInsert(w, {}, i);
    SumAtZero(w);
    assert {} + {i} == {i};
    SumAtInsert(s, gone, i);
    OrgsAtInsert(s, gone, i);
    EmptyRemoval(w);
    OrgsAtInsert(w, {}, i);
  }
}
