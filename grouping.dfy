/** `group_issues` (comicbatch.py:105-132): one greedy left-to-right pass
    that cuts the issue list into groups bounded by a maximum size.

    The pass keeps three accumulators, `all_groups`, `current_group` and
    `current_group_size`, changed only by the two helpers `rotate_group`
    and `add_issue`. Issue `i` first closes the current group when
    `size + current_group_size >= max_size` -- without looking at whether
    that group is empty -- and is then always added to the (possibly fresh)
    current group. After the pass a non-empty current group is closed. */
module Grouping {
  import opened Seqs

  /** Size of issue `i`; an index past the list contributes nothing. */
  function SizeOf(sizes: seq<nat>, i: nat): nat
  {
    if i < |sizes| then sizes[i] else 0
  }

  /** Total size of the issues of a group. */
  function GroupSize(sizes: seq<nat>, g: seq<nat>): nat
  {
    if |g| == 0 then 0 else GroupSize(sizes, g[..|g| - 1]) + SizeOf(sizes, g[|g| - 1])
  }

  /** The three accumulators of `group_issues`. */
  datatype State = State(allGroups: seq<seq<nat>>, currentGroup: seq<nat>, currentGroupSize: nat)

  const Start := State([], [], 0)

  /** `rotate_group`: close the current group, empty or not. */
  function RotateGroup(st: State): State
  {
    State(st.allGroups + [st.currentGroup], [], 0)
  }

  /** `add_issue`. */
  function AddIssue(st: State, i: nat, size: nat): State
  {
    State(st.allGroups, st.currentGroup + [i], st.currentGroupSize + size)
  }

  /** One iteration of the loop body for issue `i` of size `size`. */
  function Visit(st: State, i: nat, size: nat, maxSize: nat): State
  {
    AddIssue(if size + st.currentGroupSize >= maxSize then RotateGroup(st) else st, i, size)
  }

  /** The accumulators after the first `n` issues. */
  function Scan(sizes: seq<nat>, maxSize: nat, n: nat): State
    requires n <= |sizes|
  {
    if n == 0 then Start else Visit(Scan(sizes, maxSize, n - 1), n - 1, sizes[n - 1], maxSize)
  }

  /** The closing `if len(current_group) > 0: rotate_group()`. */
  function Finish(st: State): seq<seq<nat>>
  {
    if |st.currentGroup| > 0 then RotateGroup(st).allGroups else st.allGroups
  }

  /** What `group_issues` returns for issues of the given sizes. */
  function Groups(sizes: seq<nat>, maxSize: nat): seq<seq<nat>>
  {
    Finish(Scan(sizes, maxSize, |sizes|))
  }

  /** The loop of `group_issues`, with `sizes[i]` standing for
      `dir_size` of the scaled directory of issue `i`. */
  method GroupIssues(sizes: seq<nat>, maxSize: nat) returns (allGroups: seq<seq<nat>>)
    ensures allGroups == Groups(sizes, maxSize)
    ensures Flatten(allGroups) == Indices(|sizes|)
  {
    allGroups := [];
    var currentGroup: seq<nat> := [];
    var currentGroupSize: nat := 0;
    for i := 0 to |sizes|
      invariant State(allGroups, currentGroup, currentGroupSize) == Scan(sizes, maxSize, i)
    {
      var size := sizes[i];
      if size + currentGroupSize >= maxSize {
        // rotate_group()
        allGroups := allGroups + [currentGroup];
        currentGroup := [];
        currentGroupSize := 0;
      }
      // add_issue(i, size)
      currentGroup := currentGroup + [i];
      currentGroupSize := currentGroupSize + size;
    }
    if |currentGroup| > 0 {
      allGroups := allGroups + [currentGroup];
      currentGroup := [];
      currentGroupSize := 0;
    }
    GroupsPartition(sizes, maxSize);
  }

  // ---------------------------------------------------------------------
  // What one pass keeps true

  /** A group of two or more issues stays strictly below the ceiling. */
  predicate Fits(sizes: seq<nat>, maxSize: nat, g: seq<nat>)
  {
    |g| >= 2 ==> GroupSize(sizes, g) < maxSize
  }

  /** `g` was closed because the first issue of `next` would have reached the ceiling. */
  predicate Forced(sizes: seq<nat>, maxSize: nat, g: seq<nat>, next: seq<nat>)
  {
    |next| > 0 && GroupSize(sizes, g) + SizeOf(sizes, next[0]) >= maxSize
  }

  /** The state after `n >= 1` issues, with the current group counted as a group. */
  ghost predicate Inv(sizes: seq<nat>, maxSize: nat, n: nat, st: State)
    requires 1 <= n <= |sizes|
  {
    var gs := st.allGroups + [st.currentGroup];
    && Flatten(gs) == Indices(n)
    && st.currentGroupSize == GroupSize(sizes, st.currentGroup)
    && |st.currentGroup| > 0
    && (forall k :: 0 < k < |gs| ==> |gs[k]| > 0)
    && (gs[0] == [] <==> sizes[0] >= maxSize)
    && (forall k :: 0 <= k < |gs| ==> Fits(sizes, maxSize, gs[k]))
    && (forall k :: 0 <= k < |gs| - 1 ==> Forced(sizes, maxSize, gs[k], gs[k + 1]))
  }

  lemma ScanOne(sizes: seq<nat>, maxSize: nat)
    requires |sizes| >= 1
    ensures Inv(sizes, maxSize, 1, Scan(sizes, maxSize, 1))
  {
    assert Scan(sizes, maxSize, 0) == Start;
    var g0: seq<nat> := [0];
    assert GroupSize(sizes, g0) == sizes[0] by {
      assert g0[..0] == [];
    }
    assert Indices(1) == [0];
    if sizes[0] >= maxSize {
      assert Scan(sizes, maxSize, 1) == State([[]], g0, sizes[0]);
      FirstIssueAlone(sizes, maxSize);
    } else {
      assert Scan(sizes, maxSize, 1) == State([], g0, sizes[0]);
      FirstIssueJoins(sizes, maxSize);
    }
  }

  /** `Inv` from its conjuncts, stated over the list of groups `gs`. */
  lemma InvIntro(sizes: seq<nat>, maxSize: nat, n: nat, st: State, gs: seq<seq<nat>>)
    requires 1 <= n <= |sizes| && gs == st.allGroups + [st.currentGroup]
    requires Flatten(gs) == Indices(n)
    requires st.currentGroupSize == GroupSize(sizes, st.currentGroup) && |st.currentGroup| > 0
    requires forall k :: 0 < k < |gs| ==> |gs[k]| > 0
    requires gs[0] == [] <==> sizes[0] >= maxSize
    requires forall k :: 0 <= k < |gs| ==> Fits(sizes, maxSize, gs[k])
    requires forall k :: 0 <= k < |gs| - 1 ==> Forced(sizes, maxSize, gs[k], gs[k + 1])
    ensures Inv(sizes, maxSize, n, st)
  {
  }

  /** The first issue alone reaches the ceiling: the empty start group is closed. */
  lemma FirstIssueAlone(sizes: seq<nat>, maxSize: nat)
    requires |sizes| >= 1 && sizes[0] >= maxSize && Indices(1) == [0]
    requires GroupSize(sizes, [0]) == sizes[0]
    ensures Inv(sizes, maxSize, 1, State([[]], [0], sizes[0]))
  {
    var empty: seq<nat> := [];
    var first: seq<nat> := [0];
    var gs := [empty, first];
    assert Flatten(gs) == [0] by {
      assert gs == [empty] + [first];
      FlattenAppend([empty], first);
      FlattenSingleton(empty);
    }
    assert Forced(sizes, maxSize, gs[0], gs[1]) by {
      assert GroupSize(sizes, empty) == 0 && SizeOf(sizes, first[0]) == sizes[0];
    }
    assert Fits(sizes, maxSize, gs[0]) && Fits(sizes, maxSize, gs[1]);
    InvIntro(sizes, maxSize, 1, State([empty], first, sizes[0]), gs);
  }

  /** The first issue stays below the ceiling: it opens the first group. */
  lemma FirstIssueJoins(sizes: seq<nat>, maxSize: nat)
    requires |sizes| >= 1 && sizes[0] < maxSize && Indices(1) == [0]
    requires GroupSize(sizes, [0]) == sizes[0]
    ensures Inv(sizes, maxSize, 1, State([], [0], sizes[0]))
  {
    var first: seq<nat> := [0];
    var gs := [first];
    assert Flatten(gs) == [0] by {
      FlattenSingleton(first);
    }
    assert Fits(sizes, maxSize, gs[0]);
    InvIntro(sizes, maxSize, 1, State([], first, sizes[0]), gs);
  }

  lemma VisitInv(sizes: seq<nat>, maxSize: nat, n: nat, st: State)
    requires 1 <= n < |sizes| && Inv(sizes, maxSize, n, st)
    ensures Inv(sizes, maxSize, n + 1, Visit(st, n, sizes[n], maxSize))
  {
    assert Indices(n + 1) == Indices(n) + [n];
    assert GroupSize(sizes, st.currentGroup + [n]) == st.currentGroupSize + sizes[n] by {
      assert (st.currentGroup + [n])[..|st.currentGroup|] == st.currentGroup;
    }
    if sizes[n] + st.currentGroupSize >= maxSize {
      VisitRotates(sizes, maxSize, n, st);
    } else {
      VisitExtends(sizes, maxSize, n, st);
    }
  }

  /** Issue `n` closes the current group and starts a fresh one. */
  lemma VisitRotates(sizes: seq<nat>, maxSize: nat, n: nat, st: State)
    requires 1 <= n < |sizes| && Inv(sizes, maxSize, n, st)
    requires sizes[n] + st.currentGroupSize >= maxSize
    requires Indices(n + 1) == Indices(n) + [n]
    ensures Inv(sizes, maxSize, n + 1, Visit(st, n, sizes[n], maxSize))
  {
    var st' := Visit(st, n, sizes[n], maxSize);
    var gs := st.allGroups + [st.currentGroup];
    var gs' := st'.allGroups + [st'.currentGroup];
    assert st' == State(gs, [n], sizes[n]);
    assert gs' == gs + [[n]];
    FlattenAppend(gs, [n]);
    assert Flatten(gs') == Indices(n + 1);
    assert GroupSize(sizes, [n]) == sizes[n] by {
      assert [n][..0] == [];
    }
    assert gs'[0] == gs[0];
    assert forall k :: 0 < k < |gs'| ==> |gs'[k]| > 0 by {
      forall k | 0 < k < |gs'| ensures |gs'[k]| > 0 {
        if k < |gs| { assert gs'[k] == gs[k]; }
      }
    }
    assert forall k :: 0 <= k < |gs'| - 1 ==> Forced(sizes, maxSize, gs'[k], gs'[k + 1]) by {
      forall k | 0 <= k < |gs'| - 1 ensures Forced(sizes, maxSize, gs'[k], gs'[k + 1]) {
        if k < |gs| - 1 {
          assert gs'[k] == gs[k] && gs'[k + 1] == gs[k + 1];
        } else {
          assert gs'[k] == st.currentGroup && gs'[k + 1] == [n];
        }
      }
    }
    assert forall k :: 0 <= k < |gs'| ==> Fits(sizes, maxSize, gs'[k]) by {
      forall k | 0 <= k < |gs'| ensures Fits(sizes, maxSize, gs'[k]) {
        if k < |gs| { assert gs'[k] == gs[k]; }
      }
    }
  }

  /** Issue `n` joins the current group. */
  lemma VisitExtends(sizes: seq<nat>, maxSize: nat, n: nat, st: State)
    requires 1 <= n < |sizes| && Inv(sizes, maxSize, n, st)
    requires sizes[n] + st.currentGroupSize < maxSize
    requires Indices(n + 1) == Indices(n) + [n]
    requires GroupSize(sizes, st.currentGroup + [n]) == st.currentGroupSize + sizes[n]
    ensures Inv(sizes, maxSize, n + 1, Visit(st, n, sizes[n], maxSize))
  {
    var all, g := st.allGroups, st.currentGroup;
    var cur := g + [n];
    assert Visit(st, n, sizes[n], maxSize) == State(all, cur, st.currentGroupSize + sizes[n]);
    FlattenAppend(all, cur);
    FlattenAppend(all, g);
    ExtendedFirst(sizes, maxSize, all, g, n);
    ExtendedNonEmpty(all, g, n);
    ExtendedForced(sizes, maxSize, all, g, n);
    ExtendedFits(sizes, maxSize, all, g, n);
  }

  /** Growing the current group leaves the first group's emptiness as it was. */
  lemma ExtendedFirst(sizes: seq<nat>, maxSize: nat, all: seq<seq<nat>>, g: seq<nat>, n: nat)
    requires |sizes| > 0 && |g| > 0
    requires ((all + [g])[0] == []) <==> sizes[0] >= maxSize
    ensures ((all + [g + [n]])[0] == []) <==> sizes[0] >= maxSize
  {
    if |all| == 0 {
      assert (all + [g + [n]])[0] == g + [n] && (all + [g])[0] == g;
    } else {
      assert (all + [g + [n]])[0] == all[0] == (all + [g])[0];
    }
  }

  /** Growing the current group keeps every group after the first non-empty. */
  lemma ExtendedNonEmpty(all: seq<seq<nat>>, g: seq<nat>, n: nat)
    requires forall k :: 0 < k < |all + [g]| ==> |(all + [g])[k]| > 0
    ensures forall k :: 0 < k < |all + [g + [n]]| ==> |(all + [g + [n]])[k]| > 0
  {
    var gs, gs' := all + [g], all + [g + [n]];
    forall k | 0 < k < |gs'| ensures |gs'[k]| > 0 {
      if k < |all| { assert gs'[k] == gs[k]; }
    }
  }

  /** Growing a non-empty current group keeps its first issue, so every
      closed group stays forced by its successor. */
  lemma ExtendedForced(sizes: seq<nat>, maxSize: nat, all: seq<seq<nat>>, g: seq<nat>, n: nat)
    requires |g| > 0
    requires forall k :: 0 <= k < |all + [g]| - 1 ==> Forced(sizes, maxSize, (all + [g])[k], (all + [g])[k + 1])
    ensures forall k :: 0 <= k < |all + [g + [n]]| - 1 ==> Forced(sizes, maxSize, (all + [g + [n]])[k], (all + [g + [n]])[k + 1])
  {
    var gs, gs' := all + [g], all + [g + [n]];
    forall k | 0 <= k < |gs'| - 1 ensures Forced(sizes, maxSize, gs'[k], gs'[k + 1]) {
      assert gs'[k] == gs[k];
      if k + 1 < |all| {
        assert gs'[k + 1] == gs[k + 1];
      } else {
        assert gs'[k + 1] == g + [n] && gs[k + 1] == g;
        assert (g + [n])[0] == g[0];
      }
    }
  }

  /** The closed groups keep fitting, and the grown current group fits
      because its total stays below the ceiling. */
  lemma ExtendedFits(sizes: seq<nat>, maxSize: nat, all: seq<seq<nat>>, g: seq<nat>, n: nat)
    requires forall k :: 0 <= k < |all + [g]| ==> Fits(sizes, maxSize, (all + [g])[k])
    requires GroupSize(sizes, g + [n]) < maxSize
    ensures forall k :: 0 <= k < |all + [g + [n]]| ==> Fits(sizes, maxSize, (all + [g + [n]])[k])
  {
    var gs, gs' := all + [g], all + [g + [n]];
    forall k | 0 <= k < |gs'| ensures Fits(sizes, maxSize, gs'[k]) {
      if k < |all| { assert gs'[k] == gs[k]; }
    }
  }

  lemma {:induction false} ScanInv(sizes: seq<nat>, maxSize: nat, n: nat)
    requires 1 <= n <= |sizes|
    ensures Inv(sizes, maxSize, n, Scan(sizes, maxSize, n))
  {
    if n == 1 {
      ScanOne(sizes, maxSize);
    } else {
      ScanInv(sizes, maxSize, n - 1);
      VisitInv(sizes, maxSize, n - 1, Scan(sizes, maxSize, n - 1));
    }
  }

  /** For a non-empty input the result is every closed group followed by the last one. */
  lemma GroupsClosed(sizes: seq<nat>, maxSize: nat)
    requires |sizes| > 0
    ensures var st := Scan(sizes, maxSize, |sizes|);
      Inv(sizes, maxSize, |sizes|, st) && Groups(sizes, maxSize) == st.allGroups + [st.currentGroup]
  {
    ScanInv(sizes, maxSize, |sizes|);
  }

  // ---------------------------------------------------------------------
  // Properties of the result

  /** Concatenating the groups gives `0, 1, ..., count-1` in order, each once:
      the groups are consecutive runs of issues in their original order. */
  lemma GroupsPartition(sizes: seq<nat>, maxSize: nat)
    ensures Flatten(Groups(sizes, maxSize)) == Indices(|sizes|)
  {
    if |sizes| > 0 { GroupsClosed(sizes, maxSize); }
  }

  /** No issues, no groups; otherwise the last group is never empty. */
  lemma GroupsEnds(sizes: seq<nat>, maxSize: nat)
    ensures Groups(sizes, maxSize) == [] <==> |sizes| == 0
    ensures |sizes| > 0 ==> |Groups(sizes, maxSize)[|Groups(sizes, maxSize)| - 1]| > 0
  {
    if |sizes| > 0 { GroupsClosed(sizes, maxSize); }
  }

  /** A group of two or more issues is strictly below the ceiling; only a
      single issue can reach or pass it. */
  lemma GroupsUnderCeiling(sizes: seq<nat>, maxSize: nat)
    ensures var gs := Groups(sizes, maxSize);
      forall k :: 0 <= k < |gs| && |gs[k]| >= 2 ==> GroupSize(sizes, gs[k]) < maxSize
  {
    if |sizes| > 0 {
      GroupsClosed(sizes, maxSize);
      var gs := Groups(sizes, maxSize);
      assert forall k :: 0 <= k < |gs| ==> Fits(sizes, maxSize, gs[k]);
    }
  }

  /** Every group but the last was closed because the next group's first
      issue would have brought it to the ceiling or beyond (`>=`). */
  lemma GroupsRotation(sizes: seq<nat>, maxSize: nat)
    ensures var gs := Groups(sizes, maxSize);
      forall k :: 0 <= k < |gs| - 1 ==> Forced(sizes, maxSize, gs[k], gs[k + 1])
  {
    if |sizes| > 0 {
      GroupsClosed(sizes, maxSize);
      var gs := Groups(sizes, maxSize);
      assert forall k :: 0 <= k < |gs| - 1 ==> Forced(sizes, maxSize, gs[k], gs[k + 1]);
    }
  }

  /** An empty group can only be the first one, and it is there exactly when
      the first issue alone reaches the ceiling: the rotation before issue 0
      closes the still-empty initial group. */
  lemma GroupsEmptyGroup(sizes: seq<nat>, maxSize: nat)
    ensures var gs := Groups(sizes, maxSize);
      forall k :: 0 < k < |gs| ==> |gs[k]| > 0
    ensures var gs := Groups(sizes, maxSize);
      (|gs| > 0 && gs[0] == []) <==> (|sizes| > 0 && sizes[0] >= maxSize)
  {
    if |sizes| > 0 { GroupsClosed(sizes, maxSize); }
  }

  // ---------------------------------------------------------------------
  // The pass as it was evidently meant: rotate only a non-empty group

  function VisitGuarded(st: State, i: nat, size: nat, maxSize: nat): State
  {
    AddIssue(if |st.currentGroup| > 0 && size + st.currentGroupSize >= maxSize then RotateGroup(st) else st, i, size)
  }

  function ScanGuarded(sizes: seq<nat>, maxSize: nat, n: nat): State
    requires n <= |sizes|
  {
    if n == 0 then Start else VisitGuarded(ScanGuarded(sizes, maxSize, n - 1), n - 1, sizes[n - 1], maxSize)
  }

  /** Grouping with the emptiness check on the rotation. */
  function GuardedGroups(sizes: seq<nat>, maxSize: nat): seq<seq<nat>>
  {
    Finish(ScanGuarded(sizes, maxSize, |sizes|))
  }

  lemma ScanCurrentNonEmpty(sizes: seq<nat>, maxSize: nat, n: nat)
    requires 1 <= n <= |sizes|
    ensures |Scan(sizes, maxSize, n).currentGroup| > 0
  {
    ScanInv(sizes, maxSize, n);
  }

  /** The unguarded state is the guarded one, with a leading `[]` when `lead`. */
  predicate Related(lead: bool, a: State, b: State)
  {
    a.currentGroup == b.currentGroup && a.currentGroupSize == b.currentGroupSize &&
    a.allGroups == (if lead then [[]] + b.allGroups else b.allGroups)
  }

  lemma VisitRelated(lead: bool, a: State, b: State, i: nat, size: nat, maxSize: nat)
    requires Related(lead, a, b) && |a.currentGroup| > 0
    ensures Related(lead, Visit(a, i, size, maxSize), VisitGuarded(b, i, size, maxSize))
  {
    if lead {
      assert [[]] + b.allGroups + [b.currentGroup] == [[]] + (b.allGroups + [b.currentGroup]);
    }
  }

  lemma {:induction false} ScanGuardedRelation(sizes: seq<nat>, maxSize: nat, n: nat)
    requires 1 <= n <= |sizes|
    ensures Related(sizes[0] >= maxSize, Scan(sizes, maxSize, n), ScanGuarded(sizes, maxSize, n))
  {
    if n == 1 {
      assert Scan(sizes, maxSize, 1) == Visit(Start, 0, sizes[0], maxSize);
      assert ScanGuarded(sizes, maxSize, 1) == VisitGuarded(Start, 0, sizes[0], maxSize);
    } else {
      ScanGuardedRelation(sizes, maxSize, n - 1);
      ScanCurrentNonEmpty(sizes, maxSize, n - 1);
      VisitRelated(sizes[0] >= maxSize, Scan(sizes, maxSize, n - 1), ScanGuarded(sizes, maxSize, n - 1),
        n - 1, sizes[n - 1], maxSize);
    }
  }

  /** The code's result is the guarded result with one extra leading `[]`
      exactly when the first issue alone reaches the ceiling. */
  lemma GroupsVersusGuarded(sizes: seq<nat>, maxSize: nat)
    ensures Groups(sizes, maxSize) ==
      if |sizes| > 0 && sizes[0] >= maxSize then [[]] + GuardedGroups(sizes, maxSize)
      else GuardedGroups(sizes, maxSize)
  {
    if |sizes| > 0 {
      ScanGuardedRelation(sizes, maxSize, |sizes|);
      ScanCurrentNonEmpty(sizes, maxSize, |sizes|);
      var b := ScanGuarded(sizes, maxSize, |sizes|);
      assert |b.currentGroup| > 0;
      if sizes[0] >= maxSize {
        assert [[]] + b.allGroups + [b.currentGroup] == [[]] + (b.allGroups + [b.currentGroup]);
      }
    }
  }

  /** With the guard, no group is empty and the groups still partition the issues. */
  lemma GuardedGroupsNonEmpty(sizes: seq<nat>, maxSize: nat)
    ensures var gs := GuardedGroups(sizes, maxSize);
      forall k :: 0 <= k < |gs| ==> |gs[k]| > 0
    ensures Flatten(GuardedGroups(sizes, maxSize)) == Indices(|sizes|)
  {
    GroupsVersusGuarded(sizes, maxSize);
    GroupsEmptyGroup(sizes, maxSize);
    GroupsPartition(sizes, maxSize);
    var gs := Groups(sizes, maxSize);
    var hs := GuardedGroups(sizes, maxSize);
    if |sizes| > 0 && sizes[0] >= maxSize {
      assert gs == [[]] + hs;
      forall k | 0 <= k < |hs| ensures |hs[k]| > 0 {
        assert hs[k] == gs[k + 1];
      }
      FlattenConcat([[]], hs);
      FlattenSingleton<nat>([]);
    } else {
      assert gs == hs;
      forall k | 0 <= k < |hs| ensures |hs[k]| > 0 {
        if k == 0 { assert hs[0] != []; }
      }
    }
  }

  // ---------------------------------------------------------------------
  // Worked cases

  /** Four issues where the first three stay below the ceiling and the
      fourth would reach it: one group of three and a singleton. */
  lemma FourIssuesExample(s: seq<nat>, a: nat, b: nat, c: nat, d: nat, maxSize: nat)
    requires s == [a, b, c, d] && a + b + c < maxSize <= a + b + c + d
    ensures Groups(s, maxSize) == [[0, 1, 2], [3]]
  {
    var s1 := State([], [0], a);
    var s2 := State([], [0, 1], a + b);
    var s3 := State([], [0, 1, 2], a + b + c);
    var s4 := State([[0, 1, 2]], [3], d);
    assert Scan(s, maxSize, 1) == s1 by { assert Scan(s, maxSize, 0) == Start; }
    assert Scan(s, maxSize, 2) == s2 by { assert Scan(s, maxSize, 2) == Visit(s1, 1, b, maxSize); }
    assert Scan(s, maxSize, 3) == s3 by { assert Scan(s, maxSize, 3) == Visit(s2, 2, c, maxSize); }
    assert Scan(s, maxSize, 4) == s4 by { assert Scan(s, maxSize, 4) == Visit(s3, 3, d, maxSize); }
    assert Finish(s4) == [[0, 1, 2], [3]];
  }

  /** Sizes 30, 30, 30, 30 under 100: 90 stays below, the fourth issue rotates. */
  lemma ExampleFourThirties()
    ensures Groups([30, 30, 30, 30], 100) == [[0, 1, 2], [3]]
  {
    FourIssuesExample([30, 30, 30, 30], 30, 30, 30, 30, 100);
  }

  /** Two issues that together reach the ceiling become two singletons. */
  lemma TwoIssuesExample(s: seq<nat>, a: nat, b: nat, maxSize: nat)
    requires s == [a, b] && a < maxSize <= a + b
    ensures Groups(s, maxSize) == [[0], [1]]
  {
    var s1 := State([], [0], a);
    var s2 := State([[0]], [1], b);
    assert Scan(s, maxSize, 1) == s1 by { assert Scan(s, maxSize, 0) == Start; }
    assert Scan(s, maxSize, 2) == s2 by { assert Scan(s, maxSize, 2) == Visit(s1, 1, b, maxSize); }
    assert Finish(s2) == [[0], [1]];
  }

  /** Sizes 60, 60 under 100: 120 reaches the ceiling, so two singletons. */
  lemma ExampleTwoSixties()
    ensures Groups([60, 60], 100) == [[0], [1]]
  {
    TwoIssuesExample([60, 60], 60, 60, 100);
  }

  /** One issue at or above the ceiling: the code emits an empty group first,
      the guarded pass a single singleton. */
  lemma ExampleAtCeiling(s: seq<nat>, size: nat, maxSize: nat)
    requires s == [size] && size >= maxSize
    ensures Groups(s, maxSize) == [[], [0]]
    ensures GuardedGroups(s, maxSize) == [[0]]
  {
    var a := State([[]], [0], size);
    var b := State([], [0], size);
    assert Scan(s, maxSize, 1) == a by { assert Scan(s, maxSize, 0) == Start; }
    assert ScanGuarded(s, maxSize, 1) == b by { assert ScanGuarded(s, maxSize, 0) == Start; }
    assert Finish(a) == [[], [0]];
    assert Finish(b) == [[0]];
  }
}
