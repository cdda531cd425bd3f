/** Sibling and child IDs: the next sibling bumps the last run, the first
    child appends a run of the other kind. */
module IdAlgebra {
  import opened IdRuns
  import opened Components

  /** The rank of an ID among its siblings: the rank of its last run. */
  function Rank(id: string): nat
    requires IsId(id)
  {
    RunRank(LastRun(id))
  }

  lemma ReplaceLastAlternating(rs: seq<string>, x: string)
    requires |rs| > 0 && Alternating(rs)
    requires IsRun(x) && AllDigits(x) == AllDigits(rs[|rs| - 1])
    ensures Alternating(rs[..|rs| - 1] + [x])
  {
    var next := rs[..|rs| - 1] + [x];
    forall i | 0 <= i < |next| - 1
      ensures AllDigits(next[i]) != AllDigits(next[i + 1])
    {
      assert AllDigits(rs[i]) != AllDigits(rs[i + 1]);
    }
  }

  /** incrementID: the parent followed by the successor of the last run.
      `IncrementIdRuns` shows this is the source's split into runs, successor
      of the last run, and join. The result keeps the parent and the kind of
      the last run, and its rank is one higher. */
  function IncrementId(id: string): (r: string)
    requires IsId(id)
    ensures IsId(r) && Rank(r) == Rank(id) + 1
    ensures ParentId(r) == ParentId(id)
    ensures AllDigits(LastRun(r)) == AllDigits(LastRun(id))
  {
    ParentIdEnds(id);
    AppendRun(ParentId(id), IncrementComponent(LastRun(id)));
    ParentId(id) + IncrementComponent(LastRun(id))
  }

  /** Splitting into runs, replacing the last run by its successor and
      joining gives the next sibling, and its runs are exactly those. */
  lemma IncrementIdRuns(id: string)
    requires IsId(id)
    ensures IncrementId(id) ==
      Join(Runs(id)[..|Runs(id)| - 1] + [IncrementComponent(Runs(id)[|Runs(id)| - 1])])
    ensures Runs(IncrementId(id)) ==
      Runs(id)[..|Runs(id)| - 1] + [IncrementComponent(Runs(id)[|Runs(id)| - 1])]
  {
    var parts := Runs(id);
    var c := IncrementComponent(parts[|parts| - 1]);
    var next := parts[..|parts| - 1] + [c];
    ParentIdRuns(id);
    JoinSnoc(parts[..|parts| - 1], c);
    ReplaceLastAlternating(parts, c);
    RunsOfJoin(next);
  }

  /** nextComponentOf: the first run of a child, of the other kind than the
      parent's last run. */
  function NextComponentOf(id: string): (c: string)
    requires IsId(id)
    ensures IsRun(c) && AllDigits(c) != AllDigits(LastRun(id))
    ensures RunRank(c) == 0 || RunRank(c) == 1
    ensures c == (if AllDigits(LastRun(id)) then "a" else "1")
  {
    if IsNumber(LastRun(id)) then
      assert !IsDigit("a"[0]);
      "a"
    else
      assert IsDigit("1"[0]);
      "1"
  }

  /** firstChildOf: the parent ID followed by the first run of a child. */
  function FirstChildOf(parentId: string): (r: string)
    requires IsId(parentId)
    ensures IsId(r)
  {
    parentId + NextComponentOf(parentId)
  }

  /** The first child is the parent with one more run, of the other kind:
      `a` after digits and `1` after letters. Its parent is the given ID. */
  lemma FirstChildRuns(p: string)
    requires IsId(p)
    ensures IsId(FirstChildOf(p))
    ensures Runs(FirstChildOf(p)) == Runs(p) + [NextComponentOf(p)]
    ensures ParentId(FirstChildOf(p)) == p
    ensures AllDigits(LastRun(p)) ==> FirstChildOf(p) == p + "a"
    ensures !AllDigits(LastRun(p)) ==> FirstChildOf(p) == p + "1"
    ensures AllDigits(LastRun(FirstChildOf(p))) != AllDigits(LastRun(p))
  {
    RunsOfAppendOther(p, NextComponentOf(p));
  }

  /** Appending a run of the other kind to an ID appends it to its runs. */
  lemma RunsOfAppendOther(p: string, c: string)
    requires IsId(p) && IsRun(c) && AllDigits(c) != AllDigits(LastRun(p))
    ensures IsId(p + c) && Runs(p + c) == Runs(p) + [c]
    ensures ParentId(p + c) == p && LastRun(p + c) == c
  {
    var parts := Runs(p);
    var next := parts + [c];
    assert Alternating(next) by {
      forall i | 0 <= i < |next| - 1
        ensures AllDigits(next[i]) != AllDigits(next[i + 1])
      {
        if i < |parts| - 1 {
          assert AllDigits(parts[i]) != AllDigits(parts[i + 1]);
        }
      }
    }
    assert next[..|next| - 1] == parts;
    RunsOfJoin(next);
  }

  /** The parent of the first child is the given ID. */
  lemma FirstChildParent(p: string)
    requires IsId(p)
    ensures IsId(FirstChildOf(p)) && ParentId(FirstChildOf(p)) == p
  {
    FirstChildRuns(p);
  }

  /** The candidate after `k` increments of `start`: it keeps the parent and
      the kind of the last run, and its rank is `k` above the start's. */
  function Steps(start: string, k: nat): (r: string)
    requires IsId(start)
    ensures IsId(r) && Rank(r) == Rank(start) + k
    ensures ParentId(r) == ParentId(start)
    ensures AllDigits(LastRun(r)) == AllDigits(LastRun(start))
  {
    if k == 0 then start else IncrementId(Steps(start, k - 1))
  }

  lemma StepsUnfold(start: string, k: nat)
    requires IsId(start) && k > 0
    ensures Steps(start, k) == IncrementId(Steps(start, k - 1))
  {
  }

  /** Successive candidates are pairwise distinct. */
  lemma StepsDistinct(start: string, i: nat, j: nat)
    requires IsId(start) && i != j
    ensures Steps(start, i) != Steps(start, j)
  {
  }

  /** The next sibling of an ID whose last run is `r` replaces exactly that
      run by its successor and keeps the text before it. */
  lemma IncrementIdOfAppend(p: string, r: string)
    requires IsRun(r) && IsId(p + r)
    requires p != [] ==> IsDigit(p[|p| - 1]) != AllDigits(r)
    ensures IncrementId(p + r) == p + IncrementComponent(r)
  {
    var s := p + r;
    LastRunStartOfAppend(p, r);
    assert s[|p|..] == r;
    var parts := Runs(s);
    var front := parts[..|parts| - 1];
    assert Join(front) + r == p + r;
    assert Join(front) == p by {
      assert Join(front) == (p + r)[..|p|];
    }
    var next := front + [IncrementComponent(r)];
    assert next[..|next| - 1] == front;
  }

  /** A last run `z` steps to `aa` and the text before it is kept, as in
      `1z` to `1aa`. */
  lemma IncrementIdWrapsZ(p: string)
    requires p == [] || (IsId(p) && IsDigit(p[|p| - 1]))
    ensures IsId(p + "z") && IncrementId(p + "z") == p + "aa"
  {
    var r := "z";
    assert IsRun(r) && !AllDigits(r) by { assert !IsDigit(r[0]); }
    assert IsId(p + r) by {
      forall i | 0 <= i < |p + r| ensures IsIdChar((p + r)[i]) {
        if i < |p| {
          assert (p + r)[i] == p[i];
        }
      }
    }
    IncrementIdOfAppend(p, r);
    IncrementComponentExampleWrap();
  }

  /** Worked example: `9` steps to `10`. */
  lemma IncrementIdExampleCarry(id: string)
    requires id == "9"
    ensures IsId(id) && IncrementId(id) == "10"
  {
    assert id == [] + "9";
    IncrementIdOfAppend([], "9");
    IncrementComponentExampleCarry();
  }

  /** Worked example: `1a9` steps to `1a10`, keeping the runs `1` and `a`. */
  lemma IncrementIdExampleNested(id: string)
    requires id == "1a9"
    ensures IsId(id) && IncrementId(id) == "1a10"
  {
    var p, r := "1a", "9";
    assert IsRun(r) && IsDigit(p[|p| - 1]) != AllDigits(r);
    assert id == p + r;
    IncrementIdOfAppend(p, r);
    IncrementComponentExampleCarry();
    assert p + "10" == "1a10";
  }

  /** Worked example: the first child of `3` is `3a`. */
  lemma FirstChildExampleDigit(id: string)
    requires id == "3"
    ensures IsId(id) && FirstChildOf(id) == "3a"
  {
    assert id == [] + "3";
    LastRunStartOfAppend([], "3");
    assert LastRun(id) == id[0..];
    FirstChildRuns(id);
    assert id + "a" == "3a";
  }

  /** Worked example: the first child of `3a` is `3a1`. */
  lemma FirstChildExampleLetter(id: string)
    requires id == "3a"
    ensures IsId(id) && FirstChildOf(id) == "3a1"
  {
    assert id == "3" + "a";
    assert !AllDigits("a") by { assert !IsDigit("a"[0]); }
    LastRunStartOfAppend("3", "a");
    assert LastRun(id) == id[1..] == "a";
    FirstChildRuns(id);
    assert id + "1" == "3a1";
  }

}
