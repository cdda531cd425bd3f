/** The textual shape of a Zettelkasten ID: a non-empty string over [0-9a-z],
    read as alternating maximal runs of digits and lowercase letters
    (`1a2b` is the runs `1`, `a`, `2`, `b`). */
module IdRuns {

  predicate IsDigit(c: char) { '0' <= c <= '9' }

  predicate IsLetter(c: char) { 'a' <= c <= 'z' }

  predicate IsIdChar(c: char) { IsDigit(c) || IsLetter(c) }

  /** A well-formed ID, the stem accepted by the zettel filename pattern. */
  predicate IsId(s: string) {
    |s| > 0 && forall i :: 0 <= i < |s| ==> IsIdChar(s[i])
  }

  predicate AllDigits(s: string) { forall i :: 0 <= i < |s| ==> IsDigit(s[i]) }

  predicate AllLetters(s: string) { forall i :: 0 <= i < |s| ==> IsLetter(s[i]) }

  /** One component of an ID: a non-empty run of a single kind. */
  predicate IsRun(s: string) { |s| > 0 && (AllDigits(s) || AllLetters(s)) }

  /** Runs in this sequence are well-formed and neighbours differ in kind. */
  predicate Alternating(rs: seq<string>) {
    (forall i :: 0 <= i < |rs| ==> IsRun(rs[i])) &&
    (forall i :: 0 <= i < |rs| - 1 ==> AllDigits(rs[i]) != AllDigits(rs[i + 1]))
  }

  /** Concatenation of components, the `join("")` of the source. */
  function Join(rs: seq<string>): string {
    if rs == [] then [] else Join(rs[..|rs| - 1]) + rs[|rs| - 1]
  }

  /** A sequence is its two halves around any cut. */
  lemma SplitAt<T>(s: seq<T>, k: nat)
    requires k <= |s|
    ensures s[..k] + s[k..] == s
  {
  }

  /** A sequence is its front followed by its last element. */
  lemma SplitLast<T>(s: seq<T>)
    requires |s| > 0
    ensures s[..|s| - 1] + [s[|s| - 1]] == s
  {
  }

  /** The two halves of a concatenation are recovered by slicing. */
  lemma AppendParts<T>(p: seq<T>, r: seq<T>)
    ensures (p + r)[..|p|] == p && (p + r)[|p|..] == r
  {
  }

  /** Where the last maximal run of `s` begins. */
  function LastRunStart(s: string): (k: nat)
    requires IsId(s)
    ensures k < |s|
    ensures forall i :: k <= i < |s| ==> IsDigit(s[i]) == IsDigit(s[|s| - 1])
    ensures k > 0 ==> IsDigit(s[k - 1]) != IsDigit(s[|s| - 1])
    decreases |s|
  {
    if |s| == 1 then 0
    else if IsDigit(s[|s| - 2]) == IsDigit(s[|s| - 1]) then LastRunStart(s[..|s| - 1])
    else |s| - 1
  }

  /** Every character of the last run is an ID character of the kind of the
      last character. */
  lemma LastRunChars(s: string)
    requires IsId(s)
    ensures forall i :: 0 <= i < |s[LastRunStart(s)..]| ==>
      IsIdChar(s[LastRunStart(s)..][i]) && IsDigit(s[LastRunStart(s)..][i]) == IsDigit(s[|s| - 1])
  {
    var k := LastRunStart(s);
    forall i | 0 <= i < |s[k..]|
      ensures IsIdChar(s[k..][i]) && IsDigit(s[k..][i]) == IsDigit(s[|s| - 1])
    {
      assert s[k..][i] == s[k + i];
    }
  }

  /** The last maximal run of an ID is a run of the kind of its last
      character. */
  lemma LastRunKind(s: string)
    requires IsId(s)
    ensures IsRun(s[LastRunStart(s)..])
    ensures AllDigits(s[LastRunStart(s)..]) == IsDigit(s[|s| - 1])
  {
    var r := s[LastRunStart(s)..];
    LastRunChars(s);
    if IsDigit(s[|s| - 1]) {
      assert AllDigits(r);
    } else {
      assert AllLetters(r);
      assert !IsDigit(r[|r| - 1]);
    }
  }

  /** Appending a run of the other kind keeps runs alternating. */
  lemma AlternatingSnoc(rs: seq<string>, x: string)
    requires |rs| > 0 && Alternating(rs)
    requires IsRun(x) && AllDigits(rs[|rs| - 1]) != AllDigits(x)
    ensures Alternating(rs + [x])
  {
    var next := rs + [x];
    forall i | 0 <= i < |next| - 1
      ensures AllDigits(next[i]) != AllDigits(next[i + 1])
    {
      if i < |rs| - 1 {
        assert AllDigits(rs[i]) != AllDigits(rs[i + 1]);
      }
    }
  }

  /** The last run of an ID and the last run of what precedes it differ
      in kind. */
  lemma LastRunsDiffer(s: string, k: nat)
    requires IsId(s) && k == LastRunStart(s) && k > 0 && IsId(s[..k])
    ensures IsRun(s[k..])
    ensures AllDigits(s[..k][LastRunStart(s[..k])..]) != AllDigits(s[k..])
  {
    LastRunKind(s);
    LastRunKind(s[..k]);
    assert s[..k][k - 1] == s[k - 1];
  }

  lemma JoinSnoc(rs: seq<string>, x: string)
    ensures Join(rs + [x]) == Join(rs) + x
  {
    assert (rs + [x])[..|rs|] == rs;
  }

  /** The maximal runs of an ID, left to right: the global match of
      `[0-9]+|[a-z]+` over it. */
  function Runs(s: string): (rs: seq<string>)
    requires IsId(s)
    ensures |rs| > 0 && Alternating(rs) && Join(rs) == s
    ensures rs[|rs| - 1] == s[LastRunStart(s)..]
    decreases |s|
  {
    var k := LastRunStart(s);
    if k == 0 then
      LastRunKind(s);
      assert s[0..] == s;
      assert Join([s]) == Join([]) + s;
      [s]
    else
      var init := s[..k];
      assert IsId(init) by {
        assert forall i :: 0 <= i < k ==> init[i] == s[i];
      }
      var front := Runs(init);
      LastRunsDiffer(s, k);
      AlternatingSnoc(front, s[k..]);
      JoinSnoc(front, s[k..]);
      SplitAt(s, k);
      front + [s[k..]]
  }

  /** The last maximal run of an ID. */
  function LastRun(s: string): (r: string)
    requires IsId(s)
    ensures IsRun(r) && AllDigits(r) == IsDigit(s[|s| - 1])
  {
    LastRunKind(s);
    s[LastRunStart(s)..]
  }

  /** The ID of the parent note: what precedes the last run (empty for a
      root). */
  function ParentId(s: string): string
    requires IsId(s)
  {
    s[..LastRunStart(s)]
  }

  /** The parent is every run but the last, joined. */
  lemma ParentIdRuns(s: string)
    requires IsId(s)
    ensures ParentId(s) == Join(Runs(s)[..|Runs(s)| - 1])
  {
    var rs := Runs(s);
    var front := Join(rs[..|rs| - 1]);
    assert s == front + rs[|rs| - 1];
    AppendParts(front, rs[|rs| - 1]);
  }

  lemma {:induction false} JoinEnds(rs: seq<string>)
    requires |rs| > 0 && IsRun(rs[|rs| - 1])
    ensures |Join(rs)| >= |rs[|rs| - 1]|
    ensures Join(rs)[|Join(rs)| - 1] == rs[|rs| - 1][|rs[|rs| - 1]| - 1]
  {
  }

  /** Alternating runs always join to a well-formed ID. */
  lemma {:induction false} JoinIsId(rs: seq<string>)
    requires |rs| > 0 && Alternating(rs)
    ensures IsId(Join(rs))
    decreases |rs|
  {
    var last := rs[|rs| - 1];
    if |rs| > 1 {
      JoinIsId(rs[..|rs| - 1]);
    }
    var j := Join(rs);
    assert j == Join(rs[..|rs| - 1]) + last;
    forall i | 0 <= i < |j| ensures IsIdChar(j[i]) {
      if i >= |Join(rs[..|rs| - 1])| {
        assert j[i] == last[i - |Join(rs[..|rs| - 1])|];
      }
    }
  }

  /** Appending a run to a string that ends in the other kind starts a new
      last run exactly at the seam. */
  lemma LastRunStartOfAppend(p: string, r: string)
    requires IsRun(r) && IsId(p + r)
    requires p != [] ==> IsDigit(p[|p| - 1]) != AllDigits(r)
    ensures LastRunStart(p + r) == |p|
  {
    var s := p + r;
    var k := LastRunStart(s);
    var kind := AllDigits(r);
    assert IsDigit(s[|s| - 1]) == kind by {
      assert s[|s| - 1] == r[|r| - 1];
    }
    assert k >= |p| by {
      if p != [] {
        assert s[|p| - 1] == p[|p| - 1];
      }
    }
    assert k <= |p| by {
      assert forall i :: |p| <= i < |s| ==> IsDigit(s[i]) == kind by {
        forall i | |p| <= i < |s| ensures IsDigit(s[i]) == kind {
          assert s[i] == r[i - |p|];
        }
      }
    }
  }

  /** The parent of an ID is empty or a well-formed ID whose last character
      differs in kind from the ID's last character. */
  lemma ParentIdEnds(s: string)
    requires IsId(s)
    ensures ParentId(s) != [] ==> IsId(ParentId(s))
    ensures ParentId(s) != [] ==> IsDigit(ParentId(s)[|ParentId(s)| - 1]) != IsDigit(s[|s| - 1])
  {
    var p := ParentId(s);
    assert forall i :: 0 <= i < |p| ==> p[i] == s[i];
  }

  /** Appending a run of the other kind to a parent gives an ID whose parent
      and last run are exactly the two parts. */
  lemma AppendRun(p: string, r: string)
    requires p == [] || IsId(p)
    requires IsRun(r)
    requires p != [] ==> IsDigit(p[|p| - 1]) != AllDigits(r)
    ensures IsId(p + r) && ParentId(p + r) == p && LastRun(p + r) == r
  {
    assert IsId(p + r) by {
      forall i | 0 <= i < |p + r| ensures IsIdChar((p + r)[i]) {
        if i < |p| {
          assert (p + r)[i] == p[i];
        } else {
          assert (p + r)[i] == r[i - |p|];
        }
      }
    }
    LastRunStartOfAppend(p, r);
    AppendParts(p, r);
  }

  /** Splitting is the inverse of joining: any sequence of alternating runs
      is recovered from its concatenation, so `Runs` is the unique maximal-run
      decomposition of an ID. */
  lemma {:induction false} RunsOfJoin(rs: seq<string>)
    requires |rs| > 0 && Alternating(rs)
    ensures IsId(Join(rs)) && Runs(Join(rs)) == rs
    decreases |rs|
  {
    JoinIsId(rs);
    var front := rs[..|rs| - 1];
    var last := rs[|rs| - 1];
    var p := Join(front);
    var s := Join(rs);
    assert s == p + last;
    SplitLast(rs);
    if |rs| == 1 {
      assert front == [];
      AppendParts(p, last);
      LastRunStartOfAppend(p, last);
    } else {
      JoinIsId(front);
      JoinEnds(front);
      assert AllDigits(front[|front| - 1]) != AllDigits(last);
      var pl := front[|front| - 1];
      assert IsDigit(p[|p| - 1]) == AllDigits(pl) by {
        assert p[|p| - 1] == pl[|pl| - 1];
      }
      LastRunStartOfAppend(p, last);
      RunsOfJoin(front);
      AppendParts(p, last);
    }
  }

  /** The split of an ID joins back to the ID: the anchored pattern
      `((?:[0-9]+|[a-z]+)+)` accepts exactly the well-formed IDs. */
  lemma {:induction false} IdIffRuns(s: string)
    ensures IsId(s) <==> exists rs :: |rs| > 0 && Alternating(rs) && Join(rs) == s
  {
    if IsId(s) {
      var rs := Runs(s);
      assert |rs| > 0 && Alternating(rs) && Join(rs) == s;
    }
    if exists rs :: |rs| > 0 && Alternating(rs) && Join(rs) == s {
      var rs :| |rs| > 0 && Alternating(rs) && Join(rs) == s;
      JoinIsId(rs);
    }
  }
}
