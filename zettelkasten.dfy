/** The vault side of the plugin: which basenames are taken, the search for
    the first free ID, and the creation of sibling and child notes. */
module Zettelkasten {
  import opened IdRuns
  import opened Components
  import opened IdAlgebra

  datatype Option<T> = None | Some(value: T)

  /** Which ID generator a command runs. */
  datatype NoteKind = Sibling | Child

  /** Where the last dot of `s` is, or -1 when there is none. */
  function LastDot(s: string): (i: int)
    ensures -1 <= i < |s|
    ensures i >= 0 ==> s[i] == '.'
    ensures forall j :: i < j < |s| ==> s[j] != '.'
  {
    if s == [] then -1
    else if s[|s| - 1] == '.' then |s| - 1
    else LastDot(s[..|s| - 1])
  }

  /** A file of the vault: the folder holding it and its name. The model
      assumes that the host's `basename` is what precedes the last dot of the
      name and its `extension` what follows it. */
  datatype TFile = TFile(folder: string, name: string) {
    function Basename(): string {
      if LastDot(name) < 0 then name else name[..LastDot(name)]
    }

    function Extension(): string {
      if LastDot(name) < 0 then "" else name[LastDot(name) + 1..]
    }

    function Path(): string {
      folder + "/" + name
    }
  }

  /** isZettelFile: the name matches `^((?:[0-9]+|[a-z]+)+)\.md$`, that is
      a well-formed ID followed by `.md`. */
  predicate IsZettelFile(name: string)
    ensures IsZettelFile(name) ==> |name| >= 4 && LastDot(name) == |name| - 3
  {
    if |name| >= 3 && name[|name| - 3..] == ".md" && IsId(name[..|name| - 3]) then
      assert name == name[..|name| - 3] + ".md";
      LastDotOfNoteName(name[..|name| - 3]);
      true
    else
      false
  }

  /** In `<id>.md` the last dot is the one before `md`: an ID has no dot. */
  lemma LastDotOfNoteName(id: string)
    requires IsId(id)
    ensures LastDot(id + ".md") == |id|
  {
    var name := id + ".md";
    assert name[..|id|] == id && name[|id|..] == ".md";
    assert name[|id|] == '.';
    assert '.' !in id by {
      forall j | 0 <= j < |id| ensures id[j] != '.' {
        assert IsIdChar(id[j]);
      }
    }
  }

  /** A markdown file named after an ID has that ID as its basename. */
  lemma NoteFileOfId(folder: string, id: string)
    requires IsId(id)
    ensures TFile(folder, id + ".md").Basename() == id
    ensures TFile(folder, id + ".md").Extension() == "md"
    ensures IsZettelFile(id + ".md")
  {
    var name := id + ".md";
    LastDotOfNoteName(id);
    assert name[..|id|] == id && name[|id|..] == ".md";
  }

  /** A file is a zettel exactly when it is a markdown file whose basename
      is a well-formed ID, and that basename is the ID. */
  lemma ZettelFileIff(f: TFile)
    ensures IsZettelFile(f.name) <==> f.Extension() == "md" && IsId(f.Basename())
  {
    if IsZettelFile(f.name) {
      var id := f.name[..|f.name| - 3];
      assert f.name == id + ".md";
      NoteFileOfId(f.folder, id);
    }
    if f.Extension() == "md" && IsId(f.Basename()) {
      var d := LastDot(f.name);
      assert d >= 0;
      assert f.name == f.Basename() + ".md" by {
        assert f.name == f.name[..d] + "." + f.name[d + 1..];
      }
    }
  }

  /** `getMarkdownFiles().filter(file => file.basename == id)`. */
  function MatchingFiles(files: seq<TFile>, id: string): (r: seq<TFile>)
    ensures forall f :: f in r <==> f in files && f.Extension() == "md" && f.Basename() == id
    ensures |r| <= |files|
  {
    if files == [] then []
    else
      var last := files[|files| - 1];
      var init := files[..|files| - 1];
      var front := MatchingFiles(init, id);
      assert forall f :: f in files <==> f in init || f == last by {
        assert files == init + [last];
      }
      if last.Extension() == "md" && last.Basename() == id then front + [last] else front
  }

  /** The basenames of the markdown files of the vault. */
  function MarkdownBasenames(files: seq<TFile>): (names: set<string>)
    ensures forall x :: x in names <==> exists f :: f in files && f.Extension() == "md" && f.Basename() == x
    ensures |names| <= |files|
  {
    if files == [] then {}
    else
      var last := files[|files| - 1];
      var init := files[..|files| - 1];
      var front := MarkdownBasenames(init);
      assert forall f :: f in files <==> f in init || f == last by {
        assert files == init + [last];
      }
      if last.Extension() == "md" then front + {last.Basename()} else front
  }

  /** `id` is what the collision search returns from `start`: reached by
      some number of increments, free, and every earlier candidate taken. */
  ghost predicate IsFirstAvailable(names: set<string>, start: string, id: string)
    requires IsId(start)
  {
    exists k: nat :: id == Steps(start, k) && id !in names &&
      forall j :: 0 <= j < k ==> Steps(start, j) in names
  }

  /** The search result is determined by the taken names and the start. */
  lemma FirstAvailableUnique(names: set<string>, start: string, a: string, b: string)
    requires IsId(start)
    requires IsFirstAvailable(names, start, a) && IsFirstAvailable(names, start, b)
    ensures a == b
  {
    var ka: nat :| a == Steps(start, ka) && a !in names &&
      forall j :: 0 <= j < ka ==> Steps(start, j) in names;
    var kb: nat :| b == Steps(start, kb) && b !in names &&
      forall j :: 0 <= j < kb ==> Steps(start, j) in names;
  }

  /** firstAvailableID as a recursive function: from `id`, with at most
      `bound` further increments, the first candidate that is not a taken
      name. It moves past `id` only when `id` is taken. */
  function FirstAvailableFrom(names: set<string>, id: string, bound: nat): (r: string)
    requires IsId(id)
    ensures IsId(r)
    ensures r != id ==> id in names
    decreases bound
  {
    if id !in names || bound == 0 then id
    else FirstAvailableFrom(names, IncrementId(id), bound - 1)
  }

  /** The search stays among the siblings of its start and never goes
      back in rank. */
  lemma FirstAvailableFromKeepsParent(names: set<string>, id: string, bound: nat)
    requires IsId(id)
    ensures ParentId(FirstAvailableFrom(names, id, bound)) == ParentId(id)
    ensures Rank(FirstAvailableFrom(names, id, bound)) >= Rank(id)
    decreases bound
  {
    if id in names && bound > 0 {
      FirstAvailableFromKeepsParent(names, IncrementId(id), bound - 1);
    }
  }

  /** The search from `start` with one step per taken name, which is always
      enough (`FirstAvailableIsFirst`). */
  function FirstAvailable(names: set<string>, start: string): (r: string)
    requires IsId(start)
    ensures IsId(r) && ParentId(r) == ParentId(start) && Rank(r) >= Rank(start)
    ensures r != start ==> start in names
  {
    FirstAvailableFromKeepsParent(names, start, |names|);
    FirstAvailableFrom(names, start, |names|)
  }

  /** What the collision search knows after `k` candidates: the current one
      is the `k`-th, and the `k` candidates passed, all of lower rank, are
      taken. */
  ghost predicate SearchInvariant(names: set<string>, start: string, k: nat, id: string, visited: set<string>)
  {
    IsId(start) && id == Steps(start, k) &&
    visited <= names && |visited| == k &&
    (forall v :: v in visited ==> IsId(v) && Rank(v) < Rank(start) + k) &&
    (forall j :: 0 <= j < k ==> Steps(start, j) in names)
  }

  /** Visiting one more taken name leaves fewer taken names unvisited. */
  lemma VisitOne<T>(names: set<T>, visited: set<T>, x: T)
    requires visited <= names && x in names && x !in visited
    ensures visited + {x} <= names && |visited + {x}| == |visited| + 1
    ensures |names - (visited + {x})| < |names - visited|
  {
    assert names - visited == (names - (visited + {x})) + {x};
  }

  /** A name of the next rank is new, and the bound moves up by one. */
  lemma VisitBelow(visited: set<string>, id: string, b: nat)
    requires forall v :: v in visited ==> IsId(v) && Rank(v) < b
    requires IsId(id) && Rank(id) == b
    ensures id !in visited
    ensures forall v :: v in visited + {id} ==> IsId(v) && Rank(v) < b + 1
  {
  }

  /** One step of the search past a taken candidate keeps the invariant. */
  lemma SearchStep(names: set<string>, start: string, k: nat, id: string, visited: set<string>)
    requires SearchInvariant(names, start, k, id, visited) && id in names
    ensures SearchInvariant(names, start, k + 1, IncrementId(id), visited + {id})
    ensures k + 1 <= |names|
  {
    VisitBelow(visited, id, Rank(start) + k);
    StepsUnfold(start, k + 1);
    VisitOne(names, visited, id);
    SubsetCard(visited + {id}, names);
    forall j | 0 <= j < k + 1 ensures Steps(start, j) in names {
      if j == k {
        assert Steps(start, j) == id;
      }
    }
  }

  /** When the search stops at a free candidate, that candidate is the first
      available one, and the search passed at most one candidate per name. */
  lemma SearchDone(names: set<string>, start: string, k: nat, id: string, visited: set<string>)
    requires SearchInvariant(names, start, k, id, visited) && id !in names
    ensures IsFirstAvailable(names, start, id)
    ensures k <= |names|
    ensures ParentId(id) == ParentId(start) && Rank(id) >= Rank(start)
    ensures id == start <==> k == 0
  {
    SubsetCard(visited, names);
    if k > 0 {
      StepsDistinct(start, 0, k);
    }
  }

  /** Continuing the search from its `k`-th candidate with the steps left
      reaches a free name, and that name is the first available one. */
  lemma {:induction false} SearchReachesFree(names: set<string>, start: string, k: nat, id: string, visited: set<string>, bound: nat)
    requires SearchInvariant(names, start, k, id, visited) && k + bound == |names|
    ensures FirstAvailableFrom(names, id, bound) !in names
    ensures IsFirstAvailable(names, start, FirstAvailableFrom(names, id, bound))
    decreases bound
  {
    if id !in names {
      SearchDone(names, start, k, id, visited);
    } else {
      SearchStep(names, start, k, id, visited);
      SearchReachesFree(names, start, k + 1, IncrementId(id), visited + {id}, bound - 1);
    }
  }

  /** One step per taken name suffices: the search function returns a free
      name, the first one reached from `start`. */
  lemma FirstAvailableIsFirst(names: set<string>, start: string)
    requires IsId(start)
    ensures FirstAvailable(names, start) !in names
    ensures IsFirstAvailable(names, start, FirstAvailable(names, start))
  {
    SearchReachesFree(names, start, 0, start, {}, |names|);
  }

  /** Before the first step, the start is the only candidate seen. */
  lemma SearchStart(names: set<string>, start: string)
    requires IsId(start)
    ensures SearchInvariant(names, start, 0, start, {})
  {
  }

  /** Where the loop stops is what the search function returns. */
  lemma SearchFinds(names: set<string>, start: string, k: nat, id: string, visited: set<string>)
    requires SearchInvariant(names, start, k, id, visited) && id !in names
    ensures id == FirstAvailable(names, start)
    ensures start !in names ==> id == start
  {
    SearchDone(names, start, k, id, visited);
    FirstAvailableIsFirst(names, start);
    FirstAvailableUnique(names, start, id, FirstAvailable(names, start));
  }

  /** The ID a note command picks for the note `b`: the first free
      candidate from its next sibling or from its first child. */
  function NextNoteId(names: set<string>, b: string, kind: NoteKind): (r: string)
    requires IsId(b)
    ensures IsId(r) && r !in names
    ensures kind == Sibling ==> ParentId(r) == ParentId(b) && Rank(r) > Rank(b)
    ensures kind == Child ==> ParentId(r) == b
  {
    match kind
    case Sibling =>
      FirstAvailableIsFirst(names, IncrementId(b));
      FirstAvailable(names, IncrementId(b))
    case Child =>
      FirstChildParent(b);
      FirstAvailableIsFirst(names, FirstChildOf(b));
      FirstAvailable(names, FirstChildOf(b))
  }

  /** The vault the plugin works on: the files the host reports. */
  class Vault {
    var files: seq<TFile>
    /** The text on the system clipboard. */
    var clipboard: string

    constructor (files: seq<TFile>, clipboard: string)
      ensures this.files == files && this.clipboard == clipboard
    {
      this.files := files;
      this.clipboard := clipboard;
    }

    /** copyToClipboard: the clipboard now holds `data`. */
    method CopyToClipboard(data: string)
      modifies this`clipboard
      ensures clipboard == data
    {
      clipboard := data;
    }

    /** idExists: some markdown file has `id` as its basename. */
    predicate IdExists(id: string)
      reads this
      ensures IdExists(id) <==> id in MarkdownBasenames(files)
    {
      var matching := MatchingFiles(files, id);
      assert |matching| != 0 ==> matching[0] in matching;
      |matching| != 0
    }

    /** firstAvailableID: increment `start` until no markdown file has the
        candidate as its basename. The loop visits at most one candidate per
        file, since the candidates are distinct and each one it passes is
        taken. */
    method FirstAvailableId(start: string) returns (id: string)
      requires IsId(start)
      ensures id == FirstAvailable(MarkdownBasenames(files), start)
      ensures IsId(id) && !IdExists(id)
      ensures !IdExists(start) ==> id == start
    {
      id := start;
      ghost var names := MarkdownBasenames(files);
      ghost var k: nat := 0;
      ghost var visited: set<string> := {};
      SearchStart(names, start);
      while IdExists(id)
        invariant SearchInvariant(names, start, k, id, visited) && k <= |names|
        decreases |names| - k
      {
        SearchStep(names, start, k, id, visited);
        visited := visited + {id};
        id := IncrementId(id);
        k := k + 1;
      }
      SearchFinds(names, start, k, id, visited);
    }

    /** makeNote: the host creates the markdown file at `folder` named
        `basename.md`. */
    method MakeNote(folder: string, basename: string)
      modifies this`files
      ensures files == old(files) + [TFile(folder, basename + ".md")]
      ensures files[|files| - 1].Path() == folder + "/" + basename + ".md"
    {
      files := files + [TFile(folder, basename + ".md")];
      assert folder + "/" + (basename + ".md") == folder + "/" + basename + ".md";
    }

    /** makeNoteForNextSiblingOf: the first free ID after the sibling's,
        created in `folder` (the host's parent folder for new files). */
    method MakeNoteForNextSiblingOf(sibling: TFile, folder: string) returns (nextId: string)
      requires IsId(sibling.Basename())
      modifies this`files
      ensures IsId(nextId)
      ensures nextId == FirstAvailable(MarkdownBasenames(old(files)), IncrementId(sibling.Basename()))
      ensures !old(IdExists(nextId)) && IdExists(nextId)
      ensures ParentId(nextId) == ParentId(sibling.Basename())
      ensures Rank(nextId) > Rank(sibling.Basename())
      ensures files == old(files) + [TFile(folder, nextId + ".md")]
      ensures files[|files| - 1].Path() == folder + "/" + nextId + ".md"
    {
      var start := IncrementId(sibling.Basename());
      IncrementIdRuns(sibling.Basename());
      nextId := FirstAvailableId(start);
      assert !IdExists(nextId);
      ghost var before := files;
      MakeNote(folder, nextId);
      NewFileTakesId(before, folder, nextId);
      assert IdExists(nextId);
    }

    /** makeNoteForNextChildOf: the first free ID from the parent's first
        child, created in `folder`. */
    method MakeNoteForNextChildOf(parent: TFile, folder: string) returns (childId: string)
      requires IsId(parent.Basename())
      modifies this`files
      ensures IsId(childId)
      ensures childId == FirstAvailable(MarkdownBasenames(old(files)), FirstChildOf(parent.Basename()))
      ensures !old(IdExists(childId)) && IdExists(childId)
      ensures ParentId(childId) == parent.Basename()
      ensures files == old(files) + [TFile(folder, childId + ".md")]
      ensures files[|files| - 1].Path() == folder + "/" + childId + ".md"
    {
      var start := FirstChildOf(parent.Basename());
      FirstChildParent(parent.Basename());
      childId := FirstAvailableId(start);
      assert !IdExists(childId);
      ghost var before := files;
      MakeNote(folder, childId);
      NewFileTakesId(before, folder, childId);
      assert IdExists(childId);
    }

    /** The ID generator a command passes to makeNoteFunction, applied to
        the active zettel: create its next sibling or its first child. */
    method GenerateId(kind: NoteKind, file: TFile, folder: string) returns (nextId: string)
      requires IsId(file.Basename())
      modifies this`files
      ensures nextId == NextNoteId(MarkdownBasenames(old(files)), file.Basename(), kind)
      ensures nextId !in MarkdownBasenames(old(files)) && IsZettelFile(nextId + ".md")
      ensures files == old(files) + [TFile(folder, nextId + ".md")]
    {
      match kind {
        case Sibling =>
          nextId := MakeNoteForNextSiblingOf(file, folder);
        case Child =>
          nextId := MakeNoteForNextChildOf(file, folder);
      }
      NoteFileOfId(folder, nextId);
    }

    /** makeNoteFunction: for the active file, when its name is a zettel
        name, create the sibling or child note and copy the link text
        `[[id]]` to the clipboard; otherwise change nothing. */
    method MakeNoteFunction(active: Option<TFile>, kind: NoteKind, folder: string)
      modifies this
      ensures !(active.Some? && IsZettelFile(active.value.name)) ==>
        files == old(files) && clipboard == old(clipboard)
      ensures active.Some? && IsZettelFile(active.value.name) ==>
        IsId(active.value.Basename()) &&
        var id := NextNoteId(MarkdownBasenames(old(files)), active.value.Basename(), kind);
        id !in MarkdownBasenames(old(files)) && IsZettelFile(id + ".md") &&
        files == old(files) + [TFile(folder, id + ".md")] &&
        clipboard == "[[" + id + "]]"
    {
      if active.Some? {
        var file := active.value;
        if IsZettelFile(file.name) {
          ZettelFileIff(file);
          var nextId := GenerateId(kind, file, folder);
          CopyToClipboard("[[" + nextId + "]]");
        }
      }
    }
  }

  lemma {:induction false} SubsetCard<T>(a: set<T>, b: set<T>)
    requires a <= b
    ensures |a| <= |b|
    decreases |a|
  {
    if a != {} {
      var x :| x in a;
      SubsetCard(a - {x}, b - {x});
    }
  }

  /** Adding the markdown file `id.md` makes `id` a taken basename. */
  lemma NewFileTakesId(files: seq<TFile>, folder: string, id: string)
    requires IsId(id)
    ensures id in MarkdownBasenames(files + [TFile(folder, id + ".md")])
    ensures MarkdownBasenames(files + [TFile(folder, id + ".md")]) == MarkdownBasenames(files) + {id}
  {
    NoteFileOfId(folder, id);
    var f := TFile(folder, id + ".md");
    assert f in files + [f];
    var after := files + [f];
    forall x: string ensures x in MarkdownBasenames(after) <==> x in MarkdownBasenames(files) + {id} {
      if x in MarkdownBasenames(after) && x != id {
        var g :| g in after && g.Extension() == "md" && g.Basename() == x;
        assert g in files;
      }
      if x in MarkdownBasenames(files) {
        var g :| g in files && g.Extension() == "md" && g.Basename() == x;
        assert g in after;
      }
    }
  }
}
