/**
 * The recursive walk over a repository's contents listing that the three
 * remote scripts share (`process_contents`): directories are entered with
 * `path + "/"` as the new parent path, and the items a script wants are
 * wrapped in a described block and appended to the output in listing order.
 * The scripts differ in which directories they skip and which items they
 * keep; `Variant` names the three choices.
 */
module RepoWalk {
  import opened Strings
  import opened Blocks

  /** One entry of a contents listing, with what the listing request for a
      directory and the download of a file return already in place:
      `type == 'dir'`, `type == 'file'`, or any other type (symlink,
      submodule), which the first script downloads like a file. */
  datatype Item =
    | Dir(name: string, children: seq<Item>)
    | File(name: string, content: string)
    | Other(name: string, content: string)

  /** Every non-directory item; `.py` files outside the excluded directory
      names; `.md` files outside the excluded directory names. */
  datatype Variant =
    | AllDocuments
    | PythonFiles(exclude: seq<string>)
    | MarkdownFiles(exclude: seq<string>)

  /** The directory names a variant does not enter. */
  function Excluded(v: Variant): seq<string>
  {
    if v.AllDocuments? then [] else v.exclude
  }

  /** The header of the block a variant writes. */
  function Header(v: Variant): string
  {
    match v
    case AllDocuments => DocumentHeader
    case PythonFiles(_) => PythonHeader
    case MarkdownFiles(_) => MarkdownHeader
  }

  /** The path suffix a filtering variant keeps. */
  function Suffix(v: Variant): string
  {
    match v
    case AllDocuments => ""
    case PythonFiles(_) => ".py"
    case MarkdownFiles(_) => ".md"
  }

  /** What a non-directory item at `path` contributes: the first script keeps
      every such item, the other two only files whose path has their suffix. */
  function Emit(v: Variant, isFile: bool, path: string, content: string): seq<string>
  {
    match v
    case AllDocuments => [Described(DocumentHeader, path, content)]
    case PythonFiles(_) =>
      if isFile && EndsWith(path, ".py") then [Described(PythonHeader, path, content)] else []
    case MarkdownFiles(_) =>
      if isFile && EndsWith(path, ".md") then [Described(MarkdownHeader, path, content)] else []
  }

  /** The documents `process_contents` appends for `items` listed under
      `parent`, item by item, as the recursion visits them. */
  function Walk(v: Variant, items: seq<Item>, parent: string): seq<string>
    decreases items
  {
    if items == [] then [] else WalkItem(v, items[0], parent) + Walk(v, items[1..], parent)
  }

  /** The documents one listed item contributes. */
  function WalkItem(v: Variant, it: Item, parent: string): seq<string>
    decreases it
  {
    match it
    case Dir(n, cs) => if n in Excluded(v) then [] else Walk(v, cs, parent + n + "/")
    case File(n, c) => Emit(v, true, parent + n, c)
    case Other(n, c) => Emit(v, false, parent + n, c)
  }

  // ---------------------------------------------------------------------
  // A reference description: the leaves of the tree, filtered, then wrapped.

  /** A non-directory item, with the directory names above it (below the
      walk's root). */
  datatype Leaf = Leaf(dirs: seq<string>, name: string, isFile: bool, content: string)

  /** The directory part of a path: each name followed by a slash. */
  function DirPrefix(dirs: seq<string>): string
  {
    if dirs == [] then "" else dirs[0] + "/" + DirPrefix(dirs[1..])
  }

  /** The path of a leaf, as the walk builds it from `parent`. */
  function PathOf(parent: string, l: Leaf): string
  {
    parent + DirPrefix(l.dirs) + l.name
  }

  /** A leaf one directory `d` further down. */
  function Down(d: string, l: Leaf): Leaf
  {
    l.(dirs := [d] + l.dirs)
  }

  /** Moves leaves one directory `d` down. */
  function Under(d: string, ls: seq<Leaf>): seq<Leaf>
  {
    seq(|ls|, k requires 0 <= k < |ls| => Down(d, ls[k]))
  }

  /** The leaves of a listing in depth-first listing order, not entering the
      directories named in `exclude`. */
  function Leaves(items: seq<Item>, exclude: seq<string>): seq<Leaf>
    decreases items
  {
    if items == [] then [] else ItemLeaves(items[0], exclude) + Leaves(items[1..], exclude)
  }

  /** The leaves of one listed item. */
  function ItemLeaves(it: Item, exclude: seq<string>): seq<Leaf>
    decreases it
  {
    match it
    case Dir(n, cs) => if n in exclude then [] else Under(n, Leaves(cs, exclude))
    case File(n, c) => [Leaf([], n, true, c)]
    case Other(n, c) => [Leaf([], n, false, c)]
  }

  /** No directory above the leaf is excluded. */
  predicate Clean(l: Leaf, exclude: seq<string>)
  {
    forall k :: 0 <= k < |l.dirs| ==> l.dirs[k] !in exclude
  }

  /** The leaves outside every excluded directory, in order. */
  function Filter(ls: seq<Leaf>, exclude: seq<string>): (r: seq<Leaf>)
    ensures |r| <= |ls|
    ensures forall k :: 0 <= k < |r| ==> Clean(r[k], exclude) && r[k] in ls
    ensures forall k :: 0 <= k < |ls| && Clean(ls[k], exclude) ==> ls[k] in r
  {
    if ls == [] then []
    else (if Clean(ls[0], exclude) then [ls[0]] else []) + Filter(ls[1..], exclude)
  }

  /** The leaf is one the variant writes a block for. */
  predicate Wanted(v: Variant, parent: string, l: Leaf)
  {
    v.AllDocuments? || (l.isFile && EndsWith(PathOf(parent, l), Suffix(v)))
  }

  /** The wanted leaves, in order. */
  function Chosen(v: Variant, parent: string, ls: seq<Leaf>): (r: seq<Leaf>)
    ensures |r| <= |ls|
    ensures forall k :: 0 <= k < |r| ==> Wanted(v, parent, r[k]) && r[k] in ls
    ensures forall k :: 0 <= k < |ls| && Wanted(v, parent, ls[k]) ==> ls[k] in r
  {
    if ls == [] then []
    else (if Wanted(v, parent, ls[0]) then [ls[0]] else []) + Chosen(v, parent, ls[1..])
  }

  /** One block per leaf, in order. */
  function Docs(v: Variant, parent: string, ls: seq<Leaf>): seq<string>
  {
    seq(|ls|, k requires 0 <= k < |ls| => Described(Header(v), PathOf(parent, ls[k]), ls[k].content))
  }

  // ---------------------------------------------------------------------
  // Lemmas

  /** Every variant writes exactly the wanted items, each in its own block. */
  lemma EmitWanted(v: Variant, parent: string, l: Leaf)
    requires l.dirs == []
    ensures Emit(v, l.isFile, parent + l.name, l.content)
            == if Wanted(v, parent, l) then [Described(Header(v), PathOf(parent, l), l.content)] else []
  {
    assert PathOf(parent, l) == parent + l.name;
  }

  lemma DocsAppend(v: Variant, parent: string, a: seq<Leaf>, b: seq<Leaf>)
    ensures Docs(v, parent, a + b) == Docs(v, parent, a) + Docs(v, parent, b)
  {
  }

  /** A leaf moved under `d` has the path of the leaf itself under `d/`. */
  lemma PathUnder(parent: string, d: string, l: Leaf)
    ensures PathOf(parent, Down(d, l)) == PathOf(parent + d + "/", l)
  {
    var l' := Down(d, l);
    assert l'.dirs[1..] == l.dirs;
    assert DirPrefix(l'.dirs) == d + "/" + DirPrefix(l.dirs);
  }

  lemma UnderCons(d: string, ls: seq<Leaf>)
    requires ls != []
    ensures Under(d, ls) == [Down(d, ls[0])] + Under(d, ls[1..])
  {
  }

  lemma UnderAppend(d: string, a: seq<Leaf>, b: seq<Leaf>)
    ensures Under(d, a + b) == Under(d, a) + Under(d, b)
  {
  }

  lemma DocsUnder(v: Variant, parent: string, d: string, ls: seq<Leaf>)
    ensures Docs(v, parent, Under(d, ls)) == Docs(v, parent + d + "/", ls)
  {
    forall k | 0 <= k < |ls|
      ensures Docs(v, parent, Under(d, ls))[k] == Docs(v, parent + d + "/", ls)[k]
    {
      PathUnder(parent, d, ls[k]);
    }
  }

  lemma {:induction false} ChosenAppend(v: Variant, parent: string, a: seq<Leaf>, b: seq<Leaf>)
    ensures Chosen(v, parent, a + b) == Chosen(v, parent, a) + Chosen(v, parent, b)
  {
    if a != [] {
      var h := if Wanted(v, parent, a[0]) then [a[0]] else [];
      assert Chosen(v, parent, a + b) == h + Chosen(v, parent, a[1..] + b) by {
        assert (a + b)[0] == a[0];
        assert (a + b)[1..] == a[1..] + b;
      }
      ChosenAppend(v, parent, a[1..], b);
      AppendAssoc(h, Chosen(v, parent, a[1..]), Chosen(v, parent, b));
    } else {
      assert a + b == b;
    }
  }

  /** Moving a leaf under `d` keeps it wanted or unwanted: the suffix test
      is on the path's end. */
  lemma WantedUnder(v: Variant, parent: string, d: string, l: Leaf)
    ensures Wanted(v, parent, Down(d, l)) == Wanted(v, parent + d + "/", l)
  {
    PathUnder(parent, d, l);
  }

  lemma {:induction false} ChosenUnder(v: Variant, parent: string, d: string, ls: seq<Leaf>)
    ensures Chosen(v, parent, Under(d, ls)) == Under(d, Chosen(v, parent + d + "/", ls))
  {
    if ls != [] {
      var p' := parent + d + "/";
      var l0 := ls[0];
      var h := if Wanted(v, p', l0) then [l0] else [];
      var rest := Chosen(v, p', ls[1..]);
      assert Chosen(v, parent, Under(d, ls)) == Under(d, h) + Chosen(v, parent, Under(d, ls[1..])) by {
        UnderCons(d, ls);
        WantedUnder(v, parent, d, l0);
        assert Under(d, ls)[0] == Down(d, l0);
        assert Under(d, ls)[1..] == Under(d, ls[1..]);
        assert Under(d, h) == if Wanted(v, p', l0) then [Down(d, l0)] else [];
      }
      ChosenUnder(v, parent, d, ls[1..]);
      assert Chosen(v, p', ls) == h + rest;
      UnderAppend(d, h, rest);
    }
  }

  /** The walk writes, in order, one block for each wanted leaf outside the
      excluded directories. */
  lemma {:induction false} WalkLeaves(v: Variant, items: seq<Item>, parent: string)
    ensures Walk(v, items, parent) == Docs(v, parent, Chosen(v, parent, Leaves(items, Excluded(v))))
    decreases items
  {
    if items != [] {
      var ex := Excluded(v);
      var hereL, restL := ItemLeaves(items[0], ex), Leaves(items[1..], ex);
      ChosenAppend(v, parent, hereL, restL);
      DocsAppend(v, parent, Chosen(v, parent, hereL), Chosen(v, parent, restL));
      WalkItemLeaves(v, items[0], parent);
      WalkLeaves(v, items[1..], parent);
    }
  }

  /** `WalkLeaves` for one item. */
  lemma {:induction false} WalkItemLeaves(v: Variant, it: Item, parent: string)
    ensures WalkItem(v, it, parent) == Docs(v, parent, Chosen(v, parent, ItemLeaves(it, Excluded(v))))
    decreases it
  {
    var ex := Excluded(v);
    match it {
      case Dir(n, cs) =>
        if n !in ex {
          var p' := parent + n + "/";
          WalkLeaves(v, cs, p');
          ChosenUnder(v, parent, n, Leaves(cs, ex));
          DocsUnder(v, parent, n, Chosen(v, p', Leaves(cs, ex)));
        }
      case File(n, c) =>
        EmitWanted(v, parent, Leaf([], n, true, c));
      case Other(n, c) =>
        EmitWanted(v, parent, Leaf([], n, false, c));
    }
  }

  lemma {:induction false} FilterAppend(a: seq<Leaf>, b: seq<Leaf>, exclude: seq<string>)
    ensures Filter(a + b, exclude) == Filter(a, exclude) + Filter(b, exclude)
  {
    if a != [] {
      var h := if Clean(a[0], exclude) then [a[0]] else [];
      assert Filter(a + b, exclude) == h + Filter(a[1..] + b, exclude) by {
        assert (a + b)[0] == a[0];
        assert (a + b)[1..] == a[1..] + b;
      }
      FilterAppend(a[1..], b, exclude);
      AppendAssoc(h, Filter(a[1..], exclude), Filter(b, exclude));
    } else {
      assert a + b == b;
    }
  }

  /** A leaf moved under `d` is clean exactly when `d` is not excluded and
      the leaf was clean. */
  lemma CleanUnder(d: string, l: Leaf, exclude: seq<string>)
    ensures Clean(Down(d, l), exclude) <==> d !in exclude && Clean(l, exclude)
  {
    var u := Down(d, l);
    assert u.dirs[0] == d;
    if Clean(l, exclude) && d !in exclude {
      forall k | 0 <= k < |u.dirs| ensures u.dirs[k] !in exclude {
        if k > 0 {
          assert u.dirs[k] == l.dirs[k - 1];
        }
      }
    }
    if Clean(u, exclude) {
      forall k | 0 <= k < |l.dirs| ensures l.dirs[k] !in exclude {
        assert l.dirs[k] == u.dirs[k + 1];
      }
    }
  }

  /** Filtering leaves moved under a directory: nothing survives when the
      directory is excluded, and moving commutes with filtering otherwise. */
  lemma {:induction false} FilterUnder(d: string, ls: seq<Leaf>, exclude: seq<string>)
    ensures Filter(Under(d, ls), exclude)
            == if d in exclude then [] else Under(d, Filter(ls, exclude))
  {
    if ls != [] {
      var l0 := ls[0];
      var h := if Clean(l0, exclude) then [l0] else [];
      var rest := Filter(ls[1..], exclude);
      assert Filter(Under(d, ls), exclude)
             == (if d in exclude then [] else Under(d, h)) + Filter(Under(d, ls[1..]), exclude) by {
        UnderCons(d, ls);
        CleanUnder(d, l0, exclude);
        assert Under(d, ls)[0] == Down(d, l0);
        assert Under(d, ls)[1..] == Under(d, ls[1..]);
        assert Under(d, h) == if Clean(l0, exclude) then [Down(d, l0)] else [];
      }
      FilterUnder(d, ls[1..], exclude);
      if d !in exclude {
        assert Filter(ls, exclude) == h + rest;
        UnderAppend(d, h, rest);
      }
    }
  }

  /** Skipping excluded directories during the walk leaves out exactly the
      leaves with an excluded directory above them, at any depth. */
  lemma {:induction false} LeavesFilter(items: seq<Item>, exclude: seq<string>)
    ensures Leaves(items, exclude) == Filter(Leaves(items, []), exclude)
    decreases items
  {
    if items != [] {
      FilterAppend(ItemLeaves(items[0], []), Leaves(items[1..], []), exclude);
      ItemLeavesFilter(items[0], exclude);
      LeavesFilter(items[1..], exclude);
    }
  }

  /** `LeavesFilter` for one item. */
  lemma {:induction false} ItemLeavesFilter(it: Item, exclude: seq<string>)
    ensures ItemLeaves(it, exclude) == Filter(ItemLeaves(it, []), exclude)
    decreases it
  {
    match it {
      case Dir(n, cs) =>
        FilterUnder(n, Leaves(cs, []), exclude);
        if n !in exclude {
          LeavesFilter(cs, exclude);
        }
      case File(n, c) =>
        assert Clean(Leaf([], n, true, c), exclude);
      case Other(n, c) =>
        assert Clean(Leaf([], n, false, c), exclude);
    }
  }

  /** The whole walk against the reference description: take every leaf of
      the tree in depth-first listing order, drop those under an excluded
      directory name, keep those the variant wants, and write one block per
      leaf. */
  lemma WalkDocuments(v: Variant, items: seq<Item>, parent: string)
    ensures Walk(v, items, parent)
            == Docs(v, parent, Chosen(v, parent, Filter(Leaves(items, []), Excluded(v))))
  {
    WalkLeaves(v, items, parent);
    LeavesFilter(items, Excluded(v));
  }

  /** The first script wants every leaf. */
  lemma {:induction false} ChosenAll(parent: string, ls: seq<Leaf>)
    ensures Chosen(AllDocuments, parent, ls) == ls
  {
    if ls != [] {
      ChosenAll(parent, ls[1..]);
      assert [ls[0]] + ls[1..] == ls;
    }
  }

  /** With nothing excluded every leaf is kept. */
  lemma {:induction false} FilterNone(ls: seq<Leaf>)
    ensures Filter(ls, []) == ls
  {
    if ls != [] {
      FilterNone(ls[1..]);
      assert [ls[0]] + ls[1..] == ls;
    }
  }

  /** The walk over a concatenation of listings is the concatenation of the
      walks. */
  lemma {:induction false} WalkAppend(v: Variant, a: seq<Item>, b: seq<Item>, parent: string)
    ensures Walk(v, a + b, parent) == Walk(v, a, parent) + Walk(v, b, parent)
    decreases a
  {
    if a != [] {
      assert (a + b)[0] == a[0];
      assert (a + b)[1..] == a[1..] + b;
      WalkAppend(v, a[1..], b, parent);
    } else {
      assert a + b == b;
    }
  }

  /** The walk of one more listed item. */
  lemma WalkPrefix(v: Variant, items: seq<Item>, i: nat, parent: string)
    requires i < |items|
    ensures Walk(v, items[..i + 1], parent) == Walk(v, items[..i], parent) + WalkItem(v, items[i], parent)
  {
    assert items[..i + 1] == items[..i] + [items[i]];
    WalkAppend(v, items[..i], [items[i]], parent);
    assert Walk(v, [items[i]], parent) == WalkItem(v, items[i], parent) + Walk(v, [], parent);
  }
}
