/** Loading a configuration file with everything it includes. */
module IncludeLoader {
  import opened Wrappers

  type Path = string

  /** What an include pattern expands to: files in order, or a failure to expand or find. */
  datatype Include = Unresolved | Found(paths: seq<Path>)

  /** The readable files, with their includes; any other file cannot be read. */
  type Disk = map<Path, seq<Include>>

  datatype LoadError = Circular(path: Path) | Unreadable(path: Path) | BrokenInclude(path: Path)

  // ---------------------------------------------------------------- specification

  /** The includes one after the other; None where one does not resolve. */
  function Items(includes: seq<Include>): seq<Option<Path>> {
    if includes == [] then [] else ItemsOf(includes[0]) + Items(includes[1..])
  }

  function ItemsOf(i: Include): (items: seq<Option<Path>>)
    ensures i.Found? ==> |items| == |i.paths| && forall k :: 0 <= k < |items| ==> items[k] == Some(i.paths[k])
  {
    if i.Unresolved? then [None] else seq(|i.paths|, k requires 0 <= k < |i.paths| => Some(i.paths[k]))
  }

  /** The files that includes find, in the order of the includes and of what each finds. */
  lemma {:induction false} ItemsInOrder(includes: seq<Include>, more: seq<Include>)
    ensures Items(includes + more) == Items(includes) + Items(more)
  {
    hide ItemsOf;
    if includes == [] {
      assert includes + more == more;
    } else {
      assert (includes + more)[1..] == includes[1..] + more;
      ItemsInOrder(includes[1..], more);
    }
  }

  lemma ItemsOfOne(include_: Include)
    ensures var items := Items([include_]);
            match include_
            case Unresolved => items == [None]
            case Found(paths) => |items| == |paths| && forall k :: 0 <= k < |paths| ==> items[k] == Some(paths[k])
  {
    assert [include_][1..] == [] && Items([]) == [];
  }

  /** The files loaded, and all the files seen so far. */
  datatype Outcome = Outcome(files: Result<seq<Path>, LoadError>, seen: set<Path>)

  function LoadFrom(disk: Disk, path: Path, seen: set<Path>): (r: Outcome)
    ensures seen <= r.seen
    decreases |disk.Keys - seen|, 0, 0
  {
    if path in seen then Outcome(Failure(Circular(path)), seen)
    else if path !in disk then Outcome(Failure(Unreadable(path)), seen + {path})
    else
      FewerUnseen(disk.Keys, seen, path);
      var rest := LoadItems(disk, path, Items(disk[path]), seen + {path});
      After([path], rest)
  }

  function LoadItems(disk: Disk, owner: Path, items: seq<Option<Path>>, seen: set<Path>): (r: Outcome)
    ensures seen <= r.seen
    decreases |disk.Keys - seen|, 1, |items|
  {
    if items == [] then Outcome(Success([]), seen)
    else if items[0].None? then Outcome(Failure(BrokenInclude(owner)), seen)
    else
      var first := LoadFrom(disk, items[0].value, seen);
      if first.files.Failure? then first
      else
        NoMoreUnseen(disk.Keys, seen, first.seen);
        After(first.files.value, LoadItems(disk, owner, items[1..], first.seen))
  }

  function After(files: seq<Path>, rest: Outcome): Outcome {
    if rest.files.Failure? then rest else Outcome(Success(files + rest.files.value), rest.seen)
  }

  lemma FewerUnseen(all: set<Path>, seen: set<Path>, path: Path)
    requires path in all && path !in seen
    ensures |all - (seen + {path})| < |all - seen|
  {
    assert all - seen == (all - (seen + {path})) + {path};
  }

  lemma {:induction false} NoMoreUnseen(all: set<Path>, seen: set<Path>, more: set<Path>)
    requires seen <= more
    ensures |all - more| <= |all - seen|
  {
    SubsetSize(all - more, all - seen);
  }

  lemma {:induction false} SubsetSize<T>(a: set<T>, b: set<T>)
    requires a <= b
    ensures |a| <= |b|
    decreases b
  {
    if x :| x in a {
      SubsetSize(a - {x}, b - {x});
    }
  }

  // ---------------------------------------------------------------- the loader

  class Loader {
    var seen: set<Path>

    constructor ()
      ensures seen == {}
    {
      seen := {};
    }

    /** Loads a file and what it includes, depth first; a file seen before is refused. */
    method Load(disk: Disk, path: Path) returns (r: Result<seq<Path>, LoadError>)
      modifies this
      ensures Outcome(r, seen) == LoadFrom(disk, path, old(seen))
      decreases |disk.Keys - seen|
    {
      hide LoadFrom, LoadItems, Items;
      LoadsFile(disk, path, seen);
      if path in seen {
        return Failure(Circular(path));
      }
      seen := seen + {path};
      if path !in disk {
        return Failure(Unreadable(path));
      }
      FewerUnseen(disk.Keys, old(seen), path);
      ghost var whole := LoadItems(disk, path, Items(disk[path]), seen);
      var all, includes := [path], disk[path];
      NoFilesYet(whole);
      assert includes[0..] == includes;
      for i := 0 to |includes|
        invariant old(seen) + {path} <= seen
        invariant After([path], whole) == After(all, LoadItems(disk, path, Items(includes[i..]), seen))
      {
        ItemsStep(includes, i);
        if includes[i].Unresolved? {
          LoadsRest(disk, path, Items(includes[i..]), seen);
          return Failure(BrokenInclude(path));
        }
        var matches := includes[i].paths;
        ghost var later := Items(includes[i + 1..]);
        assert ItemsOf(includes[i])[0..] == ItemsOf(includes[i]);
        for j := 0 to |matches|
          invariant old(seen) + {path} <= seen
          invariant After([path], whole) == After(all, LoadItems(disk, path, ItemsOf(includes[i])[j..] + later, seen))
        {
          ghost var items := ItemsOf(includes[i])[j..] + later;
          LoadsRest(disk, path, items, seen);
          assert items[0] == Some(matches[j]) && items[1..] == ItemsOf(includes[i])[j + 1..] + later;
          NoMoreUnseen(disk.Keys, old(seen) + {path}, seen);
          var more := Load(disk, matches[j]);
          if more.Failure? {
            return more;
          }
          AfterTwice(all, more.value, LoadItems(disk, path, items[1..], seen));
          all := all + more.value;
        }
        assert ItemsOf(includes[i])[|matches|..] + later == later;
      }
      assert includes[|includes|..] == [];
      LoadsNothing(disk, path, seen);
      assert all + [] == all;
      return Success(all);
    }
  }

  lemma LoadsFile(disk: Disk, path: Path, seen: set<Path>)
    ensures path in seen ==> LoadFrom(disk, path, seen) == Outcome(Failure(Circular(path)), seen)
    ensures path !in seen && path !in disk ==>
            LoadFrom(disk, path, seen) == Outcome(Failure(Unreadable(path)), seen + {path})
    ensures path !in seen && path in disk ==>
              LoadFrom(disk, path, seen) == After([path], LoadItems(disk, path, Items(disk[path]), seen + {path}))
  {
  }

  lemma LoadsNothing(disk: Disk, owner: Path, seen: set<Path>)
    ensures LoadItems(disk, owner, Items([]), seen) == Outcome(Success([]), seen)
  {
  }

  lemma LoadsRest(disk: Disk, owner: Path, items: seq<Option<Path>>, seen: set<Path>)
    requires items != []
    ensures LoadItems(disk, owner, items, seen)
         == if items[0].None? then Outcome(Failure(BrokenInclude(owner)), seen)
            else var first := LoadFrom(disk, items[0].value, seen);
                 if first.files.Failure? then first
                 else After(first.files.value, LoadItems(disk, owner, items[1..], first.seen))
  {
  }

  lemma ItemsStep(includes: seq<Include>, i: nat)
    requires i < |includes|
    ensures Items(includes[i..]) == ItemsOf(includes[i]) + Items(includes[i + 1..])
    ensures includes[i].Unresolved? ==> Items(includes[i..]) != [] && Items(includes[i..])[0].None?
  {
    assert includes[i..][1..] == includes[i + 1..];
  }

  lemma NoFilesYet(rest: Outcome)
    ensures After([], rest) == rest
  {
    if rest.files.Success? {
      assert [] + rest.files.value == rest.files.value;
    }
  }

  lemma AfterTwice(a: seq<Path>, b: seq<Path>, rest: Outcome)
    ensures After(a, After(b, rest)) == After(a + b, rest)
  {
    if rest.files.Success? {
      assert a + (b + rest.files.value) == (a + b) + rest.files.value;
    }
  }

  // ---------------------------------------------------------------- what loads

  /** An include graph unfolded from one file. */
  datatype Tree = Node(file: Path, kids: seq<Tree>)

  /** The tree unfolds the graph: every file can be read, and every include resolves. */
  predicate Unfolds(disk: Disk, t: Tree)
    decreases t
  {
    t.file in disk && UnfoldsAll(disk, Items(disk[t.file]), t.kids)
  }

  predicate UnfoldsAll(disk: Disk, items: seq<Option<Path>>, ts: seq<Tree>)
    decreases ts
  {
    if ts == [] then items == []
    else items != [] && items[0] == Some(ts[0].file) && Unfolds(disk, ts[0]) && UnfoldsAll(disk, items[1..], ts[1..])
  }

  /** The files of a tree, a file before what it includes. */
  function Preorder(t: Tree): seq<Path> {
    [t.file] + PreorderAll(t.kids)
  }

  function PreorderAll(ts: seq<Tree>): seq<Path> {
    if ts == [] then [] else Preorder(ts[0]) + PreorderAll(ts[1..])
  }

  /** No file is in a list twice, nor in it and in a set. */
  predicate Apart(files: seq<Path>, seen: set<Path>) {
    if files == [] then true else files[0] !in seen && Apart(files[1..], seen + {files[0]})
  }

  function FilesOf(files: seq<Path>): set<Path> {
    set f | f in files
  }

  lemma {:induction false} ApartConcat(a: seq<Path>, b: seq<Path>, seen: set<Path>)
    ensures Apart(a + b, seen) <==> Apart(a, seen) && Apart(b, seen + FilesOf(a))
    ensures FilesOf(a + b) == FilesOf(a) + FilesOf(b)
  {
    if a == [] {
      assert a + b == b && seen + FilesOf(a) == seen;
    } else {
      assert (a + b)[1..] == a[1..] + b;
      ApartConcat(a[1..], b, seen + {a[0]});
      assert a == [a[0]] + a[1..];
      assert seen + {a[0]} + FilesOf(a[1..]) == seen + FilesOf(a);
    }
  }

  predicate Distinct(files: seq<Path>) {
    forall i, j :: 0 <= i < j < |files| ==> files[i] != files[j]
  }

  lemma {:induction false} ApartMeansDistinct(files: seq<Path>, seen: set<Path>)
    ensures Apart(files, seen) <==> FilesOf(files) !! seen && Distinct(files)
  {
    if files != [] {
      var rest := files[1..];
      ApartMeansDistinct(rest, seen + {files[0]});
      assert files == [files[0]] + rest;
      DistinctOneMore(files[0], rest);
      assert FilesOf(files) == {files[0]} + FilesOf(rest);
    }
  }

  lemma DistinctOneMore(file: Path, rest: seq<Path>)
    ensures Distinct([file] + rest) <==> file !in FilesOf(rest) && Distinct(rest)
  {
    var files := [file] + rest;
    assert forall i :: 0 <= i < |rest| ==> rest[i] == files[i + 1];
    if Distinct(files) {
      forall i | 0 <= i < |rest| ensures rest[i] != file {
        assert files[0] != files[i + 1];
      }
      forall i, j | 0 <= i < j < |rest| ensures rest[i] != rest[j] {
        assert files[i + 1] != files[j + 1];
      }
    }
  }

  /** A tree of files not seen before loads, in preorder. */
  lemma {:induction false} TreeLoads(disk: Disk, t: Tree, seen: set<Path>)
    requires Unfolds(disk, t) && Apart(Preorder(t), seen)
    ensures LoadFrom(disk, t.file, seen) == Outcome(Success(Preorder(t)), seen + FilesOf(Preorder(t)))
    decreases t
  {
    hide LoadFrom, LoadItems, UnfoldsAll, Items, PreorderAll;
    LoadsFile(disk, t.file, seen);
    ApartConcat([t.file], PreorderAll(t.kids), seen);
    OneFile(t.file);
    assert Preorder(t)[0] == t.file && Preorder(t)[1..] == PreorderAll(t.kids);
    TreesLoad(disk, t.file, Items(disk[t.file]), t.kids, seen + {t.file});
    assert seen + {t.file} + FilesOf(PreorderAll(t.kids)) == seen + FilesOf(Preorder(t));
  }

  lemma OneFile(f: Path)
    ensures FilesOf([f]) == {f}
  {
  }

  lemma {:induction false} TreesLoad(disk: Disk, owner: Path, items: seq<Option<Path>>, ts: seq<Tree>, seen: set<Path>)
    requires UnfoldsAll(disk, items, ts) && Apart(PreorderAll(ts), seen)
    ensures LoadItems(disk, owner, items, seen) == Outcome(Success(PreorderAll(ts)), seen + FilesOf(PreorderAll(ts)))
    decreases ts
  {
    hide LoadFrom, LoadItems, Unfolds, Items, Preorder, Apart;
    if ts == [] {
      LoadsNothing(disk, owner, seen);
      NoItems();
      assert seen + FilesOf([]) == seen;
    } else {
      LoadsRest(disk, owner, items, seen);
      ApartConcat(Preorder(ts[0]), PreorderAll(ts[1..]), seen);
      TreeLoads(disk, ts[0], seen);
      var seen' := seen + FilesOf(Preorder(ts[0]));
      TreesLoad(disk, owner, items[1..], ts[1..], seen');
      assert seen' + FilesOf(PreorderAll(ts[1..])) == seen + FilesOf(PreorderAll(ts));
    }
  }

  lemma NoItems()
    ensures Items([]) == []
  {
  }

  /** What loads is a tree of files not seen before. */
  lemma {:induction false} LoadedIsTree(disk: Disk, path: Path, seen: set<Path>) returns (t: Tree)
    requires LoadFrom(disk, path, seen).files.Success?
    ensures t.file == path && Unfolds(disk, t) && Apart(Preorder(t), seen)
    ensures LoadFrom(disk, path, seen) == Outcome(Success(Preorder(t)), seen + FilesOf(Preorder(t)))
    decreases |disk.Keys - seen|, 0, 0
  {
    hide LoadFrom, LoadItems, UnfoldsAll, Items, PreorderAll;
    LoadsFile(disk, path, seen);
    FewerUnseen(disk.Keys, seen, path);
    var ts := LoadedAreTrees(disk, path, Items(disk[path]), seen + {path});
    t := Node(path, ts);
    assert Preorder(t)[0] == path && Preorder(t)[1..] == PreorderAll(ts);
    TreeLoads(disk, t, seen);
  }

  lemma {:induction false} LoadedAreTrees(disk: Disk, owner: Path, items: seq<Option<Path>>, seen: set<Path>)
    returns (ts: seq<Tree>)
    requires LoadItems(disk, owner, items, seen).files.Success?
    ensures UnfoldsAll(disk, items, ts) && Apart(PreorderAll(ts), seen)
    decreases |disk.Keys - seen|, 1, |items|
  {
    hide LoadFrom, LoadItems, Unfolds, Items, Preorder;
    if items == [] {
      ts := [];
    } else {
      LoadsRest(disk, owner, items, seen);
      var t := LoadedIsTree(disk, items[0].value, seen);
      var first := LoadFrom(disk, items[0].value, seen);
      NoMoreUnseen(disk.Keys, seen, first.seen);
      var rest := LoadedAreTrees(disk, owner, items[1..], first.seen);
      ts := [t] + rest;
      assert ts[0] == t && ts[1..] == rest;
      ApartConcat(Preorder(t), PreorderAll(rest), seen);
    }
  }

  lemma ApartIsDistinct(files: seq<Path>)
    ensures Apart(files, {}) <==> Distinct(files)
  {
    hide Apart, Distinct, FilesOf;
    ApartMeansDistinct(files, {});
  }

  /** A file loads exactly when its include graph unfolds to a finite tree without any file
      twice, all readable and all resolved; the files come in preorder. A file shared by two
      others is refused like a cycle. */
  lemma LoadsExactlyTrees(disk: Disk, path: Path, files: seq<Path>)
    ensures LoadFrom(disk, path, {}).files == Success(files) <==>
              exists t: Tree :: t.file == path && Unfolds(disk, t) && Distinct(Preorder(t)) && Preorder(t) == files
  {
    hide LoadFrom, Unfolds, Preorder, Apart, Distinct;
    if LoadFrom(disk, path, {}).files == Success(files) {
      var t := LoadedIsTree(disk, path, {});
      ApartIsDistinct(Preorder(t));
    }
    if t: Tree :| t.file == path && Unfolds(disk, t) && Distinct(Preorder(t)) && Preorder(t) == files {
      ApartIsDistinct(Preorder(t));
      TreeLoads(disk, t, {});
    }
  }

  // ---------------------------------------------------------------- what is refused

  lemma {:induction false} LoadsConcat(disk: Disk, owner: Path, a: seq<Option<Path>>, b: seq<Option<Path>>,
    seen: set<Path>)
    requires LoadItems(disk, owner, a, seen).files.Success?
    ensures var first := LoadItems(disk, owner, a, seen);
            LoadItems(disk, owner, a + b, seen) == After(first.files.value, LoadItems(disk, owner, b, first.seen))
    decreases |a|
  {
    hide LoadFrom, LoadItems, Items;
    if a == [] {
      LoadsNothing(disk, owner, seen);
      NoItems();
      NoFilesYet(LoadItems(disk, owner, b, seen));
      assert a + b == b;
    } else {
      LoadsRest(disk, owner, a, seen);
      LoadsRest(disk, owner, a + b, seen);
      assert (a + b)[0] == a[0] && (a + b)[1..] == a[1..] + b;
      var first := LoadFrom(disk, a[0].value, seen);
      LoadsConcat(disk, owner, a[1..], b, first.seen);
      var rest := LoadItems(disk, owner, a[1..], first.seen);
      AfterTwice(first.files.value, rest.files.value, LoadItems(disk, owner, b, rest.seen));
    }
  }

  /** What was loaded is what was seen. */
  lemma LoadedIsSeen(disk: Disk, owner: Path, items: seq<Option<Path>>, seen: set<Path>)
    requires LoadItems(disk, owner, items, seen).files.Success?
    ensures LoadItems(disk, owner, items, seen).seen == seen + FilesOf(LoadItems(disk, owner, items, seen).files.value)
  {
    hide LoadFrom, LoadItems, Unfolds, UnfoldsAll, Apart;
    var ts := LoadedAreTrees(disk, owner, items, seen);
    TreesLoad(disk, owner, items, ts, seen);
  }

  /** Including what an earlier include of the same file has loaded is refused as a circular
      include, whether there is a cycle or not. */
  lemma SharedIsCircular(disk: Disk, a: Path, before: seq<Option<Path>>, b: Path, later: seq<Option<Path>>)
    requires a in disk && Items(disk[a]) == before + [Some(b)] + later
    requires LoadItems(disk, a, before, {a}).files.Success? && b in LoadItems(disk, a, before, {a}).files.value
    ensures LoadFrom(disk, a, {}).files == Failure(Circular(b))
  {
    hide LoadFrom, LoadItems, Items;
    LoadsFile(disk, a, {});
    assert {} + {a} == {a};
    var first := LoadItems(disk, a, before, {a});
    LoadedIsSeen(disk, a, before, {a});
    LoadsConcat(disk, a, before, [Some(b)] + later, {a});
    assert before + [Some(b)] + later == before + ([Some(b)] + later);
    LoadsRest(disk, a, [Some(b)] + later, first.seen);
    LoadsFile(disk, b, first.seen);
  }

  /** A file without includes of its own, included twice. */
  lemma IncludedTwice(disk: Disk, a: Path, b: Path)
    requires a != b && a in disk && b in disk && disk[a] == [Found([b, b])] && disk[b] == []
    ensures LoadFrom(disk, a, {}).files == Failure(Circular(b))
  {
    hide LoadFrom, LoadItems;
    assert ItemsOf(disk[a][0]) == [Some(b), Some(b)];
    assert disk[a][1..] == [] && Items(disk[a]) == [Some(b)] + [Some(b)] + [];
    LoadsRest(disk, a, [Some(b)], {a});
    LoadsFile(disk, b, {a});
    LoadsNothing(disk, b, {a, b});
    LoadsNothing(disk, a, {a, b});
    assert {a} + {b} == {a, b} && [Some(b)][1..] == [];
    SharedIsCircular(disk, a, [Some(b)], b, []);
  }

  /** Every include of every file resolves to files that can be read. */
  predicate Complete(disk: Disk) {
    forall p <- disk :: AllReadable(disk, Items(disk[p]))
  }

  predicate AllReadable(disk: Disk, items: seq<Option<Path>>) {
    forall i <- items :: i.Some? && i.value in disk
  }

  /** When every file can be read and every include resolves, a file seen before is the one
      reason to fail. */
  lemma {:induction false} OnlyCircular(disk: Disk, path: Path, seen: set<Path>)
    requires Complete(disk) && path in disk
    ensures var r := LoadFrom(disk, path, seen).files;
            r.Failure? ==> r.error.Circular? && r.error.path in disk
    decreases |disk.Keys - seen|, 0, 0
  {
    hide LoadFrom, LoadItems, Items, AllReadable;
    LoadsFile(disk, path, seen);
    if path !in seen {
      FewerUnseen(disk.Keys, seen, path);
      OnlyCircularItems(disk, path, Items(disk[path]), seen + {path});
    }
  }

  lemma {:induction false} OnlyCircularItems(disk: Disk, owner: Path, items: seq<Option<Path>>, seen: set<Path>)
    requires Complete(disk) && AllReadable(disk, items)
    ensures var r := LoadItems(disk, owner, items, seen).files;
            r.Failure? ==> r.error.Circular? && r.error.path in disk
    decreases |disk.Keys - seen|, 1, |items|
  {
    hide LoadFrom, LoadItems, Items, Complete;
    if items == [] {
      NoItems();
      LoadsNothing(disk, owner, seen);
    } else {
      assert items[0] in items;
      LoadsRest(disk, owner, items, seen);
      OnlyCircular(disk, items[0].value, seen);
      var first := LoadFrom(disk, items[0].value, seen);
      NoMoreUnseen(disk.Keys, seen, first.seen);
      OnlyCircularItems(disk, owner, items[1..], first.seen);
    }
  }
}
