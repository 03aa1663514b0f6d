/** The loose-file loader's scan (`CFileResourceLoader::insertEntriesIntoResourcesMap`):
    a recursive directory walk, given as the sequence of entries the
    iterator visits, that rebuilds each file's path relative to the root
    from a stack of directory names, one per depth. */
module FileWalk {
  import opened Wrappers
  import opened Bytes
  import opened ResourceNames
  import opened ResourcesMap

  datatype EntryKind = Directory | Regular | OtherKind

  /** One step of the directory iterator: its depth below the root, what the
      entry is and the entry's own name. */
  datatype WalkEvent = WalkEvent(level: nat, kind: EntryKind, leaf: string)

  /** `std::vector::resize`: truncate, or pad with empty strings. */
  function Resize(path: seq<string>, n: nat): (r: seq<string>)
    ensures |r| == n
    ensures forall i :: 0 <= i < n && i < |path| ==> r[i] == path[i]
    ensures forall i :: |path| <= i < n ==> r[i] == ""
  {
    if n <= |path| then path[..n] else path + seq(n - |path|, _ => "")
  }

  /** The directory stack after visiting `ev`: a directory at depth `l`
      leaves exactly `l + 1` names, the last one its own, the ones above it
      untouched. Files and other entries leave the stack as it was. */
  function StepPath(path: seq<string>, ev: WalkEvent): (r: seq<string>)
    ensures ev.kind == Directory ==> |r| == ev.level + 1 && r[ev.level] == ev.leaf
    ensures ev.kind == Directory ==> forall i :: 0 <= i < ev.level && i < |path| ==> r[i] == path[i]
    ensures ev.kind != Directory ==> r == path
  {
    if ev.kind == Directory then Resize(path, ev.level + 1)[ev.level := ev.leaf] else path
  }

  /** `dirs[0] + "/" + dirs[1] + "/" + ...`, each name followed by a slash. */
  function JoinDirs(dirs: seq<string>): string
    decreases |dirs|
  {
    if dirs == [] then "" else JoinDirs(dirs[..|dirs| - 1]) + dirs[|dirs| - 1] + "/"
  }

  /** The path registered for a file named `leaf` at depth `level`: the first
      `level` names of the stack (as many as it holds), each with a slash,
      then the leaf. */
  function RelativePath(path: seq<string>, level: nat, leaf: string): string {
    JoinDirs(path[..Min(level, |path|)]) + leaf
  }

  /** The stack and the list of registered names after the walk `events`. */
  function Walk(events: seq<WalkEvent>): (seq<string>, seq<string>)
    decreases |events|
  {
    if events == [] then ([], [])
    else
      var (path0, names0) := Walk(events[..|events| - 1]);
      var ev := events[|events| - 1];
      var path := StepPath(path0, ev);
      (path, if ev.kind == Regular then names0 + [RelativePath(path, ev.level, ev.leaf)] else names0)
  }

  function WalkNames(events: seq<WalkEvent>): seq<string> {
    Walk(events).1
  }

  function CountRegular(events: seq<WalkEvent>): nat
    decreases |events|
  {
    if events == [] then 0
    else CountRegular(events[..|events| - 1]) + (if events[|events| - 1].kind == Regular then 1 else 0)
  }

  /** The own names of the regular files among `events`, in walk order. */
  function FileLeaves(events: seq<WalkEvent>): seq<string>
    decreases |events|
  {
    if events == [] then []
    else
      FileLeaves(events[..|events| - 1])
      + (if events[|events| - 1].kind == Regular then [events[|events| - 1].leaf] else [])
  }

  /** `t` is a suffix of `s`. */
  predicate EndsWith(s: string, t: string) {
    |t| <= |s| && s[|s| - |t|..] == t
  }

  /** Every regular file is registered once, directories and other entries
      never, and the `j`-th registered path ends with the own name of the
      `j`-th regular file. */
  lemma {:induction false} WalkNamesMatchFiles(events: seq<WalkEvent>)
    ensures |WalkNames(events)| == CountRegular(events) == |FileLeaves(events)|
    ensures forall j :: 0 <= j < |WalkNames(events)| ==> EndsWith(WalkNames(events)[j], FileLeaves(events)[j])
    decreases |events|
  {
    if events != [] {
      var init := events[..|events| - 1];
      var ev := events[|events| - 1];
      WalkNamesMatchFiles(init);
      if ev.kind == Regular {
        var names := WalkNames(events);
        var rel := RelativePath(Walk(events).0, ev.level, ev.leaf);
        assert names == WalkNames(init) + [rel];
        assert FileLeaves(events) == FileLeaves(init) + [ev.leaf];
        assert rel[|rel| - |ev.leaf|..] == ev.leaf;
      }
    }
  }

  /** The directories enclosing an entry at depth `level` whose walk so far
      is `before`: its parent is the nearest earlier entry one level up,
      which must be a directory, then that directory's parent, and so on up
      to the root. Entries at the same depth or deeper in between are
      skipped. `None` when the walk is not nested that way. */
  function Enclosing(before: seq<WalkEvent>, level: nat): Option<seq<string>>
    decreases |before|
  {
    if level == 0 then Some([])
    else if before == [] then None
    else
      var e := before[|before| - 1];
      if e.level >= level then Enclosing(before[..|before| - 1], level)
      else if e.level == level - 1 && e.kind == Directory then
        match Enclosing(before[..|before| - 1], level - 1)
        case None => None
        case Some(dirs) => Some(dirs + [e.leaf])
      else None
  }

  /** After a nested walk, the first `level` names of the directory stack are
      exactly the enclosing directories of an entry at depth `level`. */
  lemma {:induction false} StackHoldsEnclosing(before: seq<WalkEvent>, level: nat)
    requires Enclosing(before, level).Some?
    ensures |Enclosing(before, level).value| == level <= |Walk(before).0|
    ensures Walk(before).0[..level] == Enclosing(before, level).value
    decreases |before|
  {
    if level > 0 {
      var init := before[..|before| - 1];
      var e := before[|before| - 1];
      var stack0 := Walk(init).0;
      var stack := Walk(before).0;
      assert stack == StepPath(stack0, e);
      if e.level >= level {
        StackHoldsEnclosing(init, level);
        assert stack[..level] == stack0[..level];
      } else {
        StackHoldsEnclosing(init, level - 1);
        var dirs := Enclosing(init, level - 1).value;
        assert Enclosing(before, level).value == dirs + [e.leaf];
        assert stack[..level] == stack0[..level - 1] + [e.leaf];
      }
    }
  }

  /** Path reconstruction, for every walk: visiting a regular file whose
      directories are nested as the walk visited them registers exactly the
      path of those directories, each followed by a slash, then the file's
      own name. */
  lemma RegisteredPathIsEnclosingPath(events: seq<WalkEvent>, n: nat)
    requires n < |events| && events[n].kind == Regular
    requires Enclosing(events[..n], events[n].level).Some?
    ensures WalkNames(events[..n + 1])
            == WalkNames(events[..n]) + [JoinDirs(Enclosing(events[..n], events[n].level).value) + events[n].leaf]
  {
    var ev := events[n];
    WalkStep(events, n);
    StackHoldsEnclosing(events[..n], ev.level);
    assert Walk(events[..n + 1]).0 == Walk(events[..n]).0;
  }

  lemma IconWalkFirstDir()
    ensures Walk([WalkEvent(0, Directory, "sub")]) == (["sub"], [])
  {
    var evs := [WalkEvent(0, Directory, "sub")];
    assert evs[..0] == [];
    assert Walk([]) == ([], []);
    assert Resize([], 1) == [""];
    assert [""][0 := "sub"] == ["sub"];
    assert StepPath([], evs[0]) == ["sub"];
  }

  lemma IconWalkSecondDir()
    ensures Walk([WalkEvent(0, Directory, "sub"), WalkEvent(1, Directory, "dir")]) == (["sub", "dir"], [])
  {
    var evs := [WalkEvent(0, Directory, "sub"), WalkEvent(1, Directory, "dir")];
    assert evs[..1] == [WalkEvent(0, Directory, "sub")];
    IconWalkFirstDir();
    assert Resize(["sub"], 2) == ["sub", ""];
    assert ["sub", ""][1 := "dir"] == ["sub", "dir"];
    assert StepPath(["sub"], evs[1]) == ["sub", "dir"];
  }

  /** The layout `sub/dir/icon.PNG` under the root registers the one path
      "sub/dir/icon.PNG". */
  lemma IconWalkExample()
    ensures WalkNames([WalkEvent(0, Directory, "sub"), WalkEvent(1, Directory, "dir"),
                       WalkEvent(2, Regular, "icon.PNG")]) == ["sub/dir/icon.PNG"]
  {
    var evs := [WalkEvent(0, Directory, "sub"), WalkEvent(1, Directory, "dir"), WalkEvent(2, Regular, "icon.PNG")];
    assert evs[..2] == [WalkEvent(0, Directory, "sub"), WalkEvent(1, Directory, "dir")];
    IconWalkSecondDir();
    assert StepPath(["sub", "dir"], evs[2]) == ["sub", "dir"];
    IconRelativePath();
  }

  lemma IconRelativePath()
    ensures RelativePath(["sub", "dir"], 2, "icon.PNG") == "sub/dir/icon.PNG"
  {
    var dirs := ["sub", "dir"];
    assert dirs[..2] == dirs;
    assert dirs[..1] == ["sub"] && ["sub"][..0] == [];
    assert JoinDirs(["sub"]) == "sub/";
    assert JoinDirs(dirs) == "sub/dir/";
  }

  lemma IconUpper()
    ensures ToUpper("sub/dir/icon.PNG") == "SUB/DIR/ICON.PNG"
  {
    var s := "sub/dir/icon.PNG";
    var upper := ToUpper(s);
    forall k | 0 <= k < 16 ensures upper[k] == "SUB/DIR/ICON.PNG"[k] {
      assert upper[k] == ToUpperChar(s[k]);
    }
  }

  lemma IconLastDot()
    ensures FindLastOfSep("SUB/DIR/ICON.PNG") == Some(12)
  {
    var u := "SUB/DIR/ICON.PNG";
    assert u[..15] == "SUB/DIR/ICON.PN";
    assert u[..15][..14] == "SUB/DIR/ICON.P";
    assert u[..15][..14][..13] == "SUB/DIR/ICON.";
    assert FindLastOfSep("SUB/DIR/ICON.") == Some(12);
    assert FindLastOfSep("SUB/DIR/ICON.P") == Some(12);
    assert FindLastOfSep("SUB/DIR/ICON.PN") == Some(12);
  }

  /** That path's identifier is ("SUB/DIR/ICON", GRAPHICS). */
  lemma IconIdentExample()
    ensures Ident("", "sub/dir/icon.PNG") == ResourceIdentifier("SUB/DIR/ICON", GRAPHICS)
  {
    IconUpper();
    IconLastDot();
    var u := "SUB/DIR/ICON.PNG";
    assert u[12] == '.';
    assert u[..12] == "SUB/DIR/ICON" && u[12..] == ".PNG";
    assert AdaptResourceName("sub/dir/icon.PNG") == ("SUB/DIR/ICON", ".PNG");
  }

  /** One more visited entry extends the walk by one step. */
  lemma WalkStep(events: seq<WalkEvent>, n: nat)
    requires n < |events|
    ensures Walk(events[..n + 1]).0 == StepPath(Walk(events[..n]).0, events[n])
    ensures WalkNames(events[..n + 1]) ==
              if events[n].kind == Regular
              then WalkNames(events[..n]) + [RelativePath(Walk(events[..n + 1]).0, events[n].level, events[n].leaf)]
              else WalkNames(events[..n])
  {
    assert events[..n + 1][..n] == events[..n];
  }

  /** One more visited entry extends the registration by at most one name. */
  lemma RegisterStep(events: seq<WalkEvent>, n: nat, prefix: string, owner: nat, map0: ResMap)
    requires n < |events|
    ensures RegisterAll(map0, prefix, owner, WalkNames(events[..n + 1])) ==
              if events[n].kind == Regular
              then AddEntryToMap(RegisterAll(map0, prefix, owner, WalkNames(events[..n])), prefix, owner,
                                 RelativePath(Walk(events[..n + 1]).0, events[n].level, events[n].leaf))
              else RegisterAll(map0, prefix, owner, WalkNames(events[..n]))
  {
    WalkStep(events, n);
    var names := WalkNames(events[..n + 1]);
    if events[n].kind == Regular {
      assert names[..|names| - 1] == WalkNames(events[..n]);
    }
  }

  /** The inner loop: the first `level` stack entries (as many as there
      are), each followed by a slash, then the leaf. */
  method BuildRelativePath(path: seq<string>, level: nat, leaf: string) returns (relativePath: string)
    ensures relativePath == RelativePath(path, level, leaf)
  {
    relativePath := "";
    var i := 0;
    while i < level && i < |path|
      invariant 0 <= i <= Min(level, |path|)
      invariant relativePath == JoinDirs(path[..i])
    {
      assert path[..i + 1][..i] == path[..i];
      relativePath := relativePath + path[i] + "/";
      i := i + 1;
    }
    relativePath := relativePath + leaf;
  }

  /** The walk with registration folded in: for every regular file, the
      path is rebuilt from the stack and registered for loader `owner`. A
      root that does not exist (`None`) registers nothing. */
  method ScanFiles(tree: Option<seq<WalkEvent>>, prefix: string, owner: nat, map0: ResMap)
    returns (resMap: ResMap)
    ensures tree.None? ==> resMap == map0
    ensures tree.Some? ==> resMap == RegisterAll(map0, prefix, owner, WalkNames(tree.value))
  {
    resMap := map0;
    if tree.None? {
      return;
    }
    var events := tree.value;
    var path: seq<string> := [];
    var n := 0;
    while n < |events|
      invariant 0 <= n <= |events|
      invariant path == Walk(events[..n]).0
      invariant resMap == RegisterAll(map0, prefix, owner, WalkNames(events[..n]))
    {
      var ev := events[n];
      WalkStep(events, n);
      RegisterStep(events, n, prefix, owner, map0);
      if ev.kind == Directory {
        path := Resize(path, ev.level + 1);
        path := path[ev.level := ev.leaf];
      }
      if ev.kind == Regular {
        var relativePath := BuildRelativePath(path, ev.level, ev.leaf);
        resMap := AddEntryToMap(resMap, prefix, owner, relativePath);
      }
      n := n + 1;
    }
    assert events[..n] == events;
  }
}
