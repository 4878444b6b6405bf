/**
 Loading the libraries a program needs (ldso.c): loadlibrary finds a library by name and
 appends it to the list of loaded objects, loadlibs does so for every DT_NEEDED entry of one
 object, and main works through the list while it grows.

 The file system is a finite map from paths to the dynamic sections of the shared objects
 there; a path outside it is one that cannot be opened or is not a usable shared object.
 */
module Loader {

  import opened Common

  /** An entry of a dynamic section. */
  datatype Dyn = Needed(name: string) | Null | Other

  /** A loaded object; the file is "" for the program itself. */
  datatype Dll = Dll(name: string, file: string, dynamic: seq<Dyn>)

  // ----- names -----

  /** The part of a name after its last slash. */
  function ShortName(fn: string): (s: string) {
    if fn == [] || fn[|fn| - 1] == '/' then "" else ShortName(fn[..|fn| - 1]) + [fn[|fn| - 1]]
  }

  lemma {:induction false} ShortNameOfPath(dir: string, fn: string)
    ensures ShortName(dir + "/" + fn) == ShortName(fn)
  {
    var p := dir + "/" + fn;
    if fn != [] {
      assert p[..|p| - 1] == dir + "/" + fn[..|fn| - 1];
      ShortNameOfPath(dir, fn[..|fn| - 1]);
    }
  }

  /** What that is: no slash is in it, and what precedes it is empty or ends with one. */
  lemma {:induction false} ShortNameSplits(fn: string) returns (before: string)
    ensures fn == before + ShortName(fn) && '/' !in ShortName(fn)
    ensures before == "" || before[|before| - 1] == '/'
  {
    if fn == "" || fn[|fn| - 1] == '/' {
      before := fn;
    } else {
      before := ShortNameSplits(fn[..|fn| - 1]);
      assert fn == fn[..|fn| - 1] + [fn[|fn| - 1]];
    }
  }

  lemma {:induction false} NoSlashShort(fn: string)
    requires '/' !in fn
    ensures ShortName(fn) == fn
  {
    if fn != [] {
      NoSlashShort(fn[..|fn| - 1]);
      assert fn == fn[..|fn| - 1] + [fn[|fn| - 1]];
    }
  }

  /** The scan for the last slash. */
  method AfterSlash(fn: string) returns (start: nat)
    ensures start <= |fn| && fn[start..] == ShortName(fn)
  {
    start := 0;
    for i := 0 to |fn|
      invariant start <= i && fn[start..i] == ShortName(fn[..i])
    {
      assert fn[..i + 1][..i] == fn[..i];
      if fn[i] == '/' {
        start := i + 1;
      }
    }
    assert fn[..|fn|] == fn && fn[start..|fn|] == fn[start..];
  }

  // ----- where a library is looked for -----

  /** The directories of a search path, separated by colons. */
  function Dirs(path: string): (dirs: seq<string>) {
    DirsFrom(path, 0, 0)
  }

  /** The directories from the one that began at index start, scanned up to index i. */
  function DirsFrom(path: string, start: nat, i: nat): (dirs: seq<string>)
    requires start <= i <= |path|
    decreases |path| - i
  {
    if i == |path| then [path[start..i]]
    else if path[i] == ':' then [path[start..i]] + DirsFrom(path, i + 1, i + 1)
    else DirsFrom(path, start, i + 1)
  }

  /** The first directory, short enough for the buffer, that has the file. */
  function FirstHit(files: set<string>, dirs: seq<string>, fn: string): (r: Option<string>)
    ensures r.Some? ==> r.value in files && ShortName(r.value) == ShortName(fn)
  {
    if dirs == [] then None
    else if |dirs[0]| < 100 && dirs[0] + "/" + fn in files then
      ShortNameOfPath(dirs[0], fn);
      Some(dirs[0] + "/" + fn)
    else FirstHit(files, dirs[1..], fn)
  }

  function Join(dirs: seq<string>): string {
    if dirs == [] then "" else if |dirs| == 1 then dirs[0] else dirs[0] + ":" + Join(dirs[1..])
  }

  /** The directories are the pieces between the colons of the search path, all of them and in order. */
  lemma DirsAreThePieces(path: string)
    ensures Dirs(path) != [] && Join(Dirs(path)) == path && forall dir :: dir in Dirs(path) ==> ':' !in dir
  {
    PiecesFrom(path, 0, 0);
    assert path[0..] == path;
  }

  lemma {:induction false} PiecesFrom(path: string, start: nat, i: nat)
    requires start <= i <= |path| && ':' !in path[start..i]
    ensures DirsFrom(path, start, i) != [] && Join(DirsFrom(path, start, i)) == path[start..]
    ensures forall dir :: dir in DirsFrom(path, start, i) ==> ':' !in dir
    decreases |path| - i
  {
    if i == |path| {
      assert path[start..i] == path[start..];
    } else if path[i] == ':' {
      PiecesFrom(path, i + 1, i + 1);
      assert path[start..] == path[start..i] + ":" + path[i + 1..];
    } else {
      assert path[start..i + 1] == path[start..i] + [path[i]];
      PiecesFrom(path, start, i + 1);
    }
  }

  /** Directory i of the list is short enough for the buffer and has the file. */
  predicate HitAt(files: set<string>, dirs: seq<string>, fn: string, i: nat) {
    i < |dirs| && |dirs[i]| < 100 && dirs[i] + "/" + fn in files
  }

  /** The first hit is that, and there is none exactly if no directory is one. */
  lemma {:induction false} FirstHitIsFirst(files: set<string>, dirs: seq<string>, fn: string)
    ensures FirstHit(files, dirs, fn).None? ==> forall i :: 0 <= i < |dirs| ==> !HitAt(files, dirs, fn, i)
    ensures FirstHit(files, dirs, fn).Some? ==>
              exists i :: 0 <= i < |dirs| && HitAt(files, dirs, fn, i)
                          && FirstHit(files, dirs, fn).value == dirs[i] + "/" + fn
                          && forall j :: 0 <= j < i ==> !HitAt(files, dirs, fn, j)
  {
    if dirs != [] && !HitAt(files, dirs, fn, 0) {
      var rest := dirs[1..];
      FirstHitIsFirst(files, rest, fn);
      forall i | 0 < i < |dirs|
        ensures HitAt(files, dirs, fn, i) <==> HitAt(files, rest, fn, i - 1)
      {
        assert dirs[i] == rest[i - 1];
      }
      if FirstHit(files, rest, fn).Some? {
        var i :| 0 <= i < |rest| && HitAt(files, rest, fn, i) && FirstHit(files, rest, fn).value == rest[i] + "/" + fn
                 && forall j :: 0 <= j < i ==> !HitAt(files, rest, fn, j);
        assert HitAt(files, dirs, fn, i + 1) && dirs[i + 1] == rest[i];
      }
    } else if dirs != [] {
      assert HitAt(files, dirs, fn, 0);
    }
  }

  /** The file a library name leads to. */
  function Resolve(files: set<string>, path: string, ldlp: Option<string>, fn: string): (r: Option<string>)
    ensures r.Some? ==> r.value in files && ShortName(r.value) == ShortName(fn)
  {
    if fn != [] && fn[0] == '/' then (if fn in files then Some(fn) else None)
    else if path + "/" + fn in files then (ShortNameOfPath(path, fn); Some(path + "/" + fn))
    else if ldlp.None? then None
    else FirstHit(files, Dirs(ldlp.value), fn)
  }

  /**
   The order of the search: an absolute name stands for itself, any other is looked for in the
   default directory first, and then in the pieces of LD_LIBRARY_PATH, in their order.
   */
  lemma ResolvedInOrder(files: set<string>, path: string, ldlp: Option<string>, fn: string) returns (dirs: seq<string>)
    ensures ldlp.Some? ==> Join(dirs) == ldlp.value && forall dir :: dir in dirs ==> ':' !in dir
    ensures "/" <= fn ==> (Resolve(files, path, ldlp, fn) == Some(fn) <==> fn in files)
                          && (Resolve(files, path, ldlp, fn) == None <==> fn !in files)
    ensures !("/" <= fn) && path + "/" + fn in files ==> Resolve(files, path, ldlp, fn) == Some(path + "/" + fn)
    ensures !("/" <= fn) && path + "/" + fn !in files ==>
              (Resolve(files, path, ldlp, fn).None? <==>
                 ldlp.Some? ==> forall i :: 0 <= i < |dirs| ==> !HitAt(files, dirs, fn, i))
    ensures !("/" <= fn) && path + "/" + fn !in files && ldlp.Some? ==>
              forall i :: 0 <= i < |dirs| && HitAt(files, dirs, fn, i)
                          && (forall j :: 0 <= j < i ==> !HitAt(files, dirs, fn, j)) ==>
                            Resolve(files, path, ldlp, fn) == Some(dirs[i] + "/" + fn)
  {
    dirs := if ldlp.Some? then Dirs(ldlp.value) else [];
    if ldlp.Some? {
      DirsAreThePieces(ldlp.value);
      FirstHitIsFirst(files, dirs, fn);
    }
  }

  // ----- what an object needs -----

  /** The names in the DT_NEEDED entries, up to the end of the dynamic section. */
  function NeededNames(d: seq<Dyn>): (names: seq<string>) {
    if d == [] || d[0].Null? then []
    else (if d[0].Needed? then [d[0].name] else []) + NeededNames(d[1..])
  }

  /** Entry i of a dynamic section is one that the loader comes to: nothing before it ends the section. */
  ghost predicate Reads(d: seq<Dyn>, i: nat)
  {
    i < |d| && forall j :: 0 <= j <= i ==> !d[j].Null?
  }

  /** The names are those of the DT_NEEDED entries before the first DT_NULL, whatever else is among them. */
  lemma {:induction false} NeededExactly(d: seq<Dyn>, n: string)
    ensures n in NeededNames(d) <==> exists i :: 0 <= i < |d| && d[i] == Needed(n) && Reads(d, i)
  {
    if d != [] && !d[0].Null? {
      var rest := d[1..];
      NeededExactly(rest, n);
      if n in NeededNames(d) {
        if d[0] == Needed(n) {
          assert Reads(d, 0);
        } else {
          assert n in NeededNames(rest);
          var i :| 0 <= i < |rest| && rest[i] == Needed(n) && Reads(rest, i);
          ReadsTail(d, i);
          assert d[i + 1] == Needed(n);
        }
      }
      if i :| 0 <= i < |d| && d[i] == Needed(n) && Reads(d, i) {
        if i > 0 {
          ReadsTail(d, i - 1);
          assert rest[i - 1] == Needed(n);
        }
      }
    }
  }

  lemma ReadsTail(d: seq<Dyn>, i: nat)
    requires d != [] && !d[0].Null?
    ensures Reads(d[1..], i) <==> Reads(d, i + 1)
  {
    if Reads(d, i + 1) {
      assert forall j :: 0 <= j <= i ==> d[1..][j] == d[j + 1];
    }
    if Reads(d[1..], i) {
      forall j | 0 <= j <= i + 1
        ensures !d[j].Null?
      {
        assert j > 0 ==> d[j] == d[1..][j - 1];
      }
    }
  }

  function Names(dlls: seq<Dll>): (names: seq<string>)
    ensures |names| == |dlls| && forall i :: 0 <= i < |dlls| ==> names[i] == dlls[i].name
  {
    seq(|dlls|, i requires 0 <= i < |dlls| => dlls[i].name)
  }

  lemma {:induction false} DistinctCount(names: seq<string>, all: set<string>)
    requires Distinct(names) && forall n :: n in names ==> n in all
    ensures |names| <= |all|
  {
    if names != [] {
      var n := names[|names| - 1];
      DistinctCount(names[..|names| - 1], all - {n});
    }
  }

  // ----- the order of the entries -----

  /** Entry e of object i in the list of loaded objects. */
  datatype Entry = Entry(i: nat, e: nat)

  /** The work list reaches entry a before entry b. */
  predicate Before(a: Entry, b: Entry) {
    a.i < b.i || (a.i == b.i && a.e < b.e)
  }

  /** The loader comes to the entry, and it asks for a library. */
  ghost predicate Asks(dlls: seq<Dll>, c: Entry) {
    c.i < |dlls| && Reads(dlls[c.i].dynamic, c.e) && dlls[c.i].dynamic[c.e].Needed?
  }

  ghost function Asked(dlls: seq<Dll>, c: Entry): string
    requires Asks(dlls, c)
  {
    dlls[c.i].dynamic[c.e].name
  }

  /** No entry before this one asks for a library with the name m. */
  ghost predicate FirstToAsk(dlls: seq<Dll>, c: Entry, m: string) {
    Asks(dlls, c) && ShortName(Asked(dlls, c)) == m
    && forall c' :: Before(c', c) && Asks(dlls, c') ==> ShortName(Asked(dlls, c')) != m
  }

  /** A library with the name is loaded, and the name is not too long. */
  ghost predicate Present(dlls: seq<Dll>, n: string) {
    |n| <= 50 && ShortName(n) in Names(dlls)
  }

  /** All libraries that the entries before this one ask for are loaded. */
  ghost predicate SatisfiedBefore(dlls: seq<Dll>, c: Entry) {
    forall c' :: Before(c', c) && Asks(dlls, c') ==> Present(dlls, Asked(dlls, c'))
  }

  ghost predicate AllBefore(calls: seq<Entry>, c: Entry) {
    forall j :: 0 < j < |calls| ==> Before(calls[j], c)
  }

  // ----- the surroundings of a run -----

  datatype World = World(files: map<string, seq<Dyn>>, path: string, ldlp: Option<string>) {
    function Find(fn: string): (r: Option<string>)
      ensures r.Some? ==> r.value in files && ShortName(r.value) == ShortName(fn)
    {
      Resolve(files.Keys, path, ldlp, fn)
    }

    /** The name leads loadlibrary to the file. */
    predicate LeadsTo(n: string, file: string) {
      |n| <= 50 && Find(n) == Some(file)
    }

    /** Object j was loaded for an entry of an earlier object. */
    ghost predicate CalledFor(dlls: seq<Dll>, j: nat)
      requires j < |dlls|
    {
      exists i, n :: 0 <= i < j && n in NeededNames(dlls[i].dynamic)
                     && ShortName(n) == dlls[j].name && LeadsTo(n, dlls[j].file)
    }

    /** The list of loaded objects starts with the program; every other object is a file's, and was called for. */
    ghost predicate WellLoaded(dlls: seq<Dll>) {
      && |dlls| > 0 && dlls[0].name == "" && Distinct(Names(dlls))
      && (forall j :: 0 < j < |dlls| ==> dlls[j].file in files && dlls[j].dynamic == files[dlls[j].file])
      && (forall j :: 0 < j < |dlls| ==> CalledFor(dlls, j))
    }

    /** No library with the name's short name is loaded, and none can be. */
    ghost predicate Unavailable(dlls: seq<Dll>, n: string) {
      |n| > 50 || (ShortName(n) !in Names(dlls) && Find(n).None?)
    }

    ghost function PossibleNames(): set<string> {
      {""} + set f | f in files :: ShortName(f)
    }

    /** There are only finitely many names a loaded object can have. */
    lemma CountBound(dlls: seq<Dll>)
      requires WellLoaded(dlls)
      ensures |dlls| <= |PossibleNames()|
    {
      forall n | n in Names(dlls)
        ensures n in PossibleNames()
      {
        var j :| 0 <= j < |dlls| && Names(dlls)[j] == n;
        if j > 0 {
          assert CalledFor(dlls, j);
          assert ShortName(dlls[j].file) == n;
        }
      }
      DistinctCount(Names(dlls), PossibleNames());
    }

    /**
     The objects are in the order in which they were first asked for: calls holds, for every
     object behind the program, the first entry that asks for its name.
     */
    ghost predicate InOrder(dlls: seq<Dll>, calls: seq<Entry>) {
      && |calls| == |dlls|
      && (forall j :: 0 < j < |dlls| ==> FirstToAsk(dlls, calls[j], dlls[j].name)
                                         && LeadsTo(Asked(dlls, calls[j]), dlls[j].file))
      && (forall j, j' :: 0 < j < j' < |dlls| ==> Before(calls[j], calls[j']))
    }

    lemma InOrderAppend(dlls: seq<Dll>, calls: seq<Entry>, c: Entry, file: string)
      requires InOrder(dlls, calls) && Asks(dlls, c) && SatisfiedBefore(dlls, c) && AllBefore(calls, c)
      requires ShortName(Asked(dlls, c)) !in Names(dlls) && LeadsTo(Asked(dlls, c), file)
      ensures InOrder(dlls + [Dll(ShortName(Asked(dlls, c)), file, files[file])], calls + [c])
    {
      var longer, longerCalls := dlls + [Dll(ShortName(Asked(dlls, c)), file, files[file])], calls + [c];
      forall j | 0 < j < |longer|
        ensures FirstToAsk(longer, longerCalls[j], longer[j].name)
                && LeadsTo(Asked(longer, longerCalls[j]), longer[j].file)
      {
        assert j < |dlls| ==> longerCalls[j] == calls[j] && longer[j] == dlls[j];
        var a := longerCalls[j];
        forall c': Entry | c'.i <= a.i
          ensures Asks(longer, c') <==> Asks(dlls, c')
          ensures Asks(dlls, c') ==> Asked(longer, c') == Asked(dlls, c')
        {
          assert longer[c'.i] == dlls[c'.i];
        }
      }
    }

    lemma WellLoadedAppend(dlls: seq<Dll>, i: nat, n: string, file: string)
      requires WellLoaded(dlls) && i < |dlls| && n in NeededNames(dlls[i].dynamic)
      requires ShortName(n) !in Names(dlls) && LeadsTo(n, file)
      ensures WellLoaded(dlls + [Dll(ShortName(n), file, files[file])])
    {
      var longer := dlls + [Dll(ShortName(n), file, files[file])];
      forall j | 0 < j < |longer|
        ensures CalledFor(longer, j)
      {
        if j < |dlls| {
          assert CalledFor(dlls, j);
          var i', n' :| 0 <= i' < j && n' in NeededNames(dlls[i'].dynamic)
                        && ShortName(n') == dlls[j].name && LeadsTo(n', dlls[j].file);
          assert longer[i'] == dlls[i'] && longer[j] == dlls[j];
        } else {
          assert longer[i] == dlls[i];
        }
      }
      assert forall j :: 0 <= j < |dlls| ==> Names(dlls)[j] in Names(dlls);
    }
  }

  class Linker {
    const world: World
    var dlls: seq<Dll>
    ghost var calls: seq<Entry>

    /** main, before the first library. */
    constructor (world: World, program: seq<Dyn>)
      ensures this.world == world && dlls == [Dll("", "", program)] && world.WellLoaded(dlls)
      ensures world.InOrder(dlls, calls)
    {
      this.world := world;
      dlls := [Dll("", "", program)];
      calls := [Entry(0, 0)];
    }

    /** __loadlibrary: a usable file is appended under the name after the last slash of its path. */
    method Open(fn: string) returns (r: int)
      modifies `dlls
      ensures r == if fn in world.files then 0 else 1
      ensures dlls == old(dlls) + if r == 0 then [Dll(ShortName(fn), fn, world.files[fn])] else []
    {
      if fn !in world.files {
        return 1;
      }
      var tmp := AfterSlash(fn);
      dlls := dlls + [Dll(fn[tmp..], fn, world.files[fn])];
      r := 0;
    }

    /** The walk along LD_LIBRARY_PATH: each directory is copied to the buffer up to 100 characters. */
    method TryDirs(c: string, fn: string) returns (r: int)
      modifies `dlls
      ensures var hit := FirstHit(world.files.Keys, Dirs(c), fn);
              if hit.Some? then r == 0 && dlls == old(dlls) + [Dll(ShortName(fn), hit.value, world.files[hit.value])]
              else r != 0 && dlls == old(dlls)
    {
      var start, i := 0, 0;
      var lp := "";
      while true
        invariant 0 <= start && 0 <= i && start + i <= |c| && dlls == old(dlls)
        invariant lp == c[start..start + if i < 100 then i else 100]
        invariant FirstHit(world.files.Keys, Dirs(c), fn) == FirstHit(world.files.Keys, DirsFrom(c, start, start + i), fn)
        decreases |c| - start - i, |c| - start
      {
        if start + i == |c| || c[start + i] == ':' {
          assert DirsFrom(c, start, start + i)[0] == c[start..start + i];
          if i < 100 {
            ShortNameOfPath(lp, fn);
            r := Open(lp + "/" + fn);
            if r == 0 {
              return 0;
            }
          }
          if start + i == |c| {
            return 1;
          }
          start, i, lp := start + i + 1, 0, "";
        } else {
          if i < 100 {
            lp := lp + [c[start + i]];
          }
          i := i + 1;
        }
      }
    }

    /** loadlibrary: nothing for a name that is too long or already loaded, otherwise one object if a file is found. */
    method LoadLibrary(fn: string) returns (r: int)
      modifies `dlls
      ensures r != 0 <==> world.Unavailable(old(dlls), fn)
      ensures r != 0 || ShortName(fn) in Names(old(dlls)) ==> dlls == old(dlls)
      ensures r == 0 && ShortName(fn) !in Names(old(dlls)) ==>
                exists file :: world.LeadsTo(fn, file)
                               && dlls == old(dlls) + [Dll(ShortName(fn), file, world.files[file])]
    {
      var shortname := AfterSlash(fn);
      if |fn| > 50 {
        return -1;
      }
      for i := 0 to |dlls|
        invariant ShortName(fn) !in Names(dlls)[..i] && dlls == old(dlls)
      {
        if dlls[i].name == fn[shortname..] {
          assert Names(dlls)[i] == ShortName(fn);
          return 0;
        }
      }
      assert Names(dlls)[..|dlls|] == Names(dlls);
      if fn != [] && fn[0] == '/' {
        r := Open(fn);
        assert r == 0 ==> world.LeadsTo(fn, fn);
        return;
      }
      ShortNameOfPath(world.path, fn);
      r := Open(world.path + "/" + fn);
      if r == 0 {
        assert world.LeadsTo(fn, world.path + "/" + fn);
        return;
      }
      if world.ldlp.Some? {
        r := TryDirs(world.ldlp.value, fn);
        assert r == 0 ==> world.LeadsTo(fn, FirstHit(world.files.Keys, Dirs(world.ldlp.value), fn).value);
      }
    }

    /** The DT_NEEDED entry e of object k. */
    method Need(k: nat, e: nat) returns (r: int)
      requires world.WellLoaded(dlls) && Asks(dlls, Entry(k, e)) && Asked(dlls, Entry(k, e)) in NeededNames(dlls[k].dynamic)
      requires world.InOrder(dlls, calls) && SatisfiedBefore(dlls, Entry(k, e))
      requires AllBefore(calls, Entry(k, e)) || Satisfied(dlls, k)
      modifies this
      ensures world.WellLoaded(dlls) && old(dlls) <= dlls
      ensures r == 0 ==> Present(dlls, old(dlls)[k].dynamic[e].name)
      ensures forall m :: m in Names(old(dlls)) ==> m in Names(dlls)
      ensures r != 0 ==> world.Unavailable(dlls, old(dlls)[k].dynamic[e].name)
      ensures world.InOrder(dlls, calls)
      ensures r == 0 ==> SatisfiedBefore(dlls, Entry(k, e + 1))
      ensures AllBefore(calls, Entry(k, e + 1)) || Satisfied(dlls, k)
      ensures old(AllBefore(calls, Entry(k + 1, 0))) ==> AllBefore(calls, Entry(k + 1, 0))
    {
      hide World.InOrder, World.WellLoaded, Satisfied, SatisfiedBefore, AllBefore;
      ghost var c := Entry(k, e);
      AllBeforeMore(calls, c, Entry(k, e + 1));
      var n := dlls[k].dynamic[e].name;
      r := LoadLibrary(n);
      if r == 0 && ShortName(n) !in Names(old(dlls)) {
        ghost var file :| world.LeadsTo(n, file) && dlls == old(dlls) + [Dll(ShortName(n), file, world.files[file])];
        world.WellLoadedAppend(old(dlls), k, n, file);
        assert Names(dlls)[|old(dlls)|] == ShortName(n);
        NotSatisfied(old(dlls), k, n);
        world.InOrderAppend(old(dlls), calls, c, file);
        AllBeforeAppend(calls, c, Entry(k, e + 1));
        AllBeforeAppend(calls, c, Entry(k + 1, 0));
        calls := calls + [c];
      }
      NamesGrow(old(dlls), dlls);
      if r == 0 {
        SatisfiedBeforeNext(old(dlls), dlls, k, e);
      }
    }

    /** loadlibs: the DT_NEEDED entries of object k, in order; false stands for exit(2). */
    method LoadLibs(k: nat) returns (ok: bool)
      requires world.WellLoaded(dlls) && k < |dlls|
      requires world.InOrder(dlls, calls) && SatisfiedBefore(dlls, Entry(k, 0))
      requires AllBefore(calls, Entry(k, 0)) || Satisfied(dlls, k)
      modifies this
      ensures world.WellLoaded(dlls) && old(dlls) <= dlls
      ensures ok ==> Satisfied(dlls, k)
      ensures !ok ==> exists n :: n in NeededNames(dlls[k].dynamic) && world.Unavailable(dlls, n)
      ensures world.InOrder(dlls, calls)
      ensures old(AllBefore(calls, Entry(k + 1, 0))) ==> AllBefore(calls, Entry(k + 1, 0))
    {
      hide World.InOrder, World.WellLoaded, World.Unavailable, Satisfied, SatisfiedBefore, AllBefore, Names, ShortName;
      var d := dlls[k].dynamic;
      var i := 0;
      while i < |d|
        invariant 0 <= i <= |d| && world.WellLoaded(dlls) && old(dlls) <= dlls && dlls[k].dynamic == d
        invariant i > 0 ==> Reads(d, i - 1)
        invariant world.InOrder(dlls, calls) && SatisfiedBefore(dlls, Entry(k, i))
        invariant AllBefore(calls, Entry(k, i)) || Satisfied(dlls, k)
        invariant old(AllBefore(calls, Entry(k + 1, 0))) ==> AllBefore(calls, Entry(k + 1, 0))
      {
        if d[i].Needed? {
          assert d[i] == Needed(d[i].name) && Reads(d, i);
          NeededExactly(d, d[i].name);
          var r := Need(k, i);
          if r != 0 {
            return false;
          }
        } else if d[i].Null? {
          break;
        } else {
          SatisfiedBeforeNext(dlls, dlls, k, i);
          AllBeforeMore(calls, Entry(k, i), Entry(k, i + 1));
        }
        i := i + 1;
      }
      ok := true;
      SatisfiedAtEnd(dlls, k, i);
    }

    /**
     The end of main's preparation: the program's libraries, then those of every object in the
     list, which grows meanwhile.  True when nothing was missing.
     */
    method LoadAll() returns (ok: bool)
      requires world.WellLoaded(dlls) && |dlls| == 1 && world.InOrder(dlls, calls)
      modifies this
      ensures world.WellLoaded(dlls) && old(dlls) <= dlls
      ensures ok ==> Closed(dlls)
      ensures !ok ==> MissesOne(world, dlls)
      ensures world.InOrder(dlls, calls)
    {
      hide World.InOrder, World.WellLoaded, Satisfied, SatisfiedBefore, AllBefore, Names, World.Unavailable;
      StartsInOrder(world, dlls, calls);
      ok := LoadLibs(0);
      if !ok {
        return;
      }
      var x := 0;
      while x < |dlls|
        invariant 0 <= x <= |dlls| && world.WellLoaded(dlls) && old(dlls) <= dlls
        invariant forall j :: 0 <= j < x ==> Satisfied(dlls, j)
        invariant world.InOrder(dlls, calls) && AllBefore(calls, Entry(if x == 0 then 1 else x, 0))
        invariant x == 0 ==> Satisfied(dlls, 0)
        decreases |world.PossibleNames()| - x
      {
        ghost var before := dlls;
        SatisfiedUpTo(dlls, x);
        AllBeforeMore(calls, Entry(x, 0), Entry(x + 1, 0));
        ok := LoadLibs(x);
        if !ok {
          return;
        }
        SatisfiedGrow(before, dlls, x);
        world.CountBound(dlls);
        x := x + 1;
      }
      ok := true;
    }
  }

  ghost predicate Satisfied(dlls: seq<Dll>, k: nat)
    requires k < |dlls|
  {
    forall n :: n in NeededNames(dlls[k].dynamic) ==> Present(dlls, n)
  }

  /** Everything that a loaded object needs is loaded. */
  ghost predicate Closed(dlls: seq<Dll>) {
    forall k :: 0 <= k < |dlls| ==> Satisfied(dlls, k)
  }

  ghost predicate MissesOne(world: World, dlls: seq<Dll>) {
    exists k, n :: 0 <= k < |dlls| && n in NeededNames(dlls[k].dynamic) && world.Unavailable(dlls, n)
  }

  lemma NamesGrow(dlls: seq<Dll>, more: seq<Dll>)
    requires dlls <= more
    ensures forall n :: n in Names(dlls) ==> n in Names(more)
  {
    forall n | n in Names(dlls)
      ensures n in Names(more)
    {
      var i :| 0 <= i < |dlls| && Names(dlls)[i] == n;
      assert Names(more)[i] == n;
    }
  }

  lemma SatisfiedGrow(dlls: seq<Dll>, more: seq<Dll>, x: nat)
    requires dlls <= more && x <= |dlls| && forall j :: 0 <= j < x ==> Satisfied(dlls, j)
    ensures forall j :: 0 <= j < x ==> Satisfied(more, j)
  {
    NamesGrow(dlls, more);
    forall j | 0 <= j < x
      ensures Satisfied(more, j)
    {
      assert Satisfied(dlls, j) && dlls[j] == more[j];
    }
  }

  lemma StartsInOrder(world: World, dlls: seq<Dll>, calls: seq<Entry>)
    requires |dlls| == 1 && world.InOrder(dlls, calls)
    ensures SatisfiedBefore(dlls, Entry(0, 0)) && AllBefore(calls, Entry(0, 0)) && AllBefore(calls, Entry(1, 0))
  {
  }

  lemma NotSatisfied(dlls: seq<Dll>, k: nat, n: string)
    requires k < |dlls| && n in NeededNames(dlls[k].dynamic) && ShortName(n) !in Names(dlls)
    ensures !Satisfied(dlls, k)
  {
  }

  lemma SatisfiedAtEnd(dlls: seq<Dll>, k: nat, e: nat)
    requires k < |dlls| && SatisfiedBefore(dlls, Entry(k, e))
    requires e == |dlls[k].dynamic| || (e < |dlls[k].dynamic| && dlls[k].dynamic[e].Null?)
    ensures Satisfied(dlls, k)
  {
    var d := dlls[k].dynamic;
    forall n | n in NeededNames(d)
      ensures Present(dlls, n)
    {
      NeededExactly(d, n);
      var i :| 0 <= i < |d| && d[i] == Needed(n) && Reads(d, i);
      assert Before(Entry(k, i), Entry(k, e)) && Asks(dlls, Entry(k, i));
    }
  }

  lemma AllBeforeMore(calls: seq<Entry>, a: Entry, b: Entry)
    requires Before(a, b)
    ensures AllBefore(calls, a) ==> AllBefore(calls, b)
  {
  }

  lemma AllBeforeAppend(calls: seq<Entry>, a: Entry, b: Entry)
    requires Before(a, b)
    ensures AllBefore(calls, b) ==> AllBefore(calls + [a], b)
  {
  }

  lemma SatisfiedUpTo(dlls: seq<Dll>, x: nat)
    requires x <= |dlls| && forall j :: 0 <= j < x ==> Satisfied(dlls, j)
    ensures SatisfiedBefore(dlls, Entry(x, 0))
  {
    forall c | Before(c, Entry(x, 0)) && Asks(dlls, c)
      ensures Present(dlls, Asked(dlls, c))
    {
      assert Satisfied(dlls, c.i);
      NeededExactly(dlls[c.i].dynamic, Asked(dlls, c));
    }
  }

  lemma SatisfiedBeforeNext(dlls: seq<Dll>, more: seq<Dll>, k: nat, e: nat)
    requires dlls <= more && k < |dlls| && SatisfiedBefore(dlls, Entry(k, e))
    requires Asks(dlls, Entry(k, e)) ==> Present(more, Asked(dlls, Entry(k, e)))
    ensures SatisfiedBefore(more, Entry(k, e + 1))
  {
    NamesGrow(dlls, more);
    forall c | Before(c, Entry(k, e + 1)) && Asks(more, c)
      ensures Present(more, Asked(more, c))
    {
      assert more[c.i] == dlls[c.i];
      assert c == Entry(k, e) || Before(c, Entry(k, e));
    }
  }

  // ----- reachability -----

  /** p is a path from a to b along the edges. */
  ghost predicate Path(edges: string -> set<string>, a: string, b: string, p: seq<string>) {
    && |p| > 0 && p[0] == a && p[|p| - 1] == b
    && forall k :: 0 < k < |p| ==> p[k] in edges(p[k - 1])
  }

  ghost predicate Reachable(edges: string -> set<string>, a: string, b: string) {
    exists p :: Path(edges, a, b, p)
  }

  lemma PathExtend(edges: string -> set<string>, a: string, b: string, c: string)
    requires Reachable(edges, a, b) && c in edges(b)
    ensures Reachable(edges, a, c)
  {
    var p :| Path(edges, a, b, p);
    assert Path(edges, a, c, p + [c]);
  }

  ghost predicate Rooted(names: seq<string>, edges: string -> set<string>) {
    forall j :: 0 < j < |names| ==> exists i :: 0 <= i < j && names[j] in edges(names[i])
  }

  lemma {:induction false} RootedReachable(names: seq<string>, edges: string -> set<string>, j: nat)
    requires j < |names| && Rooted(names, edges)
    ensures Reachable(edges, names[0], names[j])
  {
    if j == 0 {
      assert Path(edges, names[0], names[0], [names[0]]);
    } else {
      var i :| 0 <= i < j && names[j] in edges(names[i]);
      RootedReachable(names, edges, i);
      PathExtend(edges, names[0], names[i], names[j]);
    }
  }

  lemma {:induction false} ClosedContains(names: seq<string>, edges: string -> set<string>, p: seq<string>, b: string)
    requires names != [] && (forall n, m :: n in names && m in edges(n) ==> m in names)
    requires Path(edges, names[0], b, p)
    ensures b in names
  {
    if |p| > 1 {
      ClosedContains(names, edges, p[..|p| - 1], p[|p| - 2]);
    }
  }

  /** The edges among the loaded objects, by name. */
  ghost function LoadedEdges(dlls: seq<Dll>): string -> set<string> {
    name => set k, n | 0 <= k < |dlls| && dlls[k].name == name && n in NeededNames(dlls[k].dynamic) :: ShortName(n)
  }

  lemma LoadedClosed(dlls: seq<Dll>, name: string, m: string)
    requires Closed(dlls) && m in LoadedEdges(dlls)(name)
    ensures m in Names(dlls)
  {
    var k, n :| 0 <= k < |dlls| && dlls[k].name == name && n in NeededNames(dlls[k].dynamic) && ShortName(n) == m;
    assert Satisfied(dlls, k);
  }

  /** When the work list is finished, the loaded objects are exactly those reachable from the program. */
  lemma LoadedExactlyReachable(world: World, dlls: seq<Dll>, m: string)
    requires world.WellLoaded(dlls) && Closed(dlls)
    ensures m in Names(dlls) <==> Reachable(LoadedEdges(dlls), "", m)
  {
    var names, edges := Names(dlls), LoadedEdges(dlls);
    LoadedRooted(world, dlls);
    if m in names {
      var j :| 0 <= j < |names| && names[j] == m;
      RootedReachable(names, edges, j);
    }
    if Reachable(edges, "", m) {
      forall n, m' | n in names && m' in edges(n)
        ensures m' in names
      {
        LoadedClosed(dlls, n, m');
      }
      var p :| Path(edges, "", m, p);
      ClosedContains(names, edges, p, m);
    }
  }

  lemma LoadedRooted(world: World, dlls: seq<Dll>)
    requires world.WellLoaded(dlls)
    ensures Rooted(Names(dlls), LoadedEdges(dlls))
  {
    var names, edges := Names(dlls), LoadedEdges(dlls);
    forall j | 0 < j < |names|
      ensures exists i :: 0 <= i < j && names[j] in edges(names[i])
    {
      assert world.CalledFor(dlls, j);
      var i, n :| 0 <= i < j && n in NeededNames(dlls[i].dynamic)
                  && ShortName(n) == dlls[j].name && world.LeadsTo(n, dlls[j].file);
      assert names[j] in edges(names[i]);
    }
  }

  // ----- plain names: the graph is there before anything is loaded -----

  ghost predicate PlainNames(d: seq<Dyn>) {
    forall n :: n in NeededNames(d) ==> '/' !in n
  }

  /** No library is asked for by a path. */
  ghost predicate Plain(world: World, program: seq<Dyn>) {
    PlainNames(program) && forall f :: f in world.files ==> PlainNames(world.files[f])
  }

  function DynamicOf(world: World, program: seq<Dyn>, name: string): seq<Dyn> {
    if name == "" then program
    else match world.Find(name)
      case Some(f) => world.files[f]
      case None => []
  }

  ghost function ShortNeeds(d: seq<Dyn>): set<string> {
    set n | n in NeededNames(d) :: ShortName(n)
  }

  /** The needs of the program and of the libraries that the search finds. */
  ghost function Edges(world: World, program: seq<Dyn>): string -> set<string> {
    name => ShortNeeds(DynamicOf(world, program, name))
  }

  /** A name that can be loaded. */
  predicate Available(world: World, m: string) {
    m == "" || (|m| <= 50 && world.Find(m).Some?)
  }

  lemma PlainObject(world: World, program: seq<Dyn>, dlls: seq<Dll>, j: nat)
    requires world.WellLoaded(dlls) && dlls[0].dynamic == program && Plain(world, program) && j < |dlls|
    ensures PlainNames(dlls[j].dynamic) && Available(world, dlls[j].name)
    ensures Edges(world, program)(dlls[j].name) == ShortNeeds(dlls[j].dynamic)
  {
    if j > 0 {
      assert world.CalledFor(dlls, j);
      var i, n :| 0 <= i < j && n in NeededNames(dlls[i].dynamic)
                  && ShortName(n) == dlls[j].name && world.LeadsTo(n, dlls[j].file);
      assert PlainNames(dlls[i].dynamic);
      NoSlashShort(n);
      assert Names(dlls)[j] != Names(dlls)[0];
    }
  }

  lemma PlainRooted(world: World, program: seq<Dyn>, dlls: seq<Dll>)
    requires world.WellLoaded(dlls) && dlls[0].dynamic == program && Plain(world, program)
    ensures Rooted(Names(dlls), Edges(world, program))
  {
    var names, edges := Names(dlls), Edges(world, program);
    forall j | 0 < j < |names|
      ensures exists i :: 0 <= i < j && names[j] in edges(names[i])
    {
      assert world.CalledFor(dlls, j);
      var i, n :| 0 <= i < j && n in NeededNames(dlls[i].dynamic)
                  && ShortName(n) == dlls[j].name && world.LeadsTo(n, dlls[j].file);
      PlainObject(world, program, dlls, i);
      assert names[j] in edges(names[i]);
    }
  }

  lemma PlainClosed(world: World, program: seq<Dyn>, dlls: seq<Dll>, n: string, m: string)
    requires world.WellLoaded(dlls) && dlls[0].dynamic == program && Plain(world, program) && Closed(dlls)
    requires n in Names(dlls) && m in Edges(world, program)(n)
    ensures m in Names(dlls)
  {
    var k :| 0 <= k < |dlls| && Names(dlls)[k] == n;
    PlainObject(world, program, dlls, k);
    assert Satisfied(dlls, k);
  }

  /** A run that completed has loaded exactly what the program reaches, and all of it could be found. */
  lemma PlainComplete(world: World, program: seq<Dyn>, dlls: seq<Dll>, m: string)
    requires world.WellLoaded(dlls) && dlls[0].dynamic == program && Plain(world, program) && Closed(dlls)
    ensures m in Names(dlls) <==> Reachable(Edges(world, program), "", m)
    ensures m in Names(dlls) ==> Available(world, m)
  {
    var names, edges := Names(dlls), Edges(world, program);
    PlainRooted(world, program, dlls);
    if m in names {
      var j :| 0 <= j < |names| && names[j] == m;
      RootedReachable(names, edges, j);
      PlainObject(world, program, dlls, j);
    }
    if Reachable(edges, "", m) {
      forall n, m' | n in names && m' in edges(n)
        ensures m' in names
      {
        PlainClosed(world, program, dlls, n, m');
      }
      var p :| Path(edges, "", m, p);
      ClosedContains(names, edges, p, m);
    }
  }

  /** A run that stopped did so because of a name that the program reaches and that cannot be loaded. */
  lemma PlainStopped(world: World, program: seq<Dyn>, dlls: seq<Dll>)
    requires world.WellLoaded(dlls) && dlls[0].dynamic == program && Plain(world, program) && MissesOne(world, dlls)
    ensures exists m :: Reachable(Edges(world, program), "", m) && !Available(world, m)
  {
    var names, edges := Names(dlls), Edges(world, program);
    var k, n :| 0 <= k < |dlls| && n in NeededNames(dlls[k].dynamic) && world.Unavailable(dlls, n);
    PlainRooted(world, program, dlls);
    RootedReachable(names, edges, k);
    PlainObject(world, program, dlls, k);
    NoSlashShort(n);
    PathExtend(edges, "", names[k], n);
    assert names[0] == "";
  }

  /**
   main's preparation as a whole.  It stops only at a needed name that is unavailable, and
   otherwise loads exactly what the program reaches among the loaded objects, each name once.
   When the names are plain, that graph is there before anything is loaded: the preparation
   succeeds exactly when every name the program reaches can be loaded, and then exactly those
   are loaded.
   */
  method Prepare(world: World, program: seq<Dyn>) returns (ok: bool, dlls: seq<Dll>)
    ensures world.WellLoaded(dlls) && dlls[0].dynamic == program
    ensures exists calls :: world.InOrder(dlls, calls)
    ensures ok ==> Closed(dlls) && forall m :: m in Names(dlls) <==> Reachable(LoadedEdges(dlls), "", m)
    ensures !ok ==> MissesOne(world, dlls)
    ensures ok ==> forall k: nat, i: nat :: k < |dlls| && Reads(dlls[k].dynamic, i) && dlls[k].dynamic[i].Needed? ==>
                     |dlls[k].dynamic[i].name| <= 50 && ShortName(dlls[k].dynamic[i].name) in Names(dlls)
    ensures !ok ==> exists k: nat, i: nat :: k < |dlls| && Reads(dlls[k].dynamic, i) && dlls[k].dynamic[i].Needed?
                      && (|dlls[k].dynamic[i].name| > 50
                          || (ShortName(dlls[k].dynamic[i].name) !in Names(dlls)
                              && Resolve(world.files.Keys, world.path, world.ldlp, dlls[k].dynamic[i].name).None?))
    ensures Plain(world, program) ==>
              (ok <==> forall m :: Reachable(Edges(world, program), "", m) ==> Available(world, m))
    ensures Plain(world, program) && ok ==>
              forall m :: m in Names(dlls) <==> Reachable(Edges(world, program), "", m)
  {
    var linker := new Linker(world, program);
    ok := linker.LoadAll();
    dlls := linker.dlls;
    if ok {
      forall m: string
        ensures m in Names(dlls) <==> Reachable(LoadedEdges(dlls), "", m)
      {
        LoadedExactlyReachable(world, dlls, m);
      }
      EntriesLoaded(dlls);
    } else {
      EntryMissing(world, dlls);
    }
    if Plain(world, program) {
      PlainOutcome(world, program, dlls, ok);
    }
  }

  lemma EntriesLoaded(dlls: seq<Dll>)
    requires Closed(dlls)
    ensures forall k: nat, i: nat :: k < |dlls| && Reads(dlls[k].dynamic, i) && dlls[k].dynamic[i].Needed? ==>
              Present(dlls, dlls[k].dynamic[i].name)
  {
    forall k: nat, i: nat | k < |dlls| && Reads(dlls[k].dynamic, i) && dlls[k].dynamic[i].Needed?
      ensures Present(dlls, dlls[k].dynamic[i].name)
    {
      var n := dlls[k].dynamic[i].name;
      assert dlls[k].dynamic[i] == Needed(n);
      NeededExactly(dlls[k].dynamic, n);
      assert Satisfied(dlls, k);
    }
  }

  lemma EntryMissing(world: World, dlls: seq<Dll>)
    requires MissesOne(world, dlls)
    ensures exists k: nat, i: nat :: k < |dlls| && Reads(dlls[k].dynamic, i) && dlls[k].dynamic[i].Needed?
                      && world.Unavailable(dlls, dlls[k].dynamic[i].name)
  {
    var k, n :| 0 <= k < |dlls| && n in NeededNames(dlls[k].dynamic) && world.Unavailable(dlls, n);
    NeededExactly(dlls[k].dynamic, n);
    var i :| 0 <= i < |dlls[k].dynamic| && dlls[k].dynamic[i] == Needed(n) && Reads(dlls[k].dynamic, i);
    assert dlls[k].dynamic[i].name == n;
  }

  lemma PlainOutcome(world: World, program: seq<Dyn>, dlls: seq<Dll>, ok: bool)
    requires world.WellLoaded(dlls) && dlls[0].dynamic == program && Plain(world, program)
    requires if ok then Closed(dlls) else MissesOne(world, dlls)
    ensures ok <==> forall m :: Reachable(Edges(world, program), "", m) ==> Available(world, m)
    ensures ok ==> forall m :: m in Names(dlls) <==> Reachable(Edges(world, program), "", m)
  {
    if ok {
      forall m: string
        ensures m in Names(dlls) <==> Reachable(Edges(world, program), "", m)
        ensures m in Names(dlls) ==> Available(world, m)
      {
        PlainComplete(world, program, dlls, m);
      }
    } else {
      PlainStopped(world, program, dlls);
    }
  }
}
