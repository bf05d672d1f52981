/**
 __realpath and chdir: drives, the current directory, and the proof that a run of relative chdir
 calls ends where one chdir to the joined path ends.
 */
module WorkingDirectory {
  import opened Basics
  import opened PathText
  import opened Paths

  datatype Error = EFAULT | EINVAL | ENOENT | ENOMEM | ENAMETOOLONG | EDIR

  datatype Result = Path(text: string) | Error(error: Error)

  predicate DriveChar(c: char) { 'a' <= c <= 'z' || '0' <= c <= '9' }

  /** How many lower-case letters and digits the path starts with. */
  function DriveName(path: string): (k: nat)
    ensures k <= |path| && (k < |path| ==> !DriveChar(path[k])) && forall i :: 0 <= i < k ==> DriveChar(path[i])
  {
    if path == "" || !DriveChar(path[0]) then 0 else 1 + DriveName(path[1..])
  }

  /** The length of the drive prefix, colon included; zero without one. */
  function Drive(path: string): (d: nat)
    ensures d <= |path|
  {
    var k := DriveName(path);
    if k < |path| && path[k] == ':' then k + 1 else 0
  }

  function Initialised(cwd: string): string { if cwd == "" then "app0:" else cwd }

  function Placed(drive: string, rest: string): Result {
    if |Buffer(rest)| + |drive| < PATH_MAX then Path(drive + Buffer(rest)) else Error(ENAMETOOLONG)
  }

  /** The absolute path with drive that a path stands for while the current directory is cwd. */
  function Realpath(cwd: string, path: string): Result {
    var c := Initialised(cwd);
    var d := Drive(path);
    if path == "" then Error(ENOENT)
    else if d > 0 then Placed(path[..d], path[d..])
    else if path[0] == '/' then Placed(c[..Drive(c)], path)
    else if |c| + |path| < PATH_MAX then
      var full := c + "/" + path;
      Placed(full[..Drive(full)], full[Drive(full)..])
    else Error(ENAMETOOLONG)
  }

  /** The joined text does not fill its buffer to the last byte: its slash is not counted. */
  predicate Safe(cwd: string, path: string) {
    path == "" || Drive(path) > 0 || path[0] == '/' || |Initialised(cwd)| + |path| + 1 != PATH_MAX
  }

  /** The text that the resolver gets; empty when it gets none. */
  function ToResolve(cwd: string, path: string): string {
    var full := Initialised(cwd) + "/" + path;
    if Drive(path) > 0 then path[Drive(path)..]
    else if path == "" || path[0] == '/' then path
    else if |Initialised(cwd)| + |path| < PATH_MAX then full[Drive(full)..]
    else ""
  }

  function Chdir(cwd: string, path: string, isDir: string -> bool): Result {
    match Realpath(cwd, path)
    case Error(e) => Error(e)
    case Path(full) => if isDir(full) then Path(full) else Error(EDIR)
  }

  // ---------------------------------------------------------------- the code

  /** __get_drive: a scan for the end of the drive. */
  method GetDrive(path: string) returns (d: nat)
    ensures d == Drive(path)
  {
    var i := 0;
    while i < |path| && DriveChar(path[i])
      invariant i <= |path| && forall k :: 0 <= k < i ==> DriveChar(path[k])
    {
      i := i + 1;
    }
    return if i < |path| && path[i] == ':' then i + 1 else 0;
  }

  class Directory {
    var cwd: string

    constructor ()
      ensures cwd == ""
    {
      cwd := "";
    }

    method InitCwd()
      modifies this
      ensures cwd == Initialised(old(cwd))
    {
      if cwd == "" {
        cwd := "app0:";
      }
    }

    /** Resolve rest into a fresh zeroed buffer and put the drive before it. */
    method Place(drive: string, rest: string, before: char) returns (r: Result)
      requires NulFree(rest) && (LooksBefore(rest) ==> before != '/')
      ensures r == Placed(drive, rest)
    {
      var resolved := new char[PATH_MAX](_ => '\0');
      ghost var zeroed := resolved[..];
      var _ := ResolvePath(rest, resolved, before);
      assert resolved[..] == zeroed ==> resolved[0] == zeroed[0] && Holds(resolved, "");
      assert Holds(resolved, Buffer(rest));
      var text := ReadText(resolved, Buffer(rest));
      if |text| + |drive| < PATH_MAX {
        return Path(drive + text);
      }
      return Error(ENAMETOOLONG);
    }

    static method ReadText(a: array<char>, ghost s: string) returns (t: string)
      requires Holds(a, s)
      ensures t == s
    {
      var k := 0;
      while a[k] != '\0'
        invariant 0 <= k <= |s|
        decreases |s| - k
      {
        k := k + 1;
      }
      t := a[..k];
    }

    /** The allocation of the result and the byte before the resolver's buffer are parameters. */
    method RealPath(path: Option<string>, gotMemory: bool, before: char) returns (r: Result)
      requires path.Some? ==> NulFree(path.value) && NulFree(cwd) && Safe(cwd, path.value)
      requires path.Some? && LooksBefore(ToResolve(cwd, path.value)) ==> before != '/'
      modifies this
      ensures cwd == old(cwd) || cwd == Initialised(old(cwd))
      ensures path.None? ==> r == Error(EINVAL)
      ensures path.Some? && path.value == "" ==> r == Error(ENOENT)
      ensures path.Some? && path.value != "" && !gotMemory ==> r == Error(ENOMEM)
      ensures path.Some? && gotMemory ==> r == Realpath(old(cwd), path.value)
    {
      if path.None? {
        return Error(EINVAL);
      }
      var p := path.value;
      if p == "" {
        return Error(ENOENT);
      }
      if !gotMemory {
        return Error(ENOMEM);
      }
      var d := GetDrive(p);
      if d > 0 {
        r := Place(p[..d], p[d..], before);
      } else if p[0] == '/' {
        InitCwd();
        d := GetDrive(cwd);
        r := Place(cwd[..d], p, before);
      } else {
        InitCwd();
        if |cwd| + |p| < PATH_MAX {
          var full := cwd + "/" + p;
          d := GetDrive(full);
          r := Place(full[..d], full[d..], before);
        } else {
          r := Error(ENAMETOOLONG);
        }
      }
    }

    /** chdir: the current directory changes only when the path resolves to a directory. */
    method ChangeDir(path: Option<string>, gotMemory: bool, before: char, isDir: string -> bool) returns (r: Result)
      requires path.Some? ==> NulFree(path.value) && NulFree(cwd) && Safe(cwd, path.value)
      requires path.Some? && LooksBefore(ToResolve(cwd, path.value)) ==> before != '/'
      modifies this
      ensures path.None? ==> r == Error(EFAULT)
      ensures path.Some? && gotMemory ==> r == Chdir(old(cwd), path.value, isDir)
      ensures path.Some? && gotMemory ==>
        var full := Realpath(old(cwd), path.value);
        r == if full.Path? && !isDir(full.text) then Error(EDIR) else full
      ensures path.Some? && !gotMemory ==> r == Error(if path.value == "" then ENOENT else ENOMEM)
      ensures Initialised(cwd) == if r.Path? then Initialised(r.text) else Initialised(old(cwd))
      ensures r.Path? ==> cwd == r.text
    {
      if path.None? {
        return Error(EFAULT);
      }
      r := RealPath(path, gotMemory, before);
      if r.Error? {
        return;
      }
      if !isDir(r.text) {
        return Error(EDIR);
      }
      cwd := r.text;
    }
  }

  // ---------------------------------------------------------------- runs of chdir

  /** The current directory c is the drive alone, or the drive and a resolved path with components st. */
  ghost predicate CwdIs(c: string, drive: string, st: Stack) {
    && drive != "" && Drive(drive) == |drive| && Normal(st)
    && ((st == [] && c == drive) || c == drive + Render(st))
  }

  /** A path that is taken from the current directory. */
  predicate Relative(p: string) { p != "" && p[0] != '/' && Drive(p) == 0 }

  lemma DrivePrefix(drive: string, x: string)
    requires drive != "" && Drive(drive) == |drive|
    ensures Drive(drive + x) == |drive|
  {
    var s, k := drive + x, DriveName(drive);
    assert k < |drive| && drive[k] == ':' && k + 1 == |drive|;
    assert s[k] == ':' && forall i :: 0 <= i < k ==> DriveChar(s[i]);
    assert DriveName(s) == k;
  }

  lemma DriveJoined(p: string, q: string)
    requires Drive(p) == 0
    ensures Drive(p + "/" + q) == 0
  {
    var s, k := p + "/" + q, DriveName(p);
    assert forall i :: 0 <= i < |p| ==> s[i] == p[i];
    assert s[|p|] == '/';
    assert DriveName(s) == k;
  }

  /** Folding the text behind the drive gives the components, with or without a first slash. */
  lemma CwdFolds(r: string, st: Stack, p: string)
    requires Normal(st) && ((st == [] && r == "") || r == Render(st))
    ensures Resolve(r + "/" + p) == Render(Fold(st, Split(p)))
  {
    SplitConcat(r, p);
    FoldConcat([], Split(r), Split(p));
    if r == "" {
      SplitWhole("");
      FoldStep([], "", []);
      assert [""] == [""] + [];
    } else {
      FoldRender(st);
    }
  }

  /** One relative step: the components of the path are folded onto those of the current directory. */
  lemma RelativeStep(cwd: string, drive: string, st: Stack, p: string)
    requires CwdIs(Initialised(cwd), drive, st) && Relative(p) && |Initialised(cwd)| + |p| + 1 < PATH_MAX
    ensures Realpath(cwd, p) == Path(drive + Render(Fold(st, Split(p))))
    ensures CwdIs(drive + Render(Fold(st, Split(p))), drive, Fold(st, Split(p)))
    ensures |drive + Render(Fold(st, Split(p)))| <= |Initialised(cwd)| + 1 + |p|
  {
    hide Fold, Split, Join;
    var c := Initialised(cwd);
    var r := c[|drive|..];
    var rest := r + "/" + p;
    assert c == drive + r && ((st == [] && r == "") || r == Render(st));
    var full := c + "/" + p;
    assert full == drive + rest;
    DrivePrefix(drive, rest);
    assert full[..|drive|] == drive && full[|drive|..] == rest;
    CwdFolds(r, st, p);
    JoinAbsolute(st);
    assert rest[0] == '/';
    ResolveShortens(rest);
    SplitNoSlash(p);
    FoldNormal(st, Split(p));
  }

  function JoinAll(ps: seq<string>): string
    requires ps != []
  {
    if |ps| == 1 then ps[0] else ps[0] + "/" + JoinAll(ps[1..])
  }

  /** The current directory after one chdir after another, all of which succeed. */
  function Walk(cwd: string, ps: seq<string>, isDir: string -> bool): Result
    decreases |ps|
  {
    if ps == [] then Path(cwd)
    else
      var r := Chdir(cwd, ps[0], isDir);
      if r.Error? then r else Walk(r.text, ps[1..], isDir)
  }

  lemma {:induction false} JoinAllRelative(ps: seq<string>)
    requires ps != [] && forall i :: 0 <= i < |ps| ==> Relative(ps[i])
    ensures Relative(JoinAll(ps))
  {
    if |ps| > 1 {
      assert Relative(ps[0]);
      DriveJoined(ps[0], JoinAll(ps[1..]));
    }
  }

  lemma {:induction false} WalkFolds(cwd: string, drive: string, st: Stack, ps: seq<string>, isDir: string -> bool)
    requires ps != [] && forall i :: 0 <= i < |ps| ==> Relative(ps[i])
    requires CwdIs(Initialised(cwd), drive, st) && |Initialised(cwd)| + |JoinAll(ps)| + 1 < PATH_MAX
    requires Walk(cwd, ps, isDir).Path?
    ensures Walk(cwd, ps, isDir) == Path(drive + Render(Fold(st, Split(JoinAll(ps)))))
    ensures isDir(Walk(cwd, ps, isDir).text)
    decreases |ps|
  {
    hide Realpath, Fold, Split, Render, CwdIs, Relative;
    var p := ps[0];
    assert Relative(p);
    RelativeStep(cwd, drive, st, p);
    var next := drive + Render(Fold(st, Split(p)));
    assert Chdir(cwd, p, isDir) == Path(next);
    CwdNonempty(next, drive, Fold(st, Split(p)));
    if |ps| > 1 {
      WalkFolds(next, drive, Fold(st, Split(p)), ps[1..], isDir);
      SplitConcat(p, JoinAll(ps[1..]));
      FoldConcat(st, Split(p), Split(JoinAll(ps[1..])));
    } else {
      assert Walk(next, [], isDir) == Path(next);
      assert ps[1..] == [];
    }
  }

  lemma CwdNonempty(c: string, drive: string, st: Stack)
    requires CwdIs(c, drive, st)
    ensures c != "" && Initialised(c) == c
  {
  }

  /**
   A run of successful relative chdir calls ends where one chdir to the joined path ends, exactly when
   the joined text fits; otherwise the one chdir is refused for its length.
   */
  lemma WalkIsOneStep(cwd: string, drive: string, st: Stack, ps: seq<string>, isDir: string -> bool)
    requires ps != [] && forall i :: 0 <= i < |ps| ==> Relative(ps[i])
    requires CwdIs(Initialised(cwd), drive, st) && |Initialised(cwd)| + |JoinAll(ps)| + 1 != PATH_MAX
    requires Walk(cwd, ps, isDir).Path?
    ensures Chdir(cwd, JoinAll(ps), isDir) == Walk(cwd, ps, isDir) <==>
        |Initialised(cwd)| + |JoinAll(ps)| + 1 < PATH_MAX
    ensures Chdir(cwd, JoinAll(ps), isDir) == Walk(cwd, ps, isDir) ||
        Chdir(cwd, JoinAll(ps), isDir) == Error(ENAMETOOLONG)
  {
    JoinAllRelative(ps);
    TooLong(cwd, JoinAll(ps));
    hide Realpath, Fold, Split, Render, CwdIs, Relative, Walk;
    if |Initialised(cwd)| + |JoinAll(ps)| + 1 < PATH_MAX {
      WalkFolds(cwd, drive, st, ps, isDir);
      RelativeStep(cwd, drive, st, JoinAll(ps));
    }
  }

  lemma TooLong(cwd: string, p: string)
    requires Relative(p) && |Initialised(cwd)| + |p| + 1 != PATH_MAX
    ensures |Initialised(cwd)| + |p| + 1 < PATH_MAX || Realpath(cwd, p) == Error(ENAMETOOLONG)
  {
  }

  lemma SplitOne(p: string)
    requires NoSlash(p)
    ensures Fold([], Split(p)) == Apply([], p) && (forall st :: Fold(st, Split(p)) == Apply(st, p))
  {
    SplitWhole(p);
    assert [p][1..] == [];
  }

  /** In and out of a directory, n times. */
  function InAndOut(n: nat): seq<string> { if n == 0 then [] else ["a", ".."] + InAndOut(n - 1) }

  lemma {:induction false} InAndOutLength(n: nat)
    requires n > 0
    ensures InAndOut(n) != [] && |JoinAll(InAndOut(n))| == 5 * n - 1
    ensures forall i :: 0 <= i < |InAndOut(n)| ==> InAndOut(n)[i] == "a" || InAndOut(n)[i] == ".."
  {
    var ps, tail := InAndOut(n), InAndOut(n - 1);
    assert ps[1..] == [".."] + tail && ps[1..][1..] == tail;
    if n > 1 {
      InAndOutLength(n - 1);
      assert JoinAll(ps) == "a" + "/" + (".." + "/" + JoinAll(tail));
    } else {
      assert JoinAll(ps) == "a" + "/" + "..";
    }
  }

  /** One relative step by a single component. */
  lemma ComponentStep(cwd: string, st: Stack, p: string, next: string, isDir: string -> bool)
    requires CwdIs(Initialised(cwd), "app0:", st) && Relative(p) && NoSlash(p)
    requires |Initialised(cwd)| + |p| + 1 < PATH_MAX
    requires next == "app0:" + Render(Apply(st, p)) && isDir(next)
    ensures Chdir(cwd, p, isDir) == Path(next) && next != "" && CwdIs(next, "app0:", Apply(st, p))
  {
    hide Realpath, Fold, Split;
    RelativeStep(cwd, "app0:", st, p);
    SplitOne(p);
  }

  lemma InAndOutStep(cwd: string, ps: seq<string>, isDir: string -> bool)
    requires CwdIs(Initialised(cwd), "app0:", []) && forall s :: isDir(s)
    ensures Walk(cwd, ["a", ".."] + ps, isDir) == Walk("app0:/", ps, isDir)
  {
    hide Chdir;
    var all := ["a", ".."] + ps;
    assert all[1..] == [".."] + ps && ([".."] + ps)[1..] == ps;
    InOneStep(cwd, isDir);
    OutOneStep(isDir);
    assert Walk("app0:/a", [".."] + ps, isDir) == Walk("app0:/", ps, isDir);
  }

  lemma InOneStep(cwd: string, isDir: string -> bool)
    requires CwdIs(Initialised(cwd), "app0:", []) && isDir("app0:/a")
    ensures Chdir(cwd, "a", isDir) == Path("app0:/a")
  {
    hide Chdir;
    assert DriveName("a") == 1 && "app0:/a" == "app0:" + Render(["a"]);
    ComponentStep(cwd, [], "a", "app0:/a", isDir);
  }

  lemma OutOneStep(isDir: string -> bool)
    requires isDir("app0:/")
    ensures Chdir("app0:/a", "..", isDir) == Path("app0:/")
  {
    hide Chdir;
    assert "app0:/a" == "app0:" + Render(["a"]) && "app0:/" == "app0:" + Render([]);
    assert DriveName("..") == 0 && DriveName("app0:") == 4;
    ComponentStep("app0:/a", ["a"], "..", "app0:/", isDir);
  }

  lemma {:induction false} InAndOutWalk(cwd: string, n: nat, isDir: string -> bool)
    requires CwdIs(Initialised(cwd), "app0:", []) && (forall s :: isDir(s)) && n > 0
    ensures Walk(cwd, InAndOut(n), isDir) == Path("app0:/")
    decreases n
  {
    hide Chdir;
    InAndOutStep(cwd, InAndOut(n - 1), isDir);
    if n > 1 {
      InAndOutWalk("app0:/", n - 1, isDir);
    }
  }

  /** Such a run: into a directory and out again. */
  lemma WalkWitness(isDir: string -> bool)
    requires forall s :: isDir(s)
    ensures Walk("", ["a", ".."], isDir) == Path("app0:/") == Chdir("", "a/..", isDir)
  {
    hide Walk, Chdir;
    InitialCwd();
    InAndOutWalk("", 1, isDir);
    assert InAndOut(1) == ["a", ".."];
    assert DriveName("a") == 1 && DriveName("..") == 0;
    assert ["a", ".."][1..] == [".."];
    assert JoinAll([".."]) == ".." && JoinAll(["a", ".."]) == "a/..";
    WalkIsOneStep("", "app0:", [], ["a", ".."], isDir);
  }

  /** A run whose joined path is refused: three hundred times into a directory and out again. */
  lemma LongWalkWitness(isDir: string -> bool)
    requires forall s :: isDir(s)
    ensures Walk("", InAndOut(300), isDir) == Path("app0:/")
    ensures Chdir("", JoinAll(InAndOut(300)), isDir) == Error(ENAMETOOLONG)
  {
    hide InAndOut, Walk, JoinAll, Chdir;
    var n := 300;
    InitialCwd();
    InAndOutWalk("", n, isDir);
    InAndOutLength(n);
    assert DriveName("a") == 1 && DriveName("..") == 0;
    WalkIsOneStep("", "app0:", [], InAndOut(n), isDir);
  }

  /** A placed path is again a drive with a resolved path. */
  lemma PlacedKeeps(drive: string, rest: string)
    requires drive != "" && Drive(drive) == |drive| && Placed(drive, rest).Path?
    ensures CwdOk(Placed(drive, rest).text)
  {
    hide Resolve;
    if Buffer(rest) == "" {
      assert CwdIs(drive, drive, []) && drive + "" == drive;
    } else if |Rooted(rest)| <= PATH_MAX {
      assert Buffer(rest) == Resolve(rest);
      ResolvedKeeps(drive, rest);
    } else {
      assert CwdIs(drive + "/", drive, []);
    }
  }

  lemma ResolvedKeeps(drive: string, rest: string)
    requires drive != "" && Drive(drive) == |drive|
    ensures CwdOk(drive + Resolve(rest))
  {
    ResolveNormal(rest);
    assert CwdIs(drive + Resolve(rest), drive, Fold([], Split(rest)));
  }

  lemma DriveOfPrefix(path: string)
    requires Drive(path) > 0
    ensures Drive(path[..Drive(path)]) == Drive(path)
  {
  }

  lemma CwdDrive(c: string, drive: string, st: Stack) returns (r: string)
    requires CwdIs(c, drive, st)
    ensures drive != "" && Drive(drive) == |drive| && c == drive + r
  {
    r := if c == drive then "" else Render(st);
  }

  lemma RegroupPath(drive: string, r: string, path: string)
    ensures (drive + r) + "/" + path == drive + (r + "/" + path)
    ensures (drive + (r + "/" + path))[..|drive|] == drive
    ensures (drive + r)[..|drive|] == drive
  {
  }

  ghost predicate CwdOk(c: string) { exists drive, st :: CwdIs(c, drive, st) }

  lemma RelativeKeeps(c: string, drive: string, st: Stack, path: string)
    requires CwdIs(c, drive, st)
    requires var full := c + "/" + path; Placed(full[..Drive(full)], full[Drive(full)..]).Path?
    ensures var full := c + "/" + path; CwdOk(Placed(full[..Drive(full)], full[Drive(full)..]).text)
  {
    var r := CwdDrive(c, drive, st);
    hide CwdIs, Drive, Placed, CwdOk;
    DrivePrefix(drive, r + "/" + path);
    RegroupPath(drive, r, path);
    PlacedKeeps(drive, (c + "/" + path)[|drive|..]);
  }

  lemma AbsoluteKeeps(c: string, drive: string, st: Stack, path: string)
    requires CwdIs(c, drive, st) && Placed(c[..Drive(c)], path).Path?
    ensures CwdOk(Placed(c[..Drive(c)], path).text)
  {
    var r := CwdDrive(c, drive, st);
    hide CwdIs, Drive, Placed, CwdOk;
    DrivePrefix(drive, r);
    RegroupPath(drive, r, path);
    PlacedKeeps(drive, path);
  }

  /** Every successful chdir, relative or not, leaves a current directory of that form. */
  lemma ChdirKeeps(cwd: string, path: string, isDir: string -> bool)
    requires CwdOk(Initialised(cwd)) && Safe(cwd, path) && Chdir(cwd, path, isDir).Path?
    ensures CwdOk(Chdir(cwd, path, isDir).text)
  {
    var c := Initialised(cwd);
    var drive, st :| CwdIs(c, drive, st);
    hide CwdIs, Drive, Placed, CwdOk, Initialised, Safe;
    if Drive(path) > 0 {
      DriveOfPrefix(path);
      PlacedKeeps(path[..Drive(path)], path[Drive(path)..]);
    } else if path[0] == '/' {
      AbsoluteKeeps(c, drive, st, path);
    } else {
      RelativeKeeps(c, drive, st, path);
    }
  }

  lemma InitialCwd()
    ensures CwdIs(Initialised(""), "app0:", [])
  {
  }

  /**
   A text is placed under its drive as resolved exactly when the resolved text fits behind the drive
   and the resolver took it, or refused it with what it resolves to in the buffer: a refusal goes
   unnoticed and places the root, or nothing behind the drive.
   */
  lemma PlacedExact(drive: string, rest: string)
    requires rest != ""
    ensures Placed(drive, rest) == Path(drive + Resolve(rest)) <==>
        && (|Rooted(rest)| <= PATH_MAX || (rest[0] == '/' && Resolve(rest) == "/"))
        && |drive| + |Resolve(rest)| < PATH_MAX
    ensures |Rooted(rest)| > PATH_MAX && |drive| + 1 < PATH_MAX ==>
        Placed(drive, rest) == Path(drive + if rest[0] == '/' then "/" else "")
  {
    JoinAbsolute(Fold([], Split(rest)));
    assert Resolve(rest) != "";
    hide Resolve;
    SameTail(drive, Buffer(rest), Resolve(rest));
  }

  lemma SameTail(drive: string, a: string, b: string)
    ensures drive + a == drive + b <==> a == b
  {
    assert (drive + a)[|drive|..] == a && (drive + b)[|drive|..] == b;
  }

  /** The drive is the text up to a first colon with only lower-case letters and digits before it. */
  lemma DriveExact(path: string)
    ensures Drive(path) > 0 <==>
        exists k :: 0 <= k < |path| && path[k] == ':'
          && forall i :: 0 <= i < k ==> 'a' <= path[i] <= 'z' || '0' <= path[i] <= '9'
    ensures Drive(path) > 0 ==> path[Drive(path) - 1] == ':' && forall i :: 0 <= i < Drive(path) - 1 ==> path[i] != ':'
  {
    var n := DriveName(path);
    if k :| 0 <= k < |path| && path[k] == ':' && forall i :: 0 <= i < k ==> DriveChar(path[i]) {
      assert n == k;
    }
  }

  /** A path with a drive of its own stands for the rest under that drive, whatever the current directory is. */
  lemma OwnDrive(cwd: string, drive: string, rest: string)
    requires drive != "" && Drive(drive) == |drive|
    ensures Realpath(cwd, drive + rest) == Placed(drive, rest)
    ensures rest != "" && |Rooted(rest)| <= PATH_MAX && |drive| + |Resolve(rest)| < PATH_MAX ==>
        Realpath(cwd, drive + rest) == Path(drive + Resolve(rest))
    ensures rest == "" && |drive| < PATH_MAX ==> Realpath(cwd, drive + rest) == Path(drive)
  {
    hide Resolve, Drive;
    DrivePrefix(drive, rest);
    assert (drive + rest)[..|drive|] == drive && (drive + rest)[|drive|..] == rest;
    if rest != "" {
      PlacedExact(drive, rest);
    } else {
      assert drive + "" == drive;
    }
  }

  /** An absolute path without a drive stands for itself under the drive of the current directory. */
  lemma AbsolutePath(cwd: string, drive: string, st: Stack, path: string)
    requires CwdIs(Initialised(cwd), drive, st) && path != "" && path[0] == '/'
    ensures Realpath(cwd, path) == Placed(drive, path) == Realpath(cwd, drive + path)
    ensures |path| <= PATH_MAX && |drive| + |Resolve(path)| < PATH_MAX ==>
        Realpath(cwd, path) == Path(drive + Resolve(path)) == Realpath(cwd, drive + path)
  {
    var c := Initialised(cwd);
    var r := CwdDrive(c, drive, st);
    assert DriveName(path) == 0;
    hide Resolve, CwdIs, Placed;
    OwnDrive(cwd, drive, path);
    DrivePrefix(drive, r);
    RegroupPath(drive, r, path);
  }

  /** A name resolves to a slash and itself. */
  lemma ResolveName(name: string)
    requires Proper(name)
    ensures Resolve(name) == Resolve("/" + name) == "/" + name
  {
    hide Resolve;
    ResolveRooted(name);
    ResolveDown("", name);
  }

  /** Such texts: eleven hundred letters are placed as the root, and without a slash as the drive alone. */
  lemma OverlongWitness()
    ensures var name := seq(1100, _ => 'a');
      && Placed("app0:", "/" + name) == Path("app0:/") != Path("app0:" + Resolve("/" + name))
      && Placed("app0:", name) == Path("app0:") != Path("app0:" + Resolve(name))
  {
    var name: string := seq(1100, _ => 'a');
    ResolveName(name);
    PlacedExact("app0:", "/" + name);
    PlacedExact("app0:", name);
  }

  /** Behind a drive the first slash may be left out, exactly as long as the text fits with it. */
  lemma BareDrive(cwd: string, drive: string, text: string)
    requires drive != "" && Drive(drive) == |drive| && |drive| + 1 < PATH_MAX
    requires text != "" && text[0] != '/'
    ensures Realpath(cwd, drive + text) == Realpath(cwd, drive + "/" + text) <==> |text| < PATH_MAX
  {
    hide Resolve, Drive;
    DrivePrefix(drive, text);
    DrivePrefix(drive, "/" + text);
    ResolveRooted(text);
    assert drive + "/" + text == drive + ("/" + text);
    assert (drive + text)[..|drive|] == drive && (drive + text)[|drive|..] == text;
    assert (drive + ("/" + text))[..|drive|] == drive && (drive + ("/" + text))[|drive|..] == "/" + text;
    SameTail(drive, "", "/");
  }
}
