/**
 Path resolution as a fold over path components, and what it promises: resolving is idempotent,
 never lengthens a path, and resolving in stages is the same as resolving once.
 */
module PathText {
  const PATH_MAX: nat := 1024

  type Stack = seq<string>

  /** The index of the first slash, or the length. */
  function SlashAt(s: string): (k: nat)
    ensures k <= |s| && (k < |s| ==> s[k] == '/') && forall i :: 0 <= i < k ==> s[i] != '/'
  {
    if s == [] then 0 else if s[0] == '/' then 0 else 1 + SlashAt(s[1..])
  }

  /** The components of a path, empty ones included. */
  function Split(s: string): (parts: seq<string>)
    ensures parts != []
    decreases |s|
  {
    var k := SlashAt(s);
    if k == |s| then [s] else [s[..k]] + Split(s[k + 1..])
  }

  /** One component applied to the stack: nothing for "" and ".", a pop that stops at the root for "..". */
  function Apply(stack: Stack, part: string): Stack {
    if part == "" || part == "." then stack
    else if part == ".." then (if stack == [] then [] else stack[..|stack| - 1])
    else stack + [part]
  }

  function Fold(stack: Stack, parts: seq<string>): Stack
    decreases |parts|
  {
    if parts == [] then stack else Fold(Apply(stack, parts[0]), parts[1..])
  }

  function Join(stack: Stack): string {
    if stack == [] then "" else Join(stack[..|stack| - 1]) + "/" + stack[|stack| - 1]
  }

  function Render(stack: Stack): string {
    if stack == [] then "/" else Join(stack)
  }

  function Resolve(path: string): string { Render(Fold([], Split(path))) }

  // ---------------------------------------------------------------- components

  predicate NoSlash(s: string) { forall i :: 0 <= i < |s| ==> s[i] != '/' }

  /** A component that may stand on the stack. */
  predicate Proper(s: string) { s != "" && s != "." && s != ".." && NoSlash(s) }

  ghost predicate Normal(stack: Stack) { forall i :: 0 <= i < |stack| ==> Proper(stack[i]) }

  lemma {:induction false} SplitNoSlash(s: string)
    ensures forall i :: 0 <= i < |Split(s)| ==> NoSlash(Split(s)[i])
    decreases |s|
  {
    var k := SlashAt(s);
    if k < |s| {
      SplitNoSlash(s[k + 1..]);
    }
  }

  lemma SplitWhole(s: string)
    requires NoSlash(s)
    ensures Split(s) == [s]
  {
  }

  lemma SlashAtConcat(a: string, b: string)
    ensures SlashAt(a + "/" + b) == if SlashAt(a) < |a| then SlashAt(a) else |a|
  {
    var s, k := a + "/" + b, SlashAt(a + "/" + b);
    assert s[|a|] == '/';
    assert forall i :: 0 <= i < |a| ==> s[i] == a[i];
  }

  /** Splitting at a slash splits the components. */
  lemma {:induction false} SplitConcat(a: string, b: string)
    ensures Split(a + "/" + b) == Split(a) + Split(b)
    decreases |a|
  {
    hide SlashAt;
    var s, k := a + "/" + b, SlashAt(a);
    SlashAtConcat(a, b);
    if k < |a| {
      assert s[..k] == a[..k] && s[k + 1..] == a[k + 1..] + "/" + b;
      SplitConcat(a[k + 1..], b);
      assert [a[..k]] + (Split(a[k + 1..]) + Split(b)) == ([a[..k]] + Split(a[k + 1..])) + Split(b);
    } else {
      assert s[..|a|] == a && s[|a| + 1..] == b;
    }
  }

  lemma {:induction false} FoldConcat(stack: Stack, a: seq<string>, b: seq<string>)
    ensures Fold(stack, a + b) == Fold(Fold(stack, a), b)
    decreases |a|
  {
    if a == [] {
      assert a + b == b;
    } else {
      assert (a + b)[0] == a[0] && (a + b)[1..] == a[1..] + b;
      FoldConcat(Apply(stack, a[0]), a[1..], b);
    }
  }

  lemma {:induction false} FoldNormal(stack: Stack, parts: seq<string>)
    requires Normal(stack) && forall i :: 0 <= i < |parts| ==> NoSlash(parts[i])
    ensures Normal(Fold(stack, parts))
    decreases |parts|
  {
    if parts != [] {
      assert NoSlash(parts[0]);
      FoldNormal(Apply(stack, parts[0]), parts[1..]);
    }
  }

  lemma ResolveNormal(path: string)
    ensures Normal(Fold([], Split(path)))
  {
    SplitNoSlash(path);
    FoldNormal([], Split(path));
  }

  /** Reading a rendered stack back gives the stack. */
  lemma {:induction false} FoldJoin(stack: Stack)
    requires Normal(stack)
    ensures Fold([], Split(Join(stack))) == stack
  {
    hide Split, SlashAt;
    if stack == [] {
      SplitWhole("");
    } else {
      var front, top := stack[..|stack| - 1], stack[|stack| - 1];
      FoldJoin(front);
      assert Proper(top);
      SplitConcat(Join(front), top);
      SplitWhole(top);
      FoldConcat([], Split(Join(front)), [top]);
      assert Fold(front, [top]) == front + [top];
    }
  }

  lemma FoldRender(stack: Stack)
    requires Normal(stack)
    ensures Fold([], Split(Render(stack))) == stack
  {
    if stack == [] {
      assert "/" == "" + "/" + "";
      SplitConcat("", "");
      SplitWhole("");
      FoldConcat([], [""], [""]);
    } else {
      FoldJoin(stack);
    }
  }

  /** Resolving a resolved path changes nothing. */
  lemma ResolveIdempotent(path: string)
    ensures Resolve(Resolve(path)) == Resolve(path)
  {
    ResolveNormal(path);
    FoldRender(Fold([], Split(path)));
  }

  /** Resolving the first part beforehand changes nothing. */
  lemma ResolveComposes(a: string, b: string)
    ensures Resolve(Resolve(a) + "/" + b) == Resolve(a + "/" + b)
  {
    ResolveNormal(a);
    FoldRender(Fold([], Split(a)));
    SplitConcat(Resolve(a), b);
    SplitConcat(a, b);
    FoldConcat([], Split(Resolve(a)), Split(b));
    FoldConcat([], Split(a), Split(b));
  }

  // ---------------------------------------------------------------- laws of the text

  /** Behind a slash, one component acts on the components of what stands before it. */
  lemma ResolveSnoc(a: string, part: string)
    requires NoSlash(part)
    ensures Resolve(a + "/" + part) == Render(Apply(Fold([], Split(a)), part))
  {
    SplitConcat(a, part);
    SplitWhole(part);
    FoldConcat([], Split(a), [part]);
    assert [part][1..] == [];
  }

  /** A text with one component. */
  lemma ResolveOne(part: string)
    requires NoSlash(part)
    ensures Resolve(part) == Render(Apply([], part))
  {
    SplitWhole(part);
    assert Fold([], [part]) == Fold(Apply([], part), []) by { assert [part][1..] == []; }
  }

  /** A last slash and a last dot change nothing; alone they, nothing at all and dot-dot are the root. */
  lemma ResolveSame(a: string)
    ensures Resolve(a + "/") == Resolve(a) == Resolve(a + "/.")
    ensures Resolve("") == Resolve("/") == Resolve(".") == Resolve("..") == "/"
  {
    hide Split, Fold, Join;
    assert a + "/" == a + "/" + "" && "/" == "" + "/" + "";
    ResolveSnoc(a, "");
    ResolveSnoc(a, ".");
    ResolveSnoc("", "");
    ResolveOne("");
    ResolveOne(".");
    ResolveOne("..");
    assert a + "/" + "." == a + "/.";
  }

  /** A last name is put behind what stands before it. */
  lemma ResolveDown(a: string, name: string)
    requires Proper(name)
    ensures Resolve(a + "/" + name) == (if Resolve(a) == "/" then "" else Resolve(a)) + "/" + name
    ensures Resolve(name) == "/" + name
  {
    var st := Fold([], Split(a));
    ResolveSnoc(a, name);
    ResolveOne(name);
    JoinTop(st, name);
    JoinTop([], name);
    ResolveNormal(a);
    RenderRoot(st);
  }

  lemma RenderRoot(st: Stack)
    requires Normal(st)
    ensures Render(st) == "/" <==> st == []
  {
    if st != [] {
      assert Proper(st[|st| - 1]);
    }
  }

  /** Dot-dot takes back exactly the name before it, and stays at the root. */
  lemma ResolveUp(a: string, name: string)
    requires Proper(name)
    ensures Resolve(a + "/" + name + "/..") == Resolve(a)
    ensures Resolve(a) == "/" ==> Resolve(a + "/..") == "/"
  {
    var st := Fold([], Split(a));
    assert (a + "/" + name) + "/" + ".." == a + "/" + name + "/..";
    assert a + "/" + ".." == a + "/..";
    ResolveSnoc(a + "/" + name, "..");
    ResolveSnoc(a, "..");
    SplitConcat(a, name);
    SplitWhole(name);
    FoldConcat([], Split(a), [name]);
    assert [name][1..] == [];
    assert Fold([], Split(a + "/" + name)) == st + [name];
    ResolveNormal(a);
    RenderRoot(st);
  }

  /** So does a dot-dot in the middle: what follows resolves as if the name and the dots were not there. */
  lemma ResolveAround(a: string, name: string, b: string)
    requires Proper(name)
    ensures Resolve(a + "/" + name + "/../" + b) == Resolve(a + "/" + b)
  {
    hide Resolve;
    var up := a + "/" + name + "/..";
    assert up + "/" + b == a + "/" + name + "/../" + b;
    ResolveUp(a, name);
    ResolveComposes(up, b);
    ResolveComposes(a, b);
  }

  // ---------------------------------------------------------------- lengths

  function Weight(parts: seq<string>): nat {
    if parts == [] then 0 else |parts[0]| + 1 + Weight(parts[1..])
  }

  lemma {:induction false} SplitWeight(s: string)
    ensures Weight(Split(s)) == |s| + 1
    decreases |s|
  {
    var k := SlashAt(s);
    if k < |s| {
      SplitWeight(s[k + 1..]);
      assert Split(s)[1..] == Split(s[k + 1..]);
    } else {
      assert [s][1..] == [];
    }
  }

  lemma JoinTop(stack: Stack, part: string)
    ensures Join(stack + [part]) == Join(stack) + "/" + part
  {
  }

  lemma {:induction false} FoldLength(stack: Stack, parts: seq<string>)
    ensures |Join(Fold(stack, parts))| <= |Join(stack)| + Weight(parts)
    decreases |parts|
  {
    if parts != [] {
      var next := Apply(stack, parts[0]);
      JoinTop(stack, parts[0]);
      FoldLength(next, parts[1..]);
    }
  }

  /** Resolving never lengthens an absolute path. */
  lemma ResolveShortens(path: string)
    requires path != "" && path[0] == '/'
    ensures |Resolve(path)| <= |path|
  {
    var rest := path[1..];
    assert path == "" + "/" + rest;
    SplitConcat("", rest);
    SplitWhole("");
    FoldConcat([], [""], Split(rest));
    FoldLength([], Split(rest));
    SplitWeight(rest);
  }

  lemma {:induction false} JoinAbsolute(stack: Stack)
    ensures stack != [] ==> Join(stack) != "" && Join(stack)[0] == '/'
  {
    if stack != [] {
      JoinAbsolute(stack[..|stack| - 1]);
    }
  }
}
