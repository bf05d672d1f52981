/**
 __resolve_path in place: a work buffer that loses its first component on every round and a result
 buffer edited at its end. Both are C strings in fixed character arrays. The code reads up to one
 byte behind the work buffer and one byte before the result buffer; the first is one more cell of
 the array that is never written, the second a parameter.
 */
module Paths {
  import opened PathText

  predicate NulFree(s: string) { forall i :: 0 <= i < |s| ==> s[i] != '\0' }

  /** The buffer holds the C string s; what follows its terminator does not matter. */
  ghost predicate Holds(a: array<char>, s: string)
    reads a
  {
    |s| < a.Length && a[|s|] == '\0' && NulFree(s) && forall i :: 0 <= i < |s| ==> a[i] == s[i]
  }

  /** strchr(left, '/'): the index of the first slash, or minus one. */
  method StrChr(a: array<char>, ghost s: string) returns (p: int)
    requires Holds(a, s)
    ensures p == if SlashAt(s) < |s| then SlashAt(s) else -1
  {
    p := 0;
    while a[p] != '\0'
      invariant 0 <= p <= |s| && forall i :: 0 <= i < p ==> s[i] != '/'
      decreases |s| - p
    {
      if a[p] == '/' {
        return;
      }
      p := p + 1;
    }
    p := -1;
  }

  /** strrchr(resolved, '/'): the index of the last slash. */
  method StrRChr(a: array<char>, ghost s: string) returns (q: nat)
    requires Holds(a, s) && s != "" && s[0] == '/'
    ensures q < |s| && s[q] == '/' && forall i :: q < i < |s| ==> s[i] != '/'
  {
    q := 0;
    var p := 0;
    while a[p] != '\0'
      invariant 0 <= p <= |s| && q < |s| && s[q] == '/' && q <= p
      invariant forall i :: q < i < p ==> s[i] != '/'
      decreases |s| - p
    {
      if a[p] == '/' {
        q := p;
      }
      p := p + 1;
    }
  }

  /** strcmp(token, word) == 0 for a word of at most two characters. */
  method StrIs(a: array<char>, word: string, ghost s: string) returns (same: bool)
    requires Holds(a, s) && NulFree(word)
    ensures same <==> s == word
  {
    var k := 0;
    while k < |word| && a[k] == word[k]
      invariant 0 <= k <= |word| && k <= |s| && s[..k] == word[..k]
    {
      k := k + 1;
    }
    same := k == |word| && a[k] == '\0';
    assert same ==> s[..k] == s && word[..k] == word;
  }

  /** What a buffer of that size keeps of s. */
  function Clipped(s: string, size: nat): string
    requires 0 < size
  {
    if |s| < size then s else s[..size - 1]
  }

  /** strlcat: what does not fit is cut off, and the length that was asked for is returned. */
  method StrLCat(a: array<char>, t: array<char>, ghost s: string, ghost part: string) returns (len: nat)
    requires a != t && Holds(a, s) && Holds(t, part)
    modifies a
    ensures Holds(a, Clipped(s + part, a.Length)) && len == |s| + |part|
  {
    var d := 0;
    while a[d] != '\0'
      invariant 0 <= d <= |s|
      decreases |s| - d
    {
      d := d + 1;
    }
    var k := 0;
    while t[k] != '\0' && d + k < a.Length - 1
      invariant 0 <= k <= |part| && d + k < a.Length && Holds(t, part)
      invariant forall i :: 0 <= i < |s| + k ==> a[i] == (s + part)[i]
      decreases |part| - k
    {
      a[d + k] := t[k];
      k := k + 1;
    }
    a[d + k] := '\0';
    while t[k] != '\0'
      invariant 0 <= k <= |part|
      decreases |part| - k
    {
      k := k + 1;
    }
    len := d + k;
  }

  /**
   Take the next component off the work buffer. leftLen counts the slashes already taken as well,
   so without a further slash the copy runs past the terminator, up to the whole count. It fails
   exactly when that count does not fit the token. The move may read the cell behind the buffer
   but never writes it, and what it holds does not matter.
   */
  method NextPart(left: array<char>, token: array<char>, leftLen: nat, ghost l: string)
    returns (ok: bool, newLen: nat, ghost part: string, ghost l': string)
    requires left != token && left.Length == PATH_MAX + 1 && token.Length == PATH_MAX
    requires Holds(left, l) && |l| <= leftLen && 0 < leftLen
    requires SlashAt(l) < |l| ==> leftLen < PATH_MAX
    modifies left, token
    ensures ok <==> SlashAt(l) < |l| || leftLen < PATH_MAX
    ensures part == l[..SlashAt(l)]
    ensures ok ==> Holds(left, l') && Holds(token, part) && left[PATH_MAX] == old(left[PATH_MAX])
    ensures ok && SlashAt(l) < |l| ==> l' == l[SlashAt(l) + 1..] && newLen == leftLen - SlashAt(l) > |l'|
    ensures ok && SlashAt(l) == |l| ==> newLen == 0 && l' == l
    ensures !ok ==> left[..] == old(left[..]) && token[..] == old(token[..])
  {
    var p := StrChr(left, l);
    var s := if p >= 0 then p else leftLen;
    newLen, part, l' := leftLen, l[..SlashAt(l)], l;
    if s >= token.Length {
      return false, newLen, part, l';
    }
    forall k | 0 <= k < s { token[k] := left[k]; }
    token[s] := '\0';
    newLen := leftLen - s;
    if p >= 0 {
      forall k | 0 <= k < newLen + 1 { left[k] := left[s + 1 + k]; }
      l' := l[s + 1..];
    }
    ok := true;
  }

  // ---------------------------------------------------------------- the result buffer

  /** The result buffer while the stack is st: with or without a slash behind the last component. */
  ghost predicate Shows(r: string, st: Stack) {
    r == Join(st) + "/" || r == Join(st)
  }

  predicate Ends(r: string) { r != "" && r[|r| - 1] == '/' }

  lemma ShowsEnds(r: string, st: Stack)
    requires Shows(r, st) && Normal(st)
    ensures (Ends(r) ==> r == Join(st) + "/") && (!Ends(r) ==> r == Join(st))
    ensures st == [] <==> r == "" || r == "/"
  {
  }

  /** The last slash of a joined stack stands before its last component. */
  lemma JoinLastSlash(st: Stack, q: nat)
    requires Normal(st) && st != []
    requires q < |Join(st)| && Join(st)[q] == '/' && forall i :: q < i < |Join(st)| ==> Join(st)[i] != '/'
    ensures Join(st)[..q + 1] == Join(st[..|st| - 1]) + "/"
  {
    var front, top, j := Join(st[..|st| - 1]), st[|st| - 1], Join(st);
    assert Proper(top);
    assert j == front + "/" + top;
    assert j[|front|] == '/';
    assert q >= |front|;
    assert q == |front|;
  }

  /** The result with a slash behind it. */
  function Slashed(r: string): string { if Ends(r) then r else r + "/" }

  /** The result buffer has room for the slash and for a component that goes onto the stack. */
  predicate HasRoom(r: string, part: string) {
    |Slashed(r)| < PATH_MAX && (Proper(part) ==> |Slashed(r)| + |part| < PATH_MAX)
  }

  /**
   Put a slash behind the result if none is there; it fails exactly without room for it. With an
   empty result the byte before the buffer is looked at, which must not be a slash.
   */
  method PutSlash(resolved: array<char>, before: char, rlen: nat, ghost r: string) returns (ok: bool, newLen: nat)
    requires resolved.Length == PATH_MAX && rlen == |r| && if r == "" then before != '/' else Holds(resolved, r)
    modifies resolved
    ensures ok <==> |Slashed(r)| < PATH_MAX
    ensures ok ==> Holds(resolved, Slashed(r)) && newLen == |Slashed(r)|
    ensures !ok ==> r != "" && Holds(resolved, r)
  {
    newLen := rlen;
    var last := if newLen == 0 then before else resolved[newLen - 1];
    if last != '/' {
      if newLen + 1 >= PATH_MAX {
        return false, newLen;
      }
      resolved[newLen] := '/';
      newLen := newLen + 1;
      resolved[newLen] := '\0';
    }
    return true, newLen;
  }

  /** Put a slash behind the result, then apply one component to it; it fails exactly without room for them. */
  method ApplyPart(resolved: array<char>, before: char, rlen: nat, token: array<char>,
                   ghost r: string, ghost st: Stack, ghost part: string)
    returns (ok: bool, newLen: nat, ghost r': string)
    requires resolved != token && resolved.Length == PATH_MAX
    requires if r == "" then before != '/' else Holds(resolved, r)
    requires rlen == |r| && Shows(r, st) && Normal(st)
    requires Holds(token, part) && NoSlash(part)
    modifies resolved
    ensures ok <==> HasRoom(r, part)
    ensures ok ==> r' != "" && Holds(resolved, r') && newLen == |r'|
    ensures ok ==> Shows(r', Apply(st, part)) && Normal(Apply(st, part))
    ensures ok ==> if Proper(part) then r' == Slashed(r) + part else Ends(r') && |r'| <= |Slashed(r)|
    ensures !ok ==> Holds(resolved, if |Slashed(r)| < PATH_MAX then (Slashed(r) + part)[..PATH_MAX - 1] else r)
  {
    hide Join;
    ShowsEnds(r, st);
    r' := r;
    ok, newLen := PutSlash(resolved, before, rlen, r);
    if !ok {
      return;
    }
    r' := Slashed(r);
    assert r' == Join(st) + "/";
    hide Slashed;
    var empty := StrIs(token, "", part);
    var dot := StrIs(token, ".", part);
    var dotdot := StrIs(token, "..", part);
    if empty || dot {
      return;
    }
    if dotdot {
      if newLen > 1 {
        newLen, r' := PopPart(resolved, newLen, r', st);
      }
      return;
    }
    newLen := StrLCat(resolved, token, r', part);
    JoinTop(st, part);
    r' := r' + part;
    ok := newLen < PATH_MAX;
  }

  /** Strip the last component and leave the slash before it. */
  method PopPart(resolved: array<char>, rlen: nat, ghost r: string, ghost st: Stack)
    returns (newLen: nat, ghost r': string)
    requires Holds(resolved, r) && rlen == |r| > 1 && r == Join(st) + "/" && Normal(st)
    modifies resolved
    ensures st != [] && Holds(resolved, r') && newLen == |r'| <= |r| && r' == Join(st[..|st| - 1]) + "/"
  {
    resolved[rlen - 1] := '\0';
    ghost var j := Join(st);
    assert forall i :: 0 <= i < |j| ==> j[i] == r[i];
    JoinAbsolute(st);
    var q := StrRChr(resolved, j);
    JoinLastSlash(st, q);
    resolved[q + 1] := '\0';
    r' := j[..q + 1];
    newLen := q + 1;
  }

  // ---------------------------------------------------------------- the resolver

  lemma {:induction false} SplitStep(l: string)
    ensures SlashAt(l) < |l| ==> Split(l) == [l[..SlashAt(l)]] + Split(l[SlashAt(l) + 1..])
    ensures SlashAt(l) == |l| ==> Split(l) == [l]
    ensures NoSlash(l[..SlashAt(l)])
  {
    hide SlashAt;
  }

  lemma FoldStep(st: Stack, part: string, rest: seq<string>)
    ensures Fold(st, [part] + rest) == Fold(Apply(st, part), rest)
  {
  }

  /** No component is empty, "." or "..", except that the last one may be empty. */
  predicate Plain(s: string)
    decreases |s|
  {
    var k := SlashAt(s);
    if k == |s| then s == "" || Proper(s) else Proper(s[..k]) && Plain(s[k + 1..])
  }

  /**
   What the loop has done so far: the stack and the rest of the path fold to the final stack, and
   nothing of the length was saved exactly when the path is plain.
   */
  ghost predicate Progress(path: string, l: string, leftLen: nat, r: string, st: Stack) {
    && path != "" && Normal(st) && Shows(r, st)
    && (leftLen > 0 ==>
         && Fold(st, Split(l)) == Fold([], Split(path)) && |l| <= leftLen < |path|
         && |Slashed(r)| + |l| <= |path|
         && (Plain(path[1..]) <==> |Slashed(r)| + |l| == |path| && Plain(l)))
    && (leftLen == 0 ==>
         && st == Fold([], Split(path)) && r != "" && |r| <= |path|
         && (Plain(path[1..]) ==> |path| < PATH_MAX))
  }

  /** One round: a component leaves the rest of the path and enters the stack. */
  lemma ProgressStep(path: string, l: string, leftLen: nat, r: string, st: Stack, part: string, l': string, newLen: nat,
                     r': string)
    requires Progress(path, l, leftLen, r, st) && leftLen > 0
    requires part == l[..SlashAt(l)] && HasRoom(r, part)
    requires SlashAt(l) < |l| ==> l' == l[SlashAt(l) + 1..] && newLen == leftLen - SlashAt(l)
    requires SlashAt(l) == |l| ==> newLen == 0
    requires r' != "" && Normal(Apply(st, part)) && Shows(r', Apply(st, part))
    requires if Proper(part) then r' == Slashed(r) + part else Ends(r') && |r'| <= |Slashed(r)|
    ensures Progress(path, l', newLen, r', Apply(st, part))
  {
    hide Shows, Normal, Apply, Split;
    SplitStep(l);
    if SlashAt(l) < |l| {
      FoldStep(st, part, Split(l'));
    } else {
      assert part == l && [l] == [l] + [];
      FoldStep(st, part, []);
      assert Fold(Apply(st, part), []) == Apply(st, part);
    }
  }

  /** The path with a first slash. */
  function Rooted(path: string): string { if path != "" && path[0] == '/' then path else "/" + path }

  lemma ResolveRooted(path: string)
    ensures Resolve(Rooted(path)) == Resolve(path)
  {
    if Rooted(path) != path {
      assert "/" + path == "" + "/" + path;
      SplitConcat("", path);
      SplitWhole("");
      FoldStep([], "", Split(path));
    }
  }

  lemma ProgressStart(path: string, r: string)
    requires path != "" && path[0] == '/' && path != "/" && (r == "" || r == "/")
    ensures Progress(path, path[1..], |path| - 1, r, [])
  {
    var rest := path[1..];
    assert path == "" + "/" + rest;
    SplitConcat("", rest);
    SplitWhole("");
    FoldStep([], "", Split(rest));
  }

  lemma ResolveRoot()
    ensures Resolve("/") == "/"
  {
  }

  /** strlcpy into the work buffer, whose size does not count the cell behind it. */
  method StrLCpy(left: array<char>, text: string) returns (len: nat)
    requires left.Length == PATH_MAX + 1 && NulFree(text)
    modifies left
    ensures len == |text|
    ensures |text| < PATH_MAX ==> Holds(left, text)
    ensures left[PATH_MAX] == old(left[PATH_MAX])
  {
    len := |text|;
    var n := if len < PATH_MAX then len else PATH_MAX - 1;
    forall k | 0 <= k < n { left[k] := text[k]; }
    left[n] := '\0';
  }

  /** What a zeroed result buffer holds after resolving, whether or not the length was too much. */
  function Buffer(path: string): string {
    if path == "" then ""
    else if |Rooted(path)| <= PATH_MAX then Clipped(Resolve(path), PATH_MAX)
    else if path[0] == '/' then "/"
    else ""
  }

  /** The text has no first slash and is not too long, so that the byte before the result buffer is looked at. */
  predicate LooksBefore(path: string) { path != "" && path[0] != '/' && |path| < PATH_MAX }

  /**
   __resolve_path. With its first slash, a path shorter than PATH_MAX is resolved; one of exactly
   PATH_MAX fails when it is plain, and what fits of it is in the buffer either way; a longer one
   fails. before is the byte before the result buffer, which a path without a first slash lets the
   code look at.
   */
  method ResolvePath(path: string, resolved: array<char>, before: char) returns (ok: bool)
    requires resolved.Length == PATH_MAX && NulFree(path)
    requires LooksBefore(path) ==> before != '/'
    modifies resolved
    ensures ok <==> |Rooted(path)| < PATH_MAX || (|Rooted(path)| == PATH_MAX && !Plain(Rooted(path)[1..]))
    ensures path == "" || (path[0] != '/' && |path| >= PATH_MAX) ==> resolved[..] == old(resolved[..])
    ensures path != "" && (path[0] == '/' || |path| < PATH_MAX) ==> Holds(resolved, Buffer(path))
  {
    hide Join, Fold, Split, SlashAt, Normal, Resolve, Plain;
    if path == "" {
      return true;
    }
    var rlen := 0;
    if path[0] == '/' {
      resolved[0], resolved[1], rlen := '/', '\0', 1;
      if path == "/" {
        ResolveRoot();
        return true;
      }
    }
    var left, token := new char[PATH_MAX + 1], new char[PATH_MAX];
    var leftLen := StrLCpy(left, if path[0] == '/' then path[1..] else path);
    if leftLen >= PATH_MAX {
      return false;
    }
    ghost var whole := Rooted(path);
    ResolveRooted(path);
    ok, rlen := ResolveLoop(whole, left, token, leftLen, resolved, before, rlen);
    if ok {
      TrimSlash(whole, resolved, rlen);
    }
  }

  /** Remove a slash behind the last component. */
  method TrimSlash(ghost path: string, resolved: array<char>, rlen: nat)
    requires resolved.Length == PATH_MAX && Resolving(resolved, rlen, path)
    modifies resolved
    ensures Holds(resolved, Resolve(path))
  {
    hide Join, Fold, Split, SlashAt, Normal;
    ghost var st := Fold([], Split(path));
    ResolveNormal(path);
    ghost var r :| r != "" && Holds(resolved, r) && |r| == rlen && Shows(r, st);
    ShowsEnds(r, st);
    if rlen > 1 && resolved[rlen - 1] == '/' {
      resolved[rlen - 1] := '\0';
      assert Join(st) == r[..rlen - 1];
    }
  }

  /** The buffer shows the folded stack of the path in its first rlen characters. */
  ghost predicate Resolving(resolved: array<char>, rlen: nat, path: string)
    reads resolved
  {
    exists r :: r != "" && Holds(resolved, r) && |r| == rlen && Shows(r, Fold([], Split(path)))
  }

  /** Room runs out only on the last component of a plain path of exactly PATH_MAX, and what fits is there. */
  lemma ProgressFull(path: string, l: string, leftLen: nat, r: string, st: Stack, part: string)
    requires Progress(path, l, leftLen, r, st) && leftLen > 0 && |path| <= PATH_MAX && |r| < PATH_MAX
    requires part == l[..SlashAt(l)] && !HasRoom(r, part)
    ensures |path| == PATH_MAX && Plain(path[1..])
    ensures (if |Slashed(r)| < PATH_MAX then (Slashed(r) + part)[..PATH_MAX - 1] else r) ==
      Clipped(Resolve(path), PATH_MAX)
  {
    hide Join;
    assert SlashAt(l) == |l| && part == l;
    SplitStep(l);
    assert [l] == [l] + [];
    FoldStep(st, l, []);
    assert Fold([], Split(path)) == Apply(st, l);
    ShowsEnds(r, st);
    JoinTop(st, l);
  }

  /**
   The component loop. It ends by itself: each round takes a slash, or the last component. None of its
   guards for the length fires on a path shorter than PATH_MAX.
   */
  method ResolveLoop(ghost path: string, left: array<char>, token: array<char>, leftLen: nat, resolved: array<char>,
                     before: char, start: nat)
    returns (ok: bool, rlen: nat)
    requires left != token && left != resolved && token != resolved
    requires left.Length == PATH_MAX + 1 && token.Length == PATH_MAX && resolved.Length == PATH_MAX
    requires 1 < |path| <= PATH_MAX && path[0] == '/' && leftLen == |path| - 1 && Holds(left, path[1..])
    requires start <= 1 && if start == 0 then before != '/' else Holds(resolved, "/")
    modifies left, token, resolved
    ensures ok <==> |path| < PATH_MAX || !Plain(path[1..])
    ensures ok ==> Resolving(resolved, rlen, path)
    ensures !ok ==> Holds(resolved, Clipped(Resolve(path), PATH_MAX))
  {
    hide Shows, Normal, Apply, Split, Fold, HasRoom, Plain, Resolve;
    var len := leftLen;
    ok, rlen := true, start;
    ghost var l, r, st: Stack := path[1..], path[..start], [];
    ProgressStart(path, r);
    while ok && len != 0
      invariant ok ==> Holds(left, l) && rlen == |r| < PATH_MAX && Progress(path, l, len, r, st)
      invariant ok ==> if r == "" then before != '/' else Holds(resolved, r)
      invariant !ok ==> |path| == PATH_MAX && Plain(path[1..]) && Holds(resolved, Clipped(Resolve(path), PATH_MAX))
      decreases ok, |Split(l)|, len
    {
      ghost var part, l', r';
      var len';
      SplitStep(l);
      ok, len', part, l' := NextPart(left, token, len, l);
      if !HasRoom(r, part) {
        ProgressFull(path, l, len, r, st, part);
      }
      if ok {
        ok, rlen, r' := ApplyPart(resolved, before, rlen, token, r, st, part);
      }
      if ok {
        ProgressStep(path, l, len, r, st, part, l', len', r');
        len, l, r, st := len', l', r', Apply(st, part);
      }
    }
  }
}
