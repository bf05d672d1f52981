/**
 The environment in memory: an array of pointers to strings, some of them the caller's, and the
 table of the strings that setenv allocated. Allocation results are parameters.
 */
module Environment {
  import opened Basics
  import opened EnvText

  /** A string's address; zero is the null pointer. */
  type Ptr = nat

  function Texts(environ: seq<Ptr>, strings: map<Ptr, string>): seq<string>
    requires forall i :: 0 <= i < |environ| ==> environ[i] in strings
  {
    seq(|environ|, i requires 0 <= i < |environ| => strings[environ[i]])
  }

  /** No pointer of t occurs twice. */
  ghost predicate Once(s: seq<Ptr>, t: set<Ptr>) {
    forall i, j :: 0 <= i < j < |s| && s[i] in t ==> s[i] != s[j]
  }

  /** The strings a table of owned pointers tracks. */
  function Tracked(table: seq<Ptr>): set<Ptr> {
    set i | 0 <= i < |table| && table[i] != 0 :: table[i]
  }

  /** The table can take one more string: it can grow, has a hole, or lets gone go. */
  predicate HasPlace(table: seq<Ptr>, gone: Ptr, grows: bool) { grows || 0 in table || gone in table }

  ghost predicate NoRepeat(table: seq<Ptr>) {
    forall i, j :: 0 <= i < j < |table| && table[i] != 0 ==> table[i] != table[j]
  }

  class Env {
    var environ: seq<Ptr>
    var envArray: nat
    var oldArray: nat
    var table: seq<Ptr>
    var strings: map<Ptr, string>
    /** Allocated by setenv and not freed. */
    ghost var owned: set<Ptr>
    /** Of those, the ones the table could not be grown for. */
    ghost var untracked: set<Ptr>
    /** Arrays allocated for environ and not freed. */
    ghost var arrays: set<nat>

    /** What holds of the ownership table even while an operation is under way. */
    ghost predicate Books()
      reads this
    {
      && 0 !in strings
      && NoRepeat(table)
      && owned == Tracked(table) + untracked && Tracked(table) !! untracked
      && owned <= strings.Keys
    }

    ghost predicate Valid()
      reads this
    {
      && Books()
      && (forall i :: 0 <= i < |environ| ==> environ[i] in strings)
      && Once(environ, Tracked(table))
      && (forall p :: p in Tracked(table) ==> p in environ)
      && (envArray == 0 ==> environ == [])
      && (envArray == 0 || envArray == oldArray)
      && arrays == (if oldArray == 0 then {} else {oldArray})
    }

    ghost function Entries(): seq<string>
      requires Valid()
      reads this
    {
      Texts(environ, strings)
    }

    constructor (callers: map<Ptr, string>)
      requires 0 !in callers
      ensures Valid() && environ == [] && oldArray == 0 && strings == callers && owned == {} && untracked == {}
    {
      environ, envArray, oldArray, table, strings := [], 0, 0, [], callers;
      owned, untracked, arrays := {}, {}, {};
    }

    /** free, for strings: only a string setenv allocated and nobody freed since may be given to it. */
    method Free(p: Ptr)
      requires p in owned && p in strings
      modifies this`strings, this`owned, this`untracked
      ensures strings == old(strings) - {p} && owned == old(owned) - {p} && untracked == old(untracked) - {p}
    {
      strings := strings - {p};
      owned, untracked := owned - {p}, untracked - {p};
    }

    /**
     Stop tracking gone and free it if it is tracked; start tracking added if it is not null. The
     table grows only when it has no hole, and growing may fail.
     */
    method RmAdd(gone: Ptr, added: Ptr, grows: bool)
      requires Books()
      requires added != 0 ==> added in untracked && added != gone
      modifies this`table, this`strings, this`owned, this`untracked
      ensures Books()
      ensures gone != 0 && gone in old(Tracked(table)) ==>
        strings == old(strings) - {gone} && owned == old(owned) - {gone}
      ensures !(gone != 0 && gone in old(Tracked(table))) ==> strings == old(strings) && owned == old(owned)
      ensures
        var taken := if added != 0 && HasPlace(old(table), gone, grows) then {added} else {};
        Tracked(table) == old(Tracked(table)) - {gone} + taken && untracked == old(untracked) - taken
    {
      var new' := added;
      var i := 0;
      ghost var was := table;
      while i < |table|
        invariant i <= |table| == |was| && Books() && strings == old(strings) && owned == old(owned)
        invariant new' == added || (new' == 0 && added != 0)
        invariant forall k :: i <= k < |table| ==> table[k] == was[k]
        invariant forall k :: 0 <= k < i ==> was[k] != gone && (added != 0 && was[k] == 0 ==> new' == 0)
        invariant new' != added ==> 0 in was
        invariant new' == added ==> table == was && untracked == old(untracked)
        invariant new' != added ==> Tracked(table) == Tracked(was) + {added} && untracked == old(untracked) - {added}
      {
        if table[i] == gone {
          ReplaceTracked(table, i, new');
          table := table[i := new'];
          if new' != 0 {
            untracked := untracked - {new'};
          }
          if gone != 0 {
            untracked := untracked + {gone};
            Free(gone);
          }
          return;
        } else if table[i] == 0 && new' != 0 {
          ReplaceTracked(table, i, new');
          table := table[i := new'];
          untracked := untracked - {new'};
          new' := 0;
        }
        i := i + 1;
      }
      NotTracked(was, gone);
      if new' == 0 || !grows {
        return;
      }
      AppendTracked(table, new');
      table := table + [new'];
      untracked := untracked - {new'};
    }

    /** Caller's strings are never freed or changed. */
    twostate predicate CallersKept()
      reads this
    {
      forall p :: p in old(strings) && p !in old(owned) ==> p in strings && strings[p] == old(strings)[p]
    }

    /** The string that the first definition of the name stands in, or null. */
    ghost function Standing(name: string): Ptr
      requires Valid()
      reads this
    {
      var k := FirstOf(Entries(), name);
      if k < |environ| then environ[k] else 0
    }

    /** Every string that setenv allocated is in the environment or was freed. */
    ghost predicate NothingLost()
      reads this
    {
      forall p :: p in owned ==> p in environ
    }

    /** The index of the first entry that defines the name. */
    method Search(name: string) returns (k: nat)
      requires Valid()
      ensures k == FirstOf(Entries(), name)
    {
      k := 0;
      while k < |environ| && !(name + "=" <= strings[environ[k]])
        invariant k <= |environ|
        invariant forall i :: 0 <= i < k ==> !Defines(Entries()[i], name)
      {
        k := k + 1;
      }
      FirstIs(Entries(), name, k);
    }

    /** Put s where the first definition of its name stands, and let go of what stood there. */
    method Replace(k: nat, s: Ptr, r: Ptr, grows: bool)
      requires Valid() && k < |environ| && s in strings && (r == 0 || r == s)
      requires r != 0 ==> r in untracked && r !in environ
      modifies this`environ, this`table, this`strings, this`owned, this`untracked
      ensures Books() && environ == old(environ)[k := s]
      ensures Valid() <==> s !in old(Tracked(table))
      ensures Valid() ==> Entries() == old(Entries())[k := old(strings)[s]]
      ensures Valid() ==> s in strings && strings[s] == old(strings)[s]
      ensures Valid() && r != 0 ==> r in owned
      ensures s in old(Tracked(table)) && old(environ)[k] == s ==> s !in strings
      ensures owned == old(owned) - {old(environ)[k]} * old(Tracked(table))
      ensures untracked == old(untracked) - if r != 0 && HasPlace(old(table), old(environ)[k], grows) then {r} else {}
      ensures CallersKept()
    {
      ghost var before := environ;
      var tmp := environ[k];
      environ := environ[k := s];
      RmAdd(tmp, r, grows);
      assert forall p :: p in before && p != tmp ==> p in environ by {
        forall p | p in before && p != tmp ensures p in environ {
          var i :| 0 <= i < |before| && before[i] == p;
          assert environ[i] == p;
        }
      }
      assert environ[k] == s;
      if s in old(Tracked(table)) {
        var j :| 0 <= j < |before| && before[j] == s;
        assert environ[j] == s;
      } else {
        assert Entries() == old(Entries())[k := old(strings)[s]];
      }
    }

    /** Grow the array by one entry: in place of the old one, or a new one and the old one freed. */
    method Grow(s: Ptr, array': nat) returns (ok: bool)
      requires Valid() && s in strings && s !in environ
      requires array' != 0 ==> array' !in arrays || (envArray == oldArray && array' == oldArray)
      modifies this`environ, this`envArray, this`oldArray, this`arrays
      ensures Valid() && ok == (array' != 0)
      ensures environ == if ok then old(environ) + [s] else old(environ)
      ensures if ok then envArray == oldArray == array' else envArray == old(envArray) && oldArray == old(oldArray)
      ensures Entries() == if ok then old(Entries()) + [strings[s]] else old(Entries())
    {
      if array' == 0 {
        return false;
      }
      if envArray == oldArray {
        arrays := arrays - {oldArray} + {array'};
      } else {
        arrays := arrays + {array'};
        arrays := arrays - {oldArray};
      }
      ghost var before := environ;
      environ := environ + [s];
      envArray, oldArray := array', array';
      assert forall p :: p in before ==> p in environ;
      assert Entries() == old(Entries()) + [strings[s]];
      ok := true;
    }

    /** The string s stands at k, and was freed there or, being tracked, stands in the environment twice. */
    ghost predicate Dangles(was: seq<Ptr>, k: nat, s: Ptr)
      reads this
    {
      k < |was| && environ == was[k := s] && (if was[k] == s then s !in strings else s in was)
    }

    /** Put the entry s, which defines name, into the environment; r is s when setenv allocated it, else null. */
    method PutEntry(s: Ptr, name: string, r: Ptr, array': nat, grows: bool) returns (res: int)
      requires Valid() && s in strings && Defines(strings[s], name) && (r == 0 || r == s)
      requires r != 0 ==> r in untracked && r !in environ
      requires array' != 0 ==> array' !in arrays || (envArray == oldArray && array' == oldArray)
      modifies this
      ensures Books() && CallersKept()
      ensures Valid() <==> s !in old(Tracked(table))
      ensures res == if FirstOf(old(Entries()), name) < |old(environ)| || array' != 0 then 0 else -1
      ensures res == 0 && Valid() ==> Entries() == Put(old(Entries()), name, old(strings)[s])
      ensures res == 0 ==> s in environ
      ensures res == 0 && r != 0 ==> r in owned && strings[r] == old(strings)[r]
      ensures !Valid() ==> res == 0 && Dangles(old(environ), FirstOf(old(Entries()), name), s)
      ensures res == -1 ==> environ == old(environ) && Entries() == old(Entries()) && owned == old(owned) - {r}
      ensures res == -1 ==> untracked == old(untracked) - {r}
      ensures res == 0 ==> owned == old(owned) - {old(Standing(name))} * old(Tracked(table))
      ensures res == 0 ==>
        untracked == old(untracked) - if r != 0 && HasPlace(old(table), old(Standing(name)), grows) then {r} else {}
    {
      var k := Search(name);
      if k < |environ| {
        Replace(k, s, r, grows);
        assert environ[k] == s;
        return 0;
      }
      NotThere(environ, strings, name, s);
      var ok := Grow(s, array');
      if !ok {
        if r != 0 {
          Free(r);
          assert Entries() == old(Entries());
        }
        return -1;
      }
      if r != 0 {
        RmAdd(0, r, grows);
        assert environ[|environ| - 1] == s;
      }
      return 0;
    }

    method Getenv(name: string) returns (value: Option<string>)
      requires Valid()
      ensures value == if ValidName(name) then Lookup(Entries(), name) else None
    {
      if name == "" || EqualsAt(name) != |name| || envArray == 0 {
        return None;
      }
      var k := Search(name);
      LookupFirst(Entries(), name);
      if k < |environ| {
        return Some(strings[environ[k]][|name| + 1..]);
      }
      return None;
    }

    /** The environment, its entries and the books are as before. */
    twostate predicate Untouched()
      requires old(Valid()) && Valid()
      reads this
    {
      environ == old(environ) && Entries() == old(Entries()) && owned == old(owned) && untracked == old(untracked)
    }

    /** The definition of the name is now block, which holds name=value; what it replaced is freed if it was tracked. */
    twostate predicate WasSet(name: string, value: string, block: Ptr, grows: bool)
      requires old(Valid()) && Valid()
      reads this
    {
      var gone := old(Standing(name));
      && Entries() == Put(old(Entries()), name, name + "=" + value)
      && block in environ && block in owned && block in strings && strings[block] == name + "=" + value
      && owned == old(owned) - {gone} * old(Tracked(table)) + {block}
      && untracked == old(untracked) + if HasPlace(old(table), gone, grows) then {} else {block}
    }

    /** Make the string in the block and put it into the environment. */
    method SetNew(name: string, value: string, block: Ptr, array': nat, grows: bool) returns (res: int)
      requires Valid() && ValidName(name) && block != 0 && block !in strings
      requires array' != 0 ==> array' !in arrays || (envArray == oldArray && array' == oldArray)
      modifies this
      ensures Valid() && CallersKept()
      ensures res == if Lookup(old(Entries()), name).Some? || array' != 0 then 0 else -1
      ensures if res == 0 then WasSet(name, value, block, grows) else Untouched()
    {
      LookupFirst(Entries(), name);
      hide Put, Lookup, EqualsAt, Once, Defines, FirstOf;
      Allocate(block, name + "=" + value);
      DefinesItself(name, value);
      res := PutEntry(block, name, block, array', grows);
    }

    /** setenv; block is the string allocated or zero, array' the grown array, grows whether the table can grow. */
    method Setenv(name: Option<string>, value: string, overwrite: bool, block: Ptr, array': nat, grows: bool)
      returns (res: int)
      requires Valid() && (block != 0 ==> block !in strings)
      requires array' != 0 ==> array' !in arrays || (envArray == oldArray && array' == oldArray)
      modifies this
      ensures Valid() && CallersKept()
      ensures res == 0 || res == -1
      ensures res == 0 <==>
        && name.Some? && ValidName(name.value)
        && var defined := Lookup(old(Entries()), name.value).Some?;
           (!overwrite && defined) || (block != 0 && (defined || array' != 0))
      ensures res == -1 || (!overwrite && Lookup(old(Entries()), name.value).Some?) ==> Untouched()
      ensures res == 0 && (overwrite || Lookup(old(Entries()), name.value).None?) ==>
        && WasSet(name.value, value, block, grows)
        && forall n :: ValidName(n) ==>
             Lookup(Entries(), n) == if n == name.value then Some(value) else Lookup(old(Entries()), n)
      ensures untracked == {} ==> NothingLost()
    {
      if name.None? || name.value == "" || EqualsAt(name.value) != |name.value| {
        return -1;
      }
      var n := name.value;
      if !overwrite {
        var found := Getenv(n);
        if found.Some? {
          return 0;
        }
      }
      if block == 0 {
        return -1;
      }
      hide Put, Lookup, EqualsAt;
      res := SetNew(n, value, block, array', grows);
      forall k | ValidName(k)
        ensures Lookup(Put(old(Entries()), n, n + "=" + value), k) ==
          if k == n then Some(value) else Lookup(old(Entries()), k)
      {
        PutLookup(old(Entries()), n, value, k);
      }
    }

    /** The two-pointer loop: let go of the definitions of the name and move the other entries up. */
    method Compact(name: string)
      requires Valid()
      modifies this`environ, this`table, this`strings, this`owned, this`untracked
      ensures Books() && untracked == old(untracked) && environ == Kept(old(environ), old(strings), name)
      ensures
        var gone, t := Gone(old(environ), old(strings), name), old(Tracked(table));
        Tracked(table) == t - gone && strings == old(strings) - (gone * t) && owned == old(owned) - (gone * t)
    {
      hide Kept, Gone, Once, Defines, Tracked;
      ghost var ptrs, texts, t := environ, strings, Tracked(table);
      ghost var gone: set<Ptr> := {};
      var e, eo := 0, 0;
      KeptNone(texts, name);
      assert ptrs[..0] == [];
      while e < |environ|
        invariant eo <= e <= |environ| == |ptrs| && Books() && untracked == old(untracked)
        invariant forall i :: e <= i < |ptrs| ==> environ[i] == ptrs[i]
        invariant environ[..eo] == Kept(ptrs[..e], texts, name)
        invariant gone == Gone(ptrs[..e], texts, name)
        invariant Tracked(table) == t - gone && strings == texts - (gone * t) && owned == old(owned) - (gone * t)
      {
        var p := environ[e];
        KeptStep(ptrs, texts, name, e);
        NotGoneYet(ptrs, texts, name, e, t);
        if Defines(strings[p], name) {
          RmAdd(p, 0, false);
          gone := gone + {p};
        } else {
          environ := environ[eo := p];
          eo := eo + 1;
        }
        e := e + 1;
      }
      assert ptrs[..e] == ptrs;
      environ := environ[..eo];
    }

    /** Remove every definition of the name. */
    method Unsetenv(name: string) returns (res: int)
      requires Valid()
      modifies this`environ, this`table, this`strings, this`owned, this`untracked
      ensures Valid() && CallersKept() && untracked == old(untracked) && (untracked == {} ==> NothingLost())
      ensures res == if ValidName(name) then 0 else -1
      ensures res == 0 ==> owned == old(owned) - Gone(old(environ), old(strings), name) * old(Tracked(table))
      ensures res == -1 ==> environ == old(environ) && Entries() == old(Entries()) && owned == old(owned)
      ensures res == 0 ==> Entries() == Without(old(Entries()), name)
      ensures res == 0 ==> forall n :: ValidName(n) ==>
        Lookup(Entries(), n) == if n == name then None else Lookup(old(Entries()), n)
    {
      if name == "" || EqualsAt(name) != |name| {
        return -1;
      }
      hide Kept, Gone, Without, Once, Lookup, Defines, Tracked;
      Compact(name);
      KeptAll(old(environ), old(strings), name, old(Tracked(table)));
      OnceFewer(environ, old(Tracked(table)), Tracked(table));
      assert Entries() == Texts(environ, old(strings));
      forall n | ValidName(n) ensures Lookup(Entries(), n) == if n == name then None else Lookup(old(Entries()), n) {
        WithoutLookup(old(Entries()), name, n);
      }
      return 0;
    }

    /** putenv: a text without a name or without '=' is an unsetenv; otherwise the caller's string goes in itself. */
    method Putenv(s: Ptr, array': nat) returns (res: int)
      requires Valid() && s in strings
      requires array' != 0 ==> array' !in arrays || (envArray == oldArray && array' == oldArray)
      modifies this
      ensures Books() && CallersKept() && untracked == old(untracked)
      ensures Valid() <==> !(s in old(Tracked(table)) && 0 < EqualsAt(old(strings)[s]) < |old(strings)[s]|)
      ensures !Valid() ==>
        var text := old(strings)[s];
        res == 0 && Dangles(old(environ), FirstOf(old(Entries()), text[..EqualsAt(text)]), s)
      ensures Valid() ==>
        var text := old(strings)[s];
        var l := EqualsAt(text);
        if l == 0 then res == -1 && Entries() == old(Entries())
        else if l == |text| then res == 0 && Entries() == Without(old(Entries()), text)
        else
          && res == (if FirstOf(old(Entries()), text[..l]) < |old(environ)| || array' != 0 then 0 else -1)
          && Entries() == (if res == 0 then Put(old(Entries()), text[..l], text) else old(Entries()))
          && owned == old(owned) - if res == 0 then {old(Standing(text[..l]))} * old(Tracked(table)) else {}
      ensures Valid() && untracked == {} ==> NothingLost()
    {
      var text := strings[s];
      var l := EqualsAt(text);
      if l == 0 || l == |text| {
        NameOrNot(text);
        res := Unsetenv(text);
      } else {
        assert Defines(text, text[..l]);
        res := PutEntry(s, text[..l], 0, array', true);
      }
    }

    /** Empty the environment; every tracked string is freed. */
    method Clearenv() returns (res: int)
      requires Valid()
      modifies this`environ, this`envArray, this`table, this`strings, this`owned, this`untracked
      ensures Valid() && CallersKept() && untracked == old(untracked) && (untracked == {} ==> NothingLost()) && res == 0
      ensures Entries() == [] && owned == untracked
    {
      var e := environ;
      ghost var texts, t := strings, Tracked(table);
      environ, envArray := [], 0;
      for i := 0 to |e|
        invariant environ == [] && envArray == 0 && oldArray == old(oldArray) && arrays == old(arrays)
        invariant Books() && untracked == old(untracked)
        invariant Tracked(table) == t - Set(e[..i]) && strings == texts - (Set(e[..i]) * t)
        invariant owned == old(owned) - (Set(e[..i]) * t)
      {
        assert Set(e[..i + 1]) == Set(e[..i]) + {e[i]};
        RmAdd(e[i], 0, false);
      }
      assert e[..|e|] == e && t <= Set(e);
      res := 0;
    }

    method Allocate(block: Ptr, text: string)
      requires Valid() && block != 0 && block !in strings
      modifies this`strings, this`owned, this`untracked
      ensures Valid() && block !in environ && Entries() == old(Entries())
      ensures strings == old(strings)[block := text]
      ensures owned == old(owned) + {block} && untracked == old(untracked) + {block}
    {
      strings := strings[block := text];
      owned, untracked := owned + {block}, untracked + {block};
      assert Entries() == old(Entries());
    }

  }

  /** putenv of a string that setenv allocated frees it while the environment still points to it. */
  method PutenvOwnedWitness() returns (env: Env, s: Ptr)
    ensures fresh(env) && !env.Valid() && env.environ == [s] && s !in env.strings
  {
    env := new Env(map[]);
    s := 1;
    assert EqualsAt("A") == 1 && EqualsAt("A" + "=" + "1") == 1;
    var set' := env.Setenv(Some("A"), "1", true, s, 2, true);
    assert set' == 0 && env.environ == [s] && s in Tracked(env.table);
    var put := env.Putenv(s, 2);
  }

  lemma FirstIs(texts: seq<string>, name: string, k: nat)
    requires k <= |texts| && (k < |texts| ==> Defines(texts[k], name))
    requires forall i :: 0 <= i < k ==> !Defines(texts[i], name)
    ensures k == FirstOf(texts, name)
  {
  }

  function Set(s: seq<Ptr>): set<Ptr> { set i | 0 <= i < |s| :: s[i] }

  /** The pointers whose strings do not define the name, in order. */
  function Kept(ptrs: seq<Ptr>, texts: map<Ptr, string>, name: string): seq<Ptr>
    requires forall i :: 0 <= i < |ptrs| ==> ptrs[i] in texts
  {
    if ptrs == [] then []
    else
      var front, last := ptrs[..|ptrs| - 1], ptrs[|ptrs| - 1];
      Kept(front, texts, name) + if Defines(texts[last], name) then [] else [last]
  }

  ghost function Gone(ptrs: seq<Ptr>, texts: map<Ptr, string>, name: string): set<Ptr>
    requires forall i :: 0 <= i < |ptrs| ==> ptrs[i] in texts
  {
    set i | 0 <= i < |ptrs| && Defines(texts[ptrs[i]], name) :: ptrs[i]
  }

  lemma KeptNone(texts: map<Ptr, string>, name: string)
    ensures Kept([], texts, name) == [] && Gone([], texts, name) == {}
  {
  }

  lemma KeptStep(ptrs: seq<Ptr>, texts: map<Ptr, string>, name: string, e: nat)
    requires e < |ptrs| && forall i :: 0 <= i < |ptrs| ==> ptrs[i] in texts
    ensures Kept(ptrs[..e + 1], texts, name) ==
      Kept(ptrs[..e], texts, name) + if Defines(texts[ptrs[e]], name) then [] else [ptrs[e]]
    ensures Gone(ptrs[..e + 1], texts, name) ==
      Gone(ptrs[..e], texts, name) + if Defines(texts[ptrs[e]], name) then {ptrs[e]} else {}
  {
    assert ptrs[..e + 1][..e] == ptrs[..e];
    assert ptrs[..e + 1] == ptrs[..e] + [ptrs[e]];
    forall x | x in Gone(ptrs[..e], texts, name) ensures x in Gone(ptrs[..e + 1], texts, name) {
      var i :| 0 <= i < |ptrs[..e]| && Defines(texts[ptrs[..e][i]], name) && ptrs[..e][i] == x;
      assert ptrs[..e + 1][i] == x;
    }
    assert ptrs[..e + 1][e] == ptrs[e];
  }

  lemma NotGoneYet(ptrs: seq<Ptr>, texts: map<Ptr, string>, name: string, e: nat, t: set<Ptr>)
    requires e < |ptrs| && Once(ptrs, t) && forall i :: 0 <= i < |ptrs| ==> ptrs[i] in texts
    ensures ptrs[e] !in Gone(ptrs[..e], texts, name) * t
  {
  }

  lemma {:induction false} KeptMembers(ptrs: seq<Ptr>, texts: map<Ptr, string>, name: string)
    requires forall i :: 0 <= i < |ptrs| ==> ptrs[i] in texts
    ensures forall p :: p in Kept(ptrs, texts, name) <==> p in ptrs && !Defines(texts[p], name)
  {
    if ptrs != [] {
      KeptMembers(ptrs[..|ptrs| - 1], texts, name);
      assert ptrs == ptrs[..|ptrs| - 1] + [ptrs[|ptrs| - 1]];
    }
  }

  lemma {:induction false} KeptTexts(ptrs: seq<Ptr>, texts: map<Ptr, string>, name: string)
    requires forall i :: 0 <= i < |ptrs| ==> ptrs[i] in texts
    ensures forall p :: p in Kept(ptrs, texts, name) ==> p in texts
    ensures Texts(Kept(ptrs, texts, name), texts) == Without(Texts(ptrs, texts), name)
  {
    KeptMembers(ptrs, texts, name);
    if ptrs != [] {
      var front := ptrs[..|ptrs| - 1];
      KeptMembers(front, texts, name);
      KeptTexts(front, texts, name);
      assert Texts(ptrs, texts)[..|ptrs| - 1] == Texts(front, texts);
    }
  }

  lemma {:induction false} KeptOnce(ptrs: seq<Ptr>, texts: map<Ptr, string>, name: string, t: set<Ptr>)
    requires Once(ptrs, t) && forall i :: 0 <= i < |ptrs| ==> ptrs[i] in texts
    ensures Once(Kept(ptrs, texts, name), t)
  {
    if ptrs != [] {
      var front := ptrs[..|ptrs| - 1];
      KeptOnce(front, texts, name, t);
      KeptMembers(front, texts, name);
    }
  }

  lemma OnceFewer(s: seq<Ptr>, t: set<Ptr>, u: set<Ptr>)
    requires Once(s, t) && u <= t
    ensures Once(s, u)
  {
  }

  /** A string that defines a name nothing defines is not in the environment. */
  lemma NotThere(environ: seq<Ptr>, strings: map<Ptr, string>, name: string, s: Ptr)
    requires s in strings && Defines(strings[s], name) && forall i :: 0 <= i < |environ| ==> environ[i] in strings
    requires FirstOf(Texts(environ, strings), name) >= |environ|
    ensures s !in environ
  {
    forall i | 0 <= i < |environ| ensures environ[i] != s {
      assert !Defines(Texts(environ, strings)[i], name);
    }
  }

  /** What is kept is live and shows the remaining texts; what is gone was a definition. */
  lemma KeptAll(ptrs: seq<Ptr>, texts: map<Ptr, string>, name: string, t: set<Ptr>)
    requires Once(ptrs, t) && forall i :: 0 <= i < |ptrs| ==> ptrs[i] in texts
    ensures
      var kept, gone := Kept(ptrs, texts, name), Gone(ptrs, texts, name);
      && Once(kept, t) && (forall i :: 0 <= i < |kept| ==> kept[i] in texts && kept[i] !in gone)
      && (forall p :: p in ptrs && p !in gone ==> p in kept)
      && Texts(kept, texts) == Without(Texts(ptrs, texts), name)
  {
    KeptMembers(ptrs, texts, name);
    KeptTexts(ptrs, texts, name);
    KeptOnce(ptrs, texts, name, t);
  }

  lemma DefinesItself(name: string, value: string)
    ensures Defines(name + "=" + value, name)
  {
  }

  lemma NameOrNot(text: string)
    requires EqualsAt(text) == 0 || EqualsAt(text) == |text|
    ensures ValidName(text) <==> EqualsAt(text) != 0
  {
  }

  lemma ReplaceTracked(t: seq<Ptr>, i: nat, p: Ptr)
    requires i < |t| && NoRepeat(t) && (p == 0 || p !in Tracked(t))
    ensures Tracked(t[i := p]) == Tracked(t) - {t[i]} + (if p == 0 then {} else {p})
    ensures NoRepeat(t[i := p])
  {
    var u := t[i := p];
    forall x | x in Tracked(t) && x != t[i] ensures x in Tracked(u) {
      var k :| 0 <= k < |t| && t[k] != 0 && t[k] == x;
      assert u[k] == x;
    }
    assert u[i] == p;
    forall x | x in Tracked(u) ensures x in Tracked(t) - {t[i]} + (if p == 0 then {} else {p}) {
      var k :| 0 <= k < |u| && u[k] != 0 && u[k] == x;
      if k != i {
        assert t[k] == x;
      }
    }
  }

  lemma AppendTracked(t: seq<Ptr>, p: Ptr)
    requires NoRepeat(t) && p != 0 && p !in Tracked(t)
    ensures Tracked(t + [p]) == Tracked(t) + {p} && NoRepeat(t + [p])
  {
    var u := t + [p];
    forall x | x in Tracked(t) ensures x in Tracked(u) {
      var k :| 0 <= k < |t| && t[k] != 0 && t[k] == x;
      assert u[k] == x;
    }
    assert u[|t|] == p;
  }

  lemma NotTracked(t: seq<Ptr>, p: Ptr)
    requires forall k :: 0 <= k < |t| ==> t[k] != p
    ensures p !in Tracked(t)
  {
  }
}
