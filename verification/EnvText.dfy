/**
 An environment as a list of "name=value" texts: what a lookup sees, and what replacing, adding and
 removing entries do to every name.
 */
module EnvText {
  import opened Basics

  /** The index of the first '=', or the length. */
  function EqualsAt(s: string): (k: nat)
    ensures k <= |s| && (k < |s| ==> s[k] == '=') && forall i :: 0 <= i < k ==> s[i] != '='
  {
    if s == "" || s[0] == '=' then 0 else 1 + EqualsAt(s[1..])
  }

  /** Not empty and without '='. */
  predicate ValidName(name: string) { name != "" && EqualsAt(name) == |name| }

  /** The entry defines the name. */
  predicate Defines(entry: string, name: string) { name + "=" <= entry }

  /** The value of the first entry that defines the name. */
  function Lookup(texts: seq<string>, name: string): Option<string> {
    if texts == [] then None
    else if Defines(texts[0], name) then Some(texts[0][|name| + 1..])
    else Lookup(texts[1..], name)
  }

  /** The index of the first entry that defines the name, or the length. */
  function FirstOf(texts: seq<string>, name: string): (k: nat)
    ensures k <= |texts| && (k < |texts| ==> Defines(texts[k], name))
    ensures forall i :: 0 <= i < k ==> !Defines(texts[i], name)
  {
    if texts == [] || Defines(texts[0], name) then 0 else 1 + FirstOf(texts[1..], name)
  }

  /** Replace the first definition of the name, or add one at the end. */
  function Put(texts: seq<string>, name: string, entry: string): seq<string> {
    var k := FirstOf(texts, name);
    if k < |texts| then texts[k := entry] else texts + [entry]
  }

  /** The entries that do not define the name, in their order. */
  function Without(texts: seq<string>, name: string): seq<string> {
    if texts == [] then []
    else Without(texts[..|texts| - 1], name) + if Defines(texts[|texts| - 1], name) then [] else [texts[|texts| - 1]]
  }

  /** An entry defines at most one valid name. */
  lemma DefinesOne(entry: string, a: string, b: string)
    requires ValidName(a) && ValidName(b) && Defines(entry, a) && Defines(entry, b)
    ensures a == b
  {
    assert entry[|a|] == '=' && entry[|b|] == '=';
    assert entry[..|a|] == a && entry[..|b|] == b;
    assert |a| == |b|;
  }

  lemma {:induction false} LookupFirst(texts: seq<string>, name: string)
    ensures var k := FirstOf(texts, name);
      Lookup(texts, name) == if k < |texts| then Some(texts[k][|name| + 1..]) else None
  {
    if texts != [] && !Defines(texts[0], name) {
      LookupFirst(texts[1..], name);
    }
  }

  lemma {:induction false} LookupUpdate(texts: seq<string>, k: nat, entry: string, name: string)
    requires k < |texts| && !Defines(texts[k], name) && !Defines(entry, name)
    ensures Lookup(texts[k := entry], name) == Lookup(texts, name)
  {
    if k > 0 {
      assert texts[k := entry][1..] == texts[1..][k - 1 := entry];
      if !Defines(texts[0], name) {
        LookupUpdate(texts[1..], k - 1, entry, name);
      }
    } else {
      assert texts[k := entry][1..] == texts[1..];
    }
  }

  lemma {:induction false} LookupAppend(texts: seq<string>, entry: string, name: string)
    ensures Lookup(texts + [entry], name) ==
      if Lookup(texts, name).Some? then Lookup(texts, name)
      else if Defines(entry, name) then Some(entry[|name| + 1..]) else None
  {
    if texts == [] {
      assert texts + [entry] == [entry];
      assert [entry][1..] == [];
    } else {
      assert (texts + [entry])[1..] == texts[1..] + [entry];
      LookupAppend(texts[1..], entry, name);
    }
  }

  /** After a put the name has the new value and every other name the value it had. */
  lemma PutLookup(texts: seq<string>, name: string, value: string, other: string)
    requires ValidName(name) && ValidName(other)
    ensures Lookup(Put(texts, name, name + "=" + value), other) ==
      if other == name then Some(value) else Lookup(texts, other)
  {
    var entry, k := name + "=" + value, FirstOf(texts, name);
    assert Defines(entry, name) && entry[|name| + 1..] == value;
    LookupFirst(texts, name);
    if other != name {
      if Defines(entry, other) { DefinesOne(entry, name, other); }
      if k < |texts| {
        if Defines(texts[k], other) { DefinesOne(texts[k], name, other); }
        LookupUpdate(texts, k, entry, other);
      } else {
        LookupAppend(texts, entry, other);
      }
    } else if k < |texts| {
      LookupUpdateHit(texts, k, entry, name);
    } else {
      LookupAppend(texts, entry, name);
    }
  }

  lemma {:induction false} LookupUpdateHit(texts: seq<string>, k: nat, entry: string, name: string)
    requires k == FirstOf(texts, name) < |texts| && Defines(entry, name)
    ensures Lookup(texts[k := entry], name) == Some(entry[|name| + 1..])
  {
    if k > 0 {
      assert texts[k := entry][1..] == texts[1..][k - 1 := entry];
      LookupUpdateHit(texts[1..], k - 1, entry, name);
    }
  }

  /** After a removal the name is absent, however often it was defined, and every other name keeps its value. */
  lemma {:induction false} WithoutLookup(texts: seq<string>, name: string, other: string)
    requires ValidName(name) && ValidName(other)
    ensures Lookup(Without(texts, name), other) == if other == name then None else Lookup(texts, other)
  {
    if texts != [] {
      var front, last := texts[..|texts| - 1], texts[|texts| - 1];
      WithoutLookup(front, name, other);
      assert texts == front + [last];
      LookupAppend(front, last, other);
      if Defines(last, name) {
        assert Without(front, name) + [] == Without(front, name);
        if other != name && Defines(last, other) { DefinesOne(last, name, other); }
      } else {
        LookupAppend(Without(front, name), last, other);
      }
    }
  }
}
