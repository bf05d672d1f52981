/**
 The string functions that work a word at a time. Memory is an array of bytes indexed by address,
 whole words long, so that an aligned word that starts in it ends in it.
 */
module WordStrings {
  import opened Basics
  import opened Words

  type Memory = array<bv8>

  /** k is where the scan for c stops within n bytes: at the first c, or at n. */
  ghost predicate StopsAt(m: seq<bv8>, s: nat, c: bv8, n: nat, k: nat) {
    && k <= n && s + k <= |m|
    && (forall i :: s <= i < s + k ==> m[i] != c)
    && (k < n ==> s + k < |m| && m[s + k] == c)
  }

  /** There is a string of len bytes at s. */
  ghost predicate StringAt(m: seq<bv8>, s: nat, len: nat) {
    s + len < |m| && m[s + len] == 0 && forall i :: s <= i < s + len ==> m[i] != 0
  }

  /** k bytes from s have been copied to d; the byte behind them is open and every other byte is as before. */
  ghost predicate CopiedSoFar(before: seq<bv8>, after: Memory, d: nat, s: nat, k: nat)
    reads after
  {
    && after.Length == |before| && s + k <= |before| && d + k <= |before|
    && forall i {:trigger after[i]} :: 0 <= i < |before| && i != d + k ==>
         after[i] == if d <= i < d + k then before[s + (i - d)] else before[i]
  }

  /** Exactly k bytes from s have been copied to d. */
  ghost predicate Copied(before: seq<bv8>, after: Memory, d: nat, s: nat, k: nat)
    reads after
  {
    && after.Length == |before| && s + k <= |before| && d + k <= |before|
    && forall i {:trigger after[i]} :: 0 <= i < |before| ==>
        after[i] == if d <= i < d + k then before[s + (i - d)] else before[i]
  }

  predicate Apart(a: nat, n: nat, b: nat, k: nat) { a + n <= b || b + k <= a }

  lemma WordFits(length: nat, a: nat)
    requires length % 4 == 0 && a % 4 == 0 && a < length
    ensures a + 4 <= length
  {
  }

  method Load(m: Memory, a: nat) returns (w: bv32)
    requires a + 4 <= m.Length
    ensures w == Word(m[a], m[a + 1], m[a + 2], m[a + 3])
  {
    w := Word(m[a], m[a + 1], m[a + 2], m[a + 3]);
  }

  /** Copy one word, through a register. */
  method CopyWord(m: Memory, d: nat, s: nat)
    requires s + 4 <= m.Length && d + 4 <= m.Length && Apart(d, 4, s, 4)
    modifies m
    ensures forall i :: 0 <= i < m.Length ==> m[i] == old(if d <= i < d + 4 then m[s + (i - d)] else m[i])
  {
    var w := Load(m, s);
    ByteOfWord(m[s], m[s + 1], m[s + 2], m[s + 3]);
    hide Word, ByteOf;
    m[d], m[d + 1], m[d + 2], m[d + 3] := ByteOf(w, 0), ByteOf(w, 1), ByteOf(w, 2), ByteOf(w, 3);
  }

  method StrLen(m: Memory, s: nat, ghost len: nat) returns (n: nat)
    requires StringAt(m[..], s, len)
    ensures n == len
  {
    n := 0;
    while m[s + n] != 0
      invariant n <= len
      decreases len - n
    {
      n := n + 1;
    }
  }

  // ---------------------------------------------------------------- strlcpy

  /** The state of a copy of at most n bytes up to the first c: k bytes done, the scan stops at stop. */
  ghost predicate Copying(before: seq<bv8>, m: Memory, d: nat, s: nat, c: bv8, n: nat, stop: nat, k: nat)
    reads m
  {
    && StopsAt(before, s, c, n, stop) && Apart(d, Min(stop + 1, n), s, Min(stop + 1, n))
    && d + Min(stop + 1, n) <= |before|
    && k <= stop && CopiedSoFar(before, m, d, s, k)
    && (k == n ==> Copied(before, m, d, s, k))
  }

  lemma CopyStart(m: Memory, d: nat, s: nat, c: bv8, n: nat, stop: nat)
    requires StopsAt(m[..], s, c, n, stop) && Apart(d, Min(stop + 1, n), s, Min(stop + 1, n))
    requires d + Min(stop + 1, n) <= m.Length
    ensures Copying(m[..], m, d, s, c, n, stop, 0)
  {
  }

  lemma CopyBound(before: seq<bv8>, m: Memory, d: nat, s: nat, c: bv8, n: nat, stop: nat, k: nat)
    requires Copying(before, m, d, s, c, n, stop, k)
    ensures k <= stop <= n
  {
  }

  /** The source bytes up to the stop are as they were before the copy began. */
  lemma SourceKept(before: seq<bv8>, m: Memory, d: nat, s: nat, c: bv8, n: nat, stop: nat, k: nat, i: nat)
    requires Copying(before, m, d, s, c, n, stop, k) && i < Min(stop + 1, n)
    ensures s + i < m.Length == |before| && m[s + i] == before[s + i]
  {
  }

  /** Copy one byte; a hit means that it is c. */
  method CopyNextByte(m: Memory, d: nat, s: nat, k: nat, c: bv8, ghost n: nat, ghost stop: nat, ghost before: seq<bv8>)
    returns (hit: bool)
    requires Copying(before, m, d, s, c, n, stop, k) && k < n
    modifies m
    ensures k <= stop <= n && (hit <==> k == stop)
    ensures hit ==> Copying(before, m, d, s, c, n, stop, k) && Copied(before, m, d, s, k + 1)
    ensures !hit ==> Copying(before, m, d, s, c, n, stop, k + 1)
  {
    SourceKept(before, m, d, s, c, n, stop, k, k);
    m[d + k] := m[s + k];
    hit := m[d + k] == c;
  }

  /** Copy the next word unless one of its bytes is c. */
  method CopyNextWord(m: Memory, d: nat, s: nat, k: nat, c: bv8, ghost n: nat, ghost stop: nat, ghost before: seq<bv8>)
    returns (copied: bool)
    requires m.Length % 4 == 0 && (s + k) % 4 == 0 && k + 4 <= n && Copying(before, m, d, s, c, n, stop, k)
    modifies m
    ensures k <= stop <= n && (copied <==> k + 4 <= stop)
    ensures Copying(before, m, d, s, c, n, stop, if copied then k + 4 else k)
  {
    hide HasZero, Word, Repeat;
    SourceKept(before, m, d, s, c, n, stop, k, k);
    WordFits(m.Length, s + k);
    var w := Load(m, s + k);
    NoHit(before, m, d, s, c, n, stop, k);
    if HasZero(w ^ Repeat(c)) != 0 {
      return false;
    }
    CopyWord(m, d + k, s + k);
    WordCopied(before, old(m[..]), m, d, s, c, n, stop, k);
    return true;
  }

  /** The test on the next word tells whether the scan stops inside it. */
  lemma NoHit(before: seq<bv8>, m: Memory, d: nat, s: nat, c: bv8, n: nat, stop: nat, k: nat)
    requires Copying(before, m, d, s, c, n, stop, k) && k + 4 <= n && s + k + 4 <= m.Length
    ensures HasZero(Word(m[s + k], m[s + k + 1], m[s + k + 2], m[s + k + 3]) ^ Repeat(c)) == 0 <==> k + 4 <= stop
  {
    hide HasZero, Word, Repeat;
    HasByteWord(m[s + k], m[s + k + 1], m[s + k + 2], m[s + k + 3], c);
    if k + 4 <= stop {
      SourceKept(before, m, d, s, c, n, stop, k, k);
      SourceKept(before, m, d, s, c, n, stop, k, k + 1);
      SourceKept(before, m, d, s, c, n, stop, k, k + 2);
      SourceKept(before, m, d, s, c, n, stop, k, k + 3);
    } else {
      SourceKept(before, m, d, s, c, n, stop, k, stop);
    }
  }

  lemma WordCopied(before: seq<bv8>, mid: seq<bv8>, m: Memory, d: nat, s: nat, c: bv8, n: nat, stop: nat, k: nat)
    requires StopsAt(before, s, c, n, stop) && Apart(d, Min(stop + 1, n), s, Min(stop + 1, n))
    requires d + Min(stop + 1, n) <= |before|
    requires k + 4 <= stop && |mid| == |before| == m.Length
    requires forall i {:trigger mid[i]} :: 0 <= i < |before| && i != d + k ==>
      mid[i] == if d <= i < d + k then before[s + (i - d)] else before[i]
    requires forall i {:trigger m[i]} :: 0 <= i < |before| ==>
      m[i] == if d + k <= i < d + k + 4 then mid[s + k + (i - (d + k))] else mid[i]
    ensures Copying(before, m, d, s, c, n, stop, k + 4)
  {
  }

  /**
   The byte loop: copy until n bytes are done or c has been copied; the alignment prologue stops
   earlier, at the first word boundary.
   */
  method CopyBytes(m: Memory, d: nat, s: nat, from: nat, n: nat, c: bv8, aligned: bool, ghost stop: nat,
                   ghost before: seq<bv8>)
    returns (k: nat)
    requires Copying(before, m, d, s, c, n, stop, from)
    modifies m
    ensures from <= k <= stop && Copying(before, m, d, s, c, n, stop, k)
    ensures k < stop ==> aligned && (s + k) % 4 == 0
    ensures k < n && !(aligned && (s + k) % 4 == 0) ==> Copied(before, m, d, s, k + 1)
  {
    CopyBound(before, m, d, s, c, n, stop, from);
    hide Copying, Copied;
    k := from;
    while k < n && !(aligned && (s + k) % 4 == 0)
      invariant from <= k <= stop <= n && Copying(before, m, d, s, c, n, stop, k)
    {
      var hit := CopyNextByte(m, d, s, k, c, n, stop, before);
      if hit {
        return;
      }
      k := k + 1;
    }
  }

  /** The word loop: copy whole words while n allows and none of their bytes is c. */
  method CopyWords(m: Memory, d: nat, s: nat, from: nat, n: nat, c: bv8, ghost stop: nat, ghost before: seq<bv8>)
    returns (k: nat)
    requires m.Length % 4 == 0 && (s + from) % 4 == 0 && Copying(before, m, d, s, c, n, stop, from)
    modifies m
    ensures from <= k && Copying(before, m, d, s, c, n, stop, k)
  {
    CopyBound(before, m, d, s, c, n, stop, from);
    hide Copying;
    k := from;
    while n - k >= 4
      invariant from <= k <= n && Copying(before, m, d, s, c, n, stop, k) && (s + k) % 4 == 0
    {
      var copied := CopyNextWord(m, d, s, k, c, n, stop, before);
      if !copied {
        break;
      }
      k := k + 4;
    }
  }

  /**
   strlcpy: the longest prefix that leaves room for the terminator is copied and terminated; the
   result is the length of the source, and no other byte changes.
   */
  method StrLCpy(m: Memory, d: nat, s: nat, size: nat, ghost len: nat) returns (ret: nat)
    requires m.Length % 4 == 0 && StringAt(m[..], s, len)
    requires size > 0 ==>
      Apart(d, Min(len, size - 1) + 1, s, len + 1) && d + Min(len, size - 1) + 1 <= m.Length
    modifies m
    ensures ret == len
    ensures size == 0 ==> m[..] == old(m[..])
    ensures size > 0 ==> var k := Min(len, size - 1);
      && m[d + k] == 0 && CopiedSoFar(old(m[..]), m, d, s, k)
  {
    ghost var before := m[..];
    if size == 0 {
      ret := StrLen(m, s, len);
      return;
    }
    var n := size - 1;
    var k := CopyPrefix(m, d, s, n, len);
    m[d + k] := 0;
    TailKept(before, m, d, s, len, k);
    var rest := StrLen(m, s + k, len - k);
    ret := k + rest;
  }

  /** What is left of the source string is still there. */
  lemma TailKept(before: seq<bv8>, m: Memory, d: nat, s: nat, len: nat, k: nat)
    requires StringAt(before, s, len) && k <= len && CopiedSoFar(before, m, d, s, k) && Apart(d, k + 1, s, len + 1)
    ensures StringAt(m[..], s + k, len - k)
  {
  }

  /** Copy at most n bytes of the string, words first where both addresses are equally aligned. */
  method CopyPrefix(m: Memory, d: nat, s: nat, n: nat, ghost len: nat) returns (k: nat)
    requires m.Length % 4 == 0 && StringAt(m[..], s, len)
    requires Apart(d, Min(len, n) + 1, s, len + 1) && d + Min(len, n) + 1 <= m.Length
    modifies m
    ensures k == Min(len, n) && CopiedSoFar(old(m[..]), m, d, s, k)
  {
    ghost var before, stop := m[..], Min(len, n);
    k := 0;
    CopyStart(m, d, s, 0, n, stop);
    if s % 4 == d % 4 {
      k := CopyBytes(m, d, s, k, n, 0, true, stop, before);
      if k < n && m[s + k] != 0 {
        k := CopyWords(m, d, s, k, n, 0, stop, before);
      }
    }
    k := CopyBytes(m, d, s, k, n, 0, false, stop, before);
  }

  /** strlcat: append what fits of s to the string at d within size bytes; the result is the length tried. */
  method StrLCat(m: Memory, d: nat, s: nat, size: nat, ghost used: nat, ghost len: nat) returns (ret: nat)
    requires m.Length % 4 == 0 && StringAt(m[..], s, len) && StopsAt(m[..], d, 0, size, used)
    requires used < size ==>
      Apart(d, used + Min(len, size - used - 1) + 1, s, len + 1) && d + used + Min(len, size - used - 1) + 1 <= m.Length
    modifies m
    ensures ret == used + len
    ensures used == size ==> m[..] == old(m[..])
    ensures used < size ==> var k := Min(len, size - used - 1);
      && m[d + used + k] == 0 && CopiedSoFar(old(m[..]), m, d + used, s, k)
  {
    var l := 0;
    while l < size && m[d + l] != 0
      invariant l <= used
    {
      l := l + 1;
    }
    if l == size {
      var n := StrLen(m, s, len);
      return l + n;
    }
    var n := StrLCpy(m, d + l, s, size - l, len);
    return l + n;
  }

  // ---------------------------------------------------------------- memccpy

  /**
   memccpy: the bytes up to and including the first c, or all n when there is none, are copied and
   nothing else changes; the result is the address behind the copied c, or zero.
   */
  method MemCCpy(m: Memory, d: nat, s: nat, c: bv8, n: nat, ghost stop: nat) returns (ret: nat)
    requires m.Length % 4 == 0 && StopsAt(m[..], s, c, n, stop)
    requires Apart(d, Min(stop + 1, n), s, Min(stop + 1, n)) && d + Min(stop + 1, n) <= m.Length
    modifies m
    ensures Copied(old(m[..]), m, d, s, Min(stop + 1, n))
    ensures ret == if stop < n then d + stop + 1 else 0
  {
    ghost var before := m[..];
    var k := 0;
    CopyStart(m, d, s, c, n, stop);
    if s % 4 == d % 4 {
      k := CopyBytes(m, d, s, k, n, c, true, stop, before);
      if (s + k) % 4 != 0 {
        return if k < n then d + k + 1 else 0;
      }
      k := CopyWords(m, d, s, k, n, c, stop, before);
    }
    k := CopyBytes(m, d, s, k, n, c, false, stop, before);
    return if k < n then d + k + 1 else 0;
  }

  // ---------------------------------------------------------------- stpcpy

  /** The byte loops of stpcpy: copy up to a word boundary if asked to, else up to the terminator. */
  method StpBytes(m: Memory, d: nat, s: nat, from: nat, aligned: bool, ghost n: nat, ghost len: nat,
                  ghost before: seq<bv8>)
    returns (k: nat, hit: bool)
    requires from <= len < n && Copying(before, m, d, s, 0, n, len, from)
    modifies m
    ensures k <= len && Copying(before, m, d, s, 0, n, len, k)
    ensures hit ==> k == len && Copied(before, m, d, s, k + 1)
    ensures !hit ==> aligned && (s + k) % 4 == 0
  {
    hide Copying, Copied;
    k := from;
    while !(aligned && (s + k) % 4 == 0)
      invariant k <= len && Copying(before, m, d, s, 0, n, len, k)
      decreases len - k
    {
      hit := CopyNextByte(m, d, s, k, 0, n, len, before);
      if hit {
        return;
      }
      k := k + 1;
    }
    hit := false;
  }

  /** The word loop of stpcpy. */
  method StpWords(m: Memory, d: nat, s: nat, from: nat, ghost len: nat, ghost before: seq<bv8>) returns (k: nat)
    requires m.Length % 4 == 0 && (s + from) % 4 == 0 && from <= len && Copying(before, m, d, s, 0, len + 4, len, from)
    modifies m
    ensures k <= len && Copying(before, m, d, s, 0, len + 4, len, k)
  {
    hide Copying;
    k := from;
    while true
      invariant k <= len && Copying(before, m, d, s, 0, len + 4, len, k) && (s + k) % 4 == 0
      decreases len - k
    {
      var copied := CopyNextWord(m, d, s, k, 0, len + 4, len, before);
      if !copied {
        return;
      }
      k := k + 4;
    }
  }

  /** stpcpy: the string and its terminator are copied; the result is the address of the new terminator. */
  method StpCpy(m: Memory, d: nat, s: nat, ghost len: nat) returns (ret: nat)
    requires m.Length % 4 == 0 && StringAt(m[..], s, len)
    requires Apart(d, len + 1, s, len + 1) && d + len + 1 <= m.Length
    modifies m
    ensures Copied(old(m[..]), m, d, s, len + 1)
    ensures ret == d + len
  {
    ghost var before := m[..];
    CopyStart(m, d, s, 0, len + 4, len);
    hide Copying, Copied, StringAt;
    var k, hit := 0, false;
    if s % 4 == d % 4 {
      k, hit := StpBytes(m, d, s, k, true, len + 4, len, before);
      if hit {
        return d + k;
      }
      k := StpWords(m, d, s, k, len, before);
    }
    k, hit := StpBytes(m, d, s, k, false, len + 4, len, before);
    return d + k;
  }

  // ---------------------------------------------------------------- strchrnul

  /** strchrnul: the address of the first c in the string, or of its terminator. */
  method StrChrNul(m: Memory, s: nat, c: bv8, ghost len: nat) returns (ret: nat)
    requires m.Length % 4 == 0 && StringAt(m[..], s, len)
    ensures s <= ret <= s + len && (m[ret] == c || ret == s + len)
    ensures forall i :: s <= i < ret ==> m[i] != c && m[i] != 0
  {
    hide HasZero, Word, Repeat;
    if c == 0 {
      var n := StrLen(m, s, len);
      return s + n;
    }
    ret := s;
    while ret % 4 != 0
      invariant s <= ret <= s + len && forall i :: s <= i < ret ==> m[i] != c
      decreases s + len - ret
    {
      if m[ret] == 0 || m[ret] == c {
        return;
      }
      ret := ret + 1;
    }
    while true
      invariant s <= ret <= s + len && ret % 4 == 0 && forall i :: s <= i < ret ==> m[i] != c
      decreases s + len - ret
    {
      WordFits(m.Length, ret);
      var w := Load(m, ret);
      HasZeroWord(m[ret], m[ret + 1], m[ret + 2], m[ret + 3]);
      HasByteWord(m[ret], m[ret + 1], m[ret + 2], m[ret + 3], c);
      assert m[s + len] == 0;
      if HasZero(w) != 0 || HasZero(w ^ Repeat(c)) != 0 {
        break;
      }
      ret := ret + 4;
    }
    while m[ret] != 0 && m[ret] != c
      invariant s <= ret <= s + len && forall i :: s <= i < ret ==> m[i] != c
      decreases s + len - ret
    {
      ret := ret + 1;
    }
  }
}
