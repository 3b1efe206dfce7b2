/** libc/string.c: NUL-terminated strings in buffers of characters. */
module CString {
  const NUL: char := '\0'

  /** The buffer holds the string t: its characters, then a NUL. */
  ghost predicate Holds(buffer: seq<char>, t: seq<char>) {
    |t| < |buffer| && buffer[..|t|] == t && buffer[|t|] == NUL && NUL !in t
  }

  function Reversed(s: seq<char>): (r: seq<char>)
    ensures |r| == |s|
  {
    if s == [] then [] else Reversed(s[1..]) + [s[0]]
  }

  lemma {:induction false} ReversedAt(s: seq<char>, k: nat)
    requires k < |s|
    ensures Reversed(s)[k] == s[|s| - 1 - k]
  {
    if k < |s| - 1 { ReversedAt(s[1..], k); }
  }

  lemma {:induction false} ReversedPrepend(s: seq<char>, c: char)
    ensures Reversed(s + [c]) == [c] + Reversed(s)
  {
    if s == [] {
      assert s + [c] == [c] && Reversed([c]) == Reversed([]) + [c];
    } else {
      assert (s + [c])[1..] == s[1..] + [c];
      ReversedPrepend(s[1..], c);
    }
  }

  lemma {:induction false} ReversedMembers(s: seq<char>, c: char)
    ensures c in Reversed(s) <==> c in s
  {
    if s != [] {
      ReversedMembers(s[1..], c);
      assert s == [s[0]] + s[1..];
    }
  }

  lemma HoldsAt(buffer: seq<char>, t: seq<char>)
    requires Holds(buffer, t)
    ensures forall k :: 0 <= k < |t| ==> buffer[k] == t[k] && buffer[k] != NUL
  {
    assert forall k :: 0 <= k < |t| ==> buffer[k] == buffer[..|t|][k];
  }

  /** A buffer holds at most one string. */
  lemma HoldsIsUnique(buffer: seq<char>, t: seq<char>, u: seq<char>)
    requires Holds(buffer, t) && Holds(buffer, u)
    ensures t == u
  {
    HoldsAt(buffer, t);
    HoldsAt(buffer, u);
  }

  method Strlen(s: seq<char>, ghost t: seq<char>) returns (i: nat)
    requires Holds(s, t)
    ensures i == |t|
  {
    HoldsAt(s, t);
    i := 0;
    while s[i] != NUL
      invariant i <= |t|
      decreases |t| - i
    {
      i := i + 1;
    }
  }

  /** Reverses in place.  An empty string has no last character; the program would read far out of
      the buffer. */
  method Strrev(s: array<char>, ghost t: seq<char>)
    requires Holds(s[..], t) && t != []
    modifies s
    ensures s[..] == Reversed(t) + old(s[..])[|t|..]
  {
    var end := Strlen(s[..], t);
    end := end - 1;
    var start := 0;
    while start < end
      invariant 0 <= start <= |t| && end == |t| - 1 - start
      invariant start <= end + 1
      invariant forall k :: 0 <= k < s.Length ==>
        s[k] == if k < start || end < k < |t| then old(s[|t| - 1 - k]) else old(s[k])
    {
      var tmp := s[start];
      s[start] := s[end];
      s[end] := tmp;
      start := start + 1;
      end := end - 1;
    }
    forall k | 0 <= k < |t| ensures s[k] == Reversed(t)[k] {
      ReversedAt(t, k);
      assert old(s[..])[..|t|][|t| - 1 - k] == old(s[|t| - 1 - k]);
    }
  }

  /** The first n characters become c. */
  method Memset(s: array<char>, c: char, n: nat)
    requires n <= s.Length
    modifies s
    ensures s[..] == seq(n, _ => c) + old(s[..])[n..]
  {
    if n > 0 {
      var d, left := 0, n;
      while true
        invariant 0 <= d < n && left == n - d
        invariant forall k :: 0 <= k < s.Length ==> s[k] == if k < d then c else old(s[k])
        decreases left
      {
        s[d] := c;
        d := d + 1;
        left := left - 1;
        if left == 0 { break; }
      }
    }
  }

  function Min(a: nat, b: nat): nat { if a < b then a else b }

  /** Appends at most n characters of src and a NUL. */
  method Strncat(dest: array<char>, src: seq<char>, n: nat, ghost d: seq<char>, ghost t: seq<char>)
    requires Holds(dest[..], d) && Holds(src, t)
    requires |d| + Min(n, |t|) < dest.Length
    modifies dest
    ensures dest[..] == d + t[..Min(n, |t|)] + [NUL] + old(dest[..])[|d| + Min(n, |t|) + 1..]
  {
    ghost var m := Min(n, |t|);
    var destLen := Strlen(dest[..], d);
    var i := 0;
    assert forall k :: 0 <= k < |t| ==> src[k] == src[..|t|][k] == t[k];
    assert forall k :: 0 <= k < |d| ==> dest[k] == dest[..][..|d|][k] == d[k];
    while i < n && src[i] != NUL
      invariant 0 <= i <= m
      invariant forall k :: 0 <= k < dest.Length ==>
        dest[k] == if |d| <= k < |d| + i then t[k - |d|] else old(dest[k])
      decreases m - i
    {
      assert i < |t|;
      dest[destLen + i] := src[i];
      i := i + 1;
    }
    assert i == m;
    dest[destLen + i] := NUL;
  }

  /** Appends a whole string. */
  method Strcat(dest: array<char>, src: seq<char>, ghost d: seq<char>, ghost t: seq<char>)
    requires Holds(dest[..], d) && Holds(src, t) && |d| + |t| < dest.Length
    modifies dest
    ensures dest[..] == d + t + [NUL] + old(dest[..])[|d| + |t| + 1..]
    ensures Holds(dest[..], d + t)
  {
    var n := Strlen(src, t);
    Strncat(dest, src, n, d, t);
    assert t[..|t|] == t;
  }
}
