/** `rtrim`: strip the line end `fgets` leaves, by overwriting every
    trailing `'\n'` and `'\r'` of a C string with NUL, last character
    first. */
module Text {
  /** A character array holds a C string when it contains a NUL. */
  ghost predicate IsCString(s: seq<char>)
  {
    '\0' in s
  }

  /** `strlen`: the index of the first NUL. */
  function Strlen(s: seq<char>): (n: nat)
    requires IsCString(s)
    ensures n < |s| && s[n] == '\0' && '\0' !in s[..n]
  {
    if s[0] == '\0' then 0
    else
      assert s == [s[0]] + s[1..];
      var n := Strlen(s[1..]);
      assert s[..n + 1] == [s[0]] + s[1..][..n];
      n + 1
  }

  /** The text of a C string: the characters before its first NUL. */
  function CString(s: seq<char>): seq<char>
    requires IsCString(s)
  {
    s[..Strlen(s)]
  }

  predicate LineEnd(c: char)
  {
    c == '\n' || c == '\r'
  }

  /** A text without its trailing line-end characters. */
  function TrimEnd(t: seq<char>): (r: seq<char>)
  {
    if t != [] && LineEnd(t[|t| - 1]) then TrimEnd(t[..|t| - 1]) else t
  }

  function Nuls(n: nat): (z: seq<char>)
    ensures |z| == n && forall i :: 0 <= i < n ==> z[i] == '\0'
  {
    seq(n, _ => '\0')
  }

  /** What `rtrim` leaves in the array: the kept text, NULs where the line
      end was, and everything from the old terminator on untouched. */
  function Trimmed(s: seq<char>): (r: seq<char>)
    requires IsCString(s)
    ensures |r| == |s|
  {
    var n := Strlen(s);
    var k := |TrimEnd(s[..n])|;
    TrimmedLength(s[..n]);
    s[..k] + Nuls(n - k) + s[n..]
  }

  // ---------------------------------------------------------------------
  // Lemmas

  /** Trimming keeps a prefix, removes only line-end characters and leaves
      none at the end. */
  lemma {:induction false} TrimEndShape(t: seq<char>)
    ensures |TrimEnd(t)| <= |t| && TrimEnd(t) == t[..|TrimEnd(t)|]
    ensures forall i :: |TrimEnd(t)| <= i < |t| ==> LineEnd(t[i])
    ensures TrimEnd(t) == [] || !LineEnd(TrimEnd(t)[|TrimEnd(t)| - 1])
  {
    if t != [] && LineEnd(t[|t| - 1]) {
      var t' := t[..|t| - 1];
      TrimEndShape(t');
      assert t'[..|TrimEnd(t')|] == t[..|TrimEnd(t')|];
    }
  }

  lemma TrimmedLength(t: seq<char>)
    ensures |TrimEnd(t)| <= |t|
  {
    TrimEndShape(t);
  }

  /** Trimming twice trims nothing more. */
  lemma TrimEndIdempotent(t: seq<char>)
    ensures TrimEnd(TrimEnd(t)) == TrimEnd(t)
  {
    TrimEndShape(t);
  }

  /** After `rtrim` the array still holds a C string, and its text is the
      old text without its trailing line-end characters. */
  lemma TrimmedString(s: seq<char>)
    requires IsCString(s)
    ensures IsCString(Trimmed(s))
    ensures CString(Trimmed(s)) == TrimEnd(CString(s))
  {
    var n := Strlen(s);
    var t := s[..n];
    TrimEndShape(t);
    var k := |TrimEnd(t)|;
    var r := Trimmed(s);
    assert r[k] == '\0';
    assert r[..k] == TrimEnd(t);
    assert '\0' !in r[..k] by {
      assert r[..k] == s[..n][..k];
    }
    assert Strlen(r) == k by {
      StrlenAt(r, k);
    }
  }

  /** A NUL at `k` with none before it is where the string ends. */
  lemma StrlenAt(s: seq<char>, k: nat)
    requires k < |s| && s[k] == '\0' && '\0' !in s[..k]
    ensures IsCString(s) && Strlen(s) == k
  {
    var n := Strlen(s);
    NoNulBefore(s, k);
    NoNulBefore(s, n);
  }

  lemma NoNulBefore(s: seq<char>, k: nat)
    requires k <= |s| && '\0' !in s[..k]
    ensures forall i :: 0 <= i < k ==> s[i] != '\0'
  {
    forall i | 0 <= i < k
      ensures s[i] != '\0'
    {
      assert s[..k][i] == s[i];
    }
  }

  /** One more line end written over: the state of `rtrim` after `p`
      moved past index `p`. */
  lemma TrimStep(t: seq<char>, p: nat)
    requires p < |t| && LineEnd(t[p])
    ensures TrimEnd(t[..p + 1]) == TrimEnd(t[..p])
  {
    assert t[..p + 1][..p] == t[..p];
  }

  /** Writing NUL at `p` extends the run of NULs down by one. */
  lemma NulStep(s0: seq<char>, n: nat, p: nat, cur: seq<char>)
    requires p < n <= |s0| && cur == s0[..p + 1] + Nuls(n - 1 - p) + s0[n..]
    ensures cur[p := '\0'] == s0[..p] + Nuls(n - p) + s0[n..]
  {
    var next := s0[..p] + Nuls(n - p) + s0[n..];
    assert |cur[p := '\0']| == |next|;
    forall i | 0 <= i < |next|
      ensures cur[p := '\0'][i] == next[i]
    {
      if i < p {
        assert cur[i] == s0[i] == next[i];
      } else if i >= n {
        assert cur[i] == s0[i] == next[i];
      }
    }
  }

  /** When `rtrim` stops at `p`, the array is in its final state. */
  lemma TrimStop(s0: seq<char>, n: nat, p: int)
    requires IsCString(s0) && n == Strlen(s0) && -1 <= p < n
    requires TrimEnd(s0[..n]) == TrimEnd(s0[..p + 1])
    requires p >= 0 ==> !LineEnd(s0[p])
    ensures Trimmed(s0) == s0[..p + 1] + Nuls(n - 1 - p) + s0[n..]
  {
    var t := s0[..n];
    if p >= 0 {
      assert t[..p + 1][p] == s0[p];
    }
    assert TrimEnd(t[..p + 1]) == t[..p + 1];
    assert t[..p + 1] == s0[..p + 1];
  }

  // ---------------------------------------------------------------------
  // The loop

  /** `rtrim`: a null pointer is left alone; otherwise `p` walks back from
      the last character while it is a line end, writing NUL. */
  method RTrim(s: array?<char>)
    requires s != null ==> IsCString(s[..])
    modifies s
    ensures s != null ==> IsCString(old(s[..])) && s[..] == Trimmed(old(s[..]))
  {
    if s != null {
      ghost var s0 := s[..];
      var n := Strlen(s[..]);
      var p: int := n - 1;
      while p >= 0 && LineEnd(s[p])
        invariant -1 <= p < n
        invariant s[..] == s0[..p + 1] + Nuls(n - 1 - p) + s0[n..]
        invariant TrimEnd(s0[..n]) == TrimEnd(s0[..n][..p + 1])
      {
        TrimStep(s0[..n], p);
        ghost var cur := s[..];
        s[p] := '\0';
        assert s[..] == cur[p := '\0'];
        NulStep(s0, n, p, cur);
        p := p - 1;
      }
      assert s0[..n][..p + 1] == s0[..p + 1];
      TrimStop(s0, n, p);
    }
  }
}
