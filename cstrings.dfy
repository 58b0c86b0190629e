/** The C library string routines the launcher relies on (ISO C 7.24.2.4
    strncpy, 7.24.5.5 strrchr), and the way a routine reads a C string out
    of a character buffer. A C string is modelled by its characters before
    the terminating NUL, so it never contains NUL itself. */
module CStrings {
  import opened Wrappers

  const NUL: char := '\0'

  /** The characters of a C string, up to (not including) its terminator. */
  predicate IsCString(s: string) {
    NUL !in s
  }

  /** strrchr(s, c): the index of the last occurrence of c in s, or None
      where the C routine returns a null pointer. */
  function LastIndexOf(s: string, c: char): (r: Option<nat>)
    ensures r.None? <==> c !in s
    ensures r.Some? ==> r.value < |s| && s[r.value] == c && c !in s[r.value + 1..]
  {
    if |s| == 0 then None
    else if s[|s| - 1] == c then Some(|s| - 1)
    else
      var r := LastIndexOf(s[..|s| - 1], c);
      assert s == s[..|s| - 1] + [s[|s| - 1]];
      assert r.Some? ==> s[r.value + 1..] == s[..|s| - 1][r.value + 1..] + [s[|s| - 1]];
      r
  }

  /** The last occurrence is determined by position alone: any index holding
      c with no c after it is the one strrchr finds. */
  lemma LastIndexOfAt(s: string, c: char, i: nat)
    requires i < |s| && s[i] == c && c !in s[i + 1..]
    ensures LastIndexOf(s, c) == Some(i)
  {
    assert c in s by { assert s[i] == c; }
  }

  /** The n characters strncpy(dest, src, n) stores: the first n characters
      of src, padded with NUL when src is shorter than n. */
  function StrncpyChars(src: string, n: nat): (r: string)
    ensures |r| == n
    ensures forall i :: 0 <= i < n ==> r[i] == if i < |src| then src[i] else NUL
  {
    if n <= |src| then src[..n] else src + seq(n - |src|, _ => NUL)
  }

  /** A buffer after strncpy(dest, src, n): its first n cells hold
      StrncpyChars(src, n) and every later cell is untouched. */
  function Strncpy(buf: seq<char>, src: string, n: nat): (r: seq<char>)
    requires n <= |buf|
    ensures |r| == |buf|
    ensures r[..n] == StrncpyChars(src, n) && r[n..] == buf[n..]
  {
    StrncpyChars(src, n) + buf[n..]
  }

  /** When src has at least n characters, strncpy stores just its first n. */
  lemma StrncpyWithin(buf: seq<char>, src: string, n: nat)
    requires n <= |src| && n <= |buf|
    ensures Strncpy(buf, src, n) == src[..n] + buf[n..]
  {
  }

  /** strncpy over a caller-owned array, one cell at a time. */
  method StrncpyArray(dest: array<char>, src: string, n: nat)
    requires n <= dest.Length
    modifies dest
    ensures dest[..] == Strncpy(old(dest[..]), src, n)
  {
    ghost var before := dest[..];
    var i := 0;
    while i < n
      invariant 0 <= i <= n
      invariant forall k :: 0 <= k < i ==> dest[k] == if k < |src| then src[k] else NUL
      invariant forall k :: i <= k < dest.Length ==> dest[k] == before[k]
    {
      dest[i] := if i < |src| then src[i] else NUL;
      i := i + 1;
    }
    assert dest[..] == Strncpy(before, src, n) by {
      var r := Strncpy(before, src, n);
      forall k | 0 <= k < dest.Length ensures dest[k] == r[k] {
        if k < n {
          assert r[k] == r[..n][k];
        } else {
          assert r[k] == r[n..][k - n];
        }
      }
    }
  }

  /** The C string a routine such as strverscmp is handed as a pointer to
      the first cell of buf: the characters before buf's first NUL, or None
      when buf holds no NUL, so that buf is not a C string and the routine's
      contract does not cover the call. */
  function ReadCString(buf: seq<char>): (r: Option<string>)
    ensures r.None? <==> NUL !in buf
    ensures r.Some? ==> IsCString(r.value) && |r.value| < |buf|
                        && buf[..|r.value|] == r.value && buf[|r.value|] == NUL
  {
    if |buf| == 0 then None
    else if buf[0] == NUL then Some([])
    else
      match ReadCString(buf[1..])
      case None => None
      case Some(t) => Some([buf[0]] + t)
  }

  /** Reading through a NUL-free prefix continues into what follows it. */
  lemma {:induction false} ReadCStringAfter(p: seq<char>, b: seq<char>)
    requires NUL !in p
    ensures ReadCString(p + b) == match ReadCString(b)
                                  case None => None
                                  case Some(t) => Some(p + t)
  {
    if p != [] {
      assert p[0] != NUL by { assert p[0] in p; }
      assert (p + b)[0] == p[0];
      assert (p + b)[1..] == p[1..] + b;
      ReadCStringAfter(p[1..], b);
      var q := p + b;
      assert ReadCString(q) == match ReadCString(q[1..])
                               case None => None
                               case Some(t) => Some([q[0]] + t);
      match ReadCString(b)
      case None =>
        assert ReadCString(q[1..]) == None;
        assert ReadCString(q) == None;
      case Some(t) =>
        assert ReadCString(q[1..]) == Some(p[1..] + t);
        assert [p[0]] + (p[1..] + t) == p + t;
        assert ReadCString(q) == Some(p + t);
    } else {
      assert p + b == b;
      match ReadCString(b)
      case None =>
      case Some(t) => assert p + t == t;
    }
  }

  /** strncpy of a string shorter than n leaves it NUL-terminated. */
  lemma StrncpyTerminated(buf: seq<char>, src: string, n: nat)
    requires IsCString(src) && |src| < n <= |buf|
    ensures ReadCString(Strncpy(buf, src, n)) == Some(src)
  {
    var r := Strncpy(buf, src, n);
    assert r[|src|] == NUL by {
      assert r[..n] == StrncpyChars(src, n);
      assert r[..n][|src|] == NUL;
    }
    assert r[..|src|] == src by {
      assert r[..n] == StrncpyChars(src, n);
      assert r[..|src|] == r[..n][..|src|];
    }
    assert r == src + r[|src|..];
    assert r[|src|..][0] == NUL;
    ReadCStringAfter(src, r[|src|..]);
  }

  /** strncpy of n or more characters writes no terminator: what a later
      read sees depends on the cells after the n written ones. */
  lemma StrncpyUnterminated(buf: seq<char>, src: string, n: nat)
    requires IsCString(src) && n <= |src| && n <= |buf|
    ensures NUL !in Strncpy(buf, src, n)[..n]
    ensures ReadCString(Strncpy(buf, src, n)) == match ReadCString(buf[n..])
                                                 case None => None
                                                 case Some(t) => Some(src[..n] + t)
  {
    var r := Strncpy(buf, src, n);
    assert r[..n] == src[..n];
    assert r == src[..n] + buf[n..];
    ReadCStringAfter(src[..n], buf[n..]);
  }

  /** The first m characters of s, or all of s when it is shorter. */
  function Truncated(s: string, m: nat): (r: string)
    ensures |r| <= m && r <= s
    ensures |s| <= m ==> r == s
  {
    if |s| <= m then s else s[..m]
  }

  /** strncpy(dest, src, m) followed by a NUL in cell m, the usual bounded
      copy, stores a C string: src cut to m characters. */
  lemma {:induction false} ReadStrncpyTerminated(src: string, m: nat, rest: seq<char>)
    requires IsCString(src)
    ensures ReadCString(StrncpyChars(src, m) + [NUL] + rest) == Some(Truncated(src, m))
  {
    var chars := StrncpyChars(src, m);
    var t := Truncated(src, m);
    assert chars == t + chars[|t|..] by {
      assert chars[..|t|] == t;
    }
    var after := chars[|t|..] + [NUL] + rest;
    assert chars + [NUL] + rest == t + after;
    assert after[0] == NUL by {
      if |t| < m {
        assert chars[|t|] == NUL;
      }
    }
    ReadCStringAfter(t, after);
  }
}
