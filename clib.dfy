/**
 * The few pieces of the ISO C11 library that the telnet login gate relies on:
 * isspace in the "C" locale (section 7.4.1.10), NUL-terminated strings as
 * read by fputs and strcmp, strncpy (section 7.24.2.4), and the store that
 * fgets (section 7.21.7.2) makes into its line buffer.
 *
 * C buffers of `char` hold bytes; here each element of a `seq<char>` or an
 * `array<char>` stands for one such byte, so a buffer of n places is n bytes.
 */
module CLib {
  const NUL: char := '\0'

  /** isspace in the "C" locale: space, \t, \n, \v, \f and \r. */
  predicate IsSpace(c: char) {
    c == ' ' || c == '\t' || c == '\n' || c == '\U{B}' || c == '\U{C}' || c == '\r'
  }

  /**
   * The string a buffer holds when read as a C string: every element before
   * the first `nul`, or the whole buffer when it holds no `nul` (the bytes a
   * reader that stopped at the end of the buffer would see).
   */
  function CStr<T(==)>(s: seq<T>, nul: T): (r: seq<T>)
    ensures |r| <= |s| && r == s[..|r|]
    ensures nul !in r
    ensures |r| < |s| ==> s[|r|] == nul
  {
    if s == [] || s[0] == nul then [] else [s[0]] + CStr(s[1..], nul)
  }

  /** The three facts of CStr's contract determine its result. */
  lemma {:induction false} CStrUnique<T>(s: seq<T>, nul: T, r: seq<T>)
    requires |r| <= |s| && r == s[..|r|] && nul !in r
    requires |r| < |s| ==> s[|r|] == nul
    ensures CStr(s, nul) == r
  {
    if r != [] {
      assert s[0] == r[0] != nul;
      CStrUnique(s[1..], nul, r[1..]);
    }
  }

  /** `buf` holds the C string `str`: `str` has no NUL and a NUL follows it. */
  predicate HoldsString(buf: seq<char>, str: seq<char>) {
    |str| < |buf| && buf[..|str|] == str && buf[|str|] == NUL && NUL !in str
  }

  lemma HoldsStringCStr(buf: seq<char>, str: seq<char>)
    requires HoldsString(buf, str)
    ensures CStr(buf, NUL) == str
  {
    CStrUnique(buf, NUL, str);
  }

  function Zeros(k: nat): (r: seq<char>)
    ensures |r| == k && forall i :: 0 <= i < k ==> r[i] == NUL
  {
    seq(k, _ => NUL)
  }

  /**
   * The `n` characters strncpy leaves in its destination when the source
   * string is `t`: at most `n` characters of `t` and, when `t` is shorter than
   * `n`, NUL padding up to `n`. No terminator is added when `|t| >= n`.
   */
  function StrNCpyOf(t: seq<char>, n: nat): (r: seq<char>)
    ensures |r| == n
    ensures |t| < n ==> r[..|t|] == t && forall k :: |t| <= k < n ==> r[k] == NUL
    ensures |t| >= n ==> r == t[..n]
  {
    if |t| >= n then t[..n] else t + Zeros(n - |t|)
  }

  /**
   * What a reader of the destination as a C string sees after strncpy: the
   * source truncated to `n` characters. The destination holds a NUL exactly
   * when the source is shorter than `n`.
   */
  lemma StrNCpyReadBack(t: seq<char>, n: nat)
    requires NUL !in t
    ensures CStr(StrNCpyOf(t, n), NUL) == if |t| < n then t else t[..n]
    ensures NUL in StrNCpyOf(t, n) <==> |t| < n
  {
    var r := StrNCpyOf(t, n);
    if |t| < n {
      assert r[|t|] == NUL;
      CStrUnique(r, NUL, t);
    } else {
      assert NUL !in r by {
        forall k | 0 <= k < n ensures r[k] != NUL {
          assert r[k] == t[k];
        }
      }
      CStrUnique(r, NUL, r);
    }
  }

  /**
   * strncpy(dst, &src[from], n): copies characters of the C string starting
   * at `src[from]` until its NUL or until `n` have been copied, then writes NUL
   * into the rest of the first `n` places of `dst`. Nothing at or beyond `n` is
   * written, and no element of `src` after its NUL is read.
   */
  method StrNCpy(dst: array<char>, src: array<char>, from: nat, n: nat)
    requires from <= src.Length && NUL in src[from..]
    requires n <= dst.Length && dst != src
    modifies dst
    ensures dst[..n] == StrNCpyOf(CStr(src[from..], NUL), n)
    ensures dst[n..] == old(dst[n..])
  {
    ghost var t := CStr(src[from..], NUL);
    assert |t| < |src[from..]|;
    var i := 0;
    while i < n && src[from + i] != NUL
      invariant 0 <= i <= n && i <= |t|
      invariant dst[..i] == t[..i]
      invariant dst[n..] == old(dst[n..])
    {
      assert src[from + i] == t[i];
      dst[i] := src[from + i];
      i := i + 1;
    }
    assert i == n || i == |t|;
    while i < n
      invariant 0 <= i <= n
      invariant i >= |t| || i == n
      invariant dst[..i] == StrNCpyOf(t, n)[..i]
      invariant dst[n..] == old(dst[n..])
    {
      dst[i] := NUL;
      i := i + 1;
    }
  }

  /**
   * fgets storing a read line into the line buffer: the characters of the
   * line followed by a NUL; the rest of the buffer is left as it was.
   */
  method FGetsStore(buf: array<char>, line: seq<char>)
    requires |line| < buf.Length && NUL !in line
    modifies buf
    ensures HoldsString(buf[..], line)
    ensures buf[|line| + 1..] == old(buf[|line| + 1..])
  {
    forall k | 0 <= k < buf.Length {
      buf[k] := if k < |line| then line[k] else if k == |line| then NUL else buf[k];
    }
  }
}
