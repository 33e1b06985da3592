/**
 * nsh_telnettoken: carves the first token out of the line buffer. The token
 * starts at the first non-whitespace character, or just after it when that
 * character is a quotation mark; it ends at the next whitespace (unquoted) or
 * the next quotation mark (quoted), or at the end of the line. A NUL is
 * stored at the end position in the line buffer, and the token is copied
 * with strncpy into the caller's fixed-size buffer.
 */
module Tokenizer {
  import opened CLib

  const QUOTE: char := '"'

  /** The first index at or after `i` whose character is not whitespace, or |line|. */
  function SkipSpace(line: seq<char>, i: nat): (j: nat)
    requires i <= |line|
    ensures i <= j <= |line|
    ensures forall k :: i <= k < j ==> IsSpace(line[k])
    ensures j < |line| ==> !IsSpace(line[j])
    decreases |line| - i
  {
    if i == |line| || !IsSpace(line[i]) then i else SkipSpace(line, i + 1)
  }

  /** Whether `c` terminates a token of the given kind. */
  predicate Ends(c: char, quoted: bool) {
    if quoted then c == QUOTE else IsSpace(c)
  }

  /** The first index at or after `i` whose character terminates the token, or |line|. */
  function ScanTo(line: seq<char>, i: nat, quoted: bool): (j: nat)
    requires i <= |line|
    ensures i <= j <= |line|
    ensures forall k :: i <= k < j ==> !Ends(line[k], quoted)
    ensures j < |line| ==> Ends(line[j], quoted)
    decreases |line| - i
  {
    if i == |line| || Ends(line[i], quoted) then i else ScanTo(line, i + 1, quoted)
  }

  /** Where the token starts, and whether it opened with a quotation mark. */
  datatype Start = Start(pos: nat, quoted: bool)

  /** The start of the token, and whether it opened with a quotation mark. */
  function TokenStart(line: seq<char>): (r: Start)
    ensures r.pos <= |line|
  {
    var j := SkipSpace(line, 0);
    if j < |line| && line[j] == QUOTE then Start(j + 1, true) else Start(j, false)
  }

  /**
   * Where the token starts. Quoted: the first non-whitespace character is a
   * quotation mark and the token starts right after it. Unquoted: the token
   * starts at the first non-whitespace character, which is not a quotation
   * mark, or at the end of an all-whitespace line.
   */
  lemma TokenStartSpec(line: seq<char>)
    ensures var r := TokenStart(line);
            && (r.quoted ==>
                  0 < r.pos && line[r.pos - 1] == QUOTE
                  && forall k :: 0 <= k < r.pos - 1 ==> IsSpace(line[k]))
            && (!r.quoted ==>
                  (forall k :: 0 <= k < r.pos ==> IsSpace(line[k]))
                  && (r.pos < |line| ==> !IsSpace(line[r.pos]) && line[r.pos] != QUOTE))
  {
  }

  /** The index just past the token: the terminator's position, or |line|. */
  function TokenEnd(line: seq<char>): (e: nat)
    ensures TokenStart(line).pos <= e <= |line|
  {
    var s := TokenStart(line);
    ScanTo(line, s.pos, s.quoted)
  }

  /** The token: a contiguous slice of the line. */
  function Token(line: seq<char>): seq<char>
  {
    line[TokenStart(line).pos..TokenEnd(line)]
  }

  /**
   * The first loop of nsh_telnettoken: walks `start` over the NUL-terminated
   * line until a quotation mark (stepping past it) or a non-whitespace
   * character. Every read is at an index no greater than |line|.
   */
  method FindStart(cn: array<char>, ghost line: seq<char>) returns (start: nat, quoted: bool)
    requires HoldsString(cn[..], line)
    ensures Start(start, quoted) == TokenStart(line)
  {
    start, quoted := 0, false;
    while cn[start] != NUL
      invariant start <= |line|
      invariant forall k :: 0 <= k < start ==> IsSpace(line[k])
      invariant SkipSpace(line, 0) == SkipSpace(line, start)
      decreases |line| - start
    {
      assert cn[start] == line[start];
      if cn[start] == QUOTE {
        quoted := true;
        start := start + 1;
        break;
      } else if !IsSpace(cn[start]) {
        break;
      }
      start := start + 1;
    }
  }

  /**
   * The second loop of nsh_telnettoken: walks `endp1` from the start to the
   * closing quotation mark (quoted) or the first whitespace (unquoted), or to
   * the line's NUL. Every read is at an index no greater than |line|.
   */
  method FindEnd(cn: array<char>, ghost line: seq<char>, start: nat, quoted: bool) returns (endp1: nat)
    requires HoldsString(cn[..], line) && start <= |line|
    ensures endp1 == ScanTo(line, start, quoted)
  {
    endp1 := start;
    while cn[endp1] != NUL
      invariant start <= endp1 <= |line|
      invariant ScanTo(line, start, quoted) == ScanTo(line, endp1, quoted)
      decreases |line| - endp1
    {
      assert cn[endp1] == line[endp1];
      if quoted {
        if cn[endp1] == QUOTE {
          break;
        }
      } else if IsSpace(cn[endp1]) {
        break;
      }
      endp1 := endp1 + 1;
    }
  }

  /**
   * nsh_telnettoken on the line buffer `cn`, which holds the C string `line`.
   * Afterwards the line buffer differs from before only by a NUL at
   * TokenEnd(line), and the first `buflen` places of `buffer` hold what
   * strncpy leaves for the token; nothing at or beyond `buflen` is written.
   */
  method TelnetToken(cn: array<char>, ghost line: seq<char>, buffer: array<char>, buflen: nat)
    requires HoldsString(cn[..], line)
    requires buflen <= buffer.Length && buffer != cn
    modifies cn, buffer
    ensures cn[..] == old(cn[..])[TokenEnd(line) := NUL]
    ensures buffer[..buflen] == StrNCpyOf(Token(line), buflen)
    ensures buffer[buflen..] == old(buffer[buflen..])
  {
    var start, quoted := FindStart(cn, line);
    var endp1 := FindEnd(cn, line, start, quoted);
    cn[endp1] := NUL;
    assert HoldsString(cn[start..], Token(line));
    HoldsStringCStr(cn[start..], Token(line));
    StrNCpy(buffer, cn, start, buflen);
  }

  /** An empty or all-whitespace line yields the empty token. */
  lemma BlankLineEmptyToken(line: seq<char>)
    requires forall k :: 0 <= k < |line| ==> IsSpace(line[k])
    ensures Token(line) == []
  {
  }

  /**
   * An unquoted token holds no whitespace (so never the newline fgets
   * keeps) and ends at whitespace or at the end of the line.
   */
  lemma UnquotedToken(line: seq<char>)
    requires !TokenStart(line).quoted
    ensures forall k :: 0 <= k < |Token(line)| ==> !IsSpace(Token(line)[k])
    ensures '\n' !in Token(line)
    ensures TokenEnd(line) == |line| || IsSpace(line[TokenEnd(line)])
  {
    TokenStartSpec(line);
    assert IsSpace('\n');
  }

  /**
   * A quoted token keeps embedded whitespace, excludes the closing
   * quotation mark and runs to the end of the line, newline included, when
   * the quotation is never closed.
   */
  lemma QuotedToken(line: seq<char>)
    requires TokenStart(line).quoted
    ensures QUOTE !in Token(line)
    ensures TokenEnd(line) == |line| || line[TokenEnd(line)] == QUOTE
    ensures QUOTE !in line[TokenStart(line).pos..] ==> Token(line) == line[TokenStart(line).pos..]
  {
  }

  /** Worked case: an unquoted token stops at the first space. */
  lemma PlainExample()
    ensures Token("alice extra") == "alice"
  {
  }

  /** Worked case: a quoted token keeps its embedded space. */
  lemma QuotedExample()
    ensures Token("\"bob smith\" x") == "bob smith"
  {
  }

  /** Worked case: a quotation mark after the first character opens nothing. */
  lemma InnerQuoteExample()
    ensures Token("ab\"c d") == "ab\"c"
  {
  }

  /** Worked case: an unclosed quotation runs to the end, newline included. */
  lemma OpenQuoteExample()
    ensures Token(" \"ab\n") == "ab\n"
  {
  }
}
