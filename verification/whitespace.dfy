/**
 * Whitespace tokenising as done by Rust's `str::split_whitespace`: the
 * string is cut at every run of Unicode White_Space characters and the
 * empty pieces are dropped.
 */
module Whitespace {

  /** Rust's `char::is_whitespace`: the Unicode White_Space property. */
  predicate IsWhitespace(c: char) {
    || ('\t' <= c <= '\r')            // U+0009 .. U+000D
    || c == ' '
    || c == '\U{0085}' || c == '\U{00A0}' || c == '\U{1680}'
    || ('\U{2000}' <= c <= '\U{200A}')
    || c == '\U{2028}' || c == '\U{2029}' || c == '\U{202F}'
    || c == '\U{205F}' || c == '\U{3000}'
  }

  /** A token as `split_whitespace` yields it: non-empty, no whitespace. */
  predicate IsWord(w: string) {
    w != [] && forall i :: 0 <= i < |w| ==> !IsWhitespace(w[i])
  }

  predicate AllWhitespace(s: string) {
    forall i :: 0 <= i < |s| ==> IsWhitespace(s[i])
  }

  /** Length of the longest whitespace-free prefix of `s`. */
  function WordLength(s: string): (n: nat)
    ensures n <= |s|
    ensures forall i :: 0 <= i < n ==> !IsWhitespace(s[i])
    ensures n < |s| ==> IsWhitespace(s[n])
  {
    if s == [] || IsWhitespace(s[0]) then 0 else 1 + WordLength(s[1..])
  }

  /** The sequence of tokens `s.split_whitespace()` yields, in order. */
  function Tokens(s: string): (ts: seq<string>)
    ensures forall i :: 0 <= i < |ts| ==> IsWord(ts[i])
    decreases |s|
  {
    if s == [] then []
    else if IsWhitespace(s[0]) then Tokens(s[1..])
    else
      var n := WordLength(s);
      [s[..n]] + Tokens(s[n..])
  }

  /** The tokens separated by single spaces: the canonical layout of a token list. */
  function JoinSpaced(ts: seq<string>): string {
    if ts == [] then ""
    else if |ts| == 1 then ts[0]
    else ts[0] + " " + JoinSpaced(ts[1..])
  }

  /** A word splits into itself alone. */
  lemma TokensOfWord(w: string)
    requires IsWord(w)
    ensures Tokens(w) == [w]
  {
    var n := WordLength(w);
    assert n == |w|;
    assert w[..n] == w && w[n..] == [];
  }

  /** A whitespace-free prefix ends at the same place whatever follows a whitespace character. */
  lemma WordLengthBeforeSpace(p: string, c: char, q: string)
    requires IsWhitespace(c)
    ensures WordLength(p + [c] + q) == WordLength(p)
  {
    var s := p + [c] + q;
    assert forall i :: 0 <= i < |p| ==> s[i] == p[i];
    assert s[|p|] == c;
  }

  /**
   * A single whitespace character cuts a string into two independently
   * tokenised halves: the tokens of `p + [c] + q` are those of `p`
   * followed by those of `q`.
   */
  lemma {:induction false} TokensSplitAt(p: string, c: char, q: string)
    requires IsWhitespace(c)
    ensures Tokens(p + [c] + q) == Tokens(p) + Tokens(q)
    decreases |p|
  {
    var s := p + [c] + q;
    if p == [] {
      assert s[1..] == q;
    } else if IsWhitespace(p[0]) {
      assert s[0] == p[0];
      assert s[1..] == p[1..] + [c] + q;
      TokensSplitAt(p[1..], c, q);
    } else {
      assert s[0] == p[0];
      var n := WordLength(p);
      WordLengthBeforeSpace(p, c, q);
      assert n > 0;
      assert s[..n] == p[..n];
      assert s[n..] == p[n..] + [c] + q;
      TokensSplitAt(p[n..], c, q);
    }
  }

  /**
   * A run of whitespace of any length separates tokens exactly as a single
   * whitespace character does; this covers leading (`p` empty), trailing
   * (`q` empty) and repeated whitespace.
   */
  lemma {:induction false} TokensCollapseWhitespace(p: string, ws: string, q: string)
    requires ws != [] && AllWhitespace(ws)
    ensures Tokens(p + ws + q) == Tokens(p) + Tokens(q)
    decreases |ws|
  {
    if |ws| == 1 {
      TokensSplitAt(p, ws[0], q);
      assert p + ws + q == p + [ws[0]] + q;
    } else {
      TokensSplitAt(p, ws[0], ws[1..] + q);
      assert p + ws + q == p + [ws[0]] + (ws[1..] + q);
      TokensCollapseWhitespace([], ws[1..], q);
      assert [] + ws[1..] + q == ws[1..] + q;
    }
  }

  /** Tokenising a space-joined list of words gives the list back. */
  lemma {:induction false} TokensJoinSpaced(ts: seq<string>)
    requires forall i :: 0 <= i < |ts| ==> IsWord(ts[i])
    ensures Tokens(JoinSpaced(ts)) == ts
  {
    if ts == [] {
    } else if |ts| == 1 {
      TokensOfWord(ts[0]);
    } else {
      TokensSplitAt(ts[0], ' ', JoinSpaced(ts[1..]));
      TokensOfWord(ts[0]);
      TokensJoinSpaced(ts[1..]);
      assert ts == [ts[0]] + ts[1..];
    }
  }

  /**
   * Only the tokens matter: a string and the single-space layout of its
   * tokens split identically, whatever leading, trailing or repeated
   * whitespace the string had.
   */
  lemma TokensLayoutIndependent(s: string)
    ensures Tokens(JoinSpaced(Tokens(s))) == Tokens(s)
  {
    TokensJoinSpaced(Tokens(s));
  }
}
