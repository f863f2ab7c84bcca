/**
 The two string operations a BIP-0039 phrase goes through: Rust's
 `str::split_whitespace`, which the parser uses to cut a phrase into words,
 and the single-space join the `Display` implementation of a mnemonic uses
 to write one.
 */
module Text {

  /** Rust `char::is_whitespace`: the Unicode White_Space property. */
  predicate IsWhitespace(c: char) {
    var n := c as int;
    || 0x09 <= n <= 0x0D
    || n == 0x20
    || n == 0x85
    || n == 0xA0
    || n == 0x1680
    || 0x2000 <= n <= 0x200A
    || n == 0x2028
    || n == 0x2029
    || n == 0x202F
    || n == 0x205F
    || n == 0x3000
  }

  /** A token `split_whitespace` can produce: non-empty, without whitespace. */
  predicate IsToken(t: string) {
    |t| > 0 && forall i :: 0 <= i < |t| ==> !IsWhitespace(t[i])
  }

  /** Length of the longest whitespace-free prefix of `s`. */
  function TokenEnd(s: string): (k: nat)
    ensures k <= |s|
    ensures forall i :: 0 <= i < k ==> !IsWhitespace(s[i])
    ensures k < |s| ==> IsWhitespace(s[k])
  {
    if |s| == 0 || IsWhitespace(s[0]) then 0 else 1 + TokenEnd(s[1..])
  }

  /** `str::split_whitespace`: the maximal whitespace-free runs of `s`, in order. */
  function SplitWhitespace(s: string): (tokens: seq<string>)
    ensures forall i :: 0 <= i < |tokens| ==> IsToken(tokens[i])
    decreases |s|
  {
    if |s| == 0 then []
    else if IsWhitespace(s[0]) then SplitWhitespace(s[1..])
    else
      var k := TokenEnd(s);
      [s[..k]] + SplitWhitespace(s[k..])
  }

  /** The tokens written one after the other with a single space between neighbours. */
  function Join(tokens: seq<string>): (s: string)
    ensures |tokens| > 0 ==> |s| >= |tokens| - 1
  {
    if |tokens| == 0 then ""
    else if |tokens| == 1 then tokens[0]
    else tokens[0] + " " + Join(tokens[1..])
  }

  /** A token followed by whitespace or by nothing is cut off whole. */
  lemma {:induction false} TokenEndOfToken(t: string, rest: string)
    requires IsToken(t)
    requires |rest| == 0 || IsWhitespace(rest[0])
    ensures TokenEnd(t + rest) == |t|
    decreases |t|
  {
    assert (t + rest)[0] == t[0];
    if |t| > 1 {
      assert (t + rest)[1..] == t[1..] + rest;
      TokenEndOfToken(t[1..], rest);
    } else {
      assert (t + rest)[1..] == rest;
    }
  }

  lemma SplitAfterToken(t: string, rest: string)
    requires IsToken(t)
    requires |rest| == 0 || IsWhitespace(rest[0])
    ensures SplitWhitespace(t + rest) == [t] + SplitWhitespace(rest)
  {
    TokenEndOfToken(t, rest);
    assert (t + rest)[0] == t[0];
    assert (t + rest)[..|t|] == t;
    assert (t + rest)[|t|..] == rest;
  }

  lemma SplitAfterSpace(rest: string)
    ensures SplitWhitespace(" " + rest) == SplitWhitespace(rest)
  {
    assert (" " + rest)[1..] == rest;
  }

  /** Splitting a space-joined list of tokens gives the tokens back. */
  lemma {:induction false} SplitJoin(tokens: seq<string>)
    requires forall i :: 0 <= i < |tokens| ==> IsToken(tokens[i])
    ensures SplitWhitespace(Join(tokens)) == tokens
    decreases |tokens|
  {
    if |tokens| == 1 {
      SplitAfterToken(tokens[0], "");
      assert tokens[0] + "" == tokens[0];
    } else if |tokens| > 1 {
      var rest := Join(tokens[1..]);
      assert Join(tokens) == tokens[0] + (" " + rest);
      SplitAfterToken(tokens[0], " " + rest);
      SplitAfterSpace(rest);
      SplitJoin(tokens[1..]);
    }
  }

  /** A character other than the space occurs in a join only if it occurs in one of the tokens. */
  lemma {:induction false} JoinAvoids(tokens: seq<string>, c: char)
    requires c != ' '
    requires forall i :: 0 <= i < |tokens| ==> c !in tokens[i]
    ensures c !in Join(tokens)
    decreases |tokens|
  {
    if |tokens| > 1 {
      JoinAvoids(tokens[1..], c);
    }
  }
}
