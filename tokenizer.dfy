/**
 * `new StringTokenizer(text).countTokens()` with the default delimiters
 * space, tab, line feed, carriage return and form feed: the number of
 * maximal runs of other characters.
 */
module Tokenizer {

  /** The default delimiter set of StringTokenizer. */
  predicate IsDelimiter(c: char) {
    c == ' ' || c == '\t' || c == '\n' || c == '\r' || c == '\U{000C}'
  }

  /** Position `i` holds the first character of a token. */
  predicate IsTokenStart(s: string, i: nat)
    requires i < |s|
  {
    !IsDelimiter(s[i]) && (i == 0 || IsDelimiter(s[i - 1]))
  }

  /** The number of token starts before position `k`. */
  function StartsBefore(s: string, k: nat): nat
    requires k <= |s|
  {
    if k == 0 then 0 else StartsBefore(s, k - 1) + (if IsTokenStart(s, k - 1) then 1 else 0)
  }

  /** The number of tokens of `s`. */
  function Tokens(s: string): nat {
    StartsBefore(s, |s|)
  }

  /**
   * countTokens: skip delimiters, scan one token, count it, until the end.
   */
  method CountTokens(s: string) returns (count: nat)
    ensures count == Tokens(s)
  {
    count := 0;
    var pos := 0;
    while pos < |s|
      invariant 0 <= pos <= |s|
      invariant pos < |s| ==> pos == 0 || IsDelimiter(s[pos])
      invariant count == StartsBefore(s, pos)
    {
      var from := pos;
      while pos < |s| && IsDelimiter(s[pos])
        invariant from <= pos <= |s|
        invariant pos == 0 || IsDelimiter(s[pos - 1]) || (pos == from && IsDelimiter(s[pos]))
        invariant count == StartsBefore(s, pos)
      {
        pos := pos + 1;
      }
      if pos == |s| {
        break;
      }
      assert IsTokenStart(s, pos);
      pos := pos + 1;
      count := count + 1;
      while pos < |s| && !IsDelimiter(s[pos])
        invariant 0 < pos <= |s|
        invariant !IsDelimiter(s[pos - 1])
        invariant count == StartsBefore(s, pos)
      {
        pos := pos + 1;
      }
    }
  }

  /** A text has no token exactly when it is made of delimiters only. */
  lemma {:induction false} NoTokensIffDelimiters(s: string, k: nat)
    requires k <= |s|
    ensures StartsBefore(s, k) == 0 <==> forall i :: 0 <= i < k ==> IsDelimiter(s[i])
  {
    if k > 0 {
      NoTokensIffDelimiters(s, k - 1);
      if !IsDelimiter(s[k - 1]) && StartsBefore(s, k - 1) == 0 {
        assert k - 1 == 0 || IsDelimiter(s[k - 2]);
      }
    }
  }

  /** The whole text: no token exactly when every character is a delimiter. */
  lemma NoTokens(s: string)
    ensures Tokens(s) == 0 <==> forall i :: 0 <= i < |s| ==> IsDelimiter(s[i])
  {
    NoTokensIffDelimiters(s, |s|);
  }

  /** The count before `k` looks at the first `k` characters only. */
  lemma {:induction false} StartsBeforePrefix(a: string, b: string, k: nat)
    requires k <= |a|
    ensures StartsBefore(a + b, k) == StartsBefore(a, k)
  {
    if k > 0 {
      StartsBeforePrefix(a, b, k - 1);
      assert (a + b)[k - 1] == a[k - 1];
      if k > 1 {
        assert (a + b)[k - 2] == a[k - 2];
      }
    }
  }

  /** Past the end of `a` the count continues with the count in `b`. */
  lemma {:induction false} StartsBeforeSuffix(a: string, b: string, k: nat)
    requires k <= |b|
    requires a == [] || b == [] || IsDelimiter(a[|a| - 1]) || IsDelimiter(b[0])
    ensures StartsBefore(a + b, |a| + k) == Tokens(a) + StartsBefore(b, k)
  {
    if k == 0 {
      StartsBeforePrefix(a, b, |a|);
    } else {
      StartsBeforeSuffix(a, b, k - 1);
      var s := a + b;
      assert s[|a| + k - 1] == b[k - 1];
      if k > 1 {
        assert s[|a| + k - 2] == b[k - 2];
      } else if a != [] {
        assert s[|a| - 1] == a[|a| - 1];
      }
    }
  }

  /** Texts that meet at a delimiter have the tokens of both and no more. */
  lemma TokensAppend(a: string, b: string)
    requires a == [] || b == [] || IsDelimiter(a[|a| - 1]) || IsDelimiter(b[0])
    ensures Tokens(a + b) == Tokens(a) + Tokens(b)
  {
    StartsBeforeSuffix(a, b, |b|);
  }

  /** A text with no delimiter in it is one token, or none when it is empty. */
  lemma {:induction false} OneWord(w: string)
    requires forall i :: 0 <= i < |w| ==> !IsDelimiter(w[i])
    ensures Tokens(w) == if w == [] then 0 else 1
    decreases |w|
  {
    if |w| > 1 {
      var v := w[..|w| - 1];
      assert forall i :: 0 <= i < |v| ==> v[i] == w[i];
      OneWord(v);
      assert v + [w[|w| - 1]] == w;
      StartsBeforePrefix(v, [w[|w| - 1]], |v|);
      assert !IsTokenStart(w, |w| - 1) by {
        assert !IsDelimiter(w[|w| - 2]);
      }
    } else if |w| == 1 {
      assert IsTokenStart(w, 0);
      assert StartsBefore(w, 1) == 1;
    }
  }

  /** The example text of three words over a space and a line feed. */
  lemma ThreeWords()
    ensures Tokens("hello world\nfoo") == 3
  {
    var hello, world, foo := "hello", "world", "foo";
    OneWord(hello);
    OneWord(world);
    OneWord(foo);
    NoTokens(" ");
    NoTokens("\n");
    TokensAppend(hello, " ");
    TokensAppend(hello + " ", world);
    TokensAppend(hello + " " + world, "\n");
    TokensAppend(hello + " " + world + "\n", foo);
    assert hello + " " + world + "\n" + foo == "hello world\nfoo";
  }
}
