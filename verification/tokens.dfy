/**
 Python's argument-less `str.split()`: the string is cut at runs of
 whitespace and no empty token is produced, so leading, trailing and
 repeated whitespace never yield a token.
 */
module Tokens {
  import opened PyStr

  /** A token `split()` can produce: non-empty and free of whitespace. */
  predicate IsToken(w: string) {
    w != [] && NoSpace(w)
  }

  predicate AllTokens(ts: seq<string>) {
    forall i :: 0 <= i < |ts| ==> IsToken(ts[i])
  }

  /** The longest whitespace-free prefix of `s`. */
  function Word(s: string): (w: string)
    ensures |w| <= |s|
    ensures NoSpace(w)
    ensures s != [] && !IsSpace(s[0]) ==> w != []
  {
    if |s| > 0 && !IsSpace(s[0]) then [s[0]] + Word(s[1..]) else []
  }

  /** The word is a prefix of `s`, ended by whitespace or by the end of `s`. */
  lemma {:induction false} WordParts(s: string) returns (rest: string)
    ensures s == Word(s) + rest
    ensures rest == [] || IsSpace(rest[0])
    decreases |s|
  {
    if |s| > 0 && !IsSpace(s[0]) {
      rest := WordParts(s[1..]);
      assert s == [s[0]] + s[1..];
    } else {
      rest := s;
    }
  }

  /** `s.split()`. */
  function Split(s: string): (ts: seq<string>)
    ensures AllTokens(ts)
    decreases |s|
  {
    var t := TrimLeft(s);
    if t == [] then []
    else
      var w := Word(t);
      [w] + Split(t[|w|..])
  }

  /** `" ".join(ts)`. */
  function Join(ts: seq<string>): string {
    if |ts| == 0 then []
    else if |ts| == 1 then ts[0]
    else ts[0] + " " + Join(ts[1..])
  }

  /** Leading whitespace never changes the tokens. */
  lemma {:induction false} SplitAfterSpaces(a: string, s: string)
    requires AllSpace(a)
    ensures Split(a + s) == Split(s)
    decreases |a|
  {
    if a == [] {
      assert a + s == s;
    } else {
      assert (a + s)[1..] == a[1..] + s;
      SplitAfterSpaces(a[1..], s);
      assert TrimLeft(a + s) == TrimLeft(a[1..] + s);
    }
  }

  lemma {:induction false} WordOfToken(w: string, rest: string)
    requires NoSpace(w)
    requires rest == [] || IsSpace(rest[0])
    ensures Word(w + rest) == w
    decreases |w|
  {
    if w != [] {
      assert (w + rest)[1..] == w[1..] + rest;
      WordOfToken(w[1..], rest);
      assert [w[0]] + w[1..] == w;
    }
  }

  /** A token followed by whitespace or the end is the first token. */
  lemma SplitToken(w: string, rest: string)
    requires IsToken(w)
    requires rest == [] || IsSpace(rest[0])
    ensures Split(w + rest) == [w] + Split(rest)
  {
    var s := w + rest;
    assert TrimLeft(s) == s;
    WordOfToken(w, rest);
    assert s[|w|..] == rest;
  }

  /** `split()` undoes `" ".join` on well-formed tokens. */
  lemma {:induction false} SplitJoin(ts: seq<string>)
    requires AllTokens(ts)
    ensures Split(Join(ts)) == ts
    decreases |ts|
  {
    if |ts| == 0 {
      assert TrimLeft([]) == [];
    } else if |ts| == 1 {
      SplitToken(ts[0], []);
      assert ts[0] + [] == ts[0];
      assert TrimLeft([]) == [];
    } else {
      var rest := " " + Join(ts[1..]);
      assert Join(ts) == ts[0] + rest;
      SplitToken(ts[0], rest);
      SplitAfterSpaces(" ", Join(ts[1..]));
      SplitJoin(ts[1..]);
      assert [ts[0]] + ts[1..] == ts;
    }
  }

  /** Conversely, the first token sits after a whitespace run and is followed
      by whitespace or the end, and the remaining tokens come from what follows. */
  lemma SplitHead(s: string) returns (lead: string, rest: string)
    requires Split(s) != []
    ensures AllSpace(lead)
    ensures s == lead + (Split(s)[0] + rest)
    ensures rest == [] || IsSpace(rest[0])
    ensures Split(rest) == Split(s)[1..]
  {
    var t := TrimLeft(s);
    lead := TrimLeftParts(s);
    rest := WordParts(t);
    assert t[|Word(t)|..] == rest;
  }

  /** `split()` yields no token exactly for all-whitespace text; with `SplitHead` this
      fixes the tokens of every string. */
  lemma SplitBlank(s: string)
    ensures Split(s) == [] <==> AllSpace(s)
  {
    var lead := TrimLeftParts(s);
    if TrimLeft(s) == [] {
      assert s == lead;
    }
    if AllSpace(s) {
      TrimLeftSpaces(s, []);
      assert s + [] == s;
    }
  }
}
