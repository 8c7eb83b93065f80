/**
 Python `str` operations the robot loop relies on, over `string` (a `seq<char>`):
 whitespace as `str.split()` and `str.strip()` see it, `strip()`, `lower()`,
 the `in` substring test and `replace(p, "")`.
 Whitespace and case mapping are restricted to ASCII.
 */
module PyStr {

  /** ASCII characters for which Python's `str.isspace()` holds:
      space, \t \n \v \f \r (9..13) and the separators \x1c..\x1f (28..31). */
  predicate IsSpace(c: char) {
    c == ' ' || 9 <= c as int <= 13 || 28 <= c as int <= 31
  }

  predicate AllSpace(s: string) {
    forall i :: 0 <= i < |s| ==> IsSpace(s[i])
  }

  predicate NoSpace(s: string) {
    forall i :: 0 <= i < |s| ==> !IsSpace(s[i])
  }

  /** Neither end of `s` is whitespace. */
  predicate Trimmed(s: string) {
    s == [] || (!IsSpace(s[0]) && !IsSpace(s[|s| - 1]))
  }

  /** `s.lstrip()`: what is left after dropping the leading whitespace run. */
  function TrimLeft(s: string): (r: string)
    ensures |r| <= |s|
    ensures r == [] || !IsSpace(r[0])
  {
    if |s| > 0 && IsSpace(s[0]) then TrimLeft(s[1..]) else s
  }

  /** `s.rstrip()`: what is left after dropping the trailing whitespace run. */
  function TrimRight(s: string): (r: string)
    ensures |r| <= |s|
    ensures r == [] || !IsSpace(r[|r| - 1])
    ensures r == [] || r[0] == s[0]
  {
    if |s| > 0 && IsSpace(s[|s| - 1]) then TrimRight(s[..|s| - 1]) else s
  }

  /** `s.strip()`: no whitespace is left at either end. */
  function Strip(s: string): (r: string)
    ensures |r| <= |s|
    ensures Trimmed(r)
  {
    TrimRight(TrimLeft(s))
  }

  /** `lstrip()` removed a whitespace prefix and nothing else. */
  lemma {:induction false} TrimLeftParts(s: string) returns (lead: string)
    ensures s == lead + TrimLeft(s) && AllSpace(lead)
    decreases |s|
  {
    if |s| > 0 && IsSpace(s[0]) {
      var lead' := TrimLeftParts(s[1..]);
      lead := [s[0]] + lead';
      assert s == [s[0]] + s[1..];
    } else {
      lead := [];
    }
  }

  /** `rstrip()` removed a whitespace suffix and nothing else. */
  lemma {:induction false} TrimRightParts(s: string) returns (trail: string)
    ensures s == TrimRight(s) + trail && AllSpace(trail)
    decreases |s|
  {
    if |s| > 0 && IsSpace(s[|s| - 1]) {
      var trail' := TrimRightParts(s[..|s| - 1]);
      trail := trail' + [s[|s| - 1]];
      assert s == s[..|s| - 1] + [s[|s| - 1]];
    } else {
      trail := [];
    }
  }

  /** What `strip()` removed is whitespace on both sides. */
  lemma StripParts(s: string) returns (lead: string, trail: string)
    ensures s == lead + (Strip(s) + trail)
    ensures AllSpace(lead) && AllSpace(trail)
  {
    lead := TrimLeftParts(s);
    trail := TrimRightParts(TrimLeft(s));
  }

  lemma {:induction false} TrimLeftSpaces(a: string, t: string)
    requires AllSpace(a)
    requires t == [] || !IsSpace(t[0])
    ensures TrimLeft(a + t) == t
    decreases |a|
  {
    if a != [] {
      assert (a + t)[1..] == a[1..] + t;
      TrimLeftSpaces(a[1..], t);
    }
  }

  lemma {:induction false} TrimRightSpaces(w: string, b: string)
    requires AllSpace(b)
    requires w == [] || !IsSpace(w[|w| - 1])
    ensures TrimRight(w + b) == w
    decreases |b|
  {
    if b != [] {
      assert (w + b)[..|w + b| - 1] == w + b[..|b| - 1];
      TrimRightSpaces(w, b[..|b| - 1]);
    }
  }

  /** Conversely, `strip()` of whitespace around a trimmed word is that word:
      together with `StripParts` this pins `Strip` down completely. */
  lemma StripPadded(lead: string, w: string, trail: string)
    requires AllSpace(lead) && AllSpace(trail) && Trimmed(w)
    ensures Strip(lead + w + trail) == w
  {
    if w == [] {
      assert lead + w + trail == lead + trail;
      assert AllSpace(lead + trail);
      TrimLeftSpaces(lead + trail, []);
      assert lead + trail + [] == lead + trail;
    } else {
      assert lead + w + trail == lead + (w + trail);
      TrimLeftSpaces(lead, w + trail);
      TrimRightSpaces(w, trail);
    }
  }

  /** `strip()` gives the empty string exactly on all-whitespace input. */
  lemma StripEmptyIff(s: string)
    ensures Strip(s) == [] <==> AllSpace(s)
  {
    var lead, trail := StripParts(s);
    if Strip(s) == [] {
      assert s == lead + trail;
    }
    if AllSpace(s) {
      StripPadded(s, [], []);
      assert s + [] + [] == s;
    }
  }

  /** ASCII case mapping of Python's `str.lower()`. */
  function LowerChar(c: char): char {
    if 'A' <= c <= 'Z' then (c as int + 32) as char else c
  }

  /** `s.lower()`, character by character. */
  function Lower(s: string): (r: string)
    ensures |r| == |s|
  {
    seq(|s|, i requires 0 <= i < |s| => LowerChar(s[i]))
  }

  /** Lower-casing is idempotent and leaves no ASCII capital behind. */
  lemma LowerIdempotent(s: string)
    ensures Lower(Lower(s)) == Lower(s)
    ensures forall i :: 0 <= i < |s| ==> !('A' <= Lower(s)[i] <= 'Z')
  {
  }

  /** Python's `p in s`: some window of `s` equals `p`. */
  predicate Contains(s: string, p: string)
    decreases |s|
  {
    p <= s || (|s| > 0 && Contains(s[1..], p))
  }

  predicate OccursAt(s: string, p: string, i: int) {
    0 <= i && i + |p| <= |s| && s[i..i + |p|] == p
  }

  /** The recursive scan agrees with the positional definition of a substring. */
  lemma {:induction false} ContainsIff(s: string, p: string)
    ensures Contains(s, p) <==> exists i :: OccursAt(s, p, i)
    decreases |s|
  {
    if |s| > 0 {
      ContainsIff(s[1..], p);
    }
    forall i | OccursAt(s, p, i)
      ensures Contains(s, p)
    {
      if i == 0 {
        assert s[..|p|] == p;
      } else {
        assert s[1..][i - 1..i - 1 + |p|] == s[i..i + |p|];
        assert OccursAt(s[1..], p, i - 1);
      }
    }
    if Contains(s, p) {
      if p <= s {
        assert s[0..|p|] == p;
        assert OccursAt(s, p, 0);
      } else {
        var i :| OccursAt(s[1..], p, i);
        assert s[i + 1..i + 1 + |p|] == s[1..][i..i + |p|];
        assert OccursAt(s, p, i + 1);
      }
    }
  }

  /** A string holding an occurrence of `p` holds its first character. */
  lemma {:induction false} ContainsFirst(s: string, p: string)
    requires p != [] && Contains(s, p)
    ensures p[0] in s
    decreases |s|
  {
    if p <= s {
      assert s[0] == p[0];
    } else {
      ContainsFirst(s[1..], p);
      assert s[1..] <= s[1..];
      assert forall c :: c in s[1..] ==> c in s;
    }
  }

  /** Python's `s.replace(p, "")`: one left-to-right pass that deletes each
      non-overlapping occurrence of `p`, resuming the scan right after it.
      Replacing the empty string with the empty string changes nothing. */
  function RemoveAll(s: string, p: string): (r: string)
    ensures |r| <= |s|
    decreases |s|
  {
    if p == [] || s == [] then s
    else if p <= s then RemoveAll(s[|p|..], p)
    else [s[0]] + RemoveAll(s[1..], p)
  }

  /** Without an occurrence nothing is removed. */
  lemma {:induction false} RemoveAllAbsent(s: string, p: string)
    requires !Contains(s, p)
    ensures RemoveAll(s, p) == s
    decreases |s|
  {
    if p != [] && s != [] {
      RemoveAllAbsent(s[1..], p);
    }
  }

  /** An occurrence costs the result at least `|p|` characters. */
  lemma {:induction false} RemoveAllShrinks(s: string, p: string)
    requires p != [] && Contains(s, p)
    ensures |RemoveAll(s, p)| <= |s| - |p|
    decreases |s|
  {
    if !(p <= s) {
      RemoveAllShrinks(s[1..], p);
    }
  }

  /** `replace(p, "")` leaves `s` unchanged exactly when `p` does not occur in it. */
  lemma {:induction false} RemoveAllFixedIff(s: string, p: string)
    requires p != []
    ensures RemoveAll(s, p) == s <==> !Contains(s, p)
  {
    if Contains(s, p) {
      RemoveAllShrinks(s, p);
    } else {
      RemoveAllAbsent(s, p);
    }
  }

  /** The scan deletes the leftmost occurrence first: when `p` first occurs
      right after `lead`, the result keeps `lead` and carries on after `p`. */
  lemma {:induction false} RemoveAllLeftmost(lead: string, p: string, rest: string)
    requires p != []
    requires !Contains(lead + p[..|p| - 1], p)
    ensures RemoveAll(lead + p + rest, p) == lead + RemoveAll(rest, p)
    decreases |lead|
  {
    var s := lead + p + rest;
    if lead == [] {
      assert p <= s;
      assert s[|p|..] == rest;
    } else {
      var u := lead + p[..|p| - 1];
      assert s[..|p|] == u[..|p|];
      assert !(p <= s);
      assert u[1..] == lead[1..] + p[..|p| - 1];
      assert s[1..] == lead[1..] + p + rest;
      RemoveAllLeftmost(lead[1..], p, rest);
      assert [lead[0]] + lead[1..] == lead;
    }
  }
}
