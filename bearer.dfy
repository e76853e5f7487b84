/** Extraction of the bearer credential from the `Authorization` header, as
    both services write it: `request.headers.get('Authorization', '')
    .replace('Bearer ', '')`. Python's `str.replace` removes EVERY
    non-overlapping occurrence, scanning left to right, not just a prefix. */
module Bearer {
  import opened Http

  const Scheme: string := "Bearer "

  /** The scheme text starts at index `i` of `s`. */
  predicate OccursAt(s: string, i: int) {
    0 <= i && i + |Scheme| <= |s| && s[i..i + |Scheme|] == Scheme
  }

  predicate ContainsScheme(s: string) {
    exists i | 0 <= i <= |s| :: OccursAt(s, i)
  }

  /** `s.replace('Bearer ', '')`: every removal takes out the whole scheme,
      so the result is shorter by a multiple of its length. */
  function StripScheme(s: string): (r: string)
    ensures |r| <= |s| && (|s| - |r|) % |Scheme| == 0
    decreases |s|
  {
    if |s| < |Scheme| then s
    else if s[..|Scheme|] == Scheme then StripScheme(s[|Scheme|..])
    else [s[0]] + StripScheme(s[1..])
  }

  /** The credential a handler hands to `jwt.decode`: a missing header reads
      as "", and a header without the scheme text is passed on unchanged. */
  function BearerToken(authorization: Option<string>): (token: string)
    ensures authorization.None? ==> token == ""
    ensures authorization.Some? && !ContainsScheme(authorization.value) ==> token == authorization.value
    ensures authorization.Some? && ContainsScheme(authorization.value) ==> |token| < |authorization.value|
  {
    StripIdentityIff(authorization.GetOr(""));
    StripScheme(authorization.GetOr(""))
  }

  /** A string without the scheme passes through unchanged, and one with it
      always loses characters: the two directions of "replace is the identity". */
  lemma {:induction false} StripIdentityIff(s: string)
    ensures StripScheme(s) == s <==> !ContainsScheme(s)
    ensures ContainsScheme(s) ==> |StripScheme(s)| < |s|
    decreases |s|
  {
    if |s| < |Scheme| {
      assert forall i :: !OccursAt(s, i);
    } else if s[..|Scheme|] == Scheme {
      assert OccursAt(s, 0);
    } else {
      var t := s[1..];
      StripIdentityIff(t);
      forall i | OccursAt(s, i) ensures i >= 1 && OccursAt(t, i - 1) {
        assert i != 0;
        assert s[i..i + |Scheme|] == t[i - 1..i - 1 + |Scheme|];
      }
      forall i | OccursAt(t, i) ensures OccursAt(s, i + 1) {
        assert s[i + 1..i + 1 + |Scheme|] == t[i..i + |Scheme|];
      }
      assert s == [s[0]] + t;
    }
  }

  /** No occurrence of the scheme starts before index `n`. */
  predicate NoneBefore(s: string, n: int) {
    forall i :: 0 <= i < n ==> !OccursAt(s, i)
  }

  /** The scheme occurs at `i + 1` of `s` exactly when it occurs at `i` of `s[1..]`. */
  lemma ShiftOccurrence(s: string, i: nat)
    requires |s| > 0
    ensures OccursAt(s, i + 1) <==> OccursAt(s[1..], i)
  {
    if i + 1 + |Scheme| <= |s| {
      assert s[i + 1..i + 1 + |Scheme|] == s[1..][i..i + |Scheme|];
    }
  }

  /** Where the scheme does not start, `replace` keeps one character and moves on. */
  lemma StripKeepsChar(s: string)
    requires |s| >= |Scheme| && !OccursAt(s, 0)
    ensures StripScheme(s) == [s[0]] + StripScheme(s[1..])
  {
  }

  /** The specification of `replace`: the leftmost occurrence is removed,
      the text before it is kept, and scanning resumes right after it. */
  lemma {:induction false} StripAtLeftmost(s: string, n: nat)
    requires OccursAt(s, n) && NoneBefore(s, n)
    ensures StripScheme(s) == s[..n] + StripScheme(s[n + |Scheme|..])
    decreases n
  {
    if n == 0 {
      assert s[..|Scheme|] == Scheme;
    } else {
      var t := s[1..];
      var rest := StripScheme(s[n + |Scheme|..]);
      StripKeepsChar(s);
      ShiftOccurrence(s, n - 1);
      forall i: nat | i < n - 1 ensures !OccursAt(t, i) {
        ShiftOccurrence(s, i);
      }
      StripAtLeftmost(t, n - 1);
      assert t[n - 1 + |Scheme|..] == s[n + |Scheme|..];
      calc {
        StripScheme(s);
        [s[0]] + StripScheme(t);
        [s[0]] + (t[..n - 1] + rest);
        ([s[0]] + t[..n - 1]) + rest;
        { assert s[..n] == [s[0]] + t[..n - 1]; }
        s[..n] + rest;
      }
    }
  }

  /** A header `"Bearer " + t` yields `t` when `t` holds no further scheme text. */
  lemma StripSchemePrefix(t: string)
    requires !ContainsScheme(t)
    ensures StripScheme(Scheme + t) == t
  {
    var s := Scheme + t;
    assert s[..|Scheme|] == Scheme && s[|Scheme|..] == t;
    StripIdentityIff(t);
  }

  /** Every repeated prefix is removed, not only the first:
      `"Bearer Bearer " + t` also yields `t`. */
  lemma StripRepeatedScheme(t: string)
    requires !ContainsScheme(t)
    ensures StripScheme(Scheme + Scheme + t) == t
  {
    var s := Scheme + Scheme + t;
    assert s[..|Scheme|] == Scheme && s[|Scheme|..] == Scheme + t;
    StripSchemePrefix(t);
  }

  /** Text containing no space cannot contain the scheme, whose last character is a space. */
  lemma NoSpaceNoScheme(t: string)
    requires ' ' !in t
    ensures !ContainsScheme(t)
  {
    forall i | 0 <= i <= |t| ensures !OccursAt(t, i) {
      if i + |Scheme| <= |t| {
        assert t[i..i + |Scheme|][6] == t[i + 6] != ' ';
      }
    }
  }
}
