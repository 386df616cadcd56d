/**
 * The JavaScript string operations the authorization code relies on:
 * `String.prototype.trim`, `startsWith` and `includes`.
 * A JavaScript string is modelled as a sequence of Unicode scalar values.
 */
module JsText {

  /** WhiteSpace and LineTerminator code points of ECMAScript (section 12.2 and 12.3 of ECMA-262),
      the characters `trim` removes. */
  predicate IsWhiteSpace(c: char)
  {
    || c == '\U{9}' || c == '\U{B}' || c == '\U{C}' || c == '\U{20}'
    || c == '\U{A0}' || c == '\U{FEFF}'
    // category Zs
    || c == '\U{1680}' || ('\U{2000}' <= c <= '\U{200A}') || c == '\U{202F}' || c == '\U{205F}' || c == '\U{3000}'
    // line terminators
    || c == '\U{A}' || c == '\U{D}' || c == '\U{2028}' || c == '\U{2029}'
  }

  predicate AllWhiteSpace(s: string)
  {
    forall i | 0 <= i < |s| :: IsWhiteSpace(s[i])
  }

  /** Removes leading white space; the result is a suffix of `s`. */
  function TrimStart(s: string): (r: string)
    ensures |r| <= |s| && r == s[|s| - |r|..]
    ensures AllWhiteSpace(s[..|s| - |r|])
    ensures r == [] || !IsWhiteSpace(r[0])
  {
    if |s| > 0 && IsWhiteSpace(s[0]) then
      var r := TrimStart(s[1..]);
      assert s[..|s| - |r|] == [s[0]] + s[1..][..|s[1..]| - |r|];
      r
    else s
  }

  /** Removes trailing white space; the result is a prefix of `s`. */
  function TrimEnd(s: string): (r: string)
    ensures |r| <= |s| && r == s[..|r|]
    ensures AllWhiteSpace(s[|r|..])
    ensures r == [] || !IsWhiteSpace(r[|r| - 1])
  {
    if |s| > 0 && IsWhiteSpace(s[|s| - 1]) then
      var r := TrimEnd(s[..|s| - 1]);
      assert s[|r|..] == s[..|s| - 1][|r|..] + [s[|s| - 1]];
      r
    else s
  }

  /** `s.trim()`: removes white space at both ends, so that what remains
      neither starts nor ends with white space; nothing is left exactly when
      `s` is all white space. */
  function Trim(s: string): (r: string)
    ensures |r| <= |s|
    ensures r == [] || (!IsWhiteSpace(r[0]) && !IsWhiteSpace(r[|r| - 1]))
    ensures r == [] <==> AllWhiteSpace(s)
  {
    var t := TrimStart(s);
    var r := TrimEnd(t);
    assert r != [] ==> r[0] == t[0];
    assert t != [] ==> t[0] == s[|s| - |t|];
    assert t == [] ==> s[..|s| - |t|] == s;
    r
  }

  /** Trimming is idempotent: the command-line prompt trims the reply and the
      extractor trims it again without further effect. */
  lemma TrimIdempotent(s: string)
    ensures Trim(Trim(s)) == Trim(s)
  {
    var t := Trim(s);
    assert t != [] ==> TrimStart(t) == t;
    assert t != [] ==> TrimEnd(t) == t;
  }

  /** `Trim` is characterised independently: white space around a text that
      neither starts nor ends with white space is exactly what is removed. */
  lemma {:induction false} TrimPadded(left: string, t: string, right: string)
    requires AllWhiteSpace(left) && AllWhiteSpace(right)
    requires t == [] || (!IsWhiteSpace(t[0]) && !IsWhiteSpace(t[|t| - 1]))
    ensures Trim(left + t + right) == t
  {
    var s := left + t + right;
    if t == [] {
      assert AllWhiteSpace(s) by {
        forall k | 0 <= k < |s| ensures IsWhiteSpace(s[k]) {
          if k < |left| { assert s[k] == left[k]; } else { assert s[k] == right[k - |left|]; }
        }
      }
    } else {
      TrimStartPadded(left, t + right);
      assert s == left + (t + right);
      TrimEndPadded(t, right);
    }
  }

  /** Printable ASCII text has no white space to trim. */
  lemma TrimPrintable(s: string)
    requires forall i | 0 <= i < |s| :: 0x21 <= s[i] as int <= 0x7E
    ensures Trim(s) == s
  {
    TrimPadded([], s, []);
    assert [] + s + [] == s;
  }

  lemma {:induction false} TrimStartPadded(left: string, rest: string)
    requires AllWhiteSpace(left) && rest != [] && !IsWhiteSpace(rest[0])
    ensures TrimStart(left + rest) == rest
  {
    if left != [] {
      assert (left + rest)[1..] == left[1..] + rest;
      TrimStartPadded(left[1..], rest);
    }
  }

  lemma {:induction false} TrimEndPadded(rest: string, right: string)
    requires AllWhiteSpace(right) && rest != [] && !IsWhiteSpace(rest[|rest| - 1])
    ensures TrimEnd(rest + right) == rest
  {
    if right != [] {
      var s := rest + right;
      assert s[..|s| - 1] == rest + right[..|right| - 1];
      TrimEndPadded(rest, right[..|right| - 1]);
    }
  }

  /** `s.startsWith(p)`. */
  predicate StartsWith(s: string, p: string)
  {
    |p| <= |s| && s[..|p|] == p
  }

  /** `sub` occurs in `s` at index `i`. */
  predicate OccursAt(s: string, sub: string, i: nat)
  {
    i + |sub| <= |s| && s[i..i + |sub|] == sub
  }

  /** `s.includes(sub)`. */
  predicate Includes(s: string, sub: string)
    decreases |s|
  {
    StartsWith(s, sub) || (|s| > 0 && Includes(s[1..], sub))
  }

  /** `Includes` holds exactly when `sub` occurs somewhere in `s`. */
  lemma {:induction false} IncludesIffOccurs(s: string, sub: string)
    ensures Includes(s, sub) <==> exists i: nat :: OccursAt(s, sub, i)
  {
    if Includes(s, sub) {
      if StartsWith(s, sub) {
        assert OccursAt(s, sub, 0);
      } else {
        IncludesIffOccurs(s[1..], sub);
        var i: nat :| OccursAt(s[1..], sub, i);
        assert s[1..][i..i + |sub|] == s[i + 1..i + 1 + |sub|];
        assert OccursAt(s, sub, i + 1);
      }
    }
    if exists i: nat :: OccursAt(s, sub, i) {
      var i: nat :| OccursAt(s, sub, i);
      if i == 0 {
        assert StartsWith(s, sub);
      } else {
        assert s[1..][i - 1..i - 1 + |sub|] == s[i..i + |sub|];
        assert OccursAt(s[1..], sub, i - 1);
        IncludesIffOccurs(s[1..], sub);
      }
    }
  }

  /** `Includes` finds `sub` between any two texts. */
  lemma IncludesOccurrence(a: string, sub: string, b: string)
    ensures Includes(a + sub + b, sub)
  {
    var s := a + sub + b;
    assert s[|a|..|a| + |sub|] == sub;
    assert OccursAt(s, sub, |a|);
    IncludesIffOccurs(s, sub);
  }
}
