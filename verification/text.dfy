/** Character-level string operations used by the routes: `toLowerCase`
    (restricted to ASCII) and the `<` comparison on strings. */
module Text {

  predicate IsUpper(c: char)
  {
    'A' <= c <= 'Z'
  }

  /** ASCII lower-casing of one character. */
  function LowerChar(c: char): (d: char)
    ensures !IsUpper(d)
    ensures !IsUpper(c) ==> d == c
    ensures IsUpper(c) ==> 'a' <= d <= 'z' && d as int - c as int == 32
  {
    if IsUpper(c) then (c as int + 32) as char else c
  }

  /** `s.toLowerCase()`, restricted to the ASCII letters. */
  function Lower(s: string): (r: string)
    ensures |r| == |s|
    ensures forall i :: 0 <= i < |s| ==> r[i] == LowerChar(s[i])
  {
    seq(|s|, i requires 0 <= i < |s| => LowerChar(s[i]))
  }

  /** A string that lower-casing leaves alone. */
  predicate IsLowered(s: string)
  {
    forall i :: 0 <= i < |s| ==> !IsUpper(s[i])
  }

  lemma LowerIsLowered(s: string)
    ensures IsLowered(Lower(s))
  {
  }

  /** Lower-casing changes a string exactly when it holds an upper-case letter. */
  lemma LowerFixedPoint(s: string)
    ensures Lower(s) == s <==> IsLowered(s)
  {
    if IsLowered(s) {
      assert forall i :: 0 <= i < |s| ==> Lower(s)[i] == s[i];
    } else {
      var i :| 0 <= i < |s| && IsUpper(s[i]);
      assert Lower(s)[i] != s[i];
    }
  }

  lemma LowerIdempotent(s: string)
    ensures Lower(Lower(s)) == Lower(s)
  {
    LowerIsLowered(s);
    LowerFixedPoint(Lower(s));
  }

  /** Reference definition of the string order: `a` is a proper prefix of
      `b`, or `a` has the smaller character at the first position where the
      two differ. */
  ghost predicate LexBelow(a: string, b: string)
  {
    || (|a| < |b| && a == b[..|a|])
    || exists i :: 0 <= i < |a| && i < |b| && a[..i] == b[..i] && a[i] < b[i]
  }

  /** How the reference order decides on the first characters. */
  lemma LexBelowCases(a: string, b: string)
    ensures |a| == 0 ==> (LexBelow(a, b) <==> |b| > 0)
    ensures |a| > 0 && |b| == 0 ==> !LexBelow(a, b)
    ensures |a| > 0 && |b| > 0 && a[0] != b[0] ==> (LexBelow(a, b) <==> a[0] < b[0])
    ensures |a| > 0 && |b| > 0 && a[0] == b[0] ==> (LexBelow(a, b) <==> LexBelow(a[1..], b[1..]))
  {
    if |a| == 0 {
      assert a == b[..0];
    } else if |b| > 0 && a[0] != b[0] {
      assert a[..0] == b[..0];
      forall i | 0 < i <= |a| && i <= |b|
        ensures a[..i] != b[..i]
      {
        assert a[..i][0] == a[0] && b[..i][0] == b[0];
      }
    } else if |b| > 0 {
      var a', b' := a[1..], b[1..];
      if |a| < |b| && a == b[..|a|] {
        assert a' == b'[..|a'|];
      }
      if |a'| < |b'| && a' == b'[..|a'|] {
        assert a == [a[0]] + a' && b[..|a|] == [b[0]] + b'[..|a'|];
      }
      if exists i :: 0 <= i < |a| && i < |b| && a[..i] == b[..i] && a[i] < b[i] {
        var i :| 0 <= i < |a| && i < |b| && a[..i] == b[..i] && a[i] < b[i];
        assert i != 0;
        assert a'[..i - 1] == a[..i][1..] && b'[..i - 1] == b[..i][1..];
      }
      if exists j :: 0 <= j < |a'| && j < |b'| && a'[..j] == b'[..j] && a'[j] < b'[j] {
        var j :| 0 <= j < |a'| && j < |b'| && a'[..j] == b'[..j] && a'[j] < b'[j];
        assert a[..j + 1] == [a[0]] + a'[..j] && b[..j + 1] == [b[0]] + b'[..j];
      }
    }
  }

  /** JavaScript's `a < b` on strings, decided character by character. It is
      strict, and nothing is below the empty string. */
  predicate LexLess(a: string, b: string)
    ensures LexLess(a, b) ==> a != b && b != ""
  {
    if |a| == 0 then |b| > 0
    else if |b| == 0 then false
    else if a[0] != b[0] then a[0] < b[0]
    else LexLess(a[1..], b[1..])
  }

  /** The character-by-character order is the reference order. */
  lemma {:induction false} LexLessIsReferenceOrder(a: string, b: string)
    ensures LexLess(a, b) <==> LexBelow(a, b)
  {
    LexBelowCases(a, b);
    if |a| > 0 && |b| > 0 && a[0] == b[0] {
      LexLessIsReferenceOrder(a[1..], b[1..]);
    }
  }

  /** `a <= b` in the same order. */
  predicate LexLeq(a: string, b: string)
  {
    !LexLess(b, a)
  }

  lemma {:induction false} LexIrreflexive(a: string)
    ensures !LexLess(a, a)
  {
    if |a| > 0 {
      LexIrreflexive(a[1..]);
    }
  }

  lemma {:induction false} LexAsymmetric(a: string, b: string)
    ensures LexLess(a, b) ==> !LexLess(b, a)
  {
    if |a| > 0 && |b| > 0 && a[0] == b[0] {
      LexAsymmetric(a[1..], b[1..]);
    }
  }

  /** Any two distinct strings are ordered one way or the other. */
  lemma {:induction false} LexTotal(a: string, b: string)
    ensures a == b || LexLess(a, b) || LexLess(b, a)
  {
    if |a| > 0 && |b| > 0 && a[0] == b[0] {
      LexTotal(a[1..], b[1..]);
      if a[1..] == b[1..] {
        assert a == [a[0]] + a[1..];
        assert b == [b[0]] + b[1..];
      }
    }
  }

  lemma {:induction false} LexTransitive(a: string, b: string, c: string)
    requires LexLess(a, b) && LexLess(b, c)
    ensures LexLess(a, c)
  {
    if |a| > 0 && a[0] == b[0] && b[0] == c[0] {
      LexTransitive(a[1..], b[1..], c[1..]);
    }
  }

  /** The empty string is the least string, so anything above another string is non-empty. */
  lemma LexAboveIsNonEmpty(a: string, b: string)
    requires LexLeq(a, b) && a != ""
    ensures b != ""
  {
  }
}
