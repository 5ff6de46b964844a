/**
 Text helpers shared by the repository and the services: ASCII case folding,
 substring containment and the ordinal (code point) ordering used to sort
 by name.
 */
module Text {

  /** ASCII lower-casing of one character; every other character is kept. */
  function LowerChar(c: char): (r: char)
    ensures 'A' <= c <= 'Z' ==> r as int == c as int + 32
    ensures !('A' <= c <= 'Z') ==> r == c
  {
    if 'A' <= c <= 'Z' then (c as int + 32) as char else c
  }

  /** `ToLower` restricted to ASCII: fold every character independently. */
  function Lower(s: string): (r: string)
    ensures |r| == |s|
    ensures forall i :: 0 <= i < |s| ==> r[i] == LowerChar(s[i])
  {
    seq(|s|, i requires 0 <= i < |s| => LowerChar(s[i]))
  }

  /** Folding twice is folding once. */
  lemma LowerIdempotent(s: string)
    ensures Lower(Lower(s)) == Lower(s)
  {
    assert forall i :: 0 <= i < |s| ==> LowerChar(LowerChar(s[i])) == LowerChar(s[i]);
  }

  /** Case-insensitive equality, as `a.ToLower() == b.ToLower()`. */
  predicate EqualsIgnoreCase(a: string, b: string)
  {
    Lower(a) == Lower(b)
  }

  /** `p` occurs in `t` at offset `i`. */
  ghost predicate OccursAt(t: string, p: string, i: int)
  {
    0 <= i && i + |p| <= |t| && t[i..i + |p|] == p
  }

  /** `t` starts with `p`. */
  predicate StartsWith(t: string, p: string)
  {
    |p| <= |t| && t[..|p|] == p
  }

  /** Substring containment by scanning `t` from the left, as `string.Contains`. */
  predicate Contains(t: string, p: string)
    decreases |t|
  {
    if StartsWith(t, p) then true
    else if |t| == 0 then false
    else Contains(t[1..], p)
  }

  /** The scan finds `p` exactly when `p` occurs somewhere in `t`. */
  lemma {:induction false} ContainsIffOccurs(t: string, p: string)
    ensures Contains(t, p) <==> exists i :: OccursAt(t, p, i)
    decreases |t|
  {
    if StartsWith(t, p) {
      assert OccursAt(t, p, 0);
    } else if |t| == 0 {
    } else {
      ContainsIffOccurs(t[1..], p);
      if exists i :: OccursAt(t[1..], p, i) {
        var i :| OccursAt(t[1..], p, i);
        assert t[i + 1..i + 1 + |p|] == t[1..][i..i + |p|];
        assert OccursAt(t, p, i + 1);
      }
      if exists i :: OccursAt(t, p, i) {
        var i :| OccursAt(t, p, i);
        assert t[1..][i - 1..i - 1 + |p|] == t[i..i + |p|];
        assert OccursAt(t[1..], p, i - 1);
      }
    }
  }

  /** Case-insensitive containment, as `ToLower().Contains(ToLower())` and
      `Contains(…, StringComparison.OrdinalIgnoreCase)` on ASCII text. */
  predicate ContainsIgnoreCase(t: string, p: string)
  {
    Contains(Lower(t), Lower(p))
  }

  /** Changing the case of either side does not change the answer. */
  lemma ContainsIgnoreCaseIsCaseBlind(t: string, p: string)
    ensures ContainsIgnoreCase(Lower(t), p) == ContainsIgnoreCase(t, p)
    ensures ContainsIgnoreCase(t, Lower(p)) == ContainsIgnoreCase(t, p)
  {
    LowerIdempotent(t);
    LowerIdempotent(p);
  }

  /** Code points of a string, the key for ordinal ordering. */
  function Codes(s: string): (r: seq<int>)
    ensures |r| == |s|
    ensures forall i :: 0 <= i < |s| ==> r[i] == s[i] as int
  {
    seq(|s|, i requires 0 <= i < |s| => s[i] as int)
  }

  /** Lexicographic order on integer sequences; a proper prefix comes first. */
  predicate LexLe(a: seq<int>, b: seq<int>)
    decreases |a|
  {
    if |a| == 0 then true
    else if |b| == 0 then false
    else if a[0] != b[0] then a[0] < b[0]
    else LexLe(a[1..], b[1..])
  }

  lemma {:induction false} LexLeTotal(a: seq<int>, b: seq<int>)
    ensures LexLe(a, b) || LexLe(b, a)
    decreases |a|
  {
    if |a| > 0 && |b| > 0 && a[0] == b[0] {
      LexLeTotal(a[1..], b[1..]);
    }
  }

  lemma {:induction false} LexLeTransitive(a: seq<int>, b: seq<int>, c: seq<int>)
    requires LexLe(a, b) && LexLe(b, c)
    ensures LexLe(a, c)
    decreases |a|
  {
    if |a| > 0 && |b| > 0 && |c| > 0 && a[0] == b[0] && b[0] == c[0] {
      LexLeTransitive(a[1..], b[1..], c[1..]);
    }
  }

  /** Comparing two keys with a common first element is comparing the rest. */
  lemma LexLeCommonHead(x: int, a: seq<int>, b: seq<int>)
    ensures LexLe([x] + a, [x] + b) == LexLe(a, b)
  {
    assert ([x] + a)[1..] == a;
    assert ([x] + b)[1..] == b;
  }
}
