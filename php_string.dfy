/**
 * PHP string operations for the plugin: `str_replace` with one search string and the
 * decimal rendering of an integer in string concatenation, both of which the plugin
 * calls. The module also holds two reference definitions that are used only to state
 * properties of the row-actions block: `Implode`, a separator join, and `CountChar`,
 * the number of occurrences of one character.
 */
module PhpString {
  import opened Options

  /** Concatenation is associative. */
  lemma AppendAssoc(a: string, b: string, c: string)
    ensures a + b + c == a + (b + c)
  {
  }

  /** `p` occurs in `s` starting at index `i`. */
  predicate OccursAt(p: string, s: string, i: int)
  {
    0 <= i && i + |p| <= |s| && s[i..i + |p|] == p
  }

  /** A slice of a slice is a slice of the original string. */
  lemma SliceOfSlice(s: string, lo: nat, hi: nat, i: nat, j: nat)
    requires lo <= hi <= |s| && i <= j <= hi - lo
    ensures s[lo..hi][i..j] == s[lo + i..lo + j]
  {
    forall k | 0 <= k < j - i ensures s[lo..hi][i..j][k] == s[lo + i..lo + j][k] {
      assert s[lo..hi][i..j][k] == s[lo..hi][i + k] == s[lo + i + k];
    }
  }

  /** `p` occurs somewhere in `s`. */
  predicate Occurs(p: string, s: string)
  {
    exists i | 0 <= i <= |s| :: OccursAt(p, s, i)
  }

  /** The first match of `p` in `s`, as PHP's search for the next match finds it. */
  function Find(s: string, p: string): (r: Option<nat>)
    ensures r.Some? ==> r.value + |p| <= |s|
    decreases |s|
  {
    if |s| < |p| then None
    else if s[..|p|] == p then Some(0)
    else
      match Find(s[1..], p)
      case None => None
      case Some(i) => Some(i + 1)
  }

  /**
   * The search finds the leftmost occurrence of `p`, with none before it, and finds
   * nothing exactly when `p` does not occur.
   */
  lemma {:induction false} FindLeftmost(s: string, p: string)
    ensures Find(s, p).Some? ==>
      && OccursAt(p, s, Find(s, p).value)
      && forall j :: 0 <= j < Find(s, p).value ==> !OccursAt(p, s, j)
    ensures Find(s, p).None? <==> !Occurs(p, s)
    decreases |s|
  {
    if |s| >= |p| && s[..|p|] != p {
      assert !OccursAt(p, s, 0);
      FindLeftmost(s[1..], p);
      if Find(s[1..], p).None? {
        forall j | 1 <= j <= |s| ensures !OccursAt(p, s, j) {
          OccursAtTail(p, s, j);
        }
      } else {
        forall j | 1 <= j <= Find(s[1..], p).value + 1
          ensures OccursAt(p, s, j) == OccursAt(p, s[1..], j - 1)
        {
          OccursAtTail(p, s, j);
        }
      }
    }
  }

  /** An occurrence past the first character is an occurrence in the rest of the string. */
  lemma OccursAtTail(p: string, s: string, j: int)
    requires 1 <= j && |s| > 0
    ensures OccursAt(p, s, j) == OccursAt(p, s[1..], j - 1)
  {
    if j + |p| <= |s| {
      SliceOfSlice(s, 1, |s|, j - 1, j - 1 + |p|);
    }
  }

  /**
   * `str_replace(p, r, s)`: every occurrence of `p` in `s`, found left to right and
   * not overlapping, is replaced by `r`; an empty search string leaves `s` as it is.
   */
  function ReplaceAll(s: string, p: string, r: string): string
    decreases |s|
  {
    if |p| == 0 then s
    else
      match Find(s, p)
      case None => s
      case Some(i) => s[..i] + r + ReplaceAll(s[i + |p|..], p, r)
  }

  /** A subject without the search string, or an empty search string, is left as it is. */
  lemma ReplaceAllUnchanged(s: string, p: string, r: string)
    requires |p| == 0 || !Occurs(p, s)
    ensures ReplaceAll(s, p, r) == s
  {
    if |p| > 0 {
      FindLeftmost(s, p);
    }
  }

  /** The search finds `i` when `p` occurs at `i` and at no earlier position. */
  lemma FindFirst(s: string, p: string, i: nat)
    requires OccursAt(p, s, i) && forall j :: 0 <= j < i ==> !OccursAt(p, s, j)
    ensures Find(s, p) == Some(i)
  {
    FindLeftmost(s, p);
    assert Occurs(p, s);
    var k := Find(s, p).value;
    // Neither occurrence can come before the other.
    assert !(k < i) && !(i < k);
  }

  /** Unfolding `ReplaceAll` once at a match the search found. */
  lemma ReplaceAllUnfold(s: string, p: string, r: string, i: nat)
    requires |p| > 0 && Find(s, p) == Some(i) && i + |p| <= |s|
    ensures ReplaceAll(s, p, r)
      == s[..Find(s, p).value] + r + ReplaceAll(s[Find(s, p).value + |p|..], p, r)
  {
  }

  /**
   * One step of `str_replace`: when the first occurrence of `p` is at `i`, the result
   * is the text before it, the replacement, then the rest of the subject with its own
   * occurrences replaced.
   */
  lemma ReplaceAllStep(s: string, p: string, r: string, i: nat)
    requires |p| > 0 && OccursAt(p, s, i) && forall j :: 0 <= j < i ==> !OccursAt(p, s, j)
    ensures i + |p| <= |s|
    ensures ReplaceAll(s, p, r) == s[..i] + r + ReplaceAll(s[i + |p|..], p, r)
  {
    FindFirst(s, p, i);
    ReplaceAllUnfold(s, p, r, i);
    var v := Find(s, p).value;
    assert v == i;
    assert ReplaceAll(s[v + |p|..], p, r) == ReplaceAll(s[i + |p|..], p, r);
  }

  /** The text before the first match holds no match. */
  lemma NoMatchBefore(s: string, p: string, i: nat)
    requires |p| > 0 && i <= |s| && forall j :: 0 <= j < i ==> !OccursAt(p, s, j)
    ensures !Occurs(p, s[..i])
  {
    forall j | 0 <= j <= i ensures !OccursAt(p, s[..i], j) {
      if j + |p| <= i {
        SliceOfSlice(s, 0, i, j, j + |p|);
        assert !OccursAt(p, s, j);
      }
    }
  }

  /**
   * No occurrence of `q` can overlap a copy of `r`, whatever surrounds it: the first
   * character of `r` appears nowhere else in `q`, the first character of `q` appears
   * nowhere else in `r`, and neither is a prefix of the other.
   */
  predicate Isolated(q: string, r: string)
  {
    && |q| > 0 && |r| > 0
    && (forall k | 1 <= k < |q| :: q[k] != r[0])
    && (forall k | 1 <= k < |r| :: r[k] != q[0])
    && !(q <= r) && !(r <= q)
  }

  /** Gluing text without `q` on both sides of an isolated `r` creates no `q`. */
  lemma IsolatedJoin(q: string, x: string, r: string, y: string)
    requires !Occurs(q, x) && !Occurs(q, y) && Isolated(q, r)
    ensures !Occurs(q, x + r + y)
  {
    forall i | 0 <= i <= |x + r + y| ensures !OccursAt(q, x + r + y, i) {
      if i + |q| <= |x + r + y| {
        IsolatedJoinAt(q, x, r, y, i);
      }
    }
  }

  /** The case analysis of IsolatedJoin for one starting position. */
  lemma IsolatedJoinAt(q: string, x: string, r: string, y: string, i: nat)
    requires !Occurs(q, x) && !Occurs(q, y) && Isolated(q, r)
    requires i + |q| <= |x + r + y|
    ensures !OccursAt(q, x + r + y, i)
  {
    var t := x + r + y;
    var w := t[i..i + |q|];
    if i + |q| <= |x| {
      // Inside x.
      assert w == x[i..i + |q|];
      assert !OccursAt(q, x, i);
    } else if i >= |x| + |r| {
      // Inside y.
      var m := i - |x| - |r|;
      assert w == y[m..m + |q|];
      assert !OccursAt(q, y, m);
    } else if i < |x| {
      // Starts in x and runs into r: r's first character meets a later character of q.
      var k := |x| - i;
      assert w[k] == t[|x|] == r[0];
      assert q[k] != r[0];
    } else if i == |x| {
      // Starts where r starts: one would be a prefix of the other.
      forall k | 0 <= k < |q| && k < |r| ensures w[k] == r[k] {
        assert w[k] == t[i + k];
      }
      if |q| <= |r| {
        assert w == r[..|q|];
        assert !(q <= r);
      } else {
        assert w[..|r|] == r;
        assert !(r <= q);
      }
    } else {
      // Starts inside r: q's first character meets a later character of r.
      var k := i - |x|;
      assert w[0] == t[i] == r[k];
      assert r[k] != q[0];
    }
  }

  /** A slice of a string without `q` has no `q` either. */
  lemma SliceKeepsAbsent(q: string, s: string, lo: nat, hi: nat)
    requires lo <= hi <= |s| && !Occurs(q, s)
    ensures !Occurs(q, s[lo..hi])
  {
    forall i | 0 <= i && i + |q| <= hi - lo ensures !OccursAt(q, s[lo..hi], i) {
      SliceOfSlice(s, lo, hi, i, i + |q|);
      assert !OccursAt(q, s, lo + i);
    }
  }

  /** Cutting a string without `q` around a piece of it leaves two parts without `q`. */
  lemma CutKeepsAbsent(q: string, s: string, i: nat, j: nat)
    requires i <= j <= |s| && !Occurs(q, s)
    ensures !Occurs(q, s[..i]) && !Occurs(q, s[j..])
  {
    SliceKeepsAbsent(q, s, 0, i);
    SliceKeepsAbsent(q, s, j, |s|);
    assert s[0..i] == s[..i] && s[j..|s|] == s[j..];
  }

  /** Replacing every `p` by an isolated `r` leaves no `p` behind. */
  lemma {:induction false} ReplaceAllRemoves(s: string, p: string, r: string)
    requires Isolated(p, r)
    ensures !Occurs(p, ReplaceAll(s, p, r))
    decreases |s|
  {
    FindLeftmost(s, p);
    if Find(s, p).Some? {
      var i := Find(s, p).value;
      ReplaceAllRemoves(s[i + |p|..], p, r);
      JoinAtFirstMatch(p, s, p, r, i);
    } else {
      ReplaceAllUnchanged(s, p, r);
    }
  }

  /** Replacing `p` by `r` never creates an occurrence of a `q` that `r` is isolated from. */
  lemma {:induction false} ReplaceAllKeepsAbsent(q: string, s: string, p: string, r: string)
    requires !Occurs(q, s) && Isolated(q, r)
    ensures !Occurs(q, ReplaceAll(s, p, r))
    decreases |s|
  {
    FindLeftmost(s, p);
    if |p| > 0 && Find(s, p).Some? {
      var i := Find(s, p).value;
      CutKeepsAbsent(q, s, i, i + |p|);
      ReplaceAllKeepsAbsent(q, s[i + |p|..], p, r);
      JoinAtFirstMatch(q, s, p, r, i);
    } else {
      ReplaceAllUnchanged(s, p, r);
    }
  }

  /**
   * The inductive step of the two lemmas above: when the first match of `p` is at `i`,
   * the text before it and the replaced rest hold no `q`, the replaced whole holds none.
   */
  lemma JoinAtFirstMatch(q: string, s: string, p: string, r: string, i: nat)
    requires |p| > 0 && OccursAt(p, s, i) && forall j :: 0 <= j < i ==> !OccursAt(p, s, j)
    requires Isolated(q, r)
    requires !Occurs(q, s[..i]) || (q == p)
    requires !Occurs(q, ReplaceAll(s[i + |p|..], p, r))
    ensures !Occurs(q, ReplaceAll(s, p, r))
  {
    ReplaceAllStep(s, p, r, i);
    if q == p {
      NoMatchBefore(s, p, i);
    }
    IsolatedJoin(q, s[..i], r, ReplaceAll(s[i + |p|..], p, r));
  }

  /**
   * Two `str_replace` calls in a row, each with a replacement isolated from its search
   * string and the second replacement isolated from the first search string: neither
   * search string is left afterwards.
   */
  lemma ReplaceTwiceRemovesBoth(s: string, p1: string, r1: string, p2: string, r2: string)
    requires Isolated(p1, r1) && Isolated(p2, r2) && Isolated(p1, r2)
    ensures var t := ReplaceAll(ReplaceAll(s, p1, r1), p2, r2);
      !Occurs(p1, t) && !Occurs(p2, t)
  {
    var u := ReplaceAll(s, p1, r1);
    ReplaceAllRemoves(s, p1, r1);
    ReplaceAllRemoves(u, p2, r2);
    ReplaceAllKeepsAbsent(p1, u, p2, r2);
  }

  /** Two `str_replace` calls leave a subject holding neither search string unchanged. */
  lemma ReplaceTwiceUnchanged(s: string, p1: string, r1: string, p2: string, r2: string)
    requires !Occurs(p1, s) && !Occurs(p2, s)
    ensures ReplaceAll(ReplaceAll(s, p1, r1), p2, r2) == s
  {
    ReplaceAllUnchanged(s, p1, r1);
    ReplaceAllUnchanged(s, p2, r2);
  }

  predicate IsDigit(c: char)
  {
    '0' <= c <= '9'
  }

  /** The character of a decimal digit. */
  function DigitChar(d: nat): (c: char)
    requires d < 10
    ensures IsDigit(c) && c as int - '0' as int == d
  {
    ('0' as int + d) as char
  }

  /**
   * The string PHP makes of a non-negative integer in a concatenation: its decimal
   * digits, at least one, with no leading zero.
   */
  function Decimal(n: nat): (s: string)
    ensures |s| > 0 && forall i :: 0 <= i < |s| ==> IsDigit(s[i])
    ensures |s| > 1 ==> s[0] != '0'
    decreases n
  {
    if n < 10 then [DigitChar(n)] else Decimal(n / 10) + [DigitChar(n % 10)]
  }

  /** The value of a decimal digit. */
  function DigitValue(c: char): nat
    requires IsDigit(c)
  {
    c as int - '0' as int
  }

  /** The number a string of decimal digits denotes. */
  function DigitsValue(s: string): nat
    requires forall i :: 0 <= i < |s| ==> IsDigit(s[i])
  {
    if s == [] then 0 else DigitsValue(s[..|s| - 1]) * 10 + DigitValue(s[|s| - 1])
  }

  /** Reading back the decimal rendering gives the number again. */
  lemma {:induction false} DecimalRoundTrip(n: nat)
    ensures DigitsValue(Decimal(n)) == n
    decreases n
  {
    if n >= 10 {
      var s := Decimal(n);
      assert s[..|s| - 1] == Decimal(n / 10);
      DecimalRoundTrip(n / 10);
    }
  }

  /** Distinct numbers render as distinct strings. */
  lemma DecimalInjective(m: nat, n: nat)
    requires Decimal(m) == Decimal(n)
    ensures m == n
  {
    DecimalRoundTrip(m);
    DecimalRoundTrip(n);
  }

  /** `implode(glue, pieces)`: the pieces in order with `glue` between neighbours. */
  function Implode(glue: string, pieces: seq<string>): string
  {
    if |pieces| == 0 then ""
    else if |pieces| == 1 then pieces[0]
    else Implode(glue, pieces[..|pieces| - 1]) + glue + pieces[|pieces| - 1]
  }

  /** The number of occurrences of character `c` in `s`. */
  function CountChar(s: string, c: char): nat
  {
    if s == [] then 0 else CountChar(s[..|s| - 1], c) + (if s[|s| - 1] == c then 1 else 0)
  }

  /** Counting a character distributes over concatenation. */
  lemma {:induction false} CountCharConcat(a: string, b: string, c: char)
    ensures CountChar(a + b, c) == CountChar(a, c) + CountChar(b, c)
    decreases |b|
  {
    if b != [] {
      assert (a + b)[..|a + b| - 1] == a + b[..|b| - 1];
      CountCharConcat(a, b[..|b| - 1], c);
    } else {
      assert a + b == a;
    }
  }

  /** A string without `c` counts no `c`. */
  lemma {:induction false} CountCharAbsent(s: string, c: char)
    requires c !in s
    ensures CountChar(s, c) == 0
    decreases |s|
  {
    if s != [] {
      CountCharAbsent(s[..|s| - 1], c);
    }
  }
}
