/** Python's `find`, `count` and `rstrip` on strings and byte strings, unique splitting, and digits. */
module TextSearch {
  predicate IsDigit(c: char) {
    '0' <= c <= '9'
  }

  /** Length of the longest run of digits at the start. */
  function DigitRun(s: string): (k: nat)
    ensures k <= |s| && forall i :: 0 <= i < k ==> IsDigit(s[i])
    ensures k < |s| ==> !IsDigit(s[k])
  {
    if s != "" && IsDigit(s[0]) then 1 + DigitRun(s[1..]) else 0
  }

  /** `n` lower-case hexadecimal digits. */
  predicate Hex(s: string, n: nat) {
    |s| == n && forall i :: 0 <= i < |s| ==> IsDigit(s[i]) || 'a' <= s[i] <= 'f'
  }

  predicate OccursAt<T(==)>(s: seq<T>, pattern: seq<T>, k: int) {
    0 <= k && k + |pattern| <= |s| && s[k..k + |pattern|] == pattern
  }

  lemma OccursInTail<T>(s: seq<T>, pattern: seq<T>, k: int)
    requires 1 <= k && s != []
    ensures OccursAt(s, pattern, k) <==> OccursAt(s[1..], pattern, k - 1)
  {
    if k + |pattern| <= |s| {
      var here, there := s[k..k + |pattern|], s[1..][k - 1..k - 1 + |pattern|];
      assert forall i :: 0 <= i < |pattern| ==> here[i] == s[k + i] && there[i] == s[k + i];
      assert here == there;
    }
  }

  /** The first occurrence, or -1. */
  function Find<T(==)>(s: seq<T>, pattern: seq<T>): (k: int)
    ensures k == -1 || OccursAt(s, pattern, k)
    ensures forall i :: 0 <= i && (k == -1 || i < k) ==> !OccursAt(s, pattern, i)
  {
    if |s| < |pattern| then -1
    else if s[..|pattern|] == pattern then
      assert OccursAt(s, pattern, 0);
      0
    else if s == [] then -1
    else
      var rest := Find(s[1..], pattern);
      assert forall i :: 1 <= i ==> (OccursAt(s, pattern, i) <==> OccursAt(s[1..], pattern, i - 1)) by {
        forall i | 1 <= i ensures OccursAt(s, pattern, i) <==> OccursAt(s[1..], pattern, i - 1) {
          OccursInTail(s, pattern, i);
        }
      }
      assert !OccursAt(s, pattern, 0);
      if rest == -1 then -1 else rest + 1
  }

  /** Non-overlapping occurrences, counted from the left. */
  function Count<T(==)>(s: seq<T>, pattern: seq<T>): nat
    requires pattern != []
  {
    if |s| < |pattern| then 0
    else if s[..|pattern|] == pattern then 1 + Count(s[|pattern|..], pattern)
    else Count(s[1..], pattern)
  }

  lemma {:induction false} CountZero<T>(s: seq<T>, pattern: seq<T>)
    requires pattern != []
    ensures Count(s, pattern) == 0 <==> forall k :: !OccursAt(s, pattern, k)
  {
    if |s| >= |pattern| {
      if s[..|pattern|] == pattern {
        assert OccursAt(s, pattern, 0);
      } else {
        CountZero(s[1..], pattern);
        forall k | 1 <= k ensures OccursAt(s, pattern, k) <==> OccursAt(s[1..], pattern, k - 1) {
          OccursInTail(s, pattern, k);
        }
        if !(forall k :: !OccursAt(s[1..], pattern, k)) {
          var k :| OccursAt(s[1..], pattern, k);
          assert OccursAt(s, pattern, k + 1);
        }
      }
    }
  }

  /** Equal stretches contain the same occurrences. */
  lemma SameStretch<T>(s: seq<T>, t: seq<T>, pattern: seq<T>, k: int)
    requires OccursAt(s, pattern, k) && k + |pattern| <= |t|
    requires forall i :: k <= i < k + |pattern| ==> s[i] == t[i]
    ensures OccursAt(t, pattern, k)
  {
    assert t[k..k + |pattern|] == s[k..k + |pattern|];
  }

  /** Characters removed by Python's `str.rstrip()`. */
  predicate IsSpace(c: char) {
    || '\t' <= c <= '\r' || '\U{1c}' <= c <= ' ' || c == '\U{85}' || c == '\U{a0}' || c == '\U{1680}'
    || '\U{2000}' <= c <= '\U{200a}' || c == '\U{2028}' || c == '\U{2029}' || c == '\U{202f}'
    || c == '\U{205f}' || c == '\U{3000}'
  }

  function Rstrip(s: string): (r: string)
    ensures r <= s && (r != "" ==> !IsSpace(r[|r| - 1]))
    ensures forall i :: |r| <= i < |s| ==> IsSpace(s[i])
  {
    if s == "" || !IsSpace(s[|s| - 1]) then s else Rstrip(s[..|s| - 1])
  }

  /** `s.split(mark)` for a single character. */
  function Split(s: string, mark: char): (parts: seq<string>)
    ensures |parts| > 0 && forall p :: p in parts ==> mark !in p
  {
    if s == "" then [""]
    else
      var rest := Split(s[1..], mark);
      if s[0] == mark then [""] + rest else [[s[0]] + rest[0]] + rest[1..]
  }

  lemma {:induction false} SplitPlain(s: string, mark: char)
    requires mark !in s
    ensures Split(s, mark) == [s]
  {
    if s != "" {
      SplitPlain(s[1..], mark);
      assert s == [s[0]] + s[1..];
    }
  }

  lemma {:induction false} SplitFirst(p: string, rest: string, mark: char)
    requires mark !in p
    ensures Split(p + ([mark] + rest), mark) == [p] + Split(rest, mark)
  {
    var s := p + ([mark] + rest);
    if p == "" {
      assert s[1..] == rest && s[0] == mark;
    } else {
      SplitFirst(p[1..], rest, mark);
      assert s[1..] == p[1..] + ([mark] + rest) && s[0] == p[0];
      assert p == [p[0]] + p[1..];
    }
  }

  /** A separator that occurs in neither head makes the split unique. */
  lemma SplitAt<T>(a: seq<T>, b: seq<T>, x: seq<T>, y: seq<T>, mark: T)
    requires mark !in a && mark !in b && a + [mark] + x == b + [mark] + y
    ensures a == b && x == y
  {
    var s := a + [mark] + x;
    assert s[|a|] == mark && s[|b|] == mark;
    assert forall i :: 0 <= i < |a| ==> s[i] == a[i];
    assert forall i :: 0 <= i < |b| ==> s[i] == b[i];
    assert |a| == |b|;
    assert a == s[..|a|] && b == s[..|b|];
    assert x == s[|a| + 1..] && y == s[|b| + 1..];
  }
}
