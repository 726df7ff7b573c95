/** Small integer helpers shared by the algorithms. */
module SeqUtil {

  /** Number of negative entries (vertices a search has not reached yet). */
  function CountNegative(s: seq<int>): nat
  {
    if s == [] then 0 else CountNegative(s[..|s| - 1]) + (if s[|s| - 1] < 0 then 1 else 0)
  }

  /** Marking one unreached entry as reached lowers the count by one. */
  lemma {:induction false} CountNegativeMark(s: seq<int>, i: int, x: int)
    requires 0 <= i < |s| && s[i] < 0 && x >= 0
    ensures CountNegative(s[i := x]) == CountNegative(s) - 1
  {
    var t := s[i := x];
    if i == |s| - 1 {
      assert t[..|t| - 1] == s[..|s| - 1];
    } else {
      assert t[..|t| - 1] == s[..|s| - 1][i := x];
      CountNegativeMark(s[..|s| - 1], i, x);
    }
  }

  function Min(a: int, b: int): int
  {
    if a < b then a else b
  }

  /** The largest entry of a non-empty sequence. */
  function MaxOf(s: seq<int>): (m: int)
    requires |s| > 0
    ensures forall i :: 0 <= i < |s| ==> s[i] <= m
    ensures exists i :: 0 <= i < |s| && s[i] == m
  {
    if |s| == 1 then s[0]
    else
      var m := MaxOf(s[..|s| - 1]);
      assert forall i :: 0 <= i < |s| - 1 ==> s[..|s| - 1][i] == s[i];
      if s[|s| - 1] > m then s[|s| - 1] else m
  }

  /** Sum of the entries. */
  function Total(s: seq<int>): int
  {
    if s == [] then 0 else Total(s[..|s| - 1]) + s[|s| - 1]
  }

  /** Replacing one entry changes the sum by the difference. */
  lemma {:induction false} TotalUpdate(s: seq<int>, i: int, x: int)
    requires 0 <= i < |s|
    ensures Total(s[i := x]) == Total(s) - s[i] + x
  {
    var t := s[i := x];
    if i < |s| - 1 {
      assert t[..|t| - 1] == s[..|s| - 1][i := x];
      TotalUpdate(s[..|s| - 1], i, x);
    } else {
      assert t[..|t| - 1] == s[..|s| - 1];
    }
  }

  lemma {:induction false} TotalNonNegative(s: seq<int>)
    requires forall i :: 0 <= i < |s| ==> s[i] >= 0
    ensures Total(s) >= 0
  {
    if s != [] {
      TotalNonNegative(s[..|s| - 1]);
    }
  }
}
