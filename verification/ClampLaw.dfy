/** Counting with a floor at zero, as the consumer and the Lua script do, over any list of deltas. */
module ClampLaw {
  import opened LikeRecords

  /** deltalike.MaxInt64(n+d, 0). */
  function GoClamp(n: int, d: int): int {
    Max(n + d, 0)
  }

  /** local next = current + delta; if next < 0 then next = 0 end. */
  function LuaClamp(n: int, d: int): int {
    var next := n + d;
    if next < 0 then 0 else next
  }

  function Fold(clamp: (int, int) -> int, n: int, deltas: seq<int>): int {
    if deltas == [] then n else clamp(Fold(clamp, n, deltas[..|deltas| - 1]), deltas[|deltas| - 1])
  }

  function Sum(deltas: seq<int>): int {
    if deltas == [] then 0 else Sum(deltas[..|deltas| - 1]) + deltas[|deltas| - 1]
  }

  /** The lowest value that plain, unclamped counting reaches on the way. */
  function Lowest(n: int, deltas: seq<int>): (low: int)
    ensures forall i :: 0 <= i <= |deltas| ==> low <= n + Sum(deltas[..i])
    ensures exists i :: 0 <= i <= |deltas| && low == n + Sum(deltas[..i])
  {
    if deltas == [] then
      assert n == n + Sum(deltas[..0]);
      n
    else
      var front := deltas[..|deltas| - 1];
      var low, last := Lowest(n, front), n + Sum(deltas);
      assert deltas[..|deltas|] == deltas;
      assert forall i :: 0 <= i <= |front| ==> deltas[..i] == front[..i];
      if last < low then last else low
  }

  lemma {:induction false} ClampsAgree(n: int, deltas: seq<int>)
    ensures Fold(GoClamp, n, deltas) == Fold(LuaClamp, n, deltas)
  {
    if deltas != [] {
      ClampsAgree(n, deltas[..|deltas| - 1]);
    }
  }

  /** The reflection law: the clamped count exceeds the plain one by how far that dips below zero. */
  lemma {:induction false} Reflection(n: int, deltas: seq<int>)
    requires n >= 0
    ensures Fold(GoClamp, n, deltas) == n + Sum(deltas) + Max(0, -Lowest(n, deltas))
  {
    if deltas != [] {
      Reflection(n, deltas[..|deltas| - 1]);
    }
  }

  /** Clamped counting never falls below plain counting, and equals it iff no prefix goes negative. */
  lemma ClampIsExactIff(n: int, deltas: seq<int>)
    requires n >= 0
    ensures Fold(LuaClamp, n, deltas) == Fold(GoClamp, n, deltas) >= n + Sum(deltas)
    ensures Fold(GoClamp, n, deltas) == n + Sum(deltas) <==> forall i :: 0 <= i <= |deltas| ==> n + Sum(deltas[..i]) >= 0
  {
    ClampsAgree(n, deltas);
    Reflection(n, deltas);
  }
}
