/** Square distance matrices as nested sequences, the shape both Python
    receivers use (a numpy array in scanner.py, a list of lists in
    bleak_scanner.py). */
module Grid {

  /** `m` has `n` rows of `n` cells each. */
  ghost predicate IsSquare<T>(m: seq<seq<T>>, n: nat) {
    |m| == n && forall i :: 0 <= i < n ==> |m[i]| == n
  }

  ghost predicate Symmetric(m: seq<seq<real>>, n: nat)
    requires IsSquare(m, n)
  {
    forall i, j :: 0 <= i < n && 0 <= j < n ==> m[i][j] == m[j][i]
  }

  /** `m[i][j] = x`. */
  function SetCell<T>(m: seq<seq<T>>, n: nat, i: nat, j: nat, x: T): (r: seq<seq<T>>)
    requires IsSquare(m, n) && i < n && j < n
    ensures IsSquare(r, n)
    ensures r[i][j] == x
    ensures forall a, b :: 0 <= a < n && 0 <= b < n && (a != i || b != j) ==> r[a][b] == m[a][b]
  {
    m[i := m[i][j := x]]
  }

  /** `m[i][j] = x` followed by `m[j][i] = x`: the two cells of one
      unordered pair get the same value and nothing else changes, so a
      symmetric matrix stays symmetric. */
  function SetPair(m: seq<seq<real>>, n: nat, i: nat, j: nat, x: real): (r: seq<seq<real>>)
    requires IsSquare(m, n) && i < n && j < n
    ensures IsSquare(r, n)
    ensures r[i][j] == x && r[j][i] == x
    ensures forall a, b :: 0 <= a < n && 0 <= b < n && !(a == i && b == j) && !(a == j && b == i) ==> r[a][b] == m[a][b]
    ensures Symmetric(m, n) ==> Symmetric(r, n)
  {
    SetCell(SetCell(m, n, i, j, x), n, j, i, x)
  }
}
