/**
 * Row orders of the serpentine strip wiring. Each physical strip runs up one
 * column of the pixel grid and back down it, so the rows of a column are
 * visited as a run stepping by +2 followed by a run stepping by -2. Both the
 * daemon and the Java debug tool build their orders from these two runs.
 */
module Serpentine {

  /** Rows `from, from + 2, ...` strictly below `bound`: `for (iy = from; iy < bound; iy += 2)`. */
  function UpRows(from: int, bound: int): (rows: seq<int>)
    decreases bound - from
  {
    if from < bound then [from] + UpRows(from + 2, bound) else []
  }

  /** Rows `from, from - 2, ...` down to 0: `for (iy = from; iy >= 0; iy -= 2)`. */
  function DownRows(from: int): (rows: seq<int>)
    decreases from
  {
    if from >= 0 then [from] + DownRows(from - 2) else []
  }

  lemma {:induction false} UpRowsShape(from: int, bound: int)
    requires from <= bound
    ensures |UpRows(from, bound)| == (bound - from + 1) / 2
    ensures forall j :: 0 <= j < |UpRows(from, bound)| ==> UpRows(from, bound)[j] == from + 2 * j
    decreases bound - from
  {
    if from < bound {
      if from + 2 <= bound {
        UpRowsShape(from + 2, bound);
      } else {
        assert UpRows(from + 2, bound) == [];
      }
    }
  }

  lemma {:induction false} DownRowsShape(from: int)
    ensures from >= 0 ==> |DownRows(from)| == from / 2 + 1
    ensures from < 0 ==> DownRows(from) == []
    ensures forall j :: 0 <= j < |DownRows(from)| ==> DownRows(from)[j] == from - 2 * j
    decreases from
  {
    if from >= 0 {
      DownRowsShape(from - 2);
    }
  }

  lemma {:induction false} UpRowsBounds(from: int, bound: int)
    ensures forall j :: 0 <= j < |UpRows(from, bound)| ==> from <= UpRows(from, bound)[j] < bound
    decreases bound - from
  {
    if from < bound {
      UpRowsBounds(from + 2, bound);
    }
  }

  lemma {:induction false} DownRowsBounds(from: int)
    ensures forall j :: 0 <= j < |DownRows(from)| ==> 0 <= DownRows(from)[j] <= from
    decreases from
  {
    if from >= 0 {
      DownRowsBounds(from - 2);
    }
  }

  /** The daemon's strip order for a strip of `n` pixels: even rows upward, then rows from `n - 2` downward. */
  function StripRows(n: int): seq<int>
  {
    UpRows(0, n) + DownRows(n - 2)
  }

  /**
   * Where the `k`-th pixel of an odd-length strip sits: rows `0, 2, ..., n - 1`
   * for the first `(n + 1) / 2` pixels, then `n - 2, n - 4, ..., 1`.
   */
  function SerpentineRow(n: int, k: int): int
  {
    if k < (n + 1) / 2 then 2 * k else (n - 2) - 2 * (k - (n + 1) / 2)
  }

  /** The position at which row `r` of an odd-length strip is visited; the inverse of `SerpentineRow`. */
  function SerpentinePosition(n: int, r: int): int
  {
    if r % 2 == 0 then r / 2 else (n + 1) / 2 + (n - 2 - r) / 2
  }

  /** For an odd strip length the two runs visit `n` pixels, in the order `SerpentineRow` gives. */
  lemma StripRowsOdd(n: int)
    requires n > 0 && n % 2 == 1
    ensures |StripRows(n)| == n
    ensures forall k :: 0 <= k < n ==> StripRows(n)[k] == SerpentineRow(n, k)
  {
    UpRowsShape(0, n);
    DownRowsShape(n - 2);
  }

  /** For an odd strip length every row `0 <= r < n` is visited exactly once: `SerpentineRow` is a bijection on `[0, n)`. */
  lemma SerpentineBijective(n: int)
    requires n > 0 && n % 2 == 1
    ensures forall k :: 0 <= k < n ==> 0 <= SerpentineRow(n, k) < n && SerpentinePosition(n, SerpentineRow(n, k)) == k
    ensures forall r :: 0 <= r < n ==> 0 <= SerpentinePosition(n, r) < n && SerpentineRow(n, SerpentinePosition(n, r)) == r
  {
    var m := n / 2;
    assert n == 2 * m + 1 && (n + 1) / 2 == m + 1;
    forall k | 0 <= k < n
      ensures 0 <= SerpentineRow(n, k) < n && SerpentinePosition(n, SerpentineRow(n, k)) == k
    {
      var r := SerpentineRow(n, k);
      if k >= m + 1 {
        assert r == 2 * (2 * m - k) + 1 && r % 2 == 1;
        assert n - 2 - r == 2 * (k - m - 1);
      } else {
        assert r == 2 * k && r % 2 == 0;
      }
    }
    forall r | 0 <= r < n
      ensures 0 <= SerpentinePosition(n, r) < n && SerpentineRow(n, SerpentinePosition(n, r)) == r
    {
      var q := r / 2;
      if r % 2 == 1 {
        assert r == 2 * q + 1 && n - 2 - r == 2 * (m - 1 - q);
        assert SerpentinePosition(n, r) == 2 * m - q && q < m;
      } else {
        assert r == 2 * q && SerpentinePosition(n, r) == q && q < m + 1;
      }
    }
  }

  /** A run that starts on an even row only visits even rows, in either direction. */
  lemma {:induction false} UpRowsKeepParity(from: int, bound: int)
    requires from % 2 == 0
    ensures forall r :: r in UpRows(from, bound) ==> r % 2 == 0
    decreases bound - from
  {
    if from < bound {
      UpRowsKeepParity(from + 2, bound);
    }
  }

  lemma {:induction false} DownRowsKeepParity(from: int)
    requires from % 2 == 0
    ensures forall r :: r in DownRows(from) ==> r % 2 == 0
    decreases from
  {
    if from >= 0 {
      DownRowsKeepParity(from - 2);
    }
  }

  /**
   * Why the strip length must be odd: for an even length the downward run
   * starts on an even row too, so every visited row is even and row 1 is never lit.
   */
  lemma StripRowsEvenSkipsOddRows(n: int)
    requires n >= 2 && n % 2 == 0
    ensures forall r :: r in StripRows(n) ==> r % 2 == 0
    ensures 1 !in StripRows(n)
  {
    UpRowsKeepParity(0, n);
    DownRowsKeepParity(n - 2);
  }
}
