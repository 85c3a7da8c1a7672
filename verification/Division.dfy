/** Facts about quotients and remainders that the other modules share. */
module Division {

  lemma StrictlyBetween(x: int, size: int)
    requires size > 0 && -size < x * size < size
    ensures x == 0
  {
  }

  lemma DivUnique(w: nat, size: nat, lap: nat)
    requires size > 0 && lap * size <= w < lap * size + size
    ensures w / size == lap
  {
    var q, m := w / size, w % size;
    assert w == q * size + m;
    assert (q - lap) * size == q * size - lap * size;
    StrictlyBetween(q - lap, size);
  }

  lemma Remainder(w: nat, size: nat, lap: nat)
    requires size > 0 && lap * size <= w < lap * size + size
    ensures w % size == w - lap * size
  {
    DivUnique(w, size, lap);
  }

  lemma ReplacedRemainder(x: nat, n: nat, c: nat)
    requires c < n
    ensures (x - x % n + c) % n == c && (x - x % n + n + c) % n == c
  {
    var q := x / n;
    assert x - x % n == q * n && (q + 1) * n == q * n + n;
    Remainder(q * n + c, n, q);
    Remainder(q * n + n + c, n, q + 1);
  }

  lemma NextRemainder(k: nat, n: nat)
    requires n > 0
    ensures (k % n + 1) % n == (k + 1) % n
  {
    var r := k % n;
    if r + 1 < n {
      Remainder(r + 1, n, 0);
      ReplacedRemainder(k, n, r + 1);
      assert k - r + (r + 1) == k + 1;
    } else {
      Remainder(n, n, 1);
      ReplacedRemainder(k, n, 0);
      assert k - r + n + 0 == k + 1;
    }
  }

  /** Two numbers less than n apart with the same remainder are equal. */
  lemma SameResidue(x: nat, y: nat, n: nat)
    requires n > 0 && x % n == y % n && x < y + n && y < x + n
    ensures x == y
  {
    var p, q := x / n, y / n;
    assert x == p * n + x % n && y == q * n + y % n;
    assert (p - q) * n == p * n - q * n;
    StrictlyBetween(p - q, n);
  }
}
