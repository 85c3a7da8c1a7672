/** cryptoSerialMessage.c, fletcher16WithLen: Fletcher's check sum of a message and its length, computed in
    16 bits with the remainders modulo 255 put off. */
module Fletcher {

  type byte = x: nat | x < 256

  /** Both sums over the message, without any limit, from the values a and b. */
  datatype Sums = Sums(a: nat, b: nat)

  function From(start: Sums, data: seq<byte>): Sums {
    if data == [] then start
    else
      var before := From(start, data[..|data| - 1]);
      var a := before.a + data[|data| - 1];
      Sums(a, before.b + a)
  }

  function Packed(s: Sums): nat {
    256 * (s.b % 255) + s.a % 255
  }

  /** The check sum as it is defined: the length goes first, then the data. */
  function Naive(data: seq<byte>): nat {
    Packed(From(Sums(|data|, |data|), data))
  }

  function Total(data: seq<byte>): nat {
    if data == [] then 0 else Total(data[..|data| - 1]) + data[|data| - 1]
  }

  /** The sum of the bytes, the last one counted once, the one before it twice, and so on. */
  function Weighted(data: seq<byte>): nat {
    if data == [] then 0 else |data| * data[0] + Weighted(data[1..])
  }

  lemma {:induction false} WeightedSnoc(data: seq<byte>, d: byte)
    ensures Weighted(data + [d]) == Weighted(data) + Total(data) + d
    decreases |data|
  {
    if data == [] {
      assert [] + [d] == [d] && [d][1..] == [];
    } else {
      assert (data + [d])[1..] == data[1..] + [d];
      WeightedSnoc(data[1..], d);
      TotalFirst(data);
      assert (|data| + 1) * data[0] == |data| * data[0] + data[0];
    }
  }

  lemma {:induction false} TotalFirst(data: seq<byte>)
    requires data != []
    ensures Total(data) == data[0] + Total(data[1..])
  {
    if |data| == 1 {
      assert data[..0] == [] && data[1..] == [];
    } else {
      var n := |data| - 1;
      TotalFirst(data[..n]);
      assert data[..n][1..] == data[1..][..n - 1];
    }
  }

  lemma {:induction false} SumsAre(data: seq<byte>, a: nat, b: nat)
    ensures From(Sums(a, b), data) == Sums(a + Total(data), b + |data| * a + Weighted(data))
  {
    if data != [] {
      var n := |data| - 1;
      SumsAre(data[..n], a, b);
      WeightedSnoc(data[..n], data[n]);
      assert data[..n] + [data[n]] == data;
      assert |data| * a == n * a + a;
      hide Weighted;
    }
  }

  /** The check sum in closed form: the low byte is the length and all bytes added up, the high byte the length
      counted once more than there are bytes, and each byte as often as bytes from it on. */
  lemma NaiveMeaning(data: seq<byte>)
    ensures Naive(data) % 256 == (|data| + Total(data)) % 255
    ensures Naive(data) / 256 == ((|data| + 1) * |data| + Weighted(data)) % 255
  {
    hide From, Total, Weighted, Packed;
    var n := |data|;
    SumsAre(data, n, n);
    assert (n + 1) * n == n + n * n;
    PackedBytes(From(Sums(n, n), data));
  }

  lemma PackedBytes(s: Sums)
    ensures Packed(s) % 256 == s.a % 255 && Packed(s) / 256 == s.b % 255
  {
    var hi, lo := s.b % 255, s.a % 255;
    assert Packed(s) == 256 * hi + lo;
  }

  // ---------- counting modulo 255 ----------

  predicate Congruent(x: int, y: int) {
    (x - y) % 255 == 0
  }

  predicate SameSums(s: Sums, t: Sums) {
    Congruent(s.a, t.a) && Congruent(s.b, t.b)
  }

  lemma CongruentIff(x: nat, y: nat)
    ensures Congruent(x, y) <==> x % 255 == y % 255
  {
  }

  lemma PackedIff(s: Sums, t: Sums)
    ensures Packed(s) == Packed(t) <==> SameSums(s, t)
  {
    CongruentIff(s.a, t.a);
    CongruentIff(s.b, t.b);
    hide Congruent;
  }

  function Fold(x: nat): nat {
    x % 256 + x / 256
  }

  lemma FoldIsCongruent(x: nat)
    ensures Congruent(Fold(x), x)
    ensures x < 65536 ==> Fold(x) <= 510
  {
    assert x - Fold(x) == 255 * (x / 256);
  }

  lemma Transitive(s: Sums, t: Sums, u: Sums)
    requires SameSums(s, t) && SameSums(t, u)
    ensures SameSums(s, u)
  {
  }

  lemma FoldSums(s: Sums)
    ensures SameSums(Sums(Fold(s.a), Fold(s.b)), s)
  {
    FoldIsCongruent(s.a);
    FoldIsCongruent(s.b);
    hide Fold, Congruent;
  }

  /** What a change of the start does to the sums. */
  lemma {:induction false} Shifted(s: Sums, t: Sums, data: seq<byte>)
    ensures From(s, data).a - From(t, data).a == s.a - t.a
    ensures From(s, data).b - From(t, data).b == s.b - t.b + |data| * (s.a - t.a)
  {
    if data != [] {
      var n := |data| - 1;
      Shifted(s, t, data[..n]);
      assert |data| * (s.a - t.a) == n * (s.a - t.a) + (s.a - t.a);
    }
  }

  lemma MultipleOf255(n: nat, d: int)
    requires d % 255 == 0
    ensures n * d % 255 == 0
  {
    var q := d / 255;
    assert d == 255 * q;
    assert n * d == 255 * (n * q);
  }

  lemma CongruentShift(x: int, y: int, u: int, v: int, m: int)
    requires x - y == u - v + m && m % 255 == 0
    ensures Congruent(x, y) <==> Congruent(u, v)
  {
    var d := u - v;
    assert (d + m) % 255 == d % 255;
  }

  /** The sums stay congruent exactly when they start so. */
  lemma StartFromSame(s: Sums, t: Sums, data: seq<byte>)
    ensures SameSums(From(s, data), From(t, data)) <==> SameSums(s, t)
  {
    var x, y := From(s, data), From(t, data);
    Shifted(s, t, data);
    CongruentShift(x.a, y.a, s.a, t.a, 0);
    if Congruent(s.a, t.a) {
      MultipleOf255(|data|, s.a - t.a);
      CongruentShift(x.b, y.b, s.b, t.b, |data| * (s.a - t.a));
    }
    hide From, Congruent;
  }

  lemma {:induction false} InTwo(start: Sums, x: seq<byte>, y: seq<byte>)
    ensures From(start, x + y) == From(From(start, x), y)
    decreases |y|
  {
    if y == [] {
      assert x + y == x;
    } else {
      var n := |y| - 1;
      assert (x + y)[..|x| + n] == x + y[..n];
      InTwo(start, x, y[..n]);
    }
  }

  // ---------- where the 16 bits are enough ----------

  function Start(bytes: nat): Sums {
    var sum1 := (255 + bytes) % 65536;
    Sums(sum1, (255 + sum1) % 65536)
  }

  /** Adding the length neither overflows the second sum nor, but for a multiple of 255 times, the first. */
  predicate LengthFits(bytes: nat) {
    (255 + bytes) / 65536 % 255 == 0 && (255 + bytes) % 65536 + 255 < 65536
  }

  lemma StartIff(bytes: nat)
    ensures Congruent(Start(bytes).a, bytes) <==> (255 + bytes) / 65536 % 255 == 0
    ensures LengthFits(bytes) <==> Congruent(Start(bytes).a, bytes) && Congruent(Start(bytes).b, bytes)
    ensures bytes <= 65025 ==> LengthFits(bytes)
  {
    var k1, sum1 := (255 + bytes) / 65536, (255 + bytes) % 65536;
    assert sum1 - bytes == 255 - 65536 * k1;
    assert sum1 - bytes == 255 * (1 - 257 * k1) - k1;
    MinusMultiple(1 - 257 * k1, k1);
    if sum1 + 255 < 65536 {
      MinusMultiple(2 - 257 * k1, k1);
      assert Start(bytes).b - bytes == 255 * (2 - 257 * k1) - k1;
    } else {
      assert Start(bytes).b - bytes == 255 * (2 - 257 * k1 - 257) - (k1 + 1);
      MinusMultiple(2 - 257 * k1 - 257, k1 + 1);
    }
  }

  lemma MinusMultiple(q: int, k: nat)
    ensures (255 * q - k) % 255 == 0 <==> k % 255 == 0
  {
  }

  /** The 16-bit start gives the check sum exactly for the lengths that fit, whatever the data. */
  lemma ChecksumIff(data: seq<byte>)
    ensures Packed(From(Start(|data|), data)) == Naive(data) <==> LengthFits(|data|)
  {
    hide Start, Packed, LengthFits, From, Congruent;
    var s, t := Start(|data|), Sums(|data|, |data|);
    PackedIff(From(s, data), From(t, data));
    StartIff(|data|);
    StartFromSame(s, t, data);
  }

  /** The lengths up to 65025 fit, and none of those that follow before 16711425. */
  lemma FitsUpTo65025(bytes: nat)
    requires bytes < 255 * 65536 - 255
    ensures LengthFits(bytes) <==> bytes <= 65025
    ensures LengthFits(255 * 65536 - 255)
  {
    var k1 := (255 + bytes) / 65536;
    assert k1 < 255;
    if k1 == 0 {
      assert (255 + bytes) % 65536 == 255 + bytes;
    }
  }

  /** A message of 65026 zeros gets another check sum. */
  lemma TooLongMessage()
    ensures var data := seq(65026, _ => 0 as byte);
            !LengthFits(65026) && Packed(From(Start(|data|), data)) != Naive(data)
  {
    FitsUpTo65025(65026);
    ChecksumIff(seq(65026, _ => 0 as byte));
    hide Start, Packed, From, Naive, LengthFits;
  }

  // ---------- the loops ----------

  function Triangle(k: nat): nat {
    if k == 0 then 0 else Triangle(k - 1) + k
  }

  lemma {:induction false} TriangleBound(k: nat)
    requires k <= 20
    ensures Triangle(k) <= 210
    decreases 20 - k
  {
    if k < 20 {
      TriangleBound(k + 1);
    } else {
      assert Triangle(5) == 15;
      assert Triangle(10) == 55;
      assert Triangle(15) == 120;
    }
  }

  /** The inner loop: from reduced sums, 20 bytes cannot overflow 16 bits. */
  method AddBlock(s: Sums, data: seq<byte>) returns (sum1: nat, sum2: nat)
    requires s.a <= 510 && s.b <= 510 && 1 <= |data| <= 20
    ensures Sums(sum1, sum2) == From(s, data) && sum1 < 65536 && sum2 < 65536
  {
    sum1, sum2 := s.a, s.b;
    var tlen := |data|;
    var k := 0;          // where data points
    while tlen > 0
      invariant tlen == |data| - k && 0 <= k <= |data|
      invariant Sums(sum1, sum2) == From(s, data[..k])
      invariant sum1 <= 510 + 255 * k && sum2 <= 510 + 510 * k + 255 * Triangle(k)
    {
      FromStep(s, data, k);
      TriangleBound(k + 1);
      assert Triangle(k + 1) == Triangle(k) + k + 1;
      hide From, Triangle;
      sum1 := (sum1 + data[k]) % 65536;
      sum2 := (sum2 + sum1) % 65536;
      tlen := tlen - 1;
      k := k + 1;
    }
    TriangleBound(k);
    assert data[..k] == data;
  }

  lemma FromStep(s: Sums, data: seq<byte>, k: nat)
    requires k < |data|
    ensures var before := From(s, data[..k]);
            From(s, data[..k + 1]) == Sums(before.a + data[k], before.b + before.a + data[k])
  {
    assert data[..k + 1][..k] == data[..k];
  }

  lemma FromNothing(s: Sums, data: seq<byte>)
    ensures From(s, data[..0]) == s
  {
  }

  lemma StartFolded(bytes: nat)
    ensures var s := Start(bytes);
            Fold(s.a) <= 510 && Fold(s.b) <= 510 && SameSums(Sums(Fold(s.a), Fold(s.b)), s)
  {
    var s := Start(bytes);
    FoldIsCongruent(s.a);
    FoldIsCongruent(s.b);
    FoldSums(s);
    hide Fold, SameSums;
  }

  /** fletcher16WithLen */
  method Fletcher16WithLen(data: seq<byte>) returns (r: nat)
    ensures r == Naive(data) <==> LengthFits(|data|)
    ensures |data| <= 65025 ==> r == Naive(data)
    ensures r < 65536 && r == Packed(From(Start(|data|), data))
  {
    hide *;
    var sum1, sum2 := Start(|data|).a, Start(|data|).b;
    ghost var start := Sums(sum1, sum2);
    StartFolded(|data|);
    ChecksumIff(data);
    StartIff(|data|);
    FromNothing(start, data);
    sum1, sum2 := Fold(sum1), Fold(sum2);
    var done := 0;
    while done < |data|
      invariant 0 <= done <= |data|
      invariant sum1 <= 510 && sum2 <= 510
      invariant SameSums(Sums(sum1, sum2), From(start, data[..done]))
    {
      var bytes := |data| - done;
      var tlen := if bytes > 20 then 20 else bytes;
      ghost var s := Sums(sum1, sum2);
      sum1, sum2 := AddBlock(Sums(sum1, sum2), data[done..done + tlen]);
      BlockAdded(start, data, done, tlen, s);
      FoldIsCongruent(sum1);
      FoldIsCongruent(sum2);
      FoldSums(Sums(sum1, sum2));
      Transitive(Sums(Fold(sum1), Fold(sum2)), Sums(sum1, sum2), From(start, data[..done + tlen]));
      sum1, sum2 := Fold(sum1), Fold(sum2);
      done := done + tlen;
    }
    assert data[..done] == data;
    FoldSums(Sums(sum1, sum2));
    Transitive(Sums(Fold(sum1), Fold(sum2)), Sums(sum1, sum2), From(start, data));
    sum1, sum2 := Fold(sum1), Fold(sum2);
    PackedIff(Sums(sum1, sum2), From(start, data));
    r := sum2 % 255 * 256 + sum1 % 255;
    PackedIs(sum1, sum2);
  }

  lemma PackedIs(sum1: nat, sum2: nat)
    ensures Packed(Sums(sum1, sum2)) == sum2 % 255 * 256 + sum1 % 255 < 65536
  {
  }

  lemma BlockAdded(start: Sums, data: seq<byte>, done: nat, tlen: nat, s: Sums)
    requires done + tlen <= |data| && SameSums(s, From(start, data[..done]))
    ensures SameSums(From(s, data[done..done + tlen]), From(start, data[..done + tlen]))
  {
    InTwo(start, data[..done], data[done..done + tlen]);
    assert data[..done] + data[done..done + tlen] == data[..done + tlen];
    StartFromSame(s, From(start, data[..done]), data[done..done + tlen]);
  }
}
