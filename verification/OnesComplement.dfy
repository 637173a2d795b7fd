/** One's complement arithmetic on 16-bit words (RFC 1071, sections 1 and 2),
    described through plain integers: a word sum stands for its residue modulo
    0xFFFF, and zero has the two representatives 0 and 0xFFFF. */
module OnesComplement {
  import opened Bytes

  /** Plain integer sum of the words. */
  function Total(ws: seq<uint16>): nat {
    if ws == [] then 0 else Total(ws[..|ws| - 1]) + ws[|ws| - 1]
  }

  /** The one's complement sum of words whose plain sum is `n`. */
  function Ones(n: nat): uint16 {
    if n == 0 then 0 else (n - 1) % 0xFFFF + 1
  }

  /** One's complement addition: a carry out of bit 15 comes back at bit 0. */
  function EndAround(a: uint16, b: uint16): uint16 {
    if a + b > 0xFFFF then a + b - 0xFFFF else a + b
  }

  /** The words a host reads from consecutive byte pairs. */
  function Words(host: Host, bs: seq<byte>): (ws: seq<uint16>)
    ensures |ws| == |bs| / 2
  {
    seq(|bs| / 2, i requires 0 <= i < |bs| / 2 => Load16(host, bs, 2 * i))
  }

  function Swapped(ws: seq<uint16>): (r: seq<uint16>)
    ensures |r| == |ws|
  {
    seq(|ws|, i requires 0 <= i < |ws| => Swap16(ws[i]))
  }

  function Sum(host: Host, bs: seq<byte>): uint16 {
    Ones(Total(Words(host, bs)))
  }

  // ---- representatives ----

  lemma OnesCongruent(n: nat)
    ensures Ones(n) % 0xFFFF == n % 0xFFFF
    ensures Ones(n) == 0 <==> n == 0
    ensures exists q: nat :: n == Ones(n) + 0xFFFF * q
  {
    if n > 0 {
      var q := (n - 1) / 0xFFFF;
      assert n == Ones(n) + 0xFFFF * q;
      assert q >= 0;
    } else {
      assert n == Ones(n) + 0xFFFF * 0;
    }
  }

  /** `Ones(n)` is the only 16-bit value congruent to `n` that is zero exactly
      when `n` is. */
  lemma OnesUnique(n: nat, r: uint16, q: int)
    requires n == r + 0xFFFF * q
    requires r == 0 <==> n == 0
    ensures r == Ones(n)
  {
    if n > 0 {
      assert n - 1 == (r - 1) + 0xFFFF * q;
      assert (n - 1) % 0xFFFF == r - 1;
    }
  }

  /** A positive total sums to 0xFFFF exactly when 0xFFFF divides it. */
  lemma OnesAllOnes(n: nat)
    ensures Ones(n) == 0xFFFF <==> n > 0 && n % 0xFFFF == 0
  {
  }

  /** Adding sums end-around is summing the plain totals. */
  lemma OnesAdd(a: nat, b: nat)
    ensures Ones(a + b) == EndAround(Ones(a), Ones(b))
  {
    OnesCongruent(a);
    OnesCongruent(b);
    var p: nat :| a == Ones(a) + 0xFFFF * p;
    var q: nat :| b == Ones(b) + 0xFFFF * q;
    var r := EndAround(Ones(a), Ones(b));
    OnesUnique(a + b, r, if Ones(a) + Ones(b) > 0xFFFF then p + q + 1 else p + q);
  }

  lemma OnesDistance(a: nat, b: nat) returns (k: int)
    ensures Ones(a) - Ones(b) == a - b - 0xFFFF * k
  {
    OnesCongruent(a);
    OnesCongruent(b);
    var p: nat :| a == Ones(a) + 0xFFFF * p;
    var q: nat :| b == Ones(b) + 0xFFFF * q;
    k := p - q;
  }

  /** For positive totals, equal sums are congruent totals. */
  lemma OnesEqual(a: nat, b: nat, d: int)
    requires a > 0 && b > 0 && a == b + d
    ensures Ones(a) == Ones(b) <==> d % 0xFFFF == 0
  {
    OnesCongruent(a);
    OnesCongruent(b);
    var p: nat :| a == Ones(a) + 0xFFFF * p;
    var q: nat :| b == Ones(b) + 0xFFFF * q;
    assert d == Ones(a) - Ones(b) + 0xFFFF * (p - q);
  }

  /** The example of RFC 1071, section 3. */
  lemma Rfc1071Example()
    ensures Sum(BigEndian, [0x00, 0x01, 0xf2, 0x03, 0xf4, 0xf5, 0xf6, 0xf7]) == 0xddf2
    ensures Sum(LittleEndian, [0x00, 0x01, 0xf2, 0x03, 0xf4, 0xf5, 0xf6, 0xf7]) == 0xf2dd
  {
    var bs: seq<byte> := [0x00, 0x01, 0xf2, 0x03, 0xf4, 0xf5, 0xf6, 0xf7];
    FourWords([0x0001, 0xf203, 0xf4f5, 0xf6f7]);
    FourWords([0x0100, 0x03f2, 0xf5f4, 0xf7f6]);
    assert Words(BigEndian, bs) == [0x0001, 0xf203, 0xf4f5, 0xf6f7];
    assert Words(LittleEndian, bs) == [0x0100, 0x03f2, 0xf5f4, 0xf7f6];
  }

  lemma FourWords(ws: seq<uint16>)
    requires |ws| == 4
    ensures Total(ws) == ws[0] as int + ws[1] + ws[2] + ws[3]
  {
    assert ws[..3][..2] == ws[..2] && ws[..2][..1] == ws[..1] && ws[..1][..0] == [];
    assert Total(ws[..1]) == ws[0];
    assert Total(ws[..2]) == ws[0] as int + ws[1];
    assert Total(ws[..3]) == ws[0] as int + ws[1] + ws[2];
  }

  // ---- splitting ----

  lemma {:induction false} TotalSplit(a: seq<uint16>, b: seq<uint16>)
    ensures Total(a + b) == Total(a) + Total(b)
  {
    if b == [] {
      assert a + b == a;
    } else {
      assert (a + b)[..|a + b| - 1] == a + b[..|b| - 1];
      TotalSplit(a, b[..|b| - 1]);
    }
  }

  lemma WordsSplit(host: Host, a: seq<byte>, b: seq<byte>)
    requires |a| % 2 == 0
    ensures Words(host, a + b) == Words(host, a) + Words(host, b)
  {
    var ws, vs := Words(host, a + b), Words(host, a) + Words(host, b);
    assert |ws| == |vs|;
    forall i | 0 <= i < |ws|
      ensures ws[i] == vs[i]
    {
      if i >= |a| / 2 {
        assert (a + b)[2 * i] == b[2 * (i - |a| / 2)] && (a + b)[2 * i + 1] == b[2 * (i - |a| / 2) + 1];
      }
    }
  }

  /** The sum of a buffer cut at an even offset is the end-around sum of the
      parts. */
  lemma SumSplit(host: Host, a: seq<byte>, b: seq<byte>)
    requires |a| % 2 == 0
    ensures Total(Words(host, a + b)) == Total(Words(host, a)) + Total(Words(host, b))
    ensures Sum(host, a + b) == EndAround(Sum(host, a), Sum(host, b))
  {
    WordsSplit(host, a, b);
    TotalSplit(Words(host, a), Words(host, b));
    OnesAdd(Total(Words(host, a)), Total(Words(host, b)));
  }

  // ---- byte order ----

  /** Sum of the high bytes: the multiples of 0xFFFF that swapping removes. */
  function HighTotal(ws: seq<uint16>): nat {
    if ws == [] then 0 else HighTotal(ws[..|ws| - 1]) + ws[|ws| - 1] / 0x100
  }

  lemma {:induction false} SwappedTotal(ws: seq<uint16>)
    ensures 0x100 * Total(ws) == Total(Swapped(ws)) + 0xFFFF * HighTotal(ws)
    ensures Total(Swapped(ws)) == 0 <==> Total(ws) == 0
  {
    if ws != [] {
      SwappedTotal(ws[..|ws| - 1]);
      assert Swapped(ws)[..|ws| - 1] == Swapped(ws[..|ws| - 1]);
    }
  }

  /** RFC 1071, section 2(B): swapping the bytes of every word swaps the bytes
      of the sum. */
  lemma SwapIndependence(ws: seq<uint16>)
    ensures Ones(Total(Swapped(ws))) == Swap16(Ones(Total(ws)))
  {
    var n, m := Total(ws), Total(Swapped(ws));
    var r := Ones(n);
    SwappedTotal(ws);
    OnesCongruent(n);
    var q: nat :| n == r + 0xFFFF * q;
    assert m == Swap16(r) + 0xFFFF * (0x100 * q - HighTotal(ws) + r / 0x100);
    OnesUnique(m, Swap16(r), 0x100 * q - HighTotal(ws) + r / 0x100);
  }

  lemma PairSwapped(a: byte, b: byte)
    ensures Swap16(0x100 * a as int + b) == 0x100 * b as int + a
  {
  }

  /** Both hosts leave the same two bytes in memory when each sums the same
      buffer in its own byte order. */
  lemma HostIndependence(host: Host, bs: seq<byte>)
    ensures Store16(host, Sum(host, bs)) == Be16(Sum(BigEndian, bs))
    ensures Sum(host, bs) == HToBe16(host, Sum(BigEndian, bs))
  {
    if host.LittleEndian? {
      WordsSwapped(bs);
      SwapIndependence(Words(BigEndian, bs));
    }
    StoreConverted16(host, Sum(BigEndian, bs));
  }

  lemma WordsSwapped(bs: seq<byte>)
    ensures Words(LittleEndian, bs) == Swapped(Words(BigEndian, bs))
  {
    hide Swap16;
    var ws, bigs := Words(LittleEndian, bs), Words(BigEndian, bs);
    forall i | 0 <= i < |ws|
      ensures ws[i] == Swapped(bigs)[i]
    {
      PairSwapped(bs[2 * i], bs[2 * i + 1]);
    }
  }

  // ---- order of the words ----

  lemma {:induction false} TotalRemove(ws: seq<uint16>, i: nat)
    requires i < |ws|
    ensures Total(ws) == Total(ws[..i] + ws[i + 1..]) + ws[i]
  {
    assert ws == ws[..i] + ([ws[i]] + ws[i + 1..]);
    TotalSplit(ws[..i], [ws[i]] + ws[i + 1..]);
    TotalSplit([ws[i]], ws[i + 1..]);
    TotalSplit(ws[..i], ws[i + 1..]);
    assert Total([ws[i]]) == Total([ws[i]][..0]) + ws[i];
  }

  /** RFC 1071, section 2(A): the words may be summed in any order. */
  lemma {:induction false} OrderIndependence(a: seq<uint16>, b: seq<uint16>)
    requires multiset(a) == multiset(b)
    ensures Total(a) == Total(b)
  {
    if a == [] {
      assert |multiset(b)| == 0;
    } else {
      var x := a[|a| - 1];
      assert a == a[..|a| - 1] + [x];
      assert x in multiset(b);
      var i :| 0 <= i < |b| && b[i] == x;
      TotalRemove(b, i);
      assert b == b[..i] + [x] + b[i + 1..];
      assert multiset(b[..i] + b[i + 1..]) == multiset(b) - multiset{x};
      assert multiset(a[..|a| - 1]) == multiset(a) - multiset{x};
      OrderIndependence(a[..|a| - 1], b[..i] + b[i + 1..]);
    }
  }
}
