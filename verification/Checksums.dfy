/** The two routines for the one's-complement checksum, and why summing raw memory words is sound. */
module Checksums {
  import opened Wire

  function Sum(w: seq<u16>): nat
  {
    if w == [] then 0 else w[0] + Sum(w[1..])
  }

  /** The one's-complement value of a sum, stated without any algorithm: 0 only for 0, else 1 to 0xFFFF modulo 0xFFFF. */
  function Residue(n: nat): u16
  {
    if n == 0 then 0 else (n - 1) % 0xFFFF + 1
  }

  /** All sixteen bits inverted. */
  function Complement(x: u16): u16 { 0xFFFF - x }

  function Checksum(w: seq<u16>): u16 { Complement(Residue(Sum(w))) }

  /** One word is added in 16 bits, and a carry out of them is added again. */
  function AddCarry(sum: u16, word: u16): u16
  {
    var s := U16(sum + word);
    if s < word then U16(s + 1) else s
  }

  /** The sum as ipv4_calculate_checksum leaves it: a carry goes back in after every word. */
  function CarrySum(w: seq<u16>): u16
  {
    if w == [] then 0 else AddCarry(CarrySum(w[..|w| - 1]), w[|w| - 1])
  }

  /** The sum as tcp_calculate_checksum accumulates it, in 32 bits. */
  function WideSum(w: seq<u16>): u32
  {
    if w == [] then 0 else U32(WideSum(w[..|w| - 1]) + w[|w| - 1])
  }

  /** As long as the upper half is not zero, it is added to the lower half. */
  function Folded(sum: u32): u16
  {
    if sum / 0x1_0000 == 0 then sum else Folded(U32(sum % 0x1_0000 + sum / 0x1_0000))
  }

  // ---------------------------------------------------------------- arithmetic of residues

  /** A value from 1 to 0xFFFF that differs from `n` by a multiple of 0xFFFF is its residue. */
  lemma ResidueIs(n: nat, x: u16, k: int)
    requires n > 0 && x > 0 && n == x + 0xFFFF * k
    ensures Residue(n) == x
  {
    var q, m := (n - 1) / 0xFFFF, (n - 1) % 0xFFFF;
    assert n - 1 == 0xFFFF * q + m && n - 1 == 0xFFFF * k + (x - 1);
    assert 0xFFFF * (q - k) == x - 1 - m;
    assert q == k;
  }

  lemma ResidueOf(n: nat) returns (k: nat)
    ensures n == Residue(n) + 0xFFFF * k && (Residue(n) == 0 <==> n == 0)
  {
    k := if n == 0 then 0 else (n - 1) / 0xFFFF;
  }

  lemma ResidueAdd(n: nat, word: u16)
    ensures AddCarry(Residue(n), word) == Residue(n + word)
  {
    var k := ResidueOf(n);
    var r := AddCarry(Residue(n), word);
    if n + word > 0 {
      if Residue(n) + word < 0x1_0000 { ResidueIs(n + word, r, k); } else { ResidueIs(n + word, r, k + 1); }
    }
  }

  lemma ResidueFold(n: nat)
    ensures Residue(n % 0x1_0000 + n / 0x1_0000) == Residue(n)
  {
    var m := n % 0x1_0000 + n / 0x1_0000;
    var k := ResidueOf(m);
    assert n == m + 0xFFFF * (n / 0x1_0000);
    if n > 0 {
      assert n == Residue(m) + 0xFFFF * (k + n / 0x1_0000);
      ResidueIs(n, Residue(m), k + n / 0x1_0000);
    }
  }

  lemma {:induction false} SumSnoc(w: seq<u16>, x: u16)
    ensures Sum(w + [x]) == Sum(w) + x
  {
    if w == [] {
      assert [] + [x] == [x] && [x][1..] == [];
    } else {
      assert (w + [x])[1..] == w[1..] + [x];
      SumSnoc(w[1..], x);
    }
  }

  lemma {:induction false} SumBound(w: seq<u16>)
    ensures Sum(w) <= 0xFFFF * |w|
  {
    if w != [] {
      SumBound(w[1..]);
    }
  }

  lemma {:induction false} SumConcat(v: seq<u16>, w: seq<u16>)
    ensures Sum(v + w) == Sum(v) + Sum(w)
  {
    if v == [] {
      assert v + w == w;
    } else {
      assert (v + w)[1..] == v[1..] + w;
      SumConcat(v[1..], w);
    }
  }

  // ---------------------------------------------------------------- the two ways to carry

  lemma {:induction false} CarrySumIs(w: seq<u16>)
    ensures CarrySum(w) == Residue(Sum(w))
  {
    if w != [] {
      var v, x := w[..|w| - 1], w[|w| - 1];
      CarrySumIs(v);
      ResidueAdd(Sum(v), x);
      SumSnoc(v, x);
      assert w == v + [x];
    }
  }

  lemma ReduceOnce(n: int, x: int)
    ensures (n % TWO32 + x) % TWO32 == (n + x) % TWO32
  {
    assert n + x == n / TWO32 * TWO32 + (n % TWO32 + x);
  }

  lemma {:induction false} WideSumIs(w: seq<u16>)
    ensures WideSum(w) == Sum(w) % TWO32
  {
    if w != [] {
      var v, x := w[..|w| - 1], w[|w| - 1];
      WideSumIs(v);
      SumSnoc(v, x);
      assert w == v + [x];
      ReduceOnce(Sum(v), x);
    }
  }

  lemma {:induction false} FoldedIs(sum: u32)
    ensures Folded(sum) == Residue(sum)
  {
    hide Residue;
    if sum / 0x1_0000 != 0 {
      var next := sum % 0x1_0000 + sum / 0x1_0000;
      assert next < sum && U32(next) == next;
      ResidueFold(sum);
      FoldedIs(next);
    } else {
      ResidueSmall(sum);
    }
  }

  lemma ResidueSmall(x: u16)
    ensures Residue(x) == x
  {
  }

  /** 2^32 leaves 1 when divided by 0xFFFF, so each carry lost beyond 32 bits counts as one. */
  lemma LostCarries(n: nat)
    ensures Residue(n % TWO32) == Residue(n) <==> n < TWO32 || (n % TWO32 > 0 && n / TWO32 % 0xFFFF == 0)
  {
    var q, r := n / TWO32, n % TWO32;
    var j := ResidueOf(n);
    var k := ResidueOf(r);
    assert n == q * 0xFFFF * 0x1_0001 + q + r;
    if n >= TWO32 && r > 0 {
      if q % 0xFFFF == 0 {
        var m := q / 0xFFFF;
        ResidueIs(n, Residue(r), m * 0xFFFF * 0x1_0001 + m + k);
      }
    }
  }

  /** Carrying after every word and folding the carries of a 32-bit sum give the same, on all words, exactly as long
      as the carries lost beyond 32 bits cancel. */
  lemma BothAgreeExactly(w: seq<u16>)
    ensures CarrySum(w) == Folded(WideSum(w)) <==>
            Sum(w) < TWO32 || (Sum(w) % TWO32 > 0 && Sum(w) / TWO32 % 0xFFFF == 0)
  {
    CarrySumIs(w);
    WideSumIs(w);
    FoldedIs(WideSum(w));
    LostCarries(Sum(w));
  }

  /** Nothing is lost on any words that a 16-bit length can count, pseudo header included. */
  lemma BothAgree(w: seq<u16>)
    requires |w| <= 0x1_0001
    ensures CarrySum(w) == Folded(WideSum(w)) == Residue(Sum(w))
  {
    SumBound(w);
    BothAgreeExactly(w);
    CarrySumIs(w);
  }

  // ---------------------------------------------------------------- the two routines

  /** The header length field of a header in memory, counted in 16-bit words. */
  function HeaderWords(data: seq<u16>): nat
    requires data != []
  {
    data[0] % 0x100 % 0x10 * 2
  }

  /** ipv4_calculate_checksum: an end-around carry after every word, in 16 bits. */
  method Ipv4Checksum(data: seq<u16>) returns (r: u16)
    requires data != [] && HeaderWords(data) <= |data|
    ensures var words := data[..HeaderWords(data)];
      r == Complement(CarrySum(words)) == Checksum(words)
  {
    var length := HeaderWords(data);
    var sum: u16 := 0;
    var i := 0;
    while i < length
      invariant 0 <= i <= length
      invariant sum == CarrySum(data[..i])
    {
      assert data[..i + 1][..i] == data[..i];
      var word := data[i];
      sum := U16(sum + word);
      if sum < word {
        sum := U16(sum + 1);
      }
      i := i + 1;
    }
    r := Complement(sum);
    CarrySumIs(data[..length]);
  }

  /** tcp_calculate_checksum: add up in 32 bits, then fold the carries back until there are none. */
  method TcpChecksum(pseudo: seq<u16>, tcp: seq<u16>) returns (r: u16)
    requires |pseudo| == 6 && Swap16(pseudo[5]) / 2 <= |tcp|
    ensures var words := pseudo + tcp[..Swap16(pseudo[5]) / 2];
      r == Complement(Folded(WideSum(words))) == Checksum(words)
  {
    hide Sum, WideSum, Folded, Residue;
    var length := Swap16(pseudo[5]) / 2;
    ghost var all := pseudo + tcp[..length];
    SumBound(all);
    SumBound(pseudo);
    SumConcat(pseudo, tcp[..length]);
    var sum := Accumulate(0, pseudo, 6);
    assert pseudo[..6] == pseudo;
    sum := Accumulate(sum, tcp, length);
    WideSumIs(all);
    sum := FoldCarries(sum);
    r := Complement(sum);
  }

  /** The first `n` words are added up in 32 bits. */
  method Accumulate(start: u32, words: seq<u16>, n: nat) returns (sum: u32)
    requires n <= |words| && start + 0xFFFF * n < TWO32
    ensures sum == start + Sum(words[..n])
  {
    sum := start;
    var i := 0;
    while i < n
      invariant 0 <= i <= n && sum == start + Sum(words[..i])
    {
      SumSnoc(words[..i], words[i]);
      assert words[..i + 1] == words[..i] + [words[i]];
      SumBound(words[..i + 1]);
      sum := U32(sum + words[i]);
      i := i + 1;
    }
  }

  /** As long as the upper half is not zero, it is added to the lower half. */
  method FoldCarries(start: u32) returns (sum: u16)
    ensures sum == Folded(start) == Residue(start)
  {
    var acc := start;
    while acc / 0x1_0000 != 0
      invariant Folded(acc) == Folded(start)
      decreases acc
    {
      acc := U32(acc % 0x1_0000 + acc / 0x1_0000);
    }
    sum := acc;
    FoldedIs(start);
  }

  // ---------------------------------------------------------------- byte order

  function Swapped(w: seq<u16>): seq<u16>
  {
    if w == [] then [] else [Swap16(w[0])] + Swapped(w[1..])
  }

  lemma {:induction false} SwappedSum(w: seq<u16>) returns (k: nat)
    ensures 0x100 * Sum(w) == Sum(Swapped(w)) + 0xFFFF * k
    ensures Sum(w) == 0 <==> Sum(Swapped(w)) == 0
  {
    if w == [] {
      k := 0;
    } else {
      k := SwappedSum(w[1..]);
      var x: int := w[0];
      assert 0x100 * x == Swap16(x) + 0xFFFF * (x / 0x100);
      assert Swapped(w)[1..] == Swapped(w[1..]);
      k := k + x / 0x100;
    }
  }

  /** Section 2 of RFC 1071: summing the words with their bytes swapped gives the checksum with its bytes swapped. */
  lemma ByteOrderIndependence(w: seq<u16>)
    ensures Checksum(Swapped(w)) == Swap16(Checksum(w))
  {
    var s, t := Sum(w), Sum(Swapped(w));
    var k := SwappedSum(w);
    if s > 0 {
      var j := ResidueOf(s);
      var r: int := Residue(s);
      var h := r / 0x100;
      assert 0x100 * r == Swap16(r) + 0xFFFF * h;
      assert 0x100 * s == 0x100 * r + 0xFFFF * (0x100 * j);
      assert t == Swap16(r) + 0xFFFF * (h + 0x100 * j - k);
      ResidueIs(t, Swap16(r), h + 0x100 * j - k);
    }
    SwapComplement(Residue(s));
  }

  lemma SwapComplement(x: u16)
    ensures Swap16(Complement(x)) == Complement(Swap16(x))
  {
    assert x == x / 0x100 * 0x100 + x % 0x100;
    assert Complement(x) == (0xFF - x / 0x100) * 0x100 + (0xFF - x % 0x100);
  }

  // ---------------------------------------------------------------- verification

  lemma {:induction false} SumUpdate(w: seq<u16>, i: nat, x: u16)
    requires i < |w|
    ensures Sum(w[i := x]) == Sum(w) - w[i] + x
  {
    if i == 0 {
      assert w[0 := x][1..] == w[1..];
    } else {
      assert w[i := x][1..] == w[1..][i - 1 := x] && w[i := x][0] == w[0];
      SumUpdate(w[1..], i - 1, x);
    }
  }

  lemma VerifiesWhenDivisible(n: nat)
    ensures Complement(Residue(n)) == 0 <==> n > 0 && n % 0xFFFF == 0
  {
    var k := ResidueOf(n);
    if n > 0 && n % 0xFFFF == 0 {
      var q := n / 0xFFFF;
      ResidueIs(n, 0xFFFF, q - 1);
    }
  }

  /** With its slot zero when the checksum is taken, the words verify exactly with that checksum in the slot,
      or with the other way of writing zero. */
  lemma VerifiesExactly(w: seq<u16>, i: nat, x: u16)
    requires i < |w| && w[i] == 0
    ensures var c := Checksum(w);
      Checksum(w[i := x]) == 0 <==> x == c || (c == 0 && x == 0xFFFF)
  {
    var s, c := Sum(w), Checksum(w);
    SumUpdate(w, i, x);
    VerifiesWhenDivisible(s + x);
    var k := ResidueOf(s);
    assert s + x == 0xFFFF * (k + 1) + (x - c);
    MultipleOf(s + x, k + 1, x - c);
  }

  lemma MultipleOf(n: int, k: int, d: int)
    requires n == 0xFFFF * k + d && -0xFFFF <= d <= 0xFFFF
    ensures n % 0xFFFF == 0 <==> d == 0 || d == 0xFFFF || d == -0xFFFF
  {
    if d == 0xFFFF { assert n == 0xFFFF * (k + 1); }
    if d == -0xFFFF { assert n == 0xFFFF * (k - 1); }
    if n % 0xFFFF == 0 {
      var q := n / 0xFFFF;
      assert d == 0xFFFF * (q - k);
    }
  }

  /** Changing one word of words that verify goes unnoticed exactly when it exchanges the two ways of writing zero. */
  lemma OneWordChanged(w: seq<u16>, i: nat, x: u16)
    requires i < |w| && Checksum(w) == 0 && x != w[i]
    ensures Checksum(w[i := x]) == 0 <==>
            Sum(w[i := x]) > 0 && ((w[i] == 0 && x == 0xFFFF) || (w[i] == 0xFFFF && x == 0))
  {
    SumUpdate(w, i, x);
    VerifiesWhenDivisible(Sum(w));
    VerifiesWhenDivisible(Sum(w[i := x]));
    var q := Sum(w) / 0xFFFF;
    MultipleOf(Sum(w[i := x]), q, x - w[i]);
  }
}
