/**
 The Internet checksum (section 1 of RFC 1071) as computed for TCP segments in `kernel/api/tcp.h`, which folds
 the carry after every word, and for IPv4 headers in `kernel/api/ipv4.h`, which folds it at the end.
 */
module Checksum {
  type Byte = x: int | 0 <= x < 256

  function Word(high: int, low: int): int { high * 256 + low }

  /** The bytes as big-endian 16-bit words, an odd last byte padded with a zero. */
  function Words(bs: seq<Byte>): seq<nat> {
    if |bs| == 0 then [] else if |bs| == 1 then [Word(bs[0], 0)] else [Word(bs[0], bs[1])] + Words(bs[2..])
  }

  function Sum(ws: seq<nat>): nat {
    if ws == [] then 0 else ws[0] + Sum(ws[1..])
  }

  predicate Small(ws: seq<nat>) {
    forall i: nat :: i < |ws| ==> ws[i] < 0x1_0000
  }

  /** The 16-bit one's complement value of a sum: zero only for zero. */
  function Ones(total: nat): nat {
    if total == 0 then 0 else (total - 1) % 0xFFFF + 1
  }

  /** One fold of the carry. */
  function Fold(sum: nat): nat { sum / 0x1_0000 + sum % 0x1_0000 }

  /** Folding keeps the one's complement value, and a sum that fits in 16 bits is that value. */
  lemma FoldOnes(sum: nat)
    ensures Ones(Fold(sum)) == Ones(sum)
    ensures sum <= 0xFFFF ==> Ones(sum) == sum
    ensures sum > 0xFFFF ==> Fold(sum) < sum
  {
    var q := sum / 0x1_0000;
    assert sum == Fold(sum) + 0xFFFF * q;
    if sum != 0 {
      OnesShift(Fold(sum), q);
    }
  }

  lemma {:induction false} OnesShift(x: nat, q: nat)
    requires x > 0
    ensures Ones(x + 0xFFFF * q) == Ones(x)
  {
    if q > 0 {
      OnesShift(x, q - 1);
      assert Ones(x + 0xFFFF * (q - 1) + 0xFFFF) == Ones(x + 0xFFFF * (q - 1));
    }
  }

  /** Adding a word to the folded sum and folding once is adding it to the unfolded sum. */
  lemma FoldAdd(total: nat, w: nat)
    requires w < 0x1_0000
    ensures var s := Ones(total) + w; (if s > 0xFFFF then Fold(s) else s) == Ones(total + w)
  {
    var s := Ones(total) + w;
    FoldOnes(s);
    OnesAdd(total, w);
    if s > 0xFFFF {
      assert Fold(s) <= 0xFFFF;
      FoldOnes(Fold(s));
    }
  }

  lemma OnesAdd(total: nat, w: nat)
    ensures Ones(Ones(total) + w) == Ones(total + w)
  {
  }

  lemma {:induction false} SumConcat(a: seq<nat>, b: seq<nat>)
    ensures Sum(a + b) == Sum(a) + Sum(b)
  {
    if a == [] {
      assert a + b == b;
    } else {
      SumConcat(a[1..], b);
      assert (a + b)[1..] == a[1..] + b;
    }
  }

  lemma SumSnoc(ws: seq<nat>, i: nat)
    requires i < |ws|
    ensures Sum(ws[..i + 1]) == Sum(ws[..i]) + ws[i]
  {
    assert ws[..i + 1] == ws[..i] + [ws[i]];
    SumConcat(ws[..i], [ws[i]]);
    assert [ws[i]][1..] == [];
  }

  lemma {:induction false} WordsSmall(bs: seq<Byte>)
    ensures Small(Words(bs)) && |Words(bs)| == (|bs| + 1) / 2
  {
    if |bs| >= 2 {
      WordsSmall(bs[2..]);
    }
  }

  lemma {:induction false} WordAt(bs: seq<Byte>, i: nat)
    requires 2 * i < |bs|
    ensures i < |Words(bs)| && Words(bs)[i] == Word(bs[2 * i], if 2 * i + 1 < |bs| then bs[2 * i + 1] else 0)
  {
    if i > 0 {
      WordAt(bs[2..], i - 1);
    }
    WordsSmall(bs);
  }

  /** Folding until the sum fits in 16 bits. */
  function FoldAll(sum: nat): nat
    decreases sum
  {
    if sum <= 0xFFFF then sum
    else
      FoldOnes(sum);
      FoldAll(Fold(sum))
  }

  /** Folding after every word. */
  function FoldEach(ws: seq<nat>): nat {
    if ws == [] then 0
    else
      var s := FoldEach(ws[..|ws| - 1]) + ws[|ws| - 1];
      if s > 0xFFFF then Fold(s) else s
  }

  lemma {:induction false} FoldAllOnes(sum: nat)
    ensures FoldAll(sum) == Ones(sum)
    decreases sum
  {
    FoldOnes(sum);
    if sum > 0xFFFF {
      FoldAllOnes(Fold(sum));
    }
  }

  /** Folding after every word and folding the whole sum at the end agree, within 16 bits. */
  lemma {:induction false} FoldEachIsFoldAll(ws: seq<nat>)
    requires Small(ws)
    ensures FoldEach(ws) == FoldAll(Sum(ws)) && FoldEach(ws) <= 0xFFFF
  {
    FoldAllOnes(Sum(ws));
    if ws != [] {
      var n := |ws| - 1;
      FoldEachIsFoldAll(ws[..n]);
      FoldAllOnes(Sum(ws[..n]));
      FoldAdd(Sum(ws[..n]), ws[n]);
      SumSnoc(ws, n);
      assert ws[..n + 1] == ws;
    }
  }

  /** The loops of `calculate_checksum` over whole words: the running sum stays within 16 bits. */
  method AddWords(start: nat, ghost total: nat, bs: seq<Byte>, count: nat) returns (sum: nat)
    requires start == Ones(total) && 2 * count <= |bs|
    ensures count <= |Words(bs)| && sum == Ones(total + Sum(Words(bs)[..count])) && sum <= 0xFFFF
  {
    WordsSmall(bs);
    sum := start;
    for i := 0 to count
      invariant sum == Ones(total + Sum(Words(bs)[..i])) && sum <= 0xFFFF
    {
      WordAt(bs, i);
      SumSnoc(Words(bs), i);
      FoldAdd(total + Sum(Words(bs)[..i]), Words(bs)[i]);
      sum := sum + Word(bs[2 * i], bs[2 * i + 1]);
      if sum > 0xFFFF {
        sum := sum / 0x1_0000 + sum % 0x1_0000;
      }
    }
  }

  /** The checksum as the standard defines it: the complement of the one's complement sum of all words. */
  function ChecksumOf(total: nat): nat { 0xFFFF - Ones(total) }

  /** All the bytes, and the padding of an odd last one. */
  method AddBytes(start: nat, ghost total: nat, bs: seq<Byte>) returns (sum: nat)
    requires start == Ones(total)
    ensures sum == Ones(total + Sum(Words(bs))) && sum <= 0xFFFF
  {
    hide Ones, Fold, Sum, Words;
    WordsSmall(bs);
    var n := |bs| / 2;
    sum := AddWords(start, total, bs, n);
    if |bs| % 2 != 0 {
      WordAt(bs, n);
      SumSnoc(Words(bs), n);
      FoldAdd(total + Sum(Words(bs)[..n]), Words(bs)[n]);
      assert Words(bs)[..n + 1] == Words(bs);
      sum := PadByte(sum, total + Sum(Words(bs)[..n]), bs[|bs| - 1]);
    } else {
      assert Words(bs)[..n] == Words(bs);
    }
  }

  method PadByte(start: nat, ghost total: nat, b: Byte) returns (sum: nat)
    requires start == Ones(total)
    ensures sum == Ones(total + Word(b, 0)) && sum <= 0xFFFF
  {
    FoldAdd(total, Word(b, 0));
    sum := start + Word(b, 0);
    if sum > 0xFFFF {
      sum := sum / 0x1_0000 + sum % 0x1_0000;
    }
  }

  /** `TCPSegment::calculate_checksum` over the pseudo header, the segment header and the payload of any length. */
  method CalculateChecksum(pseudo: seq<Byte>, header: seq<Byte>, payload: seq<Byte>) returns (c: nat)
    requires |pseudo| == 12 && |header| % 2 == 0
    ensures c == ChecksumOf(Sum(Words(pseudo)) + Sum(Words(header)) + Sum(Words(payload)))
  {
    hide Sum, Words;
    var sum := AddBytes(0, 0, pseudo);
    sum := AddBytes(sum, Sum(Words(pseudo)), header);
    sum := AddBytes(sum, Sum(Words(pseudo)) + Sum(Words(header)), payload);
    c := 0xFFFF - sum % 0x1_0000;
  }

  /** `IPv4Packet::__compute_checksum` over the twenty header bytes; its sum never reaches bit 31. */
  method ComputeIpChecksum(header: seq<Byte>) returns (c: nat)
    requires |header| == 20
    ensures c == ChecksumOf(Sum(Words(header)))
  {
    WordsSmall(header);
    var sum: int := 0;
    for i := 0 to 10
      invariant sum == Sum(Words(header)[..i]) && sum <= i * 0xFFFF
    {
      WordAt(header, i);
      SumSnoc(Words(header), i);
      sum := sum + Word(header[2 * i], header[2 * i + 1]);
      assert sum < 0x8000_0000;
    }
    assert Words(header)[..10] == Words(header);
    while sum / 0x1_0000 != 0
      invariant sum >= 0 && Ones(sum) == Ones(Sum(Words(header)))
      decreases sum
    {
      FoldOnes(sum);
      sum := sum % 0x1_0000 + sum / 0x1_0000;
    }
    FoldOnes(sum);
    c := 0xFFFF - sum;
  }

  /** The two bytes at an even place hold the 16-bit number. */
  function Put(bs: seq<Byte>, at: nat, c: nat): seq<Byte>
    requires at + 1 < |bs| && c < 0x1_0000
  {
    bs[at := c / 256][at + 1 := c % 256]
  }

  lemma {:induction false} SumPut(bs: seq<Byte>, at: nat, c: nat)
    requires at % 2 == 0 && at + 1 < |bs| && c < 0x1_0000 && bs[at] == 0 && bs[at + 1] == 0
    ensures Sum(Words(Put(bs, at, c))) == Sum(Words(bs)) + c
  {
    var ps := Put(bs, at, c);
    if at == 0 {
      assert ps[2..] == bs[2..];
    } else {
      SumPut(bs[2..], at - 2, c);
      assert ps[2..] == Put(bs[2..], at - 2, c);
    }
  }

  /** Adding its own checksum to a sum gives all ones, whose complement is zero. */
  lemma ChecksumCancels(total: nat)
    ensures ChecksumOf(total) < 0x1_0000 && Ones(total + ChecksumOf(total)) == 0xFFFF
    ensures ChecksumOf(total + ChecksumOf(total)) == 0
  {
  }

  /** A segment whose checksum field, bytes 16 and 17, was computed while it was zero: recomputing gives zero. */
  lemma TcpChecksumVerifies(pseudo: seq<Byte>, header: seq<Byte>, payload: seq<Byte>)
    requires |header| >= 20 && header[16] == 0 && header[17] == 0
    ensures var rest := Sum(Words(pseudo)) + Sum(Words(payload));
            var c := ChecksumOf(Sum(Words(pseudo)) + Sum(Words(header)) + Sum(Words(payload)));
            && c < 0x1_0000 && Ones(rest + Sum(Words(Put(header, 16, c)))) == 0xFFFF
            && ChecksumOf(rest + Sum(Words(Put(header, 16, c)))) == 0
  {
    hide Words, Sum, Put, ChecksumOf, Ones;
    var total := Sum(Words(pseudo)) + Sum(Words(header)) + Sum(Words(payload));
    ChecksumCancels(total);
    SumPut(header, 16, ChecksumOf(total));
  }

  /** `set_checksum` on an IPv4 header, bytes 10 and 11. */
  lemma IpChecksumVerifies(header: seq<Byte>)
    requires |header| == 20 && header[10] == 0 && header[11] == 0
    ensures var c := ChecksumOf(Sum(Words(header)));
            && c < 0x1_0000 && Ones(Sum(Words(Put(header, 10, c)))) == 0xFFFF
            && ChecksumOf(Sum(Words(Put(header, 10, c)))) == 0
  {
    hide Words, Sum, Put, ChecksumOf, Ones;
    ChecksumCancels(Sum(Words(header)));
    SumPut(header, 10, ChecksumOf(Sum(Words(header))));
  }

  /**
   A changed word changes the checksum, unless all its bits changed from zeros to ones or back and something else is not
   zero: those are the two spellings of zero.
   */
  lemma ChangeNoticed(rest: nat, w: nat, w': nat)
    requires w < w' < 0x1_0000
    ensures ChecksumOf(rest + w) == ChecksumOf(rest + w') <==> w == 0 && w' == 0xFFFF && rest > 0
  {
    if rest > 0 && w' - w == 0xFFFF {
      OnesShift(rest + w, 1);
    } else if rest + w > 0 {
      var x, d := rest + w - 1, w' - w;
      assert x % 0xFFFF != (x + d) % 0xFFFF;
    }
  }

  /** The example of section 3 of RFC 1071. */
  lemma Rfc1071Example()
    ensures var bs := [0x00, 0x01, 0xF2, 0x03, 0xF4, 0xF5, 0xF6, 0xF7];
            && Words(bs) == [0x0001, 0xF203, 0xF4F5, 0xF6F7] && Sum(Words(bs)) == 0x2_DDF0
            && FoldAll(Sum(Words(bs))) == 0xDDF2 && ChecksumOf(Sum(Words(bs))) == 0x220D
  {
    var bs: seq<Byte> := [0x00, 0x01, 0xF2, 0x03, 0xF4, 0xF5, 0xF6, 0xF7];
    assert bs[2..] == [0xF2, 0x03, 0xF4, 0xF5, 0xF6, 0xF7] && bs[2..][2..] == [0xF4, 0xF5, 0xF6, 0xF7];
    assert bs[2..][2..][2..] == [0xF6, 0xF7] && bs[2..][2..][2..][2..] == [];
    assert Words(bs[2..][2..][2..]) == [0xF6F7] && Words(bs[2..][2..]) == [0xF4F5, 0xF6F7];
    assert Words(bs[2..]) == [0xF203, 0xF4F5, 0xF6F7];
    var ws: seq<nat> := [0x0001, 0xF203, 0xF4F5, 0xF6F7];
    assert ws[1..] == [0xF203, 0xF4F5, 0xF6F7] && ws[1..][1..] == [0xF4F5, 0xF6F7] && ws[1..][1..][1..] == [0xF6F7];
    assert Sum([0xF6F7]) == 0xF6F7 && Sum(ws[1..][1..]) == 0x1_EBEC && Sum(ws[1..]) == 0x2_DDEF;
    FoldAllOnes(Sum(ws));
  }
}
