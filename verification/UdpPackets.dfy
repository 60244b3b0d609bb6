/** The header checksum and the payload splitting of dhcp/src/UdpListener.cpp. */
module UdpPackets {
  import opened Wrappers
  import opened Words

  // ---- The Internet checksum, section 1 of RFC 1071 -----------------------------

  function Sum(words: seq<u16>): nat {
    if words == [] then 0 else Sum(words[..|words| - 1]) + words[|words| - 1]
  }

  /** One folding of the carries: `(sum >> 16) + (sum & 0xffff)`. */
  function Fold(sum: nat): nat {
    sum / 0x1_0000 + sum % 0x1_0000
  }

  /** The 16-bit words of a buffer in the host's memory; a last odd byte becomes a word whose
      other byte is zero. */
  function WordsOf(host: Host, b: seq<byte>): (words: seq<u16>)
    ensures |words| == (|b| + 1) / 2
  {
    if b == [] then []
    else if |b| % 2 == 1 then WordsOf(host, b[..|b| - 1]) + [BitCast16(host, [b[|b| - 1], 0])]
    else WordsOf(host, b[..|b| - 2]) + [BitCast16(host, b[|b| - 2..])]
  }

  lemma WordsMore(host: Host, b: seq<byte>, i: nat)
    requires i % 2 == 0 && i + 2 <= |b|
    ensures WordsOf(host, b[..i + 2]) == WordsOf(host, b[..i]) + [BitCast16(host, b[i..i + 2])]
  {
    assert b[..i + 2][..i] == b[..i] && b[..i + 2][i..] == b[i..i + 2];
  }

  lemma WordsOdd(host: Host, b: seq<byte>)
    requires |b| % 2 == 1
    ensures WordsOf(host, b) == WordsOf(host, b[..|b| - 1]) + [BitCast16(host, [b[|b| - 1], 0])]
  {
  }

  lemma WordsOfNone(host: Host)
    ensures WordsOf(host, []) == []
  {
  }

  lemma SumOfNone()
    ensures Sum([]) == 0
  {
  }

  lemma SumMore(words: seq<u16>, w: u16)
    ensures Sum(words + [w]) == Sum(words) + w
  {
    assert (words + [w])[..|words|] == words;
  }

  /** The summing loop of calculate_checksum: the pointer moves in steps of two bytes, and a
      last odd byte is added. */
  method SumBuffer(host: Host, buffer: seq<byte>) returns (sum: nat)
    ensures sum == Sum(WordsOf(host, buffer))
  {
    hide BitCast16, Sum, WordsOf;
    var ptr, nbytes := 0, |buffer|;
    sum := 0;
    SumOfNone();
    WordsOfNone(host);
    assert buffer[..0] == [];
    while nbytes > 1
      invariant 0 <= ptr <= |buffer| && nbytes == |buffer| - ptr && ptr % 2 == 0
      invariant sum == Sum(WordsOf(host, buffer[..ptr]))
      decreases nbytes
    {
      WordsMore(host, buffer, ptr);
      SumMore(WordsOf(host, buffer[..ptr]), BitCast16(host, buffer[ptr..ptr + 2]));
      sum := sum + BitCast16(host, buffer[ptr..ptr + 2]);
      ptr := ptr + 2;
      nbytes := nbytes - 2;
    }
    if nbytes == 1 {
      var odd: u16 := BitCast16(host, [buffer[ptr], 0]);
      WordsOdd(host, buffer);
      SumMore(WordsOf(host, buffer[..ptr]), odd);
      sum := sum + odd;
    } else {
      assert buffer[..ptr] == buffer;
    }
  }

  /** calculate_checksum: the sum, two foldings (the second adds the carry to the uncut sum),
      and the complement cut down to 16 bits. */
  method CalculateChecksum(host: Host, buffer: seq<byte>) returns (answer: u16)
    ensures answer == Checksum(WordsOf(host, buffer))
  {
    hide Sum, WordsOf;
    var sum := SumBuffer(host, buffer);
    sum := sum / 0x1_0000 + sum % 0x1_0000;
    sum := sum + sum / 0x1_0000;
    answer := 0xFFFF - sum % 0x1_0000;
  }

  function Checksum(words: seq<u16>): u16 {
    var folded := Fold(Sum(words));
    0xFFFF - (folded + folded / 0x1_0000) % 0x1_0000
  }

  /** Ones' complement addition: the carry out of the top bit is added at the bottom. */
  function OnesPlus(a: u16, b: u16): u16 {
    if a + b > 0xFFFF then a + b - 0xFFFF else a + b
  }

  function OnesSum(words: seq<u16>): u16 {
    if words == [] then 0 else OnesPlus(OnesSum(words[..|words| - 1]), words[|words| - 1])
  }

  const LONGEST := 65538  // words, 131076 bytes

  lemma {:induction false} SumBound(words: seq<u16>)
    ensures Sum(words) <= |words| * 0xFFFF
  {
    if words != [] {
      SumBound(words[..|words| - 1]);
    }
  }

  lemma Residue(x: int, q: int, r: int)
    requires x == q * 0xFFFF + r && 0 <= r < 0xFFFF
    ensures x % 0xFFFF == r
  {
  }

  lemma Congruent(a: int, b: int, k: int)
    requires a == b + k * 0xFFFF
    ensures a % 0xFFFF == b % 0xFFFF
  {
    Residue(a, b / 0xFFFF + k, b % 0xFFFF);
  }

  lemma OnesPlusIsModular(ones: u16, sum: nat, w: u16)
    requires ones % 0xFFFF == sum % 0xFFFF && (ones == 0 <==> sum == 0)
    ensures OnesPlus(ones, w) % 0xFFFF == (sum + w) % 0xFFFF
    ensures OnesPlus(ones, w) == 0 <==> sum + w == 0
  {
    var carry := if ones + w > 0xFFFF then 1 else 0;
    Congruent(OnesPlus(ones, w), sum + w, ones / 0xFFFF - sum / 0xFFFF - carry);
  }

  /** The ones' complement sum is the sum modulo 65535, where zero stands for an empty sum
      and 65535 for every other multiple. */
  lemma {:induction false} OnesSumIsModular(words: seq<u16>)
    ensures OnesSum(words) % 0xFFFF == Sum(words) % 0xFFFF
    ensures OnesSum(words) == 0 <==> Sum(words) == 0
  {
    hide OnesPlus;
    if words != [] {
      var n := |words| - 1;
      OnesSumIsModular(words[..n]);
      OnesPlusIsModular(OnesSum(words[..n]), Sum(words[..n]), words[n]);
    }
  }

  lemma FoldIsModular(sum: nat)
    ensures Fold(sum) % 0xFFFF == sum % 0xFFFF
    ensures Fold(sum) == 0 <==> sum == 0
  {
    var hi, lo := sum / 0x1_0000, sum % 0x1_0000;
    assert sum == Fold(sum) + hi * 0xFFFF;
    Congruent(sum, Fold(sum), hi);
  }

  /** Two foldings suffice up to 131076 bytes: the result is the complement of the ones'
      complement sum. */
  lemma ChecksumIsComplement(words: seq<u16>)
    requires |words| <= LONGEST
    ensures Checksum(words) == 0xFFFF - OnesSum(words)
  {
    var sum := Sum(words);
    SumBound(words);
    assert sum <= 0x1_0000_FFFE;
    OnesSumIsModular(words);
    TwoFoldsSuffice(sum, OnesSum(words));
  }

  lemma TwoFoldsSuffice(sum: nat, ones: u16)
    requires sum <= 0x1_0000_FFFE
    requires ones % 0xFFFF == sum % 0xFFFF && (ones == 0 <==> sum == 0)
    ensures var folded := Fold(sum);
            (folded + folded / 0x1_0000) % 0x1_0000 == ones
  {
    var folded := Fold(sum);
    FoldIsModular(sum);
    assert folded <= 0x1_FFFE;
    if folded >= 0x1_0000 {
      assert (folded + 1) % 0x1_0000 == folded - 0xFFFF;
    }
  }

  lemma {:induction false} SumAppend(a: seq<u16>, b: seq<u16>)
    ensures Sum(a + b) == Sum(a) + Sum(b)
  {
    if b == [] {
      assert a + b == a;
    } else {
      SumAppend(a, b[..|b| - 1]);
      assert (a + b)[..|a + b| - 1] == a + b[..|b| - 1];
    }
  }

  lemma SumStore(words: seq<u16>, at: nat, word: u16)
    requires at < |words| && words[at] == 0
    ensures Sum(words[at := word]) == Sum(words) + word
  {
    var a, b := words[..at], words[at + 1..];
    var zero: seq<u16> := [0];
    assert words == a + zero + b;
    assert words[at := word] == a + [word] + b;
    SumAppend(a + zero, b);
    SumAppend(a, zero);
    SumAppend(a + [word], b);
    SumAppend(a, [word]);
    assert Sum(zero) == 0 && [word][..0] == [];
  }

  lemma StoredWordVerifies(words: seq<u16>, at: nat)
    requires |words| <= LONGEST && at < |words| && words[at] == 0
    ensures OnesSum(words[at := Checksum(words)]) == 0xFFFF
  {
    var checked := words[at := Checksum(words)];
    ChecksumIsComplement(words);
    SumStore(words, at, Checksum(words));
    OnesSumIsModular(words);
    OnesSumIsModular(checked);
    Multiple(Sum(checked), Sum(words), OnesSum(words), OnesSum(checked));
  }

  lemma Multiple(total: nat, sum: nat, ones: u16, result: u16)
    requires ones % 0xFFFF == sum % 0xFFFF && (ones == 0 <==> sum == 0)
    requires total == sum + (0xFFFF - ones)
    requires result % 0xFFFF == total % 0xFFFF && (result == 0 <==> total == 0)
    ensures result == 0xFFFF
  {
    assert total % 0xFFFF == 0;
    assert total != 0;
  }

  lemma {:induction false} SumOfSame(n: nat, w: u16)
    ensures Sum(seq(n, _ => w)) == n * w
  {
    var words: seq<u16> := seq(n, _ => w);
    if n > 0 {
      SumOfSame(n - 1, w);
      assert words[..n - 1] == seq(n - 1, _ => w);
    }
  }

  // ---- The same on buffers of bytes -----------------------------------------------

  lemma {:induction false} WordsAppend(host: Host, a: seq<byte>, b: seq<byte>)
    requires |a| % 2 == 0
    ensures WordsOf(host, a + b) == WordsOf(host, a) + WordsOf(host, b)
  {
    hide BitCast16, WordsOf;
    if b == [] {
      assert a + b == a;
      WordsOfNone(host);
    } else {
      var n, pair := LastWord(b);
      var m, same := LastWord(a + b);
      assert (a + b)[..m] == a + b[..n] && same == pair;
      WordsAppend(host, a, b[..n]);
    }
  }

  /** The i-th word of a buffer is its bytes 2i and 2i + 1, the second one the more significant
      on a little-endian host, and the byte after an odd buffer counts as zero. */
  lemma {:induction false} WordAt(host: Host, b: seq<byte>, i: nat)
    requires 2 * i < |b|
    ensures var b0: int, b1: int := b[2 * i], if 2 * i + 1 < |b| then b[2 * i + 1] else 0;
            WordsOf(host, b)[i] == if host.Little? then b0 + 0x100 * b1 else 0x100 * b0 + b1
  {
    hide WordsOf;
    var n, pair := LastWord(b);
    if 2 * i < n {
      WordAt(host, b[..n], i);
    } else {
      assert 2 * i == n && |WordsOf(host, b[..n])| == i;
    }
  }

  /** The buffer that holds these words in the host's memory. */
  function BufferOf(host: Host, words: seq<u16>): (b: seq<byte>)
    ensures |b| == 2 * |words|
  {
    if words == [] then [] else BufferOf(host, words[..|words| - 1]) + Memory16(host, words[|words| - 1])
  }

  lemma OneWord(host: Host, pair: seq<byte>)
    requires |pair| == 2
    ensures WordsOf(host, pair) == [BitCast16(host, pair)]
  {
    assert pair[..0] == [] && pair[0..] == pair;
  }

  /** Every list of words is the list of some buffer. */
  lemma {:induction false} BufferHasWords(host: Host, words: seq<u16>)
    ensures WordsOf(host, BufferOf(host, words)) == words
  {
    hide WordsOf, Memory16;
    if words == [] {
      WordsOfNone(host);
    } else {
      var n := |words| - 1;
      BufferHasWords(host, words[..n]);
      WordsAppend(host, BufferOf(host, words[..n]), Memory16(host, words[n]));
      OneWord(host, Memory16(host, words[n]));
    }
  }

  /** A receiver's check: with the checksum stored in the word that was zero, the ones'
      complement sum of the buffer is 0xFFFF. */
  lemma StoredChecksumVerifies(host: Host, b: seq<byte>, at: nat)
    requires |b| <= 2 * LONGEST && at % 2 == 0 && at + 2 <= |b| && b[at] == b[at + 1] == 0
    ensures var stored := b[..at] + Memory16(host, Checksum(WordsOf(host, b))) + b[at + 2..];
            OnesSum(WordsOf(host, stored)) == 0xFFFF
  {
    hide WordsOf, Checksum, OnesSum, Memory16;
    var words, rest := WordsOf(host, b), WordsOf(host, b[at + 2..]);
    var zero, check := b[at..at + 2], Memory16(host, Checksum(words));
    assert zero == [0, 0] && b == b[..at] + zero + b[at + 2..];
    ThreeParts(host, b[..at], zero, b[at + 2..]);
    ThreeParts(host, b[..at], check, b[at + 2..]);
    var before := WordsOf(host, b[..at]);
    assert words == before + [0] + rest;
    assert words[|before| := Checksum(words)] == before + [Checksum(words)] + rest;
    StoredWordVerifies(words, |before|);
  }

  lemma ThreeParts(host: Host, a: seq<byte>, pair: seq<byte>, b: seq<byte>)
    requires |a| % 2 == 0 && |pair| == 2
    ensures WordsOf(host, a + pair + b) == WordsOf(host, a) + [BitCast16(host, pair)] + WordsOf(host, b)
  {
    hide WordsOf, BitCast16;
    WordsAppend(host, a + pair, b);
    WordsAppend(host, a, pair);
    OneWord(host, pair);
  }

  lemma {:induction false} SumOfZeros(host: Host, n: nat)
    ensures Sum(WordsOf(host, Zeros(n))) == 0
  {
    hide WordsOf, Sum;
    var b := Zeros(n);
    if n == 0 {
      WordsOfNone(host);
      SumOfNone();
    } else {
      var m, pair := LastWord(b);
      assert b[..m] == Zeros(m) && pair == [0, 0];
      SumOfZeros(host, m);
      SumMore(WordsOf(host, b[..m]), BitCast16(host, pair));
    }
  }

  /** A last word that is a lone byte 1, with any zeros after it. */
  lemma SumOfOne(host: Host, n: nat)
    ensures Sum(WordsOf(host, [1] + Zeros(n))) == BitCast16(host, [1, 0])
  {
    hide WordsOf, Sum, BitCast16;
    var b := [1] + Zeros(n);
    if n == 0 {
      var m, pair := LastWord(b);
      assert b[..m] == [] && pair == [1, 0];
      WordsOfNone(host);
      SumOfNone();
      SumMore([], BitCast16(host, [1, 0]));
      assert [] + [BitCast16(host, [1, 0])] == [BitCast16(host, [1, 0])];
    } else {
      assert b == [1, 0] + Zeros(n - 1);
      WordsAppend(host, [1, 0], Zeros(n - 1));
      OneWord(host, [1, 0]);
      SumOfZeros(host, n - 1);
      SumOfNone();
      SumMore([], BitCast16(host, [1, 0]));
      assert [] + [BitCast16(host, [1, 0])] == [BitCast16(host, [1, 0])];
      SumAppend([BitCast16(host, [1, 0])], WordsOf(host, Zeros(n - 1)));
    }
  }

  /** A buffer of any greater length on which two foldings lose a carry. */
  lemma TooLongForTwoFolds(host: Host, n: nat) returns (b: seq<byte>)
    requires n > 2 * LONGEST
    ensures |b| == n && Checksum(WordsOf(host, b)) != 0xFFFF - OnesSum(WordsOf(host, b))
  {
    hide WordsOf, OnesSum, Sum;
    var last := BitCast16(host, [1, 0]);
    var full: seq<u16>, rest := seq(LONGEST - 1, _ => 0xFFFF), [1] + Zeros(n - 2 * LONGEST - 1);
    var head := full + [0x1_0000 - last];
    SumOfSame(LONGEST - 1, 0xFFFF);
    SumMore(full, 0x1_0000 - last);
    BufferHasWords(host, head);
    SumOfOne(host, n - 2 * LONGEST - 1);
    b := BufferOf(host, head) + rest;
    WordsAppend(host, BufferOf(host, head), rest);
    SumAppend(head, WordsOf(host, rest));
    LostCarry(WordsOf(host, b));
  }

  lemma LostCarry(words: seq<u16>)
    requires Sum(words) == 0x1_0000_FFFF
    ensures Checksum(words) != 0xFFFF - OnesSum(words)
  {
    OnesSumIsModular(words);
    assert Checksum(words) == 0xFFFF;
  }

  /** Two foldings suffice for all buffers of a length exactly up to 131076 bytes. */
  lemma TwoFoldsExactly(host: Host, n: nat)
    ensures (forall b: seq<byte> | |b| == n :: Checksum(WordsOf(host, b)) == 0xFFFF - OnesSum(WordsOf(host, b)))
            <==> n <= 131076
  {
    hide WordsOf, Checksum, OnesSum;
    if n <= 2 * LONGEST {
      forall b: seq<byte> | |b| == n ensures Checksum(WordsOf(host, b)) == 0xFFFF - OnesSum(WordsOf(host, b)) {
        ChecksumIsComplement(WordsOf(host, b));
      }
    } else {
      var b := TooLongForTwoFolds(host, n);
    }
  }

  // ---- Byte order independence, section 2 (B) of RFC 1071 ---------------------------

  lemma SwapIsModular(x: u16)
    ensures Swap16(x) == x % 0x100 * 0x100 + x / 0x100
    ensures Swap16(x) % 0xFFFF == 0x100 * x % 0xFFFF
    ensures Swap16(x) == 0 <==> x == 0
  {
    var hi, lo := x / 0x100, x % 0x100;
    assert Reversed(Network16(x)) == [lo, hi];
    assert 0x100 * x == hi * 0xFFFF + (lo * 0x100 + hi);
  }

  /** The words of one buffer on the two hosts are each other's byte swaps. */
  lemma {:induction false} SumOnOtherHost(b: seq<byte>)
    ensures Sum(WordsOf(Little, b)) % 0xFFFF == 0x100 * Sum(WordsOf(Big, b)) % 0xFFFF
    ensures Sum(WordsOf(Little, b)) == 0 <==> Sum(WordsOf(Big, b)) == 0
  {
    hide BitCast16, WordsOf, Sum;
    if b == [] {
      WordsOfNone(Little);
      WordsOfNone(Big);
      SumOfNone();
    } else {
      var n, pair := LastWord(b);
      SumOnOtherHost(b[..n]);
      var w, l := BitCast16(Big, pair), BitCast16(Little, pair);
      PairOnOtherHost(pair);
      SumMore(WordsOf(Big, b[..n]), w);
      SumMore(WordsOf(Little, b[..n]), l);
      ModularPlus(Sum(WordsOf(Little, b[..n])), l, Sum(WordsOf(Big, b[..n])), w);
    }
  }

  lemma LastWord(b: seq<byte>) returns (n: nat, pair: seq<byte>)
    requires b != []
    ensures |pair| == 2 && n == |b| - 2 + |b| % 2
    ensures pair == if |b| % 2 == 1 then [b[n], 0] else b[n..]
    ensures forall host :: WordsOf(host, b) == WordsOf(host, b[..n]) + [BitCast16(host, pair)]
  {
    n := if |b| % 2 == 1 then |b| - 1 else |b| - 2;
    pair := if |b| % 2 == 1 then [b[n], 0] else b[n..];
  }

  lemma PairOnOtherHost(pair: seq<byte>)
    requires |pair| == 2
    ensures BitCast16(Little, pair) == Swap16(BitCast16(Big, pair))
    ensures BitCast16(Little, pair) % 0xFFFF == 0x100 * BitCast16(Big, pair) % 0xFFFF
    ensures BitCast16(Little, pair) == 0 <==> BitCast16(Big, pair) == 0
  {
    Network16Inverse(pair, 0);
    SwapIsModular(BitCast16(Big, pair));
  }

  lemma ModularPlus(a: nat, l: nat, b: nat, w: nat)
    requires a % 0xFFFF == 0x100 * b % 0xFFFF && l % 0xFFFF == 0x100 * w % 0xFFFF
    ensures (a + l) % 0xFFFF == 0x100 * (b + w) % 0xFFFF
  {
    var x, y := 0x100 * b, 0x100 * w;
    Congruent(a + l, x + y, a / 0xFFFF - x / 0xFFFF + l / 0xFFFF - y / 0xFFFF);
  }

  /** Both hosts store the same checksum bytes for the same buffer. */
  lemma ChecksumIsHostFree(b: seq<byte>)
    requires |b| <= 2 * LONGEST
    ensures Memory16(Little, Checksum(WordsOf(Little, b))) == Memory16(Big, Checksum(WordsOf(Big, b)))
  {
    hide Sum, WordsOf, Checksum, OnesSum, Swap16, Memory16;
    var little, big := OnesSum(WordsOf(Little, b)), OnesSum(WordsOf(Big, b));
    ChecksumIsComplement(WordsOf(Little, b));
    ChecksumIsComplement(WordsOf(Big, b));
    OnesSumIsModular(WordsOf(Little, b));
    OnesSumIsModular(WordsOf(Big, b));
    SumOnOtherHost(b);
    SwapIsModular(big);
    SameOnesSum(little, big, Sum(WordsOf(Big, b)));
    ComplementSwaps(big);
    SwapInMemory(0xFFFF - big);
  }

  lemma SameOnesSum(little: u16, big: u16, sum: nat)
    requires little % 0xFFFF == 0x100 * sum % 0xFFFF && big % 0xFFFF == sum % 0xFFFF
    requires little == 0 <==> big == 0
    ensures little == Swap16(big)
  {
    SwapIsModular(big);
    ModularTimes(sum, big);
    hide Swap16;
    SameResidue(little, Swap16(big));
  }

  lemma SameResidue(a: u16, b: u16)
    requires a % 0xFFFF == b % 0xFFFF && (a == 0 <==> b == 0)
    ensures a == b
  {
  }

  lemma ModularTimes(a: nat, b: nat)
    requires a % 0xFFFF == b % 0xFFFF
    ensures 0x100 * a % 0xFFFF == 0x100 * b % 0xFFFF
  {
    Congruent(0x100 * a, 0x100 * b, 0x100 * (a / 0xFFFF - b / 0xFFFF));
  }

  lemma ComplementSwaps(x: u16)
    ensures 0xFFFF - Swap16(x) == Swap16(0xFFFF - x)
  {
    SwapIsModular(x);
    SwapIsModular(0xFFFF - x);
    hide Swap16;
    var hi, lo := x / 0x100, x % 0x100;
    assert 0xFFFF - x == (0xFF - hi) * 0x100 + (0xFF - lo);
    DivMod(0xFF - hi, 0xFF - lo);
  }

  lemma SwapInMemory(x: u16)
    ensures Memory16(Little, Swap16(x)) == Memory16(Big, x)
  {
    ReversedTwice16(Network16(x));
    Network16Inverse(Reversed(Network16(x)), x);
    var b := Network16(x);
    assert Reversed(Reversed(b)) == b;
  }

  // ---- Splitting a payload -------------------------------------------------------------

  const BLOCK := 1024
  const MORE_FRAGMENTS := 0x2000

  /** One call of send_packet: the `frag_off` field in host order, and the data. */
  datatype Packet = Packet(moreFragments: bool, offset: nat, data: seq<byte>)

  function Concat(packets: seq<Packet>): seq<byte> {
    if packets == [] then [] else Concat(packets[..|packets| - 1]) + packets[|packets| - 1].data
  }

  /** ceil(n / 1024) blocks of 1024 bytes, the k-th at offset 1024 k, whose concatenation is the
      data followed by fewer than 1024 zeros; all but the last announce more. */
  predicate Splits(packets: seq<Packet>, data: seq<byte>) {
    && |packets| == (|data| + 1023) / 1024
    && (forall k | 0 <= k < |packets| :: |packets[k].data| == 1024 && packets[k].offset == k * 1024)
    && (forall k | 0 <= k < |packets| :: packets[k].moreFragments <==> k < |packets| - 1)
    && 0 <= |packets| * 1024 - |data| < 1024
    && Concat(packets) == data + Zeros(|packets| * 1024 - |data|)
  }

  /** One block of the payload, padded with zeros if it is the last. */
  method BlockOf(data: seq<byte>, count: nat, i: nat) returns (current: seq<byte>)
    requires count == (|data| + BLOCK - 1) / BLOCK && i < count
    ensures |current| == BLOCK
    ensures current == (data + Zeros(count * BLOCK - |data|))[i * BLOCK..(i + 1) * BLOCK]
  {
    if i != count - 1 {
      current := data[i * BLOCK..(i + 1) * BLOCK];
    } else {
      current := data[i * BLOCK..] + Zeros(BLOCK - (|data| - i * BLOCK));
    }
  }

  /** The loop of divide_and_send. */
  method DivideAndSend(data: seq<byte>) returns (packets: seq<Packet>)
    ensures Splits(packets, data)
  {
    var count := |data| / BLOCK;
    if |data| % BLOCK != 0 {
      count := count + 1;
    }
    packets := [];
    ghost var padded := data + Zeros(count * BLOCK - |data|);
    for i := 0 to count
      invariant |packets| == i
      invariant forall k | 0 <= k < i :: |packets[k].data| == BLOCK && packets[k].offset == k * BLOCK
      invariant forall k | 0 <= k < i :: packets[k].moreFragments <==> k < count - 1
      invariant Concat(packets) == padded[..i * BLOCK]
    {
      var current := BlockOf(data, count, i);
      ConcatMore(packets, Packet(i != count - 1, i * BLOCK, current), padded, i * BLOCK);
      packets := packets + [Packet(i != count - 1, i * BLOCK, current)];
    }
    assert padded[..count * BLOCK] == padded;
  }

  lemma ConcatMore(packets: seq<Packet>, p: Packet, all: seq<byte>, at: nat)
    requires at + |p.data| <= |all| && Concat(packets) == all[..at] && p.data == all[at..at + |p.data|]
    ensures Concat(packets + [p]) == all[..at + |p.data|]
  {
    assert (packets + [p])[..|packets|] == packets;
  }

  /** `htons((more ? IP_MF : 0) | offset)`: bit 13 is the flag, which an offset has itself
      exactly when offset / 0x2000 is odd, and the argument of htons is cut to 16 bits. */
  function FragmentField(p: Packet): u16 {
    var flagged := if p.moreFragments && p.offset / MORE_FRAGMENTS % 2 == 0 then p.offset + MORE_FRAGMENTS else p.offset;
    flagged % 0x1_0000
  }

  function FieldOffset(field: u16): nat {
    field % MORE_FRAGMENTS
  }

  predicate FieldFlag(field: u16) {
    field / MORE_FRAGMENTS % 2 == 1
  }

  /** A reader of the field gets the packet's byte offset and flag back. */
  predicate Separable(p: Packet) {
    FieldOffset(FragmentField(p)) == p.offset && (FieldFlag(FragmentField(p)) <==> p.moreFragments)
  }

  /** That is so exactly below offset 8192. */
  lemma FieldSeparable(p: Packet)
    ensures Separable(p) <==> p.offset < 0x2000
  {
  }

  /** All packets of a payload keep offset and flag apart exactly when it has at most 8192 bytes. */
  lemma PayloadSeparable(packets: seq<Packet>, data: seq<byte>)
    requires Splits(packets, data)
    ensures (forall k | 0 <= k < |packets| :: Separable(packets[k])) <==> |data| <= 8192
  {
    forall k | 0 <= k < |packets| ensures Separable(packets[k]) <==> k < 8 {
      FieldSeparable(packets[k]);
    }
    if |data| > 8192 {
      assert !Separable(packets[8]);
    }
  }

  /** A receiver counts the offset in units of eight bytes (section 3.1 of RFC 791), but the
      field holds bytes: all packets land where their data belongs exactly when the payload
      fits into one of them. */
  lemma ReassemblesExactly(packets: seq<Packet>, data: seq<byte>)
    requires Splits(packets, data)
    ensures (forall k | 0 <= k < |packets| :: 8 * FieldOffset(FragmentField(packets[k])) == packets[k].offset)
            <==> |data| <= 1024
  {
    if |data| > BLOCK {
      FieldSeparable(packets[1]);
      assert 8 * FieldOffset(FragmentField(packets[1])) != packets[1].offset;
    } else if |packets| == 1 {
      FieldSeparable(packets[0]);
    }
  }
}
