/** Address blocks (src/cidr): prefix lengths, containment, and the first and last address.

    The sixteen octets of an address are written as 128 bits, most significant first: the test of
    `1 << bit` in octet `oct` is the test of bit 8 * oct + 7 - bit here. */
module Cidr {

  const BITS: nat := 128

  type Bits = s: seq<bool> | |s| == BITS witness seq(BITS, _ => false)

  datatype Proto = NoProto | IPv4 | IPv6

  datatype Block = Block(proto: Proto, addr: Bits, mask: Bits)

  /** The bit where the address proper starts: IPv4 uses the last four octets. */
  function FirstBit(p: Proto): nat { if p == IPv4 then 96 else 0 }

  // ----- prefix length -----

  function LeadingOnes(mask: Bits, from: nat): (n: nat)
    requires from <= BITS
    ensures from + n <= BITS
    ensures forall i :: from <= i < from + n ==> mask[i]
    ensures from + n < BITS ==> !mask[from + n]
    decreases BITS - from
  {
    if from < BITS && mask[from] then 1 + LeadingOnes(mask, from + 1) else 0
  }

  ghost predicate Contiguous(mask: Bits, from: nat)
    requires from <= BITS
  {
    forall i :: from + LeadingOnes(mask, from) <= i < BITS ==> !mask[i]
  }

  /** The prefix length of a block with a contiguous mask, -1 for any other. */
  ghost function Pflen(b: Block): int {
    if b.proto == NoProto || !Contiguous(b.mask, FirstBit(b.proto)) then -1
    else LeadingOnes(b.mask, FirstBit(b.proto))
  }

  lemma OnesAre(mask: Bits, from: nat, n: nat)
    requires from + n <= BITS && (forall i :: from <= i < from + n ==> mask[i])
    requires from + n == BITS || !mask[from + n]
    ensures LeadingOnes(mask, from) == n
  {
  }

  /** Octet by octet, bit by bit, counting ones and refusing a one after a zero. */
  method GetPflen(b: Block) returns (pflen: int)
    ensures pflen == Pflen(b)
  {
    if b.proto == NoProto {
      return -1;
    }
    ghost var s := FirstBit(b.proto);
    var foundnmh := false;
    pflen := 0;
    for i := (if b.proto == IPv4 then 12 else 0) to 16
      invariant 0 <= pflen && s + pflen <= 8 * i
      invariant forall k :: s <= k < s + pflen ==> b.mask[k]
      invariant if foundnmh then s + pflen < 8 * i && !b.mask[s + pflen] else s + pflen == 8 * i
      invariant forall k :: s + pflen <= k < 8 * i ==> !b.mask[k]
    {
      for j := 8 downto 0
        invariant 0 <= pflen && s + pflen <= 8 * i + 8 - j
        invariant forall k :: s <= k < s + pflen ==> b.mask[k]
        invariant if foundnmh then s + pflen < 8 * i + 8 - j && !b.mask[s + pflen] else s + pflen == 8 * i + 8 - j
        invariant forall k :: s + pflen <= k < 8 * i + 8 - j ==> !b.mask[k]
      {
        var bit := 8 * i + 7 - j;
        if b.mask[bit] {
          if foundnmh {
            assert !Contiguous(b.mask, s) by {
              OnesAre(b.mask, s, pflen);
            }
            return -1;
          }
          pflen := pflen + 1;
        } else {
          foundnmh := true;
        }
      }
    }
    OnesAre(b.mask, s, pflen);
  }

  /** The mask of a prefix length, as the library builds it: the first twelve octets of an IPv4 mask are
      all ones. */
  function MaskOf(p: Proto, n: nat): Bits { seq(BITS, i => i < (if p == IPv4 then 96 + n else n)) }

  /** Every prefix length of both protocols is read back from its mask. */
  lemma PflenOfMask(p: Proto, addr: Bits, n: nat)
    requires (p == IPv4 && n <= 32) || (p == IPv6 && n <= 128)
    ensures Pflen(Block(p, addr, MaskOf(p, n))) == n
  {
    OnesAre(MaskOf(p, n), FirstBit(p), n);
  }

  // ----- containment -----

  datatype Errno = NoErrno | ErrProto | ErrInval | Errno0

  /** Is an address inside a block?  It agrees with the block's address on the prefix. */
  ghost predicate InBlock(b: Block, x: Bits)
    requires Pflen(b) >= 0
  {
    forall i :: FirstBit(b.proto) <= i < FirstBit(b.proto) + Pflen(b) ==> x[i] == b.addr[i]
  }

  /** What the comparison decides: a mask on the big side that is not contiguous passes for one of
      length -1, and contains everything. */
  ghost predicate PrefixContains(big: Block, little: Block) {
    && big.proto == little.proto && big.proto != NoProto
    && Pflen(little) >= Pflen(big)
    && forall i :: FirstBit(big.proto) <= i < FirstBit(big.proto) + Pflen(big) ==> big.addr[i] == little.addr[i]
  }

  /** Compare the bits from i up to, not including, end; each bit is looked up by its octet and the
      weight of the bit inside it. */
  method SameBits(a: Bits, b: Bits, start: nat, end: int) returns (same: bool)
    requires end <= BITS
    ensures same <==> forall k :: start <= k < end ==> a[k] == b[k]
  {
    var i := start;
    while i < end
      invariant start <= i && (i <= end || i == start)
      invariant forall k :: start <= k < i ==> a[k] == b[k]
    {
      var oct := i / 8;
      var bit := 7 - i % 8;
      var at := 8 * oct + 7 - bit;
      assert at == i;
      if a[at] != b[at] {
        return false;
      }
      i := i + 1;
    }
    return true;
  }

  method Contains(big: Block, little: Block) returns (ok: bool, errno: Errno)
    ensures ok == PrefixContains(big, little)
    ensures ok <==> errno == NoErrno
    ensures errno == ErrProto <==> big.proto != little.proto
    ensures errno == ErrInval <==> big.proto == little.proto == NoProto
  {
    if big.proto != little.proto {
      return false, ErrProto;
    }
    if big.proto != IPv4 && big.proto != IPv6 {
      return false, ErrInval;
    }
    var littleLen := GetPflen(little);
    var pflen := GetPflen(big);
    if littleLen < pflen {
      return false, Errno0;
    }
    var i := 0;
    if big.proto == IPv4 {
      i := 96;
      pflen := pflen + 96;
    }
    ok := SameBits(big.addr, little.addr, i, pflen);
    errno := if ok then NoErrno else Errno0;
  }

  lemma AddressIsInBlock(b: Block)
    requires Pflen(b) >= 0
    ensures InBlock(b, b.addr)
  {
  }

  /** For contiguous masks the comparison succeeds exactly when every address of the little block is an
      address of the big one. */
  lemma ContainsIffSubset(big: Block, little: Block)
    requires big.proto == little.proto && Pflen(big) >= 0 && Pflen(little) >= 0
    ensures PrefixContains(big, little) <==> forall x: Bits :: InBlock(little, x) ==> InBlock(big, x)
  {
    var s, p, q := FirstBit(big.proto), Pflen(big), Pflen(little);
    if PrefixContains(big, little) {
      forall x: Bits | InBlock(little, x) ensures InBlock(big, x) {
      }
    }
    if forall x: Bits :: InBlock(little, x) ==> InBlock(big, x) {
      AddressIsInBlock(little);
      assert InBlock(big, little.addr);
      if q < p {
        var x: Bits := little.addr[s + q := !big.addr[s + q]];
        assert InBlock(little, x) && !InBlock(big, x) by {
          assert x[s + q] != big.addr[s + q];
        }
        assert false;
      }
    }
  }

  /** All inputs: the protocols must agree and be known; a mask that is not contiguous is harmless on the
      little side, where nothing contains the block, but on the big side it contains everything. */
  lemma ContainsExactly(big: Block, little: Block)
    ensures PrefixContains(big, little) <==>
            && big.proto == little.proto && big.proto != NoProto
            && (|| Pflen(big) < 0
                || (Pflen(little) >= 0 && forall x: Bits :: InBlock(little, x) ==> InBlock(big, x)))
  {
    if big.proto == little.proto && Pflen(big) >= 0 && Pflen(little) >= 0 {
      ContainsIffSubset(big, little);
    }
  }

  /** Such a mask: ones but for the first bit of an IPv4 address. */
  lemma OneBadMask(addr: Bits, little: Block)
    requires little.proto == IPv4
    ensures var big := Block(IPv4, addr, seq(BITS, i => i != 96));
            Pflen(big) == -1 && PrefixContains(big, little)
  {
    var mask: Bits := seq(BITS, i => i != 96);
    OnesAre(mask, 96, 0);
    assert mask[97];
  }

  /** Blocks written as address and length: one contains the other if and only if it is of the same
      protocol, no longer, and agrees with it on its first bits, from bit 96 on for IPv4. */
  lemma ContainsByLength(p: Proto, a: Bits, n: nat, p': Proto, a': Bits, n': nat)
    requires (p == IPv4 && n <= 32) || (p == IPv6 && n <= 128)
    requires (p' == IPv4 && n' <= 32) || (p' == IPv6 && n' <= 128)
    ensures PrefixContains(Block(p, a, MaskOf(p, n)), Block(p', a', MaskOf(p', n'))) <==>
            && p == p' && n <= n'
            && forall i :: (if p == IPv4 then 96 else 0) <= i < (if p == IPv4 then 96 else 0) + n ==> a[i] == a'[i]
  {
    PflenOfMask(p, a, n);
    PflenOfMask(p', a', n');
  }

  // ----- first and last address -----

  /** The value of the first n bits, most significant first. */
  function Num(x: seq<bool>): nat {
    if x == [] then 0 else 2 * Num(x[..|x| - 1]) + if x[|x| - 1] then 1 else 0
  }

  /** The masks the library builds: all ones before the address proper, then a contiguous prefix. */
  ghost predicate WellMasked(b: Block) {
    && b.proto != NoProto && Pflen(b) >= 0
    && forall i :: 0 <= i < FirstBit(b.proto) ==> b.mask[i]
  }

  ghost predicate NetworkOf(b: Block, r: Block) {
    && r.proto == b.proto && r.mask == b.mask
    && forall i :: 0 <= i < BITS ==> r.addr[i] == (i < LeadingOnes(b.mask, 0) && b.addr[i])
  }

  ghost predicate BroadcastOf(b: Block, r: Block) {
    && r.proto == b.proto && r.mask == b.mask
    && forall i :: 0 <= i < BITS ==> r.addr[i] == (i >= LeadingOnes(b.mask, 0) || b.addr[i])
  }

  /** Copy the network bits until the mask's first zero. */
  method CopyNetworkBits(b: Block) returns (out: seq<bool>, at: nat)
    ensures |out| == BITS && at == LeadingOnes(b.mask, 0)
    ensures forall i :: 0 <= i < BITS ==> out[i] == (i < at && b.addr[i])
  {
    var addr := new bool[BITS](_ => false);
    for i := 0 to 16
      invariant forall k :: 0 <= k < 8 * i ==> b.mask[k] && addr[k] == b.addr[k]
      invariant forall k :: 8 * i <= k < BITS ==> !addr[k]
    {
      for j := 8 downto 0
        invariant forall k :: 0 <= k < 8 * i + 8 - j ==> b.mask[k] && addr[k] == b.addr[k]
        invariant forall k :: 8 * i + 8 - j <= k < BITS ==> !addr[k]
      {
        var bit := 8 * i + 7 - j;
        if !b.mask[bit] {
          OnesAre(b.mask, 0, bit);
          return addr[..], bit;
        }
        addr[bit] := addr[bit] || b.addr[bit];
      }
    }
    OnesAre(b.mask, 0, BITS);
    return addr[..], BITS;
  }

  method Network(b: Block) returns (r: Block)
    ensures NetworkOf(b, r)
  {
    var addr, at := CopyNetworkBits(b);
    r := Block(b.proto, addr, b.mask);
  }

  /** Copy the network bits and set the rest, from the octet and bit where the copying stopped. */
  method Broadcast(b: Block) returns (r: Block)
    ensures BroadcastOf(b, r)
  {
    var net, at := CopyNetworkBits(b);
    var addr := new bool[BITS](i requires 0 <= i < BITS => net[i]);
    var i, j := at / 8, 7 - at % 8;
    assert 8 * i + 7 - j == at;
    while i <= 15
      invariant at <= 8 * i + 7 - j <= BITS && j <= 7 && 0 <= i <= 16 && (i == 16 ==> j == 7)
      invariant j >= 0
      invariant forall k :: 0 <= k < at ==> addr[k] == net[k]
      invariant forall k :: at <= k < 8 * i + 7 - j ==> addr[k]
      decreases 16 - i
    {
      while j >= 0
        invariant at <= 8 * i + 7 - j <= 8 * i + 8 && -1 <= j <= 7
        invariant forall k :: 0 <= k < at ==> addr[k] == net[k]
        invariant forall k :: at <= k < 8 * i + 7 - j ==> addr[k]
        decreases j
      {
        addr[8 * i + 7 - j] := true;
        j := j - 1;
      }
      j := 7;
      i := i + 1;
    }
    r := Block(b.proto, addr[..], b.mask);
  }

  lemma {:induction false} PointwiseLess(x: seq<bool>, y: seq<bool>)
    requires |x| == |y| && forall i :: 0 <= i < |x| ==> x[i] ==> y[i]
    ensures Num(x) <= Num(y)
  {
    if x != [] { PointwiseLess(x[..|x| - 1], y[..|y| - 1]); }
  }

  /** The mask's leading ones end inside the prefix, and at its end when the octets before the address
      proper are all ones. */
  lemma LeadingOnesInPrefix(b: Block)
    requires Pflen(b) >= 0
    ensures LeadingOnes(b.mask, 0) <= FirstBit(b.proto) + Pflen(b)
    ensures WellMasked(b) ==> LeadingOnes(b.mask, 0) == FirstBit(b.proto) + Pflen(b)
  {
  }

  /** The address proper of x: the bits from the first one the protocol uses. */
  function Proper(b: Block, x: Bits): seq<bool> { x[FirstBit(b.proto)..] }

  lemma ProperPointwise(b: Block, x: Bits, y: Bits)
    requires forall i :: FirstBit(b.proto) <= i < BITS ==> x[i] ==> y[i]
    ensures Num(Proper(b, x)) <= Num(Proper(b, y))
  {
    PointwiseLess(Proper(b, x), Proper(b, y));
  }

  /** The bits of the prefix that the copying never reaches, because a zero of the mask comes earlier,
      all have the value v in the block's address. */
  ghost predicate UnreachedAre(b: Block, v: bool)
    requires Pflen(b) >= 0
  {
    forall i :: FirstBit(b.proto) <= i < FirstBit(b.proto) + Pflen(b) && LeadingOnes(b.mask, 0) <= i ==> b.addr[i] == v
  }

  /** The network address is the least address of the block, for every prefix length of both protocols,
      exactly when no zero of the mask comes before the prefix or the bits then missed are zero anyway;
      the masks the library builds are always of the first kind. */
  lemma NetworkIsLeast(b: Block, r: Block)
    requires Pflen(b) >= 0 && NetworkOf(b, r)
    ensures WellMasked(b) ==> UnreachedAre(b, false)
    ensures UnreachedAre(b, false) <==>
            InBlock(b, r.addr) && forall x: Bits :: InBlock(b, x) ==> Num(Proper(b, r.addr)) <= Num(Proper(b, x))
  {
    LeadingOnesInPrefix(b);
    if InBlock(b, r.addr) {
      forall x: Bits | InBlock(b, x) ensures Num(Proper(b, r.addr)) <= Num(Proper(b, x)) {
        ProperPointwise(b, r.addr, x);
      }
    }
    assert UnreachedAre(b, false) <==> InBlock(b, r.addr);
  }

  /** The broadcast address is the greatest address of the block, under the same condition with ones. */
  lemma BroadcastIsGreatest(b: Block, r: Block)
    requires Pflen(b) >= 0 && BroadcastOf(b, r)
    ensures WellMasked(b) ==> UnreachedAre(b, true)
    ensures UnreachedAre(b, true) <==>
            InBlock(b, r.addr) && forall x: Bits :: InBlock(b, x) ==> Num(Proper(b, x)) <= Num(Proper(b, r.addr))
  {
    LeadingOnesInPrefix(b);
    if InBlock(b, r.addr) {
      forall x: Bits | InBlock(b, x) ensures Num(Proper(b, x)) <= Num(Proper(b, r.addr)) {
        ProperPointwise(b, x, r.addr);
      }
    }
    assert UnreachedAre(b, true) <==> InBlock(b, r.addr);
  }
}
