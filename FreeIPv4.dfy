// The IPv4 free address space view: parsing inetnum CIDRs, ordering them,
// and the recursive bisection of the 32-bit address space that reports
// every maximal block not covered by a closed allocation.
module FreeIPv4 {

  import opened Wrappers
  import opened Bits
  import opened Text

  /** An allocated inetnum prefix as the view keeps it; policy is absent when the object has none. */
  datatype Prefix4 = Prefix4(subnet: nat, mask: nat, plen: nat, policy: Option<String>)

  /** A free block emitted by the scan. */
  datatype Block4 = Block4(subnet: nat, mask: nat, plen: nat)

  /** Outcome of parsing a CIDR string. */
  datatype Cidr4 =
    | NotCidr                                   // the source returns null
    | BadLength(base: nat, length: Option<int>)  // the length is NaN (None) or outside 0 .. 32
    | Cidr(subnet: nat, mask: nat, plen: nat)

  /** 2^32 - 2^(32 - plen): the netmask of a prefix length. */
  function Mask4(plen: nat): nat
    requires plen <= 32
  {
    if plen == 0 then 0 else
    PowLe32(32 - plen);
    0x1_0000_0000 - Pow2(32 - plen)
  }

  lemma PowLe32(k: nat)
    requires k <= 32
    ensures Pow2(k) <= 0x1_0000_0000
  {
    Pow2Mono(k, 32);
    Pow32();
  }

  /** Mask4 is the generic high-bit mask of 32-bit words. */
  lemma Mask4High(plen: nat)
    requires plen <= 32
    ensures Pow2(32) == 0x1_0000_0000 && Mask4(plen) == HighMask(32, 32 - plen)
  {
    Pow32();
  }

  /** Number of addresses in a prefix of this length (2^(32 - plen)). */
  function Size(plen: nat): nat
  {
    if plen <= 32 then Pow2(32 - plen) else 0
  }

  predicate IsOpen(p: Prefix4)
  {
    p.policy == Some("open")
  }

  // ---------------------------------------------------------------------
  // Parsing (parse4)

  /** `(x << k)` contribution of one octet; NaN shifts as 0. */
  function Shifted(v: Option<int>, k: nat): int
  {
    match v
    case None => 0
    case Some(x) => x * Pow2(k)
  }

  /** The 32-bit value of four dotted parts; a NaN last part makes the whole sum NaN, which >>>0 turns into 0. */
  function OctetsValue(p0: Option<int>, p1: Option<int>, p2: Option<int>, p3: Option<int>): nat
  {
    match p3
    case None => 0
    case Some(v3) => (Shifted(p0, 24) + Shifted(p1, 16) + Shifted(p2, 8) + v3) % 0x1_0000_0000
  }

  /** parse4: the first '_' stands for '/', then "a.b.c.d/len". */
  function Parse4(p: String): Cidr4
  {
    Parse4Parts(Split(ReplaceFirst(p, '_', '/'), '/'))
  }

  /** The address and length parts of parse4, split at '/'. */
  function Parse4Parts(s1: seq<String>): Cidr4
    requires |s1| >= 1
  {
    var s2 := Split(s1[0], '.');
    if |s1| != 2 || |s2| != 4 then NotCidr
    else WithLength(OctetsValue(ParseInt(s2[0]), ParseInt(s2[1]), ParseInt(s2[2]), ParseInt(s2[3])), ParseInt(s1[1]))
  }

  /**
   * The object parse4 returns for a dotted quad and a length: it is returned
   * whatever the length, which is a usable prefix length only within 0 .. 32.
   */
  function WithLength(num: nat, plen: Option<int>): (r: Cidr4)
    ensures !r.NotCidr?
    ensures r.Cidr? <==> plen.Some? && 0 <= plen.value <= 32
    ensures r.Cidr? ==> r.subnet == num && r.plen == plen.value && r.mask == Mask4(r.plen)
    ensures r.BadLength? ==> r.base == num && r.length == plen
  {
    match plen
    case None => BadLength(num, None)
    case Some(len) => if 0 <= len <= 32 then Cidr(num, Mask4(len), len) else BadLength(num, plen)
  }

  /** Octet k (0 = most significant) of a 32-bit value: `(subnet >> 8*(3-k)) & 0xFF`. */
  function Octet(subnet: nat, k: nat): nat
    requires k < 4
  {
    (subnet / OctetUnit(k)) % 256
  }

  /** The weight of octet k, 2^(8*(3-k)). */
  function OctetUnit(k: nat): nat
    requires k < 4
  {
    if k == 0 then 0x100_0000 else if k == 1 then 0x1_0000 else if k == 2 then 0x100 else 1
  }

  /** The dotted-quad text of a block, "a.b.c.d/plen", as the view prints it. */
  function Format4(subnet: nat, plen: nat): String
  {
    Join([Decimal(Octet(subnet, 0)), Decimal(Octet(subnet, 1)), Decimal(Octet(subnet, 2)), Decimal(Octet(subnet, 3))], '.')
      + "/" + Decimal(plen)
  }

  /** The four octets of a block in decimal. */
  function OctetTexts(subnet: nat): (r: seq<String>)
    ensures |r| == 4
  {
    [Decimal(Octet(subnet, 0)), Decimal(Octet(subnet, 1)), Decimal(Octet(subnet, 2)), Decimal(Octet(subnet, 3))]
  }

  /** Parsing the printed form of a block gives the block back. */
  lemma Parse4Format4(subnet: nat, plen: nat)
    requires subnet < 0x1_0000_0000 && plen <= 32
    ensures Parse4(Format4(subnet, plen)) == Cidr(subnet, Mask4(plen), plen)
  {
    var ds := OctetTexts(subnet);
    FormatSplits(subnet, plen);
    OctetsRoundTrip(subnet);
    ParseIntDecimal(plen);
    var s1 := [Join(ds, '.'), Decimal(plen)];
    assert Parse4(Format4(subnet, plen)) == Parse4Parts(s1);
    assert Parse4Parts(s1) == WithLength(subnet, Some(plen));
    LengthInRange(subnet, plen);
  }

  lemma LengthInRange(num: nat, plen: nat)
    requires plen <= 32
    ensures WithLength(num, Some(plen)) == Cidr(num, Mask4(plen), plen)
  {
  }

  /** The printed form splits back into the octet texts and the length text. */
  lemma FormatSplits(subnet: nat, plen: nat)
    ensures ReplaceFirst(Format4(subnet, plen), '_', '/') == Format4(subnet, plen)
    ensures Split(Format4(subnet, plen), '/') == [Join(OctetTexts(subnet), '.'), Decimal(plen)]
    ensures Split(Join(OctetTexts(subnet), '.'), '.') == OctetTexts(subnet)
  {
    var ds := OctetTexts(subnet);
    var dotted := Join(ds, '.');
    var dp := Decimal(plen);
    FormatJoin(subnet, plen);
    OctetTextsPlain(subnet);
    assert '_' !in Format4(subnet, plen);
    SplitJoin([dotted, dp], '/');
    SplitJoin(ds, '.');
  }

  /** Decimal texts hold none of the characters the printed form uses as separators. */
  lemma DecimalPlain(n: nat)
    ensures '.' !in Decimal(n) && '/' !in Decimal(n) && '_' !in Decimal(n)
  {
    DecimalDigits(n);
  }

  lemma OctetTextsPlain(subnet: nat)
    ensures forall k :: 0 <= k < 4 ==> '.' !in OctetTexts(subnet)[k] && '/' !in OctetTexts(subnet)[k] && '_' !in OctetTexts(subnet)[k]
  {
    DecimalPlain(Octet(subnet, 0));
    DecimalPlain(Octet(subnet, 1));
    DecimalPlain(Octet(subnet, 2));
    DecimalPlain(Octet(subnet, 3));
  }

  lemma FormatJoin(subnet: nat, plen: nat)
    ensures Format4(subnet, plen) == Join([Join(OctetTexts(subnet), '.'), Decimal(plen)], '/')
    ensures '/' !in Join(OctetTexts(subnet), '.') && '_' !in Join(OctetTexts(subnet), '.')
    ensures '/' !in Decimal(plen) && '_' !in Decimal(plen)
  {
    var ds := OctetTexts(subnet);
    var dotted := Join(ds, '.');
    var dp := Decimal(plen);
    OctetTextsPlain(subnet);
    DecimalPlain(plen);
    JoinAvoids(ds, '.', '/');
    JoinAvoids(ds, '.', '_');
    JoinCons(dotted, [dp], '/');
    assert [dotted] + [dp] == [dotted, dp];
  }

  lemma OctetsRoundTrip(subnet: nat)
    requires subnet < 0x1_0000_0000
    ensures var ds := OctetTexts(subnet);
      OctetsValue(ParseInt(ds[0]), ParseInt(ds[1]), ParseInt(ds[2]), ParseInt(ds[3])) == subnet
  {
    var o0, o1, o2, o3 := Octet(subnet, 0), Octet(subnet, 1), Octet(subnet, 2), Octet(subnet, 3);
    ParseIntDecimal(o0);
    ParseIntDecimal(o1);
    ParseIntDecimal(o2);
    ParseIntDecimal(o3);
    BytesValue(subnet);
  }

  lemma BytesValue(subnet: nat)
    requires subnet < 0x1_0000_0000
    ensures OctetsValue(Some(Octet(subnet, 0)), Some(Octet(subnet, 1)), Some(Octet(subnet, 2)), Some(Octet(subnet, 3))) == subnet
  {
    var o0, o1, o2, o3 := Octet(subnet, 0), Octet(subnet, 1), Octet(subnet, 2), Octet(subnet, 3);
    Bytes32(subnet);
    var sum := o0 * 0x100_0000 + o1 * 0x1_0000 + o2 * 256 + o3;
    assert sum == subnet;
    DivUnique(subnet, 0x1_0000_0000, 0, subnet);
  }

  // ---------------------------------------------------------------------
  // Well-formed prefixes and the ordering the scan relies on

  predicate Aligned(subnet: nat, plen: nat)
  {
    plen <= 32 && Down(subnet, 32 - plen) == subnet
  }

  predicate NodeOk(subnet: nat, mask: nat, plen: nat)
  {
    plen <= 32 && subnet < 0x1_0000_0000 && mask == Mask4(plen) && Aligned(subnet, plen)
  }

  predicate PrefixOk(e: Prefix4)
  {
    NodeOk(e.subnet, e.mask, e.plen)
  }

  /** (s1, p1) sorts strictly before (s2, p2): by subnet, then by length. */
  predicate Before(s1: nat, p1: nat, s2: nat, p2: nat)
  {
    s1 < s2 || (s1 == s2 && p1 < p2)
  }

  /** Every entry is a well-formed prefix and the list is strictly ascending, hence free of duplicates. */
  predicate WfList(p4: seq<Prefix4>)
  {
    (forall i :: 0 <= i < |p4| ==> PrefixOk(p4[i]))
    && (forall i, j {:trigger Earlier(p4[i], p4[j])} :: 0 <= i < j < |p4| ==> Earlier(p4[i], p4[j]))
  }

  /**
   * Entry a sorts strictly before entry b.  The ordering clause of WfList
   * is triggered on this predicate only, so that it is not instantiated
   * for every pair of entries a proof happens to mention.
   */
  predicate Earlier(a: Prefix4, b: Prefix4)
  {
    Before(a.subnet, a.plen, b.subnet, b.plen)
  }

  /** The cursor one past an entry sits after that entry. */
  lemma NextAfter(p4: seq<Prefix4>, ix: nat)
    requires WfList(p4) && ix < |p4|
    ensures After(p4, ix + 1, p4[ix].subnet, p4[ix].plen)
  {
    if ix + 1 < |p4| {
      assert Earlier(p4[ix], p4[ix + 1]);
    }
  }

  /** The cursor entry does not sort before the node being scanned. */
  predicate AtOrAfter(p4: seq<Prefix4>, ix: nat, subnet: nat, plen: nat)
    requires ix <= |p4|
  {
    ix == |p4| || !Before(p4[ix].subnet, p4[ix].plen, subnet, plen)
  }

  /** The cursor entry sorts strictly after the node being scanned. */
  predicate After(p4: seq<Prefix4>, ix: nat, subnet: nat, plen: nat)
    requires ix <= |p4|
  {
    ix == |p4| || Before(subnet, plen, p4[ix].subnet, p4[ix].plen)
  }

  /** The cursor has moved beyond every address of the node. */
  predicate PastNode(p4: seq<Prefix4>, ix: nat, subnet: nat, plen: nat)
    requires ix <= |p4|
  {
    ix == |p4| || p4[ix].subnet >= subnet + Size(plen)
  }

  /** The last of the entries consumed, [i, j), starts below hi. */
  predicate Consumed(p4: seq<Prefix4>, i: nat, j: nat, hi: nat)
    requires i <= j <= |p4|
  {
    i == j || p4[j - 1].subnet < hi
  }

  /** Blocks that are well formed, lie in [lo, hi) and ascend without overlap. */
  predicate Tiles(bs: seq<Block4>, lo: nat, hi: nat)
  {
    (forall i :: 0 <= i < |bs| ==>
       NodeOk(bs[i].subnet, bs[i].mask, bs[i].plen) && lo <= bs[i].subnet && bs[i].subnet + Size(bs[i].plen) <= hi)
    && (forall i, j {:trigger Precedes(bs[i], bs[j])} :: 0 <= i < j < |bs| ==> Precedes(bs[i], bs[j]))
  }

  /**
   * Block a ends at or before block b starts.  The ordering clause of
   * Tiles is triggered on this predicate only, so that it is not
   * instantiated for every pair of blocks a proof happens to mention.
   */
  predicate Precedes(a: Block4, b: Block4)
  {
    a.subnet + Size(a.plen) <= b.subnet
  }

  // ---------------------------------------------------------------------
  // The scan as a specification (scanSubnets)

  /** Blocks appended to free4 and the final cursor. */
  datatype ScanOut = ScanOut(blocks: seq<Block4>, ix: nat)

  /** Test of the source: the prefix lies inside the node, `(prefix.subnet & mask) == subnet`. */
  predicate Inside(x: nat, subnet: nat, mask: nat)
  {
    BitAnd(x, mask) == subnet
  }

  /** scanSubnets(subnet, mask, plen) with the cursor at ix. */
  function Scan(p4: seq<Prefix4>, ix: nat, subnet: nat, mask: nat, plen: nat): (r: ScanOut)
    requires WfList(p4) && ix <= |p4| && NodeOk(subnet, mask, plen) && AtOrAfter(p4, ix, subnet, plen)
    ensures ix <= r.ix <= |p4| && PastNode(p4, r.ix, subnet, plen) && Consumed(p4, ix, r.ix, subnet + Size(plen))
    ensures Tiles(r.blocks, subnet, subnet + Size(plen))
    decreases 32 - plen, 1, 0
  {
    if ix >= |p4| then
      ScanOut([Block4(subnet, mask, plen)], ix)
    else if p4[ix].subnet == subnet && p4[ix].plen == plen then
      NextAfter(p4, ix);
      if !IsOpen(p4[ix]) then
        Descendants(p4, ix + 1, subnet, mask, plen)
      else if ix + 1 >= |p4| then
        ScanOut([Block4(subnet, mask, plen)], ix + 1)
      else
        Bisect(p4, ix + 1, subnet, mask, plen)
    else
      Bisect(p4, ix, subnet, mask, plen)
  }

  /** The cursor entry is not the node itself: split the node in two if the entry lies inside it, else emit it. */
  function Bisect(p4: seq<Prefix4>, ix: nat, subnet: nat, mask: nat, plen: nat): (r: ScanOut)
    requires WfList(p4) && ix < |p4| && NodeOk(subnet, mask, plen) && After(p4, ix, subnet, plen)
    ensures ix <= r.ix <= |p4| && PastNode(p4, r.ix, subnet, plen) && Consumed(p4, ix, r.ix, subnet + Size(plen))
    ensures Tiles(r.blocks, subnet, subnet + Size(plen))
    decreases 32 - plen, 0, 0
  {
    if subnet <= p4[ix].subnet < subnet + Size(plen) then
      SplitReady(p4, ix, subnet, plen);
      var half := Size(plen + 1);
      var left := Scan(p4, ix, subnet, Mask4(plen + 1), plen + 1);
      RightCursor(p4, left.ix, subnet, plen);
      var right := Scan(p4, left.ix, subnet + half, Mask4(plen + 1), plen + 1);
      JoinHalves(p4, ix, left, right, subnet, plen);
      ScanOut(left.blocks + right.blocks, right.ix)
    else
      SingleTile(subnet, mask, plen);
      ScanOut([Block4(subnet, mask, plen)], ix)
  }

  /** The loop under a closed exact match: rescan open descendants, skip the others. */
  function Descendants(p4: seq<Prefix4>, ix: nat, subnet: nat, mask: nat, plen: nat): (r: ScanOut)
    requires WfList(p4) && ix <= |p4| && NodeOk(subnet, mask, plen) && After(p4, ix, subnet, plen)
    ensures ix <= r.ix <= |p4| && PastNode(p4, r.ix, subnet, plen) && Consumed(p4, ix, r.ix, subnet + Size(plen))
    ensures Tiles(r.blocks, if ix < |p4| then p4[ix].subnet else subnet + Size(plen), subnet + Size(plen))
    decreases 32 - plen, 0, |p4| - ix
  {
    if ix >= |p4| then ScanOut([], ix)
    else
      var e := p4[ix];
      if !(subnet <= e.subnet < subnet + Size(plen)) then
        ScanOut([], ix)
      else
        DescendReady(p4, ix, subnet, plen);
        if IsOpen(e) then
          var sub := Scan(p4, ix, e.subnet, e.mask, e.plen);
          LaterAfter(p4, ix, sub.ix, subnet, plen);
          var rest := Descendants(p4, sub.ix, subnet, mask, plen);
          DescendJoin(p4, ix, sub, rest, subnet, plen);
          ScanOut(sub.blocks + rest.blocks, rest.ix)
        else
          LaterAfter(p4, ix, ix + 1, subnet, plen);
          var rest := Descendants(p4, ix + 1, subnet, mask, plen);
          DescendSkip(p4, ix, rest, subnet, plen);
          rest
  }

  // ---------------------------------------------------------------------
  // Lemmas the specification needs

  lemma InsideIff(x: nat, subnet: nat, plen: nat)
    requires x < 0x1_0000_0000 && plen <= 32 && Aligned(subnet, plen)
    ensures Inside(x, subnet, Mask4(plen)) <==> subnet <= x < subnet + Size(plen)
  {
    Mask4High(plen);
    AndMask(x, 32, 32 - plen);
    InBlockIff(x, subnet, 32 - plen);
  }

  /** A well-formed entry inside a node that does not sort before it is nested in the node. */
  lemma EntryNested(e: Prefix4, subnet: nat, plen: nat)
    requires PrefixOk(e) && plen <= 32 && Aligned(subnet, plen)
    requires subnet <= e.subnet < subnet + Size(plen)
    requires !Before(e.subnet, e.plen, subnet, plen)
    ensures plen <= e.plen
    ensures e.plen == plen ==> e.subnet == subnet
    ensures e.subnet + Size(e.plen) <= subnet + Size(plen)
  {
    InBlockIff(e.subnet, subnet, 32 - plen);
    if e.plen < plen {
      AlignedWeaken(e.subnet, 32 - plen, 32 - e.plen);
      assert false;
    }
    if e.plen == plen {
      assert e.subnet == subnet;
    }
    var last := e.subnet + Size(e.plen) - 1;
    InBlockIff(last, e.subnet, 32 - e.plen);
    DownDown(last, 32 - e.plen, 32 - plen);
    InBlockIff(last, subnet, 32 - plen);
  }

  /** The mask of a half is the node's mask with the next bit set. */
  lemma MaskStep(plen: nat)
    requires plen < 32
    ensures BitOr(Mask4(plen), Pow2(31 - plen)) == Mask4(plen + 1)
  {
    Mask4High(plen);
    HighMaskAligned(32, 32 - plen);
    OrBit(Mask4(plen), 31 - plen);
    assert Pow2(32 - plen) == 2 * Pow2(31 - plen);
  }

  /** An entry strictly inside a node forces a split: both halves are well-formed nodes and the cursor suits the left one. */
  lemma SplitReady(p4: seq<Prefix4>, ix: nat, subnet: nat, plen: nat)
    requires WfList(p4) && ix < |p4| && plen <= 32 && subnet < 0x1_0000_0000 && Aligned(subnet, plen)
    requires After(p4, ix, subnet, plen)
    requires subnet <= p4[ix].subnet < subnet + Size(plen)
    ensures plen < 32
    ensures NodeOk(subnet, Mask4(plen + 1), plen + 1) && NodeOk(subnet + Size(plen + 1), Mask4(plen + 1), plen + 1)
    ensures Size(plen) == 2 * Size(plen + 1)
    ensures AtOrAfter(p4, ix, subnet, plen + 1)
  {
    assert PrefixOk(p4[ix]);
    EntryNested(p4[ix], subnet, plen);
    HalfStep(subnet, plen);
  }

  /** The results of scanning both halves combine into the result for the node. */
  lemma JoinHalves(p4: seq<Prefix4>, ix: nat, left: ScanOut, right: ScanOut, subnet: nat, plen: nat)
    requires plen < 32 && ix < |p4| && Size(plen) == 2 * Size(plen + 1)
    requires subnet <= p4[ix].subnet < subnet + Size(plen)
    requires ix <= left.ix <= right.ix <= |p4|
    requires Consumed(p4, ix, left.ix, subnet + Size(plen + 1))
    requires Consumed(p4, left.ix, right.ix, subnet + Size(plen))
    requires PastNode(p4, right.ix, subnet + Size(plen + 1), plen + 1)
    requires Tiles(left.blocks, subnet, subnet + Size(plen + 1))
    requires Tiles(right.blocks, subnet + Size(plen + 1), subnet + Size(plen))
    ensures PastNode(p4, right.ix, subnet, plen) && Consumed(p4, ix, right.ix, subnet + Size(plen))
    ensures Tiles(left.blocks + right.blocks, subnet, subnet + Size(plen))
  {
    TilesAppend(left.blocks, right.blocks, subnet, subnet + Size(plen + 1), subnet + Size(plen));
  }

  /** A descendant found by the loop is a well-formed prefix nested strictly inside the node. */
  lemma DescendReady(p4: seq<Prefix4>, ix: nat, subnet: nat, plen: nat)
    requires WfList(p4) && ix < |p4| && plen <= 32 && Aligned(subnet, plen)
    requires After(p4, ix, subnet, plen)
    requires subnet <= p4[ix].subnet < subnet + Size(plen)
    ensures PrefixOk(p4[ix]) && plen < p4[ix].plen
    ensures p4[ix].subnet + Size(p4[ix].plen) <= subnet + Size(plen)
  {
    assert PrefixOk(p4[ix]);
    EntryNested(p4[ix], subnet, plen);
  }

  /** Scanning an open descendant and then the rest of the loop gives the loop's result. */
  lemma DescendJoin(p4: seq<Prefix4>, ix: nat, sub: ScanOut, rest: ScanOut, subnet: nat, plen: nat)
    requires WfList(p4) && ix < sub.ix <= rest.ix <= |p4|
    requires subnet <= p4[ix].subnet && p4[ix].subnet + Size(p4[ix].plen) <= subnet + Size(plen)
    requires PastNode(p4, sub.ix, p4[ix].subnet, p4[ix].plen)
    requires Consumed(p4, ix, sub.ix, p4[ix].subnet + Size(p4[ix].plen))
    requires Tiles(sub.blocks, p4[ix].subnet, p4[ix].subnet + Size(p4[ix].plen))
    requires PastNode(p4, rest.ix, subnet, plen) && Consumed(p4, sub.ix, rest.ix, subnet + Size(plen))
    requires Tiles(rest.blocks, if sub.ix < |p4| then p4[sub.ix].subnet else subnet + Size(plen), subnet + Size(plen))
    ensures PastNode(p4, rest.ix, subnet, plen) && Consumed(p4, ix, rest.ix, subnet + Size(plen))
    ensures Tiles(sub.blocks + rest.blocks, p4[ix].subnet, subnet + Size(plen))
  {
    var e := p4[ix];
    TilesWiden(rest.blocks, if sub.ix < |p4| then p4[sub.ix].subnet else subnet + Size(plen), e.subnet + Size(e.plen), subnet + Size(plen));
    TilesAppend(sub.blocks, rest.blocks, e.subnet, e.subnet + Size(e.plen), subnet + Size(plen));
  }

  /** Skipping a closed descendant keeps the loop's result. */
  lemma DescendSkip(p4: seq<Prefix4>, ix: nat, rest: ScanOut, subnet: nat, plen: nat)
    requires WfList(p4) && ix < rest.ix <= |p4|
    requires p4[ix].subnet < subnet + Size(plen)
    requires PastNode(p4, rest.ix, subnet, plen) && Consumed(p4, ix + 1, rest.ix, subnet + Size(plen))
    requires Tiles(rest.blocks, if ix + 1 < |p4| then p4[ix + 1].subnet else subnet + Size(plen), subnet + Size(plen))
    requires subnet <= p4[ix].subnet
    ensures Consumed(p4, ix, rest.ix, subnet + Size(plen))
    ensures Tiles(rest.blocks, p4[ix].subnet, subnet + Size(plen))
  {
    if ix + 1 < |p4| {
      assert Earlier(p4[ix], p4[ix + 1]);
      TilesWiden(rest.blocks, p4[ix + 1].subnet, p4[ix].subnet, subnet + Size(plen));
    } else {
      TilesWiden(rest.blocks, subnet + Size(plen), p4[ix].subnet, subnet + Size(plen));
    }
  }

  /** The two halves of a node in arithmetic terms. */
  lemma HalfStep(subnet: nat, plen: nat)
    requires plen < 32 && subnet < 0x1_0000_0000 && Aligned(subnet, plen)
    ensures Size(plen + 1) == Pow2(31 - plen) && Size(plen) == 2 * Size(plen + 1)
    ensures Aligned(subnet, plen + 1) && Aligned(subnet + Size(plen + 1), plen + 1)
    ensures subnet + Size(plen) <= 0x1_0000_0000
  {
    Halves(subnet, subnet, 31 - plen);
    EndBound(subnet, plen);
  }

  /** The source's bit operations compute the two halves: clearing the next bit keeps the subnet, setting it adds half the size. */
  lemma HalfBits(subnet: nat, plen: nat)
    requires plen < 32 && subnet < 0x1_0000_0000 && Aligned(subnet, plen)
    ensures Pow2(31 - plen) < 0x1_0000_0000
    ensures BitAnd(subnet, Not32(Pow2(31 - plen))) == subnet
    ensures BitOr(subnet, Pow2(31 - plen)) == subnet + Pow2(31 - plen)
  {
    Pow2Mono(31 - plen, 32);
    Pow32();
    AndNotBit(subnet, 31 - plen, 32);
    OrBit(subnet, 31 - plen);
  }

  lemma EndBound(subnet: nat, plen: nat)
    requires subnet < 0x1_0000_0000 && Aligned(subnet, plen)
    ensures subnet + Size(plen) <= 0x1_0000_0000
  {
    Mask4High(plen);
    HighMaskAligned(32, 32 - plen);
    var top := 0x1_0000_0000 - Size(plen);
    DownMono(subnet, 0x1_0000_0000 - 1, 32 - plen);
    InBlockIff(0x1_0000_0000 - 1, top, 32 - plen);
  }

  /** After the left half, the cursor is positioned for the right half. */
  lemma RightCursor(p4: seq<Prefix4>, j: nat, subnet: nat, plen: nat)
    requires WfList(p4) && j <= |p4| && plen < 32 && Aligned(subnet, plen)
    requires PastNode(p4, j, subnet, plen + 1)
    ensures AtOrAfter(p4, j, subnet + Pow2(31 - plen), plen + 1)
  {
    if j < |p4| && p4[j].subnet == subnet + Pow2(31 - plen) && p4[j].plen <= plen {
      assert Size(plen + 1) == Pow2(31 - plen);
      UpperHalfNotAligned(subnet, 31 - plen, 32 - p4[j].plen) by {
        AlignedWeaken(subnet, 32 - plen - 1, 32 - plen);
      }
    }
  }

  lemma LaterAfter(p4: seq<Prefix4>, i: nat, j: nat, subnet: nat, plen: nat)
    requires WfList(p4) && i < j <= |p4|
    requires Before(subnet, plen, p4[i].subnet, p4[i].plen)
    ensures After(p4, j, subnet, plen)
  {
    if j < |p4| {
      assert Earlier(p4[i], p4[j]);
    }
  }

  lemma SingleTile(subnet: nat, mask: nat, plen: nat)
    requires NodeOk(subnet, mask, plen)
    ensures Tiles([Block4(subnet, mask, plen)], subnet, subnet + Size(plen))
  {
  }

  lemma TilesWiden(bs: seq<Block4>, lo: nat, lo': nat, hi: nat)
    requires Tiles(bs, lo, hi) && lo' <= lo
    ensures Tiles(bs, lo', hi)
  {
  }

  lemma TilesAppend(a: seq<Block4>, b: seq<Block4>, lo: nat, mid: nat, hi: nat)
    requires Tiles(a, lo, mid) && Tiles(b, mid, hi) && lo <= mid <= hi
    ensures Tiles(a + b, lo, hi)
  {
    forall i | 0 <= i < |a + b|
      ensures NodeOk((a + b)[i].subnet, (a + b)[i].mask, (a + b)[i].plen)
      ensures lo <= (a + b)[i].subnet && (a + b)[i].subnet + Size((a + b)[i].plen) <= hi
    {
      if i < |a| {
        assert (a + b)[i] == a[i];
      } else {
        assert (a + b)[i] == b[i - |a|];
      }
    }
    forall i, j | 0 <= i < j < |a + b|
      ensures Precedes((a + b)[i], (a + b)[j])
    {
      if j < |a| {
        assert (a + b)[i] == a[i] && (a + b)[j] == a[j] && Precedes(a[i], a[j]);
      } else if i >= |a| {
        assert (a + b)[i] == b[i - |a|] && (a + b)[j] == b[j - |a|] && Precedes(b[i - |a|], b[j - |a|]);
      } else {
        assert (a + b)[i] == a[i] && (a + b)[j] == b[j - |a|];
      }
    }
  }

  // ---------------------------------------------------------------------
  // Statistics (stats4)

  /** The source's test for the DN42 range 172.20.0.0/14: `(subnet & 0xFFFC0000) == 0xAC140000`. */
  predicate InScope(subnet: nat)
  {
    BitAnd(subnet, 0xFFFC_0000) == 0xAC14_0000
  }

  /** The masked test picks out exactly the addresses of 172.20.0.0/14. */
  lemma InScopeIff(subnet: nat)
    requires subnet < 0x1_0000_0000
    ensures InScope(subnet) <==> 0xAC14_0000 <= subnet < 0xAC18_0000
  {
    Pow2Values();
    assert HighMask(32, 18) == 0xFFFC_0000;
    AndMask(subnet, 32, 18);
    MultipleAligned(0x2B05, 18);
    InBlockIff(subnet, 0xAC14_0000, 18);
  }

  lemma {:induction false} MultipleAligned(m: nat, k: nat)
    ensures Down(m * Pow2(k), k) == m * Pow2(k)
  {
    if k > 0 {
      assert m * Pow2(k) / 2 == m * Pow2(k - 1);
      MultipleAligned(m, k - 1);
    }
  }

  /** Number of emitted blocks that stats4 counts. */
  function Nets(bs: seq<Block4>): nat
  {
    if |bs| == 0 then 0 else Nets(bs[..|bs| - 1]) + (if InScope(bs[|bs| - 1].subnet) then 1 else 0)
  }

  /** Number of addresses in the emitted blocks that stats4 counts. */
  function Addr(bs: seq<Block4>): nat
  {
    if |bs| == 0 then 0
    else Addr(bs[..|bs| - 1]) + (if InScope(bs[|bs| - 1].subnet) then Size(bs[|bs| - 1].plen) else 0)
  }

  lemma {:induction false} StatsAppend(a: seq<Block4>, b: seq<Block4>)
    ensures Nets(a + b) == Nets(a) + Nets(b) && Addr(a + b) == Addr(a) + Addr(b)
    decreases |b|
  {
    if |b| == 0 {
      assert a + b == a;
    } else {
      assert (a + b)[..|a + b| - 1] == a + b[..|b| - 1];
      StatsAppend(a, b[..|b| - 1]);
    }
  }

  // ---------------------------------------------------------------------
  // Coverage: the emitted blocks are exactly the free addresses

  /** The entry's block contains address x. */
  predicate Covers(e: Prefix4, x: nat)
  {
    e.subnet <= x < e.subnet + Size(e.plen)
  }

  /** Some emitted block contains address x. */
  predicate InBlocks(bs: seq<Block4>, x: nat)
  {
    exists i :: 0 <= i < |bs| && bs[i].subnet <= x < bs[i].subnet + Size(bs[i].plen)
  }

  /**
   * Whether x is free after entries lo .. hi-1 have been seen, starting from acc:
   * each entry that covers x overrides the verdict with its own policy.
   */
  function Decide(p4: seq<Prefix4>, lo: nat, hi: nat, x: nat, acc: bool): bool
    requires lo <= hi <= |p4|
    decreases hi - lo
  {
    if lo == hi then acc
    else Decide(p4, lo + 1, hi, x, if Covers(p4[lo], x) then IsOpen(p4[lo]) else acc)
  }

  lemma {:induction false} DecideSplit(p4: seq<Prefix4>, lo: nat, mid: nat, hi: nat, x: nat, acc: bool)
    requires lo <= mid <= hi <= |p4|
    ensures Decide(p4, lo, hi, x, acc) == Decide(p4, mid, hi, x, Decide(p4, lo, mid, x, acc))
    decreases mid - lo
  {
    if lo < mid {
      DecideSplit(p4, lo + 1, mid, hi, x, if Covers(p4[lo], x) then IsOpen(p4[lo]) else acc);
    }
  }

  lemma {:induction false} DecideNone(p4: seq<Prefix4>, lo: nat, hi: nat, x: nat, acc: bool)
    requires lo <= hi <= |p4|
    requires forall k :: lo <= k < hi ==> !Covers(p4[k], x)
    ensures Decide(p4, lo, hi, x, acc) == acc
    decreases hi - lo
  {
    if lo < hi {
      DecideNone(p4, lo + 1, hi, x, acc);
    }
  }

  /** Entries from a cursor that already starts beyond x do not change the verdict. */
  lemma DecideBeyond(p4: seq<Prefix4>, lo: nat, hi: nat, x: nat, acc: bool)
    requires WfList(p4) && lo <= hi <= |p4|
    requires lo < hi ==> x < p4[lo].subnet
    ensures Decide(p4, lo, hi, x, acc) == acc
  {
    forall k | lo < k < hi
      ensures x < p4[k].subnet
    {
      assert Earlier(p4[lo], p4[k]);
    }
    DecideNone(p4, lo, hi, x, acc);
  }

  /** The entries a scan of a node consumes are all nested in the node. */
  lemma ConsumedNested(p4: seq<Prefix4>, lo: nat, hi: nat, subnet: nat, plen: nat)
    requires WfList(p4) && lo <= hi <= |p4| && plen <= 32 && Aligned(subnet, plen)
    requires AtOrAfter(p4, lo, subnet, plen) && Consumed(p4, lo, hi, subnet + Size(plen))
    ensures forall k :: lo <= k < hi ==> subnet <= p4[k].subnet && p4[k].subnet + Size(p4[k].plen) <= subnet + Size(plen)
  {
    forall k | lo <= k < hi
      ensures subnet <= p4[k].subnet && p4[k].subnet + Size(p4[k].plen) <= subnet + Size(plen)
    {
      assert PrefixOk(p4[k]);
      if k < hi - 1 {
        assert Earlier(p4[k], p4[hi - 1]);
      }
      if lo < k {
        assert Earlier(p4[lo], p4[k]);
      }
      EntryNested(p4[k], subnet, plen);
    }
  }

  lemma InBlocksAppend(a: seq<Block4>, b: seq<Block4>, x: nat)
    ensures InBlocks(a + b, x) <==> InBlocks(a, x) || InBlocks(b, x)
  {
    if InBlocks(a + b, x) {
      var i :| 0 <= i < |a + b| && (a + b)[i].subnet <= x < (a + b)[i].subnet + Size((a + b)[i].plen);
      if i < |a| {
        assert (a + b)[i] == a[i];
      } else {
        assert (a + b)[i] == b[i - |a|];
      }
    }
    if InBlocks(a, x) {
      var i :| 0 <= i < |a| && a[i].subnet <= x < a[i].subnet + Size(a[i].plen);
      assert (a + b)[i] == a[i];
    }
    if InBlocks(b, x) {
      var i :| 0 <= i < |b| && b[i].subnet <= x < b[i].subnet + Size(b[i].plen);
      assert (a + b)[|a| + i] == b[i];
    }
  }

  lemma TilesOutside(bs: seq<Block4>, lo: nat, hi: nat, x: nat)
    requires Tiles(bs, lo, hi) && (x < lo || hi <= x)
    ensures !InBlocks(bs, x)
  {
  }

  lemma SingleIn(b: Block4, x: nat)
    requires b.subnet <= x < b.subnet + Size(b.plen)
    ensures InBlocks([b], x)
  {
    assert [b][0] == b;
  }

  /** Within a node, x lies in an emitted block exactly when the entries consumed leave it free. */
  lemma {:induction false} ScanCover(p4: seq<Prefix4>, ix: nat, subnet: nat, mask: nat, plen: nat, x: nat)
    requires WfList(p4) && ix <= |p4| && NodeOk(subnet, mask, plen) && AtOrAfter(p4, ix, subnet, plen)
    requires subnet <= x < subnet + Size(plen)
    ensures InBlocks(Scan(p4, ix, subnet, mask, plen).blocks, x) == Decide(p4, ix, Scan(p4, ix, subnet, mask, plen).ix, x, true)
    decreases 32 - plen, 1, 0
  {
    var r := Scan(p4, ix, subnet, mask, plen);
    if ix >= |p4| {
      SingleIn(Block4(subnet, mask, plen), x);
    } else if p4[ix].subnet == subnet && p4[ix].plen == plen {
      NextAfter(p4, ix);
      if !IsOpen(p4[ix]) {
        DescCover(p4, ix + 1, subnet, mask, plen, x);
      } else if ix + 1 >= |p4| {
        SingleIn(Block4(subnet, mask, plen), x);
      } else {
        BisectCover(p4, ix + 1, subnet, mask, plen, x);
      }
    } else {
      BisectCover(p4, ix, subnet, mask, plen, x);
    }
  }

  lemma {:induction false} BisectCover(p4: seq<Prefix4>, ix: nat, subnet: nat, mask: nat, plen: nat, x: nat)
    requires WfList(p4) && ix < |p4| && NodeOk(subnet, mask, plen) && After(p4, ix, subnet, plen)
    requires subnet <= x < subnet + Size(plen)
    ensures InBlocks(Bisect(p4, ix, subnet, mask, plen).blocks, x) == Decide(p4, ix, Bisect(p4, ix, subnet, mask, plen).ix, x, true)
    decreases 32 - plen, 0, 1
  {
    if !(subnet <= p4[ix].subnet < subnet + Size(plen)) {
      assert Bisect(p4, ix, subnet, mask, plen) == ScanOut([Block4(subnet, mask, plen)], ix);
      SingleIn(Block4(subnet, mask, plen), x);
    } else if plen < 32 && x < subnet + Size(plen + 1) {
      LeftCover(p4, ix, subnet, mask, plen, x);
    } else {
      RightCover(p4, ix, subnet, mask, plen, x);
    }
  }

  /** Coverage when the node is split and x lies in its lower half. */
  lemma {:induction false} LeftCover(p4: seq<Prefix4>, ix: nat, subnet: nat, mask: nat, plen: nat, x: nat)
    requires WfList(p4) && ix < |p4| && NodeOk(subnet, mask, plen) && After(p4, ix, subnet, plen)
    requires subnet <= p4[ix].subnet < subnet + Size(plen)
    requires plen < 32 && subnet <= x < subnet + Size(plen + 1)
    ensures InBlocks(Bisect(p4, ix, subnet, mask, plen).blocks, x) == Decide(p4, ix, Bisect(p4, ix, subnet, mask, plen).ix, x, true)
    decreases 32 - plen, 0, 0
  {
    SplitReady(p4, ix, subnet, plen);
    HalfStep(subnet, plen);
    var lo, hi, m := subnet, subnet + Size(plen + 1), Mask4(plen + 1);
    BisectSplit(p4, ix, subnet, mask, plen, lo, hi, m);
    var left := Scan(p4, ix, lo, m, plen + 1);
    ScanCover(p4, ix, lo, m, plen + 1, x);
    SplitCover(p4, ix, left, Scan(p4, left.ix, hi, m, plen + 1), subnet, plen, x);
  }

  /** Coverage when the node is split and x lies in its upper half. */
  lemma {:induction false} RightCover(p4: seq<Prefix4>, ix: nat, subnet: nat, mask: nat, plen: nat, x: nat)
    requires WfList(p4) && ix < |p4| && NodeOk(subnet, mask, plen) && After(p4, ix, subnet, plen)
    requires subnet <= p4[ix].subnet < subnet + Size(plen)
    requires subnet <= x < subnet + Size(plen)
    requires plen < 32 ==> subnet + Size(plen + 1) <= x
    ensures InBlocks(Bisect(p4, ix, subnet, mask, plen).blocks, x) == Decide(p4, ix, Bisect(p4, ix, subnet, mask, plen).ix, x, true)
    decreases 32 - plen, 0, 0
  {
    SplitReady(p4, ix, subnet, plen);
    HalfStep(subnet, plen);
    var lo, hi, m := subnet, subnet + Size(plen + 1), Mask4(plen + 1);
    BisectSplit(p4, ix, subnet, mask, plen, lo, hi, m);
    var left := Scan(p4, ix, lo, m, plen + 1);
    var right := Scan(p4, left.ix, hi, m, plen + 1);
    ScanCover(p4, left.ix, hi, m, plen + 1, x);
    SplitCover(p4, ix, left, right, subnet, plen, x);
  }

  /** The split branch of Bisect: scanning the lower half and then the upper half from where the first left the cursor. */
  lemma BisectSplit(p4: seq<Prefix4>, ix: nat, subnet: nat, mask: nat, plen: nat, lo: nat, hi: nat, m: nat)
    requires WfList(p4) && ix < |p4| && NodeOk(subnet, mask, plen) && After(p4, ix, subnet, plen)
    requires subnet <= p4[ix].subnet < subnet + Size(plen) && plen < 32
    requires lo == subnet && hi == subnet + Size(plen + 1) && m == Mask4(plen + 1)
    ensures NodeOk(lo, m, plen + 1) && NodeOk(hi, m, plen + 1) && AtOrAfter(p4, ix, lo, plen + 1)
    ensures AtOrAfter(p4, Scan(p4, ix, lo, m, plen + 1).ix, hi, plen + 1)
    ensures Bisect(p4, ix, subnet, mask, plen).blocks
            == Scan(p4, ix, lo, m, plen + 1).blocks + Scan(p4, Scan(p4, ix, lo, m, plen + 1).ix, hi, m, plen + 1).blocks
    ensures Bisect(p4, ix, subnet, mask, plen).ix == Scan(p4, Scan(p4, ix, lo, m, plen + 1).ix, hi, m, plen + 1).ix
  {
    SplitReady(p4, ix, subnet, plen);
    HalfStep(subnet, plen);
    var left := Scan(p4, ix, subnet, Mask4(plen + 1), plen + 1);
    RightCursor(p4, left.ix, subnet, plen);
  }

  /** Coverage of the two halves combines into coverage of the node. */
  lemma SplitCover(p4: seq<Prefix4>, ix: nat, left: ScanOut, right: ScanOut, subnet: nat, plen: nat, x: nat)
    requires WfList(p4) && plen < 32 && ix <= left.ix <= right.ix <= |p4|
    requires Aligned(subnet, plen + 1) && AtOrAfter(p4, ix, subnet, plen + 1)
    requires Consumed(p4, ix, left.ix, subnet + Size(plen + 1)) && PastNode(p4, left.ix, subnet, plen + 1)
    requires Tiles(left.blocks, subnet, subnet + Size(plen + 1))
    requires Tiles(right.blocks, subnet + Size(plen + 1), subnet + 2 * Size(plen + 1))
    requires subnet <= x < subnet + 2 * Size(plen + 1)
    requires x < subnet + Size(plen + 1) ==> InBlocks(left.blocks, x) == Decide(p4, ix, left.ix, x, true)
    requires subnet + Size(plen + 1) <= x ==> InBlocks(right.blocks, x) == Decide(p4, left.ix, right.ix, x, true)
    ensures InBlocks(left.blocks + right.blocks, x) == Decide(p4, ix, right.ix, x, true)
  {
    var mid := subnet + Size(plen + 1);
    InBlocksAppend(left.blocks, right.blocks, x);
    DecideSplit(p4, ix, left.ix, right.ix, x, true);
    if x < mid {
      TilesOutside(right.blocks, mid, subnet + 2 * Size(plen + 1), x);
      DecideBeyond(p4, left.ix, right.ix, x, Decide(p4, ix, left.ix, x, true));
    } else {
      TilesOutside(left.blocks, subnet, mid, x);
      ConsumedNested(p4, ix, left.ix, subnet, plen + 1);
      DecideNone(p4, ix, left.ix, x, true);
    }
  }

  lemma {:induction false} DescCover(p4: seq<Prefix4>, ix: nat, subnet: nat, mask: nat, plen: nat, x: nat)
    requires WfList(p4) && ix <= |p4| && NodeOk(subnet, mask, plen) && After(p4, ix, subnet, plen)
    requires subnet <= x < subnet + Size(plen)
    ensures InBlocks(Descendants(p4, ix, subnet, mask, plen).blocks, x) == Decide(p4, ix, Descendants(p4, ix, subnet, mask, plen).ix, x, false)
    decreases 32 - plen, 0, |p4| - ix, 1
  {
    if ix < |p4| && subnet <= p4[ix].subnet < subnet + Size(plen) {
      var e := p4[ix];
      DescendReady(p4, ix, subnet, plen);
      if IsOpen(e) {
        var sub := Scan(p4, ix, e.subnet, e.mask, e.plen);
        LaterAfter(p4, ix, sub.ix, subnet, plen);
        if x >= e.subnet + Size(e.plen) {
          DescCover(p4, sub.ix, subnet, mask, plen, x);
        }
        DescOpenCover(p4, ix, subnet, mask, plen, x);
      } else {
        LaterAfter(p4, ix, ix + 1, subnet, plen);
        DescCover(p4, ix + 1, subnet, mask, plen, x);
      }
    }
  }

  /** An open entry inside a closed node: its own scan decides the addresses it covers, the rest of the node the others. */
  lemma DescOpenCover(p4: seq<Prefix4>, ix: nat, subnet: nat, mask: nat, plen: nat, x: nat)
    requires WfList(p4) && ix < |p4| && NodeOk(subnet, mask, plen) && After(p4, ix, subnet, plen)
    requires subnet <= x < subnet + Size(plen)
    requires subnet <= p4[ix].subnet < subnet + Size(plen) && IsOpen(p4[ix])
    requires PrefixOk(p4[ix]) && AtOrAfter(p4, ix, p4[ix].subnet, p4[ix].plen)
    requires After(p4, Scan(p4, ix, p4[ix].subnet, p4[ix].mask, p4[ix].plen).ix, subnet, plen)
    requires x >= p4[ix].subnet + Size(p4[ix].plen) ==>
      var rest := Descendants(p4, Scan(p4, ix, p4[ix].subnet, p4[ix].mask, p4[ix].plen).ix, subnet, mask, plen);
      InBlocks(rest.blocks, x) == Decide(p4, Scan(p4, ix, p4[ix].subnet, p4[ix].mask, p4[ix].plen).ix, rest.ix, x, false)
    ensures InBlocks(Descendants(p4, ix, subnet, mask, plen).blocks, x) == Decide(p4, ix, Descendants(p4, ix, subnet, mask, plen).ix, x, false)
    decreases 32 - plen, 0, |p4| - ix, 0
  {
    var e := p4[ix];
    DescendReady(p4, ix, subnet, plen);
    var sub := Scan(p4, ix, e.subnet, e.mask, e.plen);
    var rest := Descendants(p4, sub.ix, subnet, mask, plen);
    assert Descendants(p4, ix, subnet, mask, plen) == ScanOut(sub.blocks + rest.blocks, rest.ix);
    var eEnd := e.subnet + Size(e.plen);
    InBlocksAppend(sub.blocks, rest.blocks, x);
    DecideSplit(p4, ix, sub.ix, rest.ix, x, false);
    if x < e.subnet {
      TilesOutside(sub.blocks, e.subnet, eEnd, x);
      TilesOutside(rest.blocks, eEnd, subnet + Size(plen), x);
      DecideBeyond(p4, ix, rest.ix, x, false);
    } else if x < eEnd {
      ScanCover(p4, ix, e.subnet, e.mask, e.plen, x);
      TilesOutside(rest.blocks, eEnd, subnet + Size(plen), x);
      DecideBeyond(p4, sub.ix, rest.ix, x, Decide(p4, ix, sub.ix, x, false));
    } else {
      TilesOutside(sub.blocks, e.subnet, eEnd, x);
      ConsumedNested(p4, ix, sub.ix, e.subnet, e.plen);
      DecideNone(p4, ix, sub.ix, x, false);
    }
  }

  // ---------------------------------------------------------------------
  // The whole address space

  /** Entry k is a longest prefix of the list covering x. */
  predicate Longest(p4: seq<Prefix4>, k: nat, x: nat)
  {
    k < |p4| && Covers(p4[k], x)
    && forall m :: 0 <= m < |p4| && Covers(p4[m], x) ==> p4[m].plen <= p4[k].plen
  }

  /** x is free: no allocation covers it, or the most specific one that does is open. */
  predicate FreeAddr(p4: seq<Prefix4>, x: nat)
  {
    (forall k :: 0 <= k < |p4| ==> !Covers(p4[k], x))
    || exists k :: 0 <= k < |p4| && Longest(p4, k, x) && IsOpen(p4[k])
  }

  /**
   * 0.0.0.0/0, the node updateFree4 starts the scan from.  Named rather
   * than written as literals, so that the verifier does not evaluate the
   * recursive bit functions at 0 wherever the root scan is mentioned.
   */
  const RootSubnet: nat := 0
  const RootMask: nat := 0
  const RootLen: nat := 0

  /** The root scan the view starts with: 0.0.0.0/0 from the first entry. */
  function ScanAll(p4: seq<Prefix4>): (r: ScanOut)
    requires WfList(p4)
    ensures r.ix == |p4|
  {
    RootNode();
    Scan(p4, 0, RootSubnet, RootMask, RootLen)
  }

  /** The free blocks of the root scan are well formed and ascend without overlap across the whole space. */
  lemma ScanAllTiles(p4: seq<Prefix4>)
    requires WfList(p4)
    ensures Tiles(ScanAll(p4).blocks, 0, 0x1_0000_0000)
  {
    RootNode();
  }

  /** 0.0.0.0/0 is a well-formed node spanning the whole space. */
  lemma RootNode()
    ensures NodeOk(RootSubnet, RootMask, RootLen) && Size(RootLen) == 0x1_0000_0000
  {
    DownZero(32);
    Pow32();
  }

  /**
   * The scan reports exactly the free addresses: an address lies in an
   * emitted block if and only if no entry covers it or the longest entry
   * covering it has policy "open".
   */
  lemma ScanAllFree(p4: seq<Prefix4>, x: nat)
    requires WfList(p4) && x < 0x1_0000_0000
    ensures InBlocks(ScanAll(p4).blocks, x) <==> FreeAddr(p4, x)
  {
    RootNode();
    ScanCover(p4, 0, RootSubnet, RootMask, RootLen, x);
    DecideFree(p4, x);
  }

  /** Of two entries covering the same address, the later one in the sorted list is the longer. */
  lemma LaterCoverLonger(p4: seq<Prefix4>, i: nat, j: nat, x: nat)
    requires WfList(p4) && i < j < |p4| && Covers(p4[i], x) && Covers(p4[j], x)
    ensures p4[i].plen < p4[j].plen
  {
    var a, b := p4[i], p4[j];
    assert PrefixOk(a) && PrefixOk(b) && Earlier(a, b);
    if b.plen <= a.plen {
      InBlockIff(x, a.subnet, 32 - a.plen);
      InBlockIff(x, b.subnet, 32 - b.plen);
      DownDown(x, 32 - a.plen, 32 - b.plen);
      DownBounds(a.subnet, 32 - b.plen);
    }
  }

  /** The verdict of a range is the policy of its last covering entry. */
  lemma DecideLast(p4: seq<Prefix4>, lo: nat, k: nat, hi: nat, x: nat, acc: bool)
    requires lo <= k < hi <= |p4| && Covers(p4[k], x)
    requires forall m :: k < m < hi ==> !Covers(p4[m], x)
    ensures Decide(p4, lo, hi, x, acc) == IsOpen(p4[k])
  {
    DecideSplit(p4, lo, k, hi, x, acc);
    DecideNone(p4, k + 1, hi, x, IsOpen(p4[k]));
  }

  lemma {:induction false} LastCover(p4: seq<Prefix4>, hi: nat, x: nat) returns (k: nat)
    requires hi <= |p4| && exists m :: 0 <= m < hi && Covers(p4[m], x)
    ensures k < hi && Covers(p4[k], x) && forall m :: k < m < hi ==> !Covers(p4[m], x)
  {
    if Covers(p4[hi - 1], x) {
      k := hi - 1;
    } else {
      k := LastCover(p4, hi - 1, x);
    }
  }

  /** Folding the list left to right, last covering entry wins, decides exactly the free addresses. */
  lemma DecideFree(p4: seq<Prefix4>, x: nat)
    requires WfList(p4)
    ensures Decide(p4, 0, |p4|, x, true) <==> FreeAddr(p4, x)
  {
    if forall k :: 0 <= k < |p4| ==> !Covers(p4[k], x) {
      DecideNone(p4, 0, |p4|, x, true);
    } else {
      var k := LastCover(p4, |p4|, x);
      DecideLast(p4, 0, k, |p4|, x, true);
      forall m | 0 <= m < |p4| && Covers(p4[m], x) && m != k
        ensures p4[m].plen < p4[k].plen
      {
        LaterCoverLonger(p4, m, k, x);
      }
      assert Longest(p4, k, x);
      if FreeAddr(p4, x) {
        var k' :| 0 <= k' < |p4| && Longest(p4, k', x) && IsOpen(p4[k']);
        assert k' == k;
      }
    }
  }

  /** With no allocations the scan reports the whole space as one /0 block. */
  lemma ScanNothing()
    ensures ScanAll([]).blocks == [Block4(0, 0, 0)]
  {
  }

  /** A closed 0.0.0.0/0 entry leaves nothing free. */
  lemma ScanClosedRoot(policy: Option<String>)
    requires policy != Some("open")
    ensures WfList([Prefix4(0, 0, 0, policy)]) && ScanAll([Prefix4(0, 0, 0, policy)]).blocks == []
  {
    RootNode();
  }

  // ---------------------------------------------------------------------
  // One-step unfoldings of the specification, used by the view's methods

  lemma ScanExactClosed(p4: seq<Prefix4>, ix: nat, subnet: nat, mask: nat, plen: nat)
    requires WfList(p4) && ix < |p4| && NodeOk(subnet, mask, plen)
    requires p4[ix].subnet == subnet && p4[ix].plen == plen && !IsOpen(p4[ix])
    ensures After(p4, ix + 1, subnet, plen)
    ensures Scan(p4, ix, subnet, mask, plen) == Descendants(p4, ix + 1, subnet, mask, plen)
  {
    NextAfter(p4, ix);
  }

  lemma ScanExactOpen(p4: seq<Prefix4>, ix: nat, subnet: nat, mask: nat, plen: nat)
    requires WfList(p4) && ix + 1 < |p4| && NodeOk(subnet, mask, plen)
    requires p4[ix].subnet == subnet && p4[ix].plen == plen && IsOpen(p4[ix])
    ensures After(p4, ix + 1, subnet, plen)
    ensures Scan(p4, ix, subnet, mask, plen) == Bisect(p4, ix + 1, subnet, mask, plen)
  {
    NextAfter(p4, ix);
  }

  lemma ScanOther(p4: seq<Prefix4>, ix: nat, subnet: nat, mask: nat, plen: nat)
    requires WfList(p4) && ix < |p4| && NodeOk(subnet, mask, plen) && AtOrAfter(p4, ix, subnet, plen)
    requires !(p4[ix].subnet == subnet && p4[ix].plen == plen)
    ensures After(p4, ix, subnet, plen)
    ensures Scan(p4, ix, subnet, mask, plen) == Bisect(p4, ix, subnet, mask, plen)
  {
  }

  lemma BisectEmit(p4: seq<Prefix4>, ix: nat, subnet: nat, mask: nat, plen: nat)
    requires WfList(p4) && ix < |p4| && NodeOk(subnet, mask, plen) && After(p4, ix, subnet, plen)
    requires !(subnet <= p4[ix].subnet < subnet + Size(plen))
    ensures Bisect(p4, ix, subnet, mask, plen) == ScanOut([Block4(subnet, mask, plen)], ix)
  {
  }

  lemma DescendStop(p4: seq<Prefix4>, ix: nat, subnet: nat, mask: nat, plen: nat)
    requires WfList(p4) && ix <= |p4| && NodeOk(subnet, mask, plen) && After(p4, ix, subnet, plen)
    requires ix < |p4| ==> !(subnet <= p4[ix].subnet < subnet + Size(plen))
    ensures Descendants(p4, ix, subnet, mask, plen) == ScanOut([], ix)
  {
  }

  lemma DescendOpen(p4: seq<Prefix4>, ix: nat, subnet: nat, mask: nat, plen: nat)
    requires WfList(p4) && ix < |p4| && NodeOk(subnet, mask, plen) && After(p4, ix, subnet, plen)
    requires subnet <= p4[ix].subnet < subnet + Size(plen) && IsOpen(p4[ix])
    ensures plen < p4[ix].plen && PrefixOk(p4[ix])
    ensures var sub := Scan(p4, ix, p4[ix].subnet, p4[ix].mask, p4[ix].plen);
      ix < sub.ix && After(p4, sub.ix, subnet, plen)
      && Descendants(p4, ix, subnet, mask, plen)
         == ScanOut(sub.blocks + Descendants(p4, sub.ix, subnet, mask, plen).blocks, Descendants(p4, sub.ix, subnet, mask, plen).ix)
  {
    DescendReady(p4, ix, subnet, plen);
    var e := p4[ix];
    var sub := Scan(p4, ix, e.subnet, e.mask, e.plen);
    ScanAdvances(p4, ix, e.subnet, e.mask, e.plen);
    LaterAfter(p4, ix, sub.ix, subnet, plen);
  }

  lemma DescendClosed(p4: seq<Prefix4>, ix: nat, subnet: nat, mask: nat, plen: nat)
    requires WfList(p4) && ix < |p4| && NodeOk(subnet, mask, plen) && After(p4, ix, subnet, plen)
    requires subnet <= p4[ix].subnet < subnet + Size(plen) && !IsOpen(p4[ix])
    ensures After(p4, ix + 1, subnet, plen)
    ensures Descendants(p4, ix, subnet, mask, plen) == Descendants(p4, ix + 1, subnet, mask, plen)
  {
    DescendReady(p4, ix, subnet, plen);
    LaterAfter(p4, ix, ix + 1, subnet, plen);
  }

  /** Scanning a node that is itself the cursor entry consumes that entry. */
  lemma ScanAdvances(p4: seq<Prefix4>, ix: nat, subnet: nat, mask: nat, plen: nat)
    requires WfList(p4) && ix < |p4| && NodeOk(subnet, mask, plen)
    requires p4[ix].subnet == subnet && p4[ix].plen == plen
    ensures ix < Scan(p4, ix, subnet, mask, plen).ix
  {
  }

  /** `bit = 2 ** (32 - (plen + 1)) >>> 0` is the size of a half. */
  lemma NextBit(plen: nat, bit: nat)
    requires plen < 32 && bit == Pow2(32 - (plen + 1)) % 0x1_0000_0000
    ensures bit == Pow2(31 - plen) && bit == Size(plen + 1) && bit < 0x1_0000_0000
  {
    Pow2Mono(31 - plen, 32);
    Pow32();
    DivUnique(Pow2(31 - plen), 0x1_0000_0000, 0, Pow2(31 - plen));
  }

  /** `(mask | bit) >>> 0` is the mask of the halves. */
  lemma NextMask(mask: nat, plen: nat, bit: nat, m: nat)
    requires plen < 32 && mask == Mask4(plen) && bit == Pow2(31 - plen)
    requires m == BitOr(mask, bit) % 0x1_0000_0000
    ensures m == Mask4(plen + 1)
  {
    MaskStep(plen);
    Pow32();
    HighMaskAligned(32, 31 - plen);
    assert Mask4(plen + 1) < 0x1_0000_0000;
    DivUnique(Mask4(plen + 1), 0x1_0000_0000, 0, Mask4(plen + 1));
  }

  /** `(subnet & ~bit) >>> 0` is the lower half, which starts at the node itself. */
  lemma LowHalf(subnet: nat, plen: nat, bit: nat, lo: nat)
    requires plen < 32 && subnet < 0x1_0000_0000 && Aligned(subnet, plen)
    requires bit == Pow2(31 - plen) && bit < 0x1_0000_0000
    requires lo == BitAnd(subnet, Not32(bit))
    ensures lo == subnet
  {
    HalfBits(subnet, plen);
  }

  /** `(subnet | bit) >>> 0` is the upper half. */
  lemma HighHalf(subnet: nat, plen: nat, bit: nat, hi: nat)
    requires plen < 32 && subnet < 0x1_0000_0000 && Aligned(subnet, plen)
    requires bit == Pow2(31 - plen)
    requires hi == BitOr(subnet, bit) % 0x1_0000_0000
    ensures hi == subnet + Size(plen + 1)
  {
    HalfBits(subnet, plen);
    HalfStep(subnet, plen);
    Pow32();
    DivUnique(subnet + bit, 0x1_0000_0000, 0, subnet + bit);
  }

  /**
   * The split step of scanSubnets: one more bit of prefix, `bit = 2^(32 - plen)`,
   * the mask with that bit set, and the lower and upper halves `subnet & ~bit`
   * and `subnet | bit`, each taken `>>> 0`.
   */
  method Halves4(subnet: nat, mask: nat, plen: nat) returns (lo: nat, hi: nat, mask': nat)
    requires NodeOk(subnet, mask, plen) && plen < 32
    ensures mask' == Mask4(plen + 1)
    ensures lo == subnet && hi == subnet + Size(plen + 1)
  {
    var bit := Pow2(32 - (plen + 1)) % 0x1_0000_0000;
    NextBit(plen, bit);
    mask' := BitOr(mask, bit) % 0x1_0000_0000;
    NextMask(mask, plen, bit, mask');
    lo := BitAnd(subnet, Not32(bit));
    LowHalf(subnet, plen, bit, lo);
    hi := BitOr(subnet, bit) % 0x1_0000_0000;
    HighHalf(subnet, plen, bit, hi);
  }

  /**
   * `(2 ** (32 - plen)) >>> 0` for the length plen of a half, as written:
   * past /32 the power is a fraction and the shift truncates it to 0.
   */
  function SplitBitAsWritten(plen: nat): nat
  {
    if plen <= 32 then Pow2(32 - plen) % 0x1_0000_0000 else 0
  }

  /**
   * The scan as written, at a /32 node or deeper whose cursor entry has the
   * node's address and a length that never equals the node's (NaN, or
   * negative): the entry still passes the descendant test, and both halves
   * are the node itself with the same mask, one bit longer, so the
   * recursion never ends.
   */
  lemma SplitPastHostAsWritten(subnet: nat, plen: nat)
    requires subnet < 0x1_0000_0000 && plen >= 32
    ensures Mask4(32) == 0xFFFF_FFFF && BitAnd(subnet, Mask4(32)) == subnet
    ensures SplitBitAsWritten(plen + 1) == 0
    ensures BitOr(Mask4(32), SplitBitAsWritten(plen + 1)) % 0x1_0000_0000 == Mask4(32)
    ensures BitAnd(subnet, Not32(SplitBitAsWritten(plen + 1))) == subnet
    ensures BitOr(subnet, SplitBitAsWritten(plen + 1)) % 0x1_0000_0000 == subnet
  {
    Pow32();
    AndOnes(subnet, 32);
  }

  /** `(x & mask) >>> 0 == subnet`: the test whether x lies inside the node. */
  method Masked4(x: nat, subnet: nat, mask: nat, plen: nat) returns (m: nat)
    requires x < 0x1_0000_0000 && NodeOk(subnet, mask, plen)
    ensures m == subnet <==> subnet <= x < subnet + Size(plen)
  {
    InsideIff(x, subnet, plen);
    m := BitAnd(x, mask);
  }
}
