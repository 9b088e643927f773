// The IPv6 free view: parsing inet6num CIDRs into their 64-bit network
// part, the netspace counter, the longest-prefix availability test and the
// random /48 candidates it screens inside fd00::/8.
module FreeIPv6 {

  import opened Wrappers
  import opened Bits
  import opened Text
  import P4 = Prefixes4
  import V4 = FreeView4

  /**
   * An allocated inet6num prefix as the view keeps it.  The subnet is the
   * value of the first four groups (the upper 64 bits); the length is
   * whatever parseInt read, at most 64.
   */
  datatype Prefix6 = Prefix6(subnet: int, mask: int, plen: int, policy: Option<String>)

  /** Outcome of parse6. */
  datatype Parsed6 =
    | NoPrefix                                  // no length, or one over 64: parse6 returns undefined
    | Throws                                    // a group is not hexadecimal: BigInt(NaN) throws
    | Net(subnet: int, mask: int, plen: int)

  predicate IsOpen6(p: Prefix6)
  {
    p.policy == Some("open")
  }

  // ---------------------------------------------------------------------
  // parse6

  /**
   * `BigInt(0xFFFFFFFFFFFFFFFF) - (2^(64 - plen) - 1)`.  The literal is a
   * double and rounds to 2^64, so the mask is one more than the netmask
   * 2^64 - 2^(64 - plen) (and is 2^64 itself for a /64).
   */
  function Mask6(plen: int): int
    requires plen <= 64
  {
    0x1_0000_0000_0000_0000 + 1 - Pow2((64 - plen) as nat)
  }

  /** `k` copies of the group "0". */
  function Zeros(k: nat): (r: seq<String>)
    ensures |r| == k
  {
    if k == 0 then [] else ["0"] + Zeros(k - 1)
  }

  /** The groups after canonicalising '::': "0" groups go in at the first empty group until there are eight. */
  function Expanded(quads: seq<String>): seq<String>
  {
    var ix := IndexOf(quads, "");
    if ix == -1 || |quads| >= 8 then quads
    else quads[..ix] + Zeros(8 - |quads|) + quads[ix..]
  }

  /** The value of one group: an empty group counts 0, any other is `parseInt('0x' + q)`, None for NaN. */
  function QuadValue(q: String): Option<int>
  {
    if q == "" then Some(0) else ParseInt("0x" + q)
  }

  /** `num = num * 65536 + quad` over the first k groups; a missing group reads as NaN. */
  function QuadsValue(quads: seq<String>, k: nat): Option<int>
  {
    if k == 0 then Some(0)
    else
      match QuadsValue(quads, k - 1)
      case None => None
      case Some(v) =>
        match (if k - 1 < |quads| then QuadValue(quads[k - 1]) else None)
        case None => None
        case Some(q) => Some(v * 65536 + q)
  }

  /** The length part of a CIDR: `parseInt(s1[1])`, NaN when there is no '/'. */
  function LengthPart(s1: seq<String>): Option<int>
  {
    if |s1| >= 2 then ParseInt(s1[1]) else None
  }

  /** What parse6 computes for a CIDR string. */
  function Parse6Spec(cidr: String): (r: Parsed6)
    ensures r.Net? ==> r.plen <= 64 && r.mask == Mask6(r.plen)
  {
    var s1 := Split(ReplaceFirst(cidr, '_', '/'), '/');
    match LengthPart(s1)
    case None => NoPrefix
    case Some(plen) =>
      if plen > 64 then NoPrefix
      else
        match QuadsValue(Expanded(Split(s1[0], ':')), 4)
        case None => Throws
        case Some(num) => Net(num, Mask6(plen), plen)
  }

  /** parse6: the splice loop that expands '::' and the loop that accumulates the network part. */
  method Parse6(cidr: String) returns (r: Parsed6)
    ensures r == Parse6Spec(cidr)
  {
    var s1 := Split(ReplaceFirst(cidr, '_', '/'), '/');
    var plen := LengthPart(s1);
    if plen.None? || plen.value > 64 {
      return NoPrefix;
    }
    var quads := ExpandQuads(Split(s1[0], ':'));
    var num := QuadsNumber(quads);
    if num.None? {
      return Throws;
    }
    return Net(num.value, Mask6(plen.value), plen.value);
  }

  /** The splice loop of parse6: insert "0" at the first empty group until there are eight groups. */
  method ExpandQuads(q0: seq<String>) returns (quads: seq<String>)
    ensures quads == Expanded(q0)
  {
    quads := q0;
    var ix := IndexOf(quads, "");
    if ix != -1 {
      quads := SpliceZeros(q0, ix);
    }
  }

  /** `while (quads.length < 8) quads.splice(ix, 0, "0")`. */
  method SpliceZeros(q0: seq<String>, ix: nat) returns (quads: seq<String>)
    requires ix <= |q0|
    ensures |q0| >= 8 ==> quads == q0
    ensures |q0| < 8 ==> quads == q0[..ix] + Zeros(8 - |q0|) + q0[ix..]
  {
    quads := q0;
    ghost var left, right := q0[..ix], q0[ix..];
    assert quads == left + [] + right;
    while |quads| < 8
      invariant |quads| >= |q0| && (|quads| <= 8 || quads == q0)
      invariant quads == left + Zeros(|quads| - |q0|) + right
      decreases 8 - |quads|
    {
      Insert(left, Zeros(|quads| - |q0|), right, "0");
      quads := quads[..ix] + ["0"] + quads[ix..];
    }
  }

  /** Inserting x between left and the rest puts it at the head of the middle part. */
  lemma Insert<T>(left: seq<T>, z: seq<T>, right: seq<T>, x: T)
    ensures (left + z + right)[..|left|] + [x] + (left + z + right)[|left|..] == left + ([x] + z) + right
  {
    assert (left + z + right)[..|left|] == left;
    assert (left + z + right)[|left|..] == z + right;
  }

  /** The accumulator loop of parse6 over the first four groups; None where BigInt(NaN) throws. */
  method QuadsNumber(quads: seq<String>) returns (r: Option<int>)
    ensures r == QuadsValue(quads, 4)
  {
    var num := 0;
    for i := 0 to 4
      invariant QuadsValue(quads, i) == Some(num)
    {
      num := num * 65536;
      var quad := if i < |quads| then QuadValue(quads[i]) else None;
      if quad.None? {
        QuadsValueNaN(quads, i + 1, 4);
        return None;
      }
      num := num + quad.value;
    }
    return Some(num);
  }

  /** Once a group is NaN, every longer accumulation is. */
  lemma {:induction false} QuadsValueNaN(quads: seq<String>, i: nat, k: nat)
    requires i <= k && QuadsValue(quads, i).None?
    ensures QuadsValue(quads, k).None?
    decreases k - i
  {
    if i < k {
      QuadsValueNaN(quads, i, k - 1);
    }
  }

  // ---------------------------------------------------------------------
  // check6

  /** BigInt `n & m` for n >= 0: a negative m is ~c with c = -m - 1, and n & ~c == n - (n & c). */
  function JsAnd(n: nat, m: int): int
  {
    if m >= 0 then BitAnd(n, m) else n - BitAnd(n, -m - 1)
  }

  /** `obj.subnet == n & obj.mask`: the candidate lies in the prefix. */
  predicate Covers6(p: Prefix6, n: nat)
  {
    p.subnet == JsAnd(n, p.mask)
  }

  /**
   * Among the first i entries, k covers n, no covering entry is longer,
   * and every later covering one is shorter: k is the last of the longest
   * covering entries.
   */
  predicate BestIn(p6: seq<Prefix6>, n: nat, i: nat, k: int)
    requires i <= |p6|
  {
    && 0 <= k < i && Covers6(p6[k], n)
    && (forall j :: 0 <= j < i && Covers6(p6[j], n) ==> p6[j].plen <= p6[k].plen)
    && (forall j :: k < j < i && Covers6(p6[j], n) ==> p6[j].plen < p6[k].plen)
  }

  predicate Best(p6: seq<Prefix6>, n: nat, k: int)
  {
    BestIn(p6, n, |p6|, k)
  }

  /** The entry check6 decides on is determined by the list and the candidate. */
  lemma BestUnique(p6: seq<Prefix6>, n: nat, k1: int, k2: int)
    requires Best(p6, n, k1) && Best(p6, n, k2)
    ensures k1 == k2
  {
  }

  /**
   * For an even candidate inside the 64-bit space, the rounded mask acts
   * as the netmask up to /63, and a /64 entry covers only the subnet 0.
   */
  lemma MaskedCandidate(n: nat, plen: int)
    requires 0 <= plen <= 64 && n < 0x1_0000_0000_0000_0000 && n % 2 == 0
    ensures plen < 64 ==> JsAnd(n, Mask6(plen)) == Down(n, 64 - plen)
    ensures plen == 64 ==> JsAnd(n, Mask6(plen)) == 0
  {
    Pow64();
    var k: nat := 64 - plen;
    if plen < 64 {
      Pow2Mono(1, k);
      Pow2Mono(k, W64);
      assert Mask6(plen) == HighMask(W64, k) + 1;
      assert HighMask(W64, k) % 2 == 0 by {
        assert Pow2(W64) == 2 * Pow2(W64 - 1);
        assert Pow2(k) == 2 * Pow2(k - 1);
      }
      AndLowBit(n, HighMask(W64, k));
      AndMask(n, W64, k);
    } else {
      assert Mask6(plen) == Pow2(W64);
      AndHighBit(n, W64);
    }
  }

  /** The fixed /48 mask of check6, `0xFFFFFFFFFFFF0000n`. */
  const Mask48: nat := 0xFFFF_FFFF_FFFF_0000

  /** `n == obj.subnet & mask`: the entry starts inside the /48 at n. */
  predicate Inside48(p: Prefix6, n: nat)
  {
    JsAnd(Mask48, p.subnet) == n
  }

  /** For a /48 network n and a 64-bit subnet, the test holds exactly when the subnet lies within n's /48. */
  lemma Inside48Iff(p: Prefix6, n: nat)
    requires 0 <= p.subnet < 0x1_0000_0000_0000_0000 && n % 0x1_0000 == 0
    ensures Inside48(p, n) <==> n <= p.subnet < n + 0x1_0000
  {
    var s: nat := p.subnet;
    Pow64();
    Pow2Values();
    assert Mask48 == HighMask(W64, 16);
    AndComm(Mask48, s);
    AndMask(s, W64, 16);
    DownMultiple(n / 0x1_0000, 16);
    InBlockIff(s, n, 16);
  }

  // ---------------------------------------------------------------------
  // processIPv6: the netspace counter and the order of p6

  /** What one prefix adds to netspace: ::/0 .. /8 and open prefixes add nothing. */
  function Space(p: Prefix6): nat
  {
    if 8 < p.plen <= 64 && p.policy != Some("open") then Pow2((64 - p.plen) as nat) else 0
  }

  /** The netspace sum, 2^(64 - plen) over the closed prefixes longer than /8. */
  function Netspace(ps: seq<Prefix6>): nat
  {
    if |ps| == 0 then 0 else Netspace(ps[..|ps| - 1]) + Space(ps[|ps| - 1])
  }

  lemma {:induction false} NetspaceAppend(a: seq<Prefix6>, b: seq<Prefix6>)
    ensures Netspace(a + b) == Netspace(a) + Netspace(b)
    decreases |b|
  {
    if |b| > 0 {
      NetspaceAppend(a, b[..|b| - 1]);
      assert (a + b)[..|a + b| - 1] == a + b[..|b| - 1];
      assert (a + b)[|a + b| - 1] == b[|b| - 1];
    } else {
      assert a + b == a;
    }
  }

  /** The counter does not depend on the order in which the registry lists the prefixes. */
  lemma {:induction false} NetspacePerm(a: seq<Prefix6>, b: seq<Prefix6>)
    requires multiset(a) == multiset(b)
    ensures Netspace(a) == Netspace(b)
    decreases |a|
  {
    if |a| > 0 {
      var x := a[|a| - 1];
      assert x in multiset(b);
      var k :| 0 <= k < |b| && b[k] == x;
      var rest := b[..k] + b[k + 1..];
      NetspaceRemove(b, k);
      RemoveOne(b, k);
      assert a == a[..|a| - 1] + [x];
      calc {
        multiset(a[..|a| - 1]) + multiset{x};
        multiset(a);
        multiset(b);
        multiset(rest) + multiset{x};
      }
      forall y ensures multiset(a[..|a| - 1])[y] == multiset(rest)[y] {
        assert (multiset(a[..|a| - 1]) + multiset{x})[y] == (multiset(rest) + multiset{x})[y];
      }
      NetspacePerm(a[..|a| - 1], rest);
    }
  }

  lemma NetspaceRemove(b: seq<Prefix6>, k: nat)
    requires k < |b|
    ensures Netspace(b) == Netspace(b[..k] + b[k + 1..]) + Space(b[k])
  {
    var x := b[k];
    assert b == b[..k] + [x] + b[k + 1..];
    NetspaceAppend(b[..k] + [x], b[k + 1..]);
    NetspaceAppend(b[..k], [x]);
    NetspaceAppend(b[..k], b[k + 1..]);
    assert Netspace([x]) == Space(x) by {
      assert [x][..0] == [];
    }
  }

  lemma RemoveOne(b: seq<Prefix6>, k: nat)
    requires k < |b|
    ensures multiset(b) == multiset(b[..k] + b[k + 1..]) + multiset{b[k]}
  {
    assert b == b[..k] + [b[k]] + b[k + 1..];
  }

  /** a may precede b: the comparator orders by subnet, then by length. */
  predicate KeyLe6(a: Prefix6, b: Prefix6)
  {
    a.subnet < b.subnet || (a.subnet == b.subnet && a.plen <= b.plen)
  }

  predicate Sorted6(s: seq<Prefix6>)
  {
    forall i, j :: 0 <= i < j < |s| ==> KeyLe6(s[i], s[j])
  }

  /** A reference sort (insertion) standing for the library sort with this comparator. */
  function Sort6(s: seq<Prefix6>): seq<Prefix6>
  {
    if |s| == 0 then [] else Insert6(s[0], Sort6(s[1..]))
  }

  function Insert6(x: Prefix6, s: seq<Prefix6>): seq<Prefix6>
  {
    if |s| == 0 then [x]
    else if KeyLe6(x, s[0]) then [x] + s
    else [s[0]] + Insert6(x, s[1..])
  }

  lemma {:induction false} Insert6Perm(x: Prefix6, s: seq<Prefix6>)
    ensures multiset(Insert6(x, s)) == multiset(s) + multiset{x}
    decreases |s|
  {
    if |s| > 0 && !KeyLe6(x, s[0]) {
      Insert6Perm(x, s[1..]);
      assert s == [s[0]] + s[1..];
    }
  }

  lemma {:induction false} Insert6Sorted(x: Prefix6, s: seq<Prefix6>)
    requires Sorted6(s)
    ensures Sorted6(Insert6(x, s))
    decreases |s|
  {
    if |s| > 0 && !KeyLe6(x, s[0]) {
      Insert6Sorted(x, s[1..]);
      Insert6Perm(x, s[1..]);
      var t := Insert6(x, s[1..]);
      forall k | 0 <= k < |t| ensures KeyLe6(s[0], t[k]) {
        assert t[k] in multiset(t);
        if t[k] != x {
          assert t[k] in multiset(s[1..]);
          var m :| 0 <= m < |s[1..]| && s[1..][m] == t[k];
          assert s[1..][m] == s[m + 1];
        }
      }
      assert Insert6(x, s) == [s[0]] + t;
    }
  }

  /** After processIPv6, p6 is ordered by subnet and then by length, and holds the same prefixes. */
  lemma {:induction false} Sort6Spec(s: seq<Prefix6>)
    ensures Sorted6(Sort6(s)) && multiset(Sort6(s)) == multiset(s)
    decreases |s|
  {
    if |s| > 0 {
      Sort6Spec(s[1..]);
      Insert6Sorted(s[0], Sort6(s[1..]));
      Insert6Perm(s[0], Sort6(s[1..]));
      assert s == [s[0]] + s[1..];
    }
  }

  /** What one inet6num object adds to the list. */
  datatype Contribution6 = Fails | Skip | Add(p: Prefix6)

  /**
   * An object without a cidr makes parse6 fail on undefined, and so does a
   * group that is not hexadecimal; a CIDR without a usable length adds
   * nothing; otherwise the prefix carries the object's policy, if any.
   */
  function Contribute6(attrs: P4.Attrs): Contribution6
  {
    match P4.LastValue(attrs, "cidr")
    case None => Fails
    case Some(cidr) =>
      match Parse6Spec(cidr)
      case Throws => Fails
      case NoPrefix => Skip
      case Net(subnet, mask, plen) => Add(Prefix6(subnet, mask, plen, P4.LastValue(attrs, "policy")))
  }

  /** The forEach over the objects: None when one of them makes processIPv6 throw. */
  function Collect6(objects: seq<P4.Attrs>): Option<seq<Prefix6>>
  {
    if |objects| == 0 then Some([])
    else
      var front := Collect6(objects[..|objects| - 1]);
      var last := Contribute6(objects[|objects| - 1]);
      if front.None? || last.Fails? then None
      else if last.Skip? then front
      else Some(front.value + [last.p])
  }

  lemma Collect6Step(objects: seq<P4.Attrs>, i: nat)
    requires i < |objects|
    ensures Collect6(objects[..i + 1]) ==
      var front := Collect6(objects[..i]);
      var last := Contribute6(objects[i]);
      if front.None? || last.Fails? then None
      else if last.Skip? then front
      else Some(front.value + [last.p])
  {
    assert objects[..i + 1][..i] == objects[..i];
  }

  /** Once an object has failed, so does every longer run of objects. */
  lemma {:induction false} Collect6Fails(objects: seq<P4.Attrs>, i: nat)
    requires i <= |objects| && Collect6(objects[..i]).None?
    ensures Collect6(objects).None?
    decreases |objects| - i
  {
    if i < |objects| {
      assert objects[..i + 1][..i] == objects[..i];
      Collect6Fails(objects, i + 1);
    } else {
      assert objects[..i] == objects;
    }
  }

  /** Every listed prefix comes out of parse6 with its length and mask. */
  lemma {:induction false} Collect6Prefixes(objects: seq<P4.Attrs>)
    requires Collect6(objects).Some?
    ensures forall k :: 0 <= k < |Collect6(objects).value| ==>
              Collect6(objects).value[k].plen <= 64 && Collect6(objects).value[k].mask == Mask6(Collect6(objects).value[k].plen)
    decreases |objects|
  {
    if |objects| > 0 {
      Collect6Prefixes(objects[..|objects| - 1]);
    }
  }

  // ---------------------------------------------------------------------
  // generate: random /48 candidates in fd00::/8

  /** A /48 network inside fd00::/8, as the upper 64 bits. */
  predicate InUla48(num: int)
  {
    0xFD00_0000_0000_0000 <= num < 0xFE00_0000_0000_0000 && num % 0x1_0000 == 0
  }

  /** The three groups of a candidate: the draws scaled to 0 .. 65535, the first forced into fd00::/8. */
  function Quads(d0: real, d1: real, d2: real): (qs: seq<nat>)
    requires 0.0 <= d0 < 1.0 && 0.0 <= d1 < 1.0 && 0.0 <= d2 < 1.0
  {
    [0xFD00 + BitAnd(FloorScaled(d0, 0x1_0000), 0xFF), FloorScaled(d1, 0x1_0000), FloorScaled(d2, 0x1_0000)]
  }

  /** The groups as the source draws them, with `Math.round(Math.random()*65536)`. */
  function QuadsAsWritten(d0: real, d1: real, d2: real): (qs: seq<nat>)
    requires 0.0 <= d0 < 1.0 && 0.0 <= d1 < 1.0 && 0.0 <= d2 < 1.0
  {
    [0xFD00 + BitAnd(RoundScaled(d0, 0x1_0000), 0xFF), RoundScaled(d1, 0x1_0000), RoundScaled(d2, 0x1_0000)]
  }

  /** The text of a candidate, `${hex[0]}:${hex[1]}:${hex[2]}::/48`. */
  function Text48(qs: seq<nat>): String
    requires |qs| == 3
  {
    Join(Groups48(qs), ':') + "/48"
  }

  /** The groups of the text form: three in hexadecimal, then the empty pair that spells '::'. */
  function Groups48(qs: seq<nat>): seq<String>
    requires |qs| == 3
  {
    [ToDigits(qs[0], 16), ToDigits(qs[1], 16), ToDigits(qs[2], 16), "", ""]
  }

  /** The groups read as a number, most significant first. */
  function Horner(qs: seq<nat>): nat
  {
    if |qs| == 0 then 0 else Horner(qs[..|qs| - 1]) * 0x1_0000 + qs[|qs| - 1]
  }

  /** The upper 64 bits of the candidate: the three groups, then a zero group. */
  function Net48(qs: seq<nat>): nat
  {
    Horner(qs) * 0x1_0000
  }

  /** Every candidate is a /48 in fd00::/8. */
  lemma QuadsInUla(d0: real, d1: real, d2: real)
    requires 0.0 <= d0 < 1.0 && 0.0 <= d1 < 1.0 && 0.0 <= d2 < 1.0
    ensures var qs := Quads(d0, d1, d2); (forall j :: 0 <= j < 3 ==> qs[j] < 0x1_0000) && InUla48(Net48(qs))
  {
    var qs := Quads(d0, d1, d2);
    AndBelow(FloorScaled(d0, 0x1_0000), 0xFF);
    Ula48(qs);
  }

  lemma Ula48(qs: seq<nat>)
    requires |qs| == 3 && 0xFD00 <= qs[0] < 0xFE00 && qs[1] < 0x1_0000 && qs[2] < 0x1_0000
    ensures InUla48(Net48(qs))
  {
    assert qs[..2][..1] == [qs[0]] && qs[..2][..0] == [];
    assert Horner(qs[..2][..1]) == qs[0];
    var h2 := qs[0] * 0x1_0000 + qs[1];
    assert Horner(qs[..2]) == h2;
    var h3 := h2 * 0x1_0000 + qs[2];
    assert Horner(qs) == h3;
    assert 0xFD00_0000 <= h2 < 0xFE00_0000;
    assert 0xFD00_0000_0000 <= h3 < 0xFE00_0000_0000;
  }

  /** The source's rounding can draw 65536: fdff:10000:0::/48 stands for fe00::/48, outside fd00::/8. */
  lemma QuadsAsWrittenLeaveUla()
    ensures var qs := QuadsAsWritten(255.0 / 65536.0, 1.0 - 1.0 / 131072.0, 0.0);
      qs == [0xFDFF, 0x1_0000, 0] && !InUla48(Net48(qs)) && |ToDigits(qs[1], 16)| == 5
  {
    var qs := QuadsAsWritten(255.0 / 65536.0, 1.0 - 1.0 / 131072.0, 0.0);
    assert RoundScaled(255.0 / 65536.0, 0x1_0000) == 255;
    RoundScaledOverruns(0x1_0000);
    Pow2Values();
    AndOnes(255, 8);
    assert qs == [0xFDFF, 0x1_0000, 0];
    assert qs[..2][..1] == [qs[0]] && qs[..2][..0] == [];
    assert Horner(qs[..2][..1]) == 0xFDFF;
    assert Horner(qs[..2]) == 0xFDFF * 0x1_0000 + 0x1_0000;
    assert Horner(qs) == 0xFE00_0000_0000;
  }

  /** Parsing a candidate's text gives back its network part as a /48. */
  lemma ParseText48(qs: seq<nat>)
    requires |qs| == 3
    ensures Parse6Spec(Text48(qs)) == Net(Net48(qs), Mask6(48), 48)
  {
    var s1 := SplitText48(qs);
    Length48(s1);
    var e := ExpandGroups48(qs);
    QuadsOfText(qs, e);
    Parse6Of(Text48(qs), s1, 48, e, Net48(qs));
  }

  /** parse6 once its pieces are known. */
  lemma Parse6Of(cidr: String, s1: seq<String>, plen: int, e: seq<String>, num: int)
    requires s1 == Split(ReplaceFirst(cidr, '_', '/'), '/')
    requires LengthPart(s1) == Some(plen) && plen <= 64
    requires e == Expanded(Split(s1[0], ':')) && QuadsValue(e, 4) == Some(num)
    ensures Parse6Spec(cidr) == Net(num, Mask6(plen), plen)
  {
  }

  /** Splitting the text at '/' gives the groups and the length. */
  lemma SplitText48(qs: seq<nat>) returns (s1: seq<String>)
    requires |qs| == 3
    ensures s1 == Split(ReplaceFirst(Text48(qs), '_', '/'), '/')
    ensures s1 == [Join(Groups48(qs), ':'), "48"]
  {
    var h := Groups48(qs);
    HexPlain(qs[0]);
    HexPlain(qs[1]);
    HexPlain(qs[2]);
    var groups := Join(h, ':');
    JoinAvoids(h, ':', '/');
    JoinAvoids(h, ':', '_');
    var text := Text48(qs);
    assert text == Join([groups, "48"], '/') by {
      JoinCons(groups, ["48"], '/');
      assert [groups] + ["48"] == [groups, "48"];
    }
    assert '_' !in text by {
      JoinAvoids([groups, "48"], '/', '_');
    }
    SplitJoin([groups, "48"], '/');
    s1 := [groups, "48"];
  }

  lemma Length48(s1: seq<String>)
    requires |s1| == 2 && s1[1] == "48"
    ensures LengthPart(s1) == Some(48)
  {
    ParseIntDigits("48");
  }

  /** Splitting the groups at ':' and expanding '::' puts a zero group fourth. */
  lemma ExpandGroups48(qs: seq<nat>) returns (e: seq<String>)
    requires |qs| == 3
    ensures e == Expanded(Split(Join(Groups48(qs), ':'), ':'))
    ensures |e| >= 4 && e[0] == ToDigits(qs[0], 16) && e[1] == ToDigits(qs[1], 16) && e[2] == ToDigits(qs[2], 16)
    ensures e[3] == ToDigits(0, 16)
  {
    var h := Groups48(qs);
    HexPlain(qs[0]);
    HexPlain(qs[1]);
    HexPlain(qs[2]);
    SplitJoin(h, ':');
    ExpandFive(h);
    e := Expanded(h);
    assert ToDigits(0, 16) == "0";
  }

  /** Three groups and '::' expand to the three groups followed by zero groups. */
  lemma ExpandFive(h: seq<String>)
    requires |h| == 5 && h[0] != "" && h[1] != "" && h[2] != "" && h[3] == ""
    ensures |Expanded(h)| == 8 && Expanded(h)[..3] == h[..3] && Expanded(h)[3] == "0"
  {
    FirstEmpty(h, 3);
    var z := Zeros(3);
    assert z[0] == "0";
    assert Expanded(h) == h[..3] + z + h[3..];
  }

  lemma FirstEmpty(h: seq<String>, k: nat)
    requires k < |h| && h[k] == "" && forall j :: 0 <= j < k ==> h[j] != ""
    ensures IndexOf(h, "") == k
  {
    assert h[k] in h;
  }

  /** Hexadecimal digits hold none of the separators of the text form. */
  lemma HexPlain(q: nat)
    ensures ':' !in ToDigits(q, 16) && '/' !in ToDigits(q, 16) && '_' !in ToDigits(q, 16)
    ensures ToDigits(q, 16) != ""
  {
    ToDigitsSpec(q, 16);
  }

  lemma QuadsOfText(qs: seq<nat>, e: seq<String>)
    requires |qs| == 3 && |e| >= 4
    requires e[0] == ToDigits(qs[0], 16) && e[1] == ToDigits(qs[1], 16) && e[2] == ToDigits(qs[2], 16) && e[3] == ToDigits(0, 16)
    ensures QuadsValue(e, 4) == Some(Net48(qs))
  {
    var v1 := qs[0];
    var v2 := v1 * 0x1_0000 + qs[1];
    var v3 := v2 * 0x1_0000 + qs[2];
    HexStep(e, 0, 0, qs[0]);
    HexStep(e, 1, v1, qs[1]);
    HexStep(e, 2, v2, qs[2]);
    HexStep(e, 3, v3, 0);
    Net48Value(qs);
  }

  /** One more group written in hexadecimal extends the number by that group. */
  lemma HexStep(e: seq<String>, k: nat, v: int, q: nat)
    requires k < |e| && QuadsValue(e, k) == Some(v) && e[k] == ToDigits(q, 16)
    ensures QuadsValue(e, k + 1) == Some(v * 0x1_0000 + q)
  {
    QuadValueHex(q);
  }

  lemma Net48Value(qs: seq<nat>)
    requires |qs| == 3
    ensures Net48(qs) == ((qs[0] * 0x1_0000 + qs[1]) * 0x1_0000 + qs[2]) * 0x1_0000
  {
    assert qs[..2][..1] == [qs[0]] && qs[..2][..0] == [];
    assert Horner(qs[..2][..1]) == qs[0];
    assert Horner(qs[..2]) == qs[0] * 0x1_0000 + qs[1];
  }

  /** A group written in hexadecimal reads back as its value. */
  lemma QuadValueHex(q: nat)
    ensures QuadValue(ToDigits(q, 16)) == Some(q)
  {
    HexPlain(q);
    ParseIntHex(q);
  }

  /**
   * What check6 as written accepts: the text names a /48 in fd00::/8 whose
   * longest covering entry is open.  The /48 may still hold a longer
   * registered prefix.
   */
  ghost predicate Allowed(p6: seq<Prefix6>, text: String)
  {
    exists qs: seq<nat> :: |qs| == 3 && text == Text48(qs) && Parse6Spec(text) == Net(Net48(qs), Mask6(48), 48)
      && InUla48(Net48(qs)) && exists k :: Best(p6, Net48(qs), k) && IsOpen6(p6[k])
  }

  /** The candidate is free: allowed, and no registered prefix starts inside its /48. */
  ghost predicate Vacant(p6: seq<Prefix6>, text: String)
  {
    exists qs: seq<nat> :: |qs| == 3 && text == Text48(qs) && Parse6Spec(text) == Net(Net48(qs), Mask6(48), 48)
      && InUla48(Net48(qs)) && (exists k :: Best(p6, Net48(qs), k) && IsOpen6(p6[k]))
      && forall j :: 0 <= j < |p6| ==> !Inside48(p6[j], Net48(qs))
  }

  /** Three groups naming a /48 in fd00::/8 that the corrected check accepts give a free text. */
  lemma VacantOf(p6: seq<Prefix6>, qs: seq<nat>, text: String)
    requires |qs| == 3 && text == Text48(qs) && Parse6Spec(text) == Net(Net48(qs), Mask6(48), 48) && InUla48(Net48(qs))
    requires forall j :: 0 <= j < |p6| ==> !Inside48(p6[j], Net48(qs))
    requires exists k :: Best(p6, Net48(qs), k) && IsOpen6(p6[k])
    ensures Vacant(p6, text)
  {
  }

  /** A free candidate is one check6 as written accepts. */
  lemma VacantAllowed(p6: seq<Prefix6>, text: String)
    requires Vacant(p6, text)
    ensures Allowed(p6, text)
  {
  }

  /**
   * check6 as written accepts a /48 holding a closed, longer prefix: with
   * fd00::/8 open and fd12:3456:7800:100::/56 closed, the candidate
   * fd12:3456:7800::/48 has the open /8 as its longest cover, while the
   * /56 lies inside it.
   */
  lemma Check6AcceptsNestedAsWritten(p6: seq<Prefix6>, qs: seq<nat>, n: nat)
    requires p6 == [Prefix6(0xFD00_0000_0000_0000, Mask6(8), 8, Some("open")),
                    Prefix6(0xFD12_3456_7800_0100, Mask6(56), 56, None)]
    requires qs == [0xFD12, 0x3456, 0x7800] && n == 0xFD12_3456_7800_0000
    ensures Best(p6, n, 0) && IsOpen6(p6[0]) && (forall k :: Best(p6, n, k) ==> IsOpen6(p6[k]))
    ensures Inside48(p6[1], n) && !IsOpen6(p6[1])
    ensures Allowed(p6, Text48(qs)) && !Vacant(p6, Text48(qs))
  {
    NestedCovers(p6, n);
    BestUniqueAll(p6, n, 0);
    Net48Example(qs, n);
    ParseText48(qs);
    var text := Text48(qs);
    assert InUla48(n);
    assert Allowed(p6, text);
  }

  /** In the example, only the open /8 covers the candidate, and the /56 starts inside it. */
  lemma NestedCovers(p6: seq<Prefix6>, n: nat)
    requires p6 == [Prefix6(0xFD00_0000_0000_0000, Mask6(8), 8, Some("open")),
                    Prefix6(0xFD12_3456_7800_0100, Mask6(56), 56, None)]
    requires n == 0xFD12_3456_7800_0000
    ensures Covers6(p6[0], n) && !Covers6(p6[1], n) && Best(p6, n, 0) && Inside48(p6[1], n)
  {
    CoversAt(n, p6[0].subnet, p6[0].plen);
    MissesAt(n, p6[1].subnet, p6[1].plen);
    InsideAt(p6[1], n);
  }

  /** The /8 of the example covers the candidate. */
  lemma CoversAt(n: nat, s: nat, plen: nat)
    requires n == 0xFD12_3456_7800_0000 && s == 0xFD00_0000_0000_0000 && plen == 8
    ensures JsAnd(n, Mask6(plen)) == s
  {
    Pow2Values();
    Pow2Add(24, 32);
    MaskedCandidate(n, plen);
    DownMultiple(0xFD, 56);
    DownUnique(n, s, 56);
  }

  /** The /56 of the example does not cover the candidate: it is the candidate rounded to /56 that it would have to equal. */
  lemma MissesAt(n: nat, s: nat, plen: nat)
    requires n == 0xFD12_3456_7800_0000 && s == 0xFD12_3456_7800_0100 && plen == 56
    ensures JsAnd(n, Mask6(plen)) != s
  {
    Pow2Values();
    MaskedCandidate(n, plen);
    DownMultiple(n / 0x100, 8);
  }

  /** The /56 of the example starts inside the candidate's /48. */
  lemma InsideAt(p: Prefix6, n: nat)
    requires p.subnet == 0xFD12_3456_7800_0100 && n == 0xFD12_3456_7800_0000
    ensures Inside48(p, n)
  {
    Inside48Iff(p, n);
  }

  /** The example's groups read as its network. */
  lemma Net48Example(qs: seq<nat>, n: nat)
    requires qs == [0xFD12, 0x3456, 0x7800] && n == 0xFD12_3456_7800_0000
    ensures Net48(qs) == n
  {
    assert qs[..2][..1] == [qs[0]] && qs[..2][..0] == [];
    assert Horner(qs[..2][..1]) == qs[0];
    assert Horner(qs[..2]) == 0xFD12_3456;
    assert Horner(qs) == 0xFD12_3456_7800;
  }

  /** Every entry check6 may settle on is the same one. */
  lemma BestUniqueAll(p6: seq<Prefix6>, n: nat, k: int)
    requires Best(p6, n, k)
    ensures forall k' :: Best(p6, n, k') ==> k' == k
  {
    forall k' | Best(p6, n, k') ensures k' == k {
      BestUnique(p6, n, k, k');
    }
  }

  /** How generate ends. */
  datatype Gen6 =
    | Generated(prefixes: seq<String>)
    | NoCover                                   // check6 met a candidate no entry covers and threw
    | OutOfDraws                                // the supplied random draws ran out

  // ---------------------------------------------------------------------
  // The view

  class Free6View {
    var state: V4.ViewState
    var p6: seq<Prefix6>
    var nets: nat
    var alloc: nat
    var plist: seq<String>

    constructor()
      ensures state == V4.Invalid && p6 == [] && nets == 0 && alloc == 0 && plist == []
    {
      state := V4.Invalid;
      p6 := [];
      nets := 0;
      alloc := 0;
      plist := [];
    }

    /** reload: forget the prefixes and wait for the registry. */
    method Reload()
      modifies this`p6, this`state
      ensures p6 == [] && state == V4.Loading
    {
      p6 := [];
      state := V4.Loading;
    }

    /**
     * check6 as written: the verdict of the last of the longest entries
     * covering n, and None where the source dereferences a null match.
     * The test of whether an entry lies inside n's /48 returns from the
     * forEach callback only, so it has no effect and is left out here.
     */
    method Check6AsWritten(n: nat) returns (r: Option<bool>)
      ensures r.None? <==> forall j :: 0 <= j < |p6| ==> !Covers6(p6[j], n)
      ensures r.Some? ==> exists k :: Best(p6, n, k) && r.value == IsOpen6(p6[k])
    {
      var m := -1;
      var i := 0;
      while i < |p6|
        invariant 0 <= i <= |p6|
        invariant m == -1 <==> forall j :: 0 <= j < i ==> !Covers6(p6[j], n)
        invariant m != -1 ==> BestIn(p6, n, i, m)
      {
        if m == -1 || p6[i].plen >= p6[m].plen {
          if p6[i].subnet == JsAnd(n, p6[i].mask) {
            m := i;
          }
        }
        i := i + 1;
      }
      if m == -1 {
        return None;
      }
      return Some(IsOpen6(p6[m]));
    }

    /**
     * check6 as intended: an entry inside n's /48 fails the candidate at
     * once; otherwise the verdict of the last of the longest entries
     * covering n, and None where no entry covers n and the source
     * dereferences a null match.
     */
    method Check6(n: nat) returns (r: Option<bool>)
      ensures r.None? <==>
        (forall j :: 0 <= j < |p6| ==> !Inside48(p6[j], n)) && forall j :: 0 <= j < |p6| ==> !Covers6(p6[j], n)
      ensures r == Some(true) <==>
        (forall j :: 0 <= j < |p6| ==> !Inside48(p6[j], n)) && exists k :: Best(p6, n, k) && IsOpen6(p6[k])
    {
      var m := -1;
      var i := 0;
      while i < |p6|
        invariant 0 <= i <= |p6|
        invariant forall j :: 0 <= j < i ==> !Inside48(p6[j], n)
        invariant m == -1 <==> forall j :: 0 <= j < i ==> !Covers6(p6[j], n)
        invariant m != -1 ==> BestIn(p6, n, i, m)
      {
        if m == -1 || p6[i].plen >= p6[m].plen {
          if p6[i].subnet == JsAnd(n, p6[i].mask) {
            m := i;
          }
        }
        if JsAnd(Mask48, p6[i].subnet) == n {
          return Some(false);
        }
        i := i + 1;
      }
      if m == -1 {
        return None;
      }
      BestUniqueAll(p6, n, m);
      return Some(IsOpen6(p6[m]));
    }

    /** The text and network part of a candidate, from its three groups. */
    static method Candidate(quads: seq<nat>) returns (prefix: String, num: nat)
      requires |quads| == 3
      ensures prefix == Text48(quads) && num == Net48(quads)
    {
      prefix := Join([ToDigits(quads[0], 16), ToDigits(quads[1], 16), ToDigits(quads[2], 16), "", ""], ':') + "/48";
      num := 0;
      for j := 0 to 3
        invariant num == Horner(quads[..j])
      {
        assert quads[..j + 1][..j] == quads[..j];
        num := num * 0x1_0000 + quads[j];
      }
      assert quads[..3] == quads;
      num := num * 0x1_0000;
    }

    /**
     * generate: ten candidates, each drawn again until check6 accepts it.
     * The draws are consumed three per attempt.
     */
    method Generate(draws: seq<real>) returns (r: Gen6)
      requires P4.Unit(draws)
      modifies this`plist
      ensures r.Generated? ==> plist == r.prefixes && |plist| == 10 && forall k :: 0 <= k < 10 ==> Vacant(p6, plist[k])
      ensures !r.Generated? ==> plist == old(plist)
      ensures r.NoCover? ==> exists n: nat :: InUla48(n) && forall j :: 0 <= j < |p6| ==> !Covers6(p6[j], n)
    {
      var nlist: seq<String> := [];
      var d := 0;
      for i := 0 to 10
        invariant |nlist| == i && d <= |draws| && plist == old(plist)
        invariant forall k :: 0 <= k < i ==> Vacant(p6, nlist[k])
      {
        var valid := false;
        var prefix: String := "";
        while !valid
          invariant d <= |draws| && plist == old(plist)
          invariant valid ==> Vacant(p6, prefix)
          decreases |draws| - d
        {
          if d + 3 > |draws| {
            return OutOfDraws;
          }
          var ok;
          prefix, ok := Attempt(draws[d], draws[d + 1], draws[d + 2]);
          d := d + 3;
          if ok.None? {
            return NoCover;
          }
          valid := ok.value;
        }
        nlist := nlist + [prefix];
      }
      plist := nlist;
      return Generated(nlist);
    }

    /** One pass of generate's inner loop: draw a candidate and check it. */
    method Attempt(d0: real, d1: real, d2: real) returns (prefix: String, ok: Option<bool>)
      requires 0.0 <= d0 < 1.0 && 0.0 <= d1 < 1.0 && 0.0 <= d2 < 1.0
      ensures ok == Some(true) ==> Vacant(p6, prefix)
      ensures ok.None? ==> exists n: nat :: InUla48(n) && forall j :: 0 <= j < |p6| ==> !Covers6(p6[j], n)
    {
      var quads := Quads(d0, d1, d2);
      QuadsInUla(d0, d1, d2);
      var num;
      prefix, num := Candidate(quads);
      ParseText48(quads);
      ok := Check6(num);
      if ok == Some(true) {
        VacantOf(p6, quads, prefix);
      }
    }

    /**
     * processIPv6: collect the prefixes and the netspace counter, sort,
     * count, and generate; an exception anywhere leaves the view in error.
     */
    method ProcessIPv6(objects: seq<P4.Attrs>, draws: seq<real>) returns (g: Option<Gen6>)
      requires P4.Unit(draws)
      modifies this
      ensures g.None? <==> Collect6(objects).None?
      ensures g.None? ==>
        state == V4.Error && p6 == old(p6) && nets == old(nets) && alloc == old(alloc) && plist == old(plist)
      ensures Collect6(objects).Some? ==>
        && p6 == Sort6(Collect6(objects).value) && alloc == |p6|
        && nets == Netspace(Collect6(objects).value) / 1_000_000
      ensures g.Some? ==> (g.value.Generated? <==> state == V4.Ready)
      ensures g == Some(NoCover) ==>
        state == V4.Error && plist == old(plist) && exists n: nat :: InUla48(n) && forall j :: 0 <= j < |p6| ==> !Covers6(p6[j], n)
      ensures g == Some(OutOfDraws) ==> state == V4.Loading && plist == old(plist)
      ensures g.Some? && g.value.Generated? ==>
        plist == g.value.prefixes && |plist| == 10 && forall k :: 0 <= k < 10 ==> Vacant(p6, plist[k])
    {
      var found, netspace := CollectObjects(objects);
      if found.None? {
        state := V4.Error;
        return None;
      }
      nets := netspace / 1_000_000;
      p6 := Sort6(found.value);
      alloc := |p6|;
      var r := Generate(draws);
      if r.Generated? {
        state := V4.Ready;
      } else if r.NoCover? {
        state := V4.Error;
      } else {
        // the source would still be drawing candidates
        state := V4.Loading;
      }
      g := Some(r);
    }

    /** One listed prefix: it joins the list, and a closed prefix longer than /8 adds its size. */
    static method AddPrefix(nets: seq<Prefix6>, netspace: nat, p: Prefix6) returns (nets': seq<Prefix6>, netspace': nat)
      requires p.plen <= 64 && netspace == Netspace(nets)
      ensures nets' == nets + [p] && netspace' == Netspace(nets')
    {
      netspace' := netspace;
      if p.plen > 8 && p.policy != Some("open") {
        netspace' := netspace + Pow2((64 - p.plen) as nat);
      }
      nets' := nets + [p];
      NetspaceAppend(nets, [p]);
      assert [p][..0] == [];
    }

    /** The forEach of processIPv6: the prefixes in object order and the netspace sum; None where it throws. */
    static method CollectObjects(objects: seq<P4.Attrs>) returns (found: Option<seq<Prefix6>>, netspace: nat)
      ensures found == Collect6(objects)
      ensures found.Some? ==> netspace == Netspace(found.value)
    {
      netspace := 0;
      var nets: seq<Prefix6> := [];
      for i := 0 to |objects|
        invariant Collect6(objects[..i]) == Some(nets)
        invariant netspace == Netspace(nets)
      {
        Collect6Step(objects, i);
        var cidr := P4.LastValue(objects[i], "cidr");
        if cidr.None? {
          Collect6Fails(objects, i + 1);
          return None, netspace;
        }
        var obj := Parse6(cidr.value);
        if obj.Throws? {
          Collect6Fails(objects, i + 1);
          return None, netspace;
        }
        if obj.Net? {
          var p := Prefix6(obj.subnet, obj.mask, obj.plen, P4.LastValue(objects[i], "policy"));
          assert Contribute6(objects[i]) == Add(p);
          nets, netspace := AddPrefix(nets, netspace, p);
        } else {
          assert Contribute6(objects[i]) == Skip;
        }
      }
      assert objects[..|objects|] == objects;
      return Some(nets), netspace;
    }
  }
}
