// processIPv4 and filterFree of the IPv4 free view: from inetnum objects
// to the sorted prefix list, and the random choice among free blocks.
module Prefixes4 {

  import opened Wrappers
  import opened Bits
  import opened Text
  import opened FreeIPv4

  /** The attributes of a registry object as the API returns them: [key, value] pairs in file order. */
  type Attrs = seq<(String, String)>

  /** `attrib[a[0]] = a[1]` over every attribute: the value of the last attribute with the key. */
  function LastValue(attrs: Attrs, key: String): (r: Option<String>)
    decreases |attrs|
  {
    if |attrs| == 0 then None
    else if attrs[|attrs| - 1].0 == key then Some(attrs[|attrs| - 1].1)
    else LastValue(attrs[..|attrs| - 1], key)
  }

  /** The value is absent exactly when no attribute has the key, and otherwise belongs to the last one that has it. */
  lemma {:induction false} LastValueSpec(attrs: Attrs, key: String)
    ensures LastValue(attrs, key).None? <==> forall i :: 0 <= i < |attrs| ==> attrs[i].0 != key
    ensures LastValue(attrs, key).Some? ==>
              exists i :: 0 <= i < |attrs| && attrs[i] == (key, LastValue(attrs, key).value)
                          && forall j :: i < j < |attrs| ==> attrs[j].0 != key
    decreases |attrs|
  {
    if |attrs| > 0 && attrs[|attrs| - 1].0 != key {
      var front := attrs[..|attrs| - 1];
      LastValueSpec(front, key);
      assert forall i :: 0 <= i < |front| ==> front[i] == attrs[i];
    }
  }

  /**
   * An entry of the list processIPv4 builds: a usable prefix, or one whose
   * length is NaN (None) or outside 0 .. 32, which is kept all the same.
   */
  datatype Entry4 = Good(p: Prefix4) | Bad(subnet: nat, plen: Option<int>, policy: Option<String>)

  /** What one inetnum object adds to the list. */
  datatype Contribution = MissingCidr | Skip | Add(e: Entry4)

  /**
   * An object without a cidr attribute makes parse4 fail on undefined; one
   * whose cidr is not a dotted quad with one '/' adds nothing; otherwise the
   * parsed entry, whatever its length, carries the object's policy, if it
   * has one.
   */
  function Contribute(attrs: Attrs): (r: Contribution)
    ensures r.MissingCidr? <==> !HasCidr(attrs)
    ensures r.Skip? <==> HasCidr(attrs) && Parse4(LastValue(attrs, "cidr").value).NotCidr?
    ensures r.Add? && r.e.Good? ==>
      && PrefixLengthOk(r.e.p) && r.e.p.policy == LastValue(attrs, "policy")
      && Parse4(LastValue(attrs, "cidr").value) == Cidr(r.e.p.subnet, r.e.p.mask, r.e.p.plen)
    ensures r.Add? && r.e.Bad? ==>
      && r.e.policy == LastValue(attrs, "policy")
      && Parse4(LastValue(attrs, "cidr").value) == BadLength(r.e.subnet, r.e.plen)
  {
    match LastValue(attrs, "cidr")
    case None => MissingCidr
    case Some(cidr) =>
      match Parse4(cidr)
      case Cidr(subnet, mask, plen) => Add(Good(Prefix4(subnet, mask, plen, LastValue(attrs, "policy"))))
      case BadLength(subnet, plen) => Add(Bad(subnet, plen, LastValue(attrs, "policy")))
      case NotCidr => Skip
  }

  predicate PrefixLengthOk(p: Prefix4)
  {
    p.plen <= 32 && p.mask == Mask4(p.plen) && p.subnet < 0x1_0000_0000
  }

  /** The forEach over the objects: None when one of them has no cidr. */
  function Collect(objects: seq<Attrs>): (r: Option<seq<Entry4>>)
    ensures r.Some? ==> |r.value| <= |objects| && forall i :: 0 <= i < |r.value| && r.value[i].Good? ==> PrefixLengthOk(r.value[i].p)
    decreases |objects|
  {
    if |objects| == 0 then Some([])
    else
      var front := Collect(objects[..|objects| - 1]);
      var last := Contribute(objects[|objects| - 1]);
      if front.None? || last.MissingCidr? then None
      else if last.Skip? then front
      else Some(front.value + [last.e])
  }

  /** The number of objects whose cidr parses to an entry: what stats.alloc counts. */
  function Parsed(objects: seq<Attrs>): nat
    decreases |objects|
  {
    if |objects| == 0 then 0
    else Parsed(objects[..|objects| - 1]) + if Contribute(objects[|objects| - 1]).Add? then 1 else 0
  }

  /** Every object whose cidr parses, whatever its length, has its entry in the list. */
  lemma {:induction false} CollectCount(objects: seq<Attrs>)
    requires Collect(objects).Some?
    ensures |Collect(objects).value| == Parsed(objects)
    decreases |objects|
  {
    if |objects| > 0 {
      CollectCount(objects[..|objects| - 1]);
    }
  }

  /** Every entry has a length the scan can work with. */
  predicate Usable(es: seq<Entry4>)
  {
    forall i :: 0 <= i < |es| ==> es[i].Good?
  }

  /** The prefixes of a list of usable entries. */
  function Prefixes(es: seq<Entry4>): (ps: seq<Prefix4>)
    requires Usable(es)
    ensures |ps| == |es| && forall i :: 0 <= i < |es| ==> ps[i] == es[i].p
  {
    seq(|es|, i requires 0 <= i < |es| => es[i].p)
  }

  /** Processing succeeds exactly when every object has a cidr attribute. */
  lemma {:induction false} CollectSucceeds(objects: seq<Attrs>)
    ensures Collect(objects).Some? <==> forall i :: 0 <= i < |objects| ==> HasCidr(objects[i])
    decreases |objects|
  {
    if |objects| > 0 {
      var front := objects[..|objects| - 1];
      var last := objects[|objects| - 1];
      CollectSucceeds(front);
      CollectStep(objects);
      if Collect(objects).Some? {
        forall i | 0 <= i < |objects|
          ensures HasCidr(objects[i])
        {
          if i < |front| {
            assert objects[i] == front[i];
          } else {
            assert i == |objects| - 1;
          }
        }
      }
      if forall i :: 0 <= i < |objects| ==> HasCidr(objects[i]) {
        assert HasCidr(last);
        forall i | 0 <= i < |front|
          ensures HasCidr(front[i])
        {
          assert front[i] == objects[i];
        }
      }
    }
  }

  /** One more object: processing succeeds when it did for the others and this one has a cidr. */
  lemma CollectStep(objects: seq<Attrs>)
    requires |objects| > 0
    ensures Collect(objects).Some? <==> Collect(objects[..|objects| - 1]).Some? && HasCidr(objects[|objects| - 1])
  {
    var c := Contribute(objects[|objects| - 1]);
    assert c.MissingCidr? <==> !HasCidr(objects[|objects| - 1]);
  }

  /** The object has a cidr attribute. */
  predicate HasCidr(attrs: Attrs)
  {
    LastValue(attrs, "cidr").Some?
  }

  /** The comparator handed to Array.prototype.sort. */
  function Compare(a: Prefix4, b: Prefix4): int
  {
    if a.subnet == b.subnet then a.plen - b.plen else a.subnet - b.subnet
  }

  /** a may precede b in the sorted list. */
  predicate KeyLe(a: Prefix4, b: Prefix4)
  {
    a.subnet < b.subnet || (a.subnet == b.subnet && a.plen <= b.plen)
  }

  /** The comparator is antisymmetric and orders exactly by (subnet, plen). */
  lemma CompareOrder(a: Prefix4, b: Prefix4)
    ensures Compare(a, b) <= 0 <==> KeyLe(a, b)
    ensures Compare(a, b) == -Compare(b, a)
    ensures Compare(a, b) == 0 <==> a.subnet == b.subnet && a.plen == b.plen
  {
  }

  predicate SortedByKey(s: seq<Prefix4>)
  {
    forall i, j :: 0 <= i < j < |s| ==> KeyLe(s[i], s[j])
  }

  /** A reference sort (insertion) standing for the library sort with this comparator. */
  function SortPrefixes(s: seq<Prefix4>): seq<Prefix4>
  {
    if |s| == 0 then [] else Insert(s[0], SortPrefixes(s[1..]))
  }

  function Insert(x: Prefix4, s: seq<Prefix4>): seq<Prefix4>
  {
    if |s| == 0 then [x]
    else if KeyLe(x, s[0]) then [x] + s
    else [s[0]] + Insert(x, s[1..])
  }

  /** Insertion adds exactly x. */
  lemma {:induction false} InsertPerm(x: Prefix4, s: seq<Prefix4>)
    ensures multiset(Insert(x, s)) == multiset(s) + multiset{x}
    decreases |s|
  {
    if |s| > 0 && !KeyLe(x, s[0]) {
      InsertPerm(x, s[1..]);
      assert s == [s[0]] + s[1..];
    }
  }

  /** Every element of the result is x or an element of s. */
  lemma {:induction false} InsertFrom(x: Prefix4, s: seq<Prefix4>)
    ensures |Insert(x, s)| == |s| + 1
    ensures forall k :: 0 <= k < |Insert(x, s)| ==> Insert(x, s)[k] == x || Insert(x, s)[k] in s
    decreases |s|
  {
    if |s| > 0 && !KeyLe(x, s[0]) {
      InsertFrom(x, s[1..]);
      var t := Insert(x, s[1..]);
      assert Insert(x, s) == [s[0]] + t;
      forall k | 0 < k < |Insert(x, s)| ensures Insert(x, s)[k] == x || Insert(x, s)[k] in s {
        assert Insert(x, s)[k] == t[k - 1];
        if t[k - 1] != x {
          assert t[k - 1] in s[1..];
        }
      }
    }
  }

  lemma {:induction false} InsertSorted(x: Prefix4, s: seq<Prefix4>)
    requires SortedByKey(s)
    ensures SortedByKey(Insert(x, s))
    decreases |s|
  {
    if |s| > 0 && !KeyLe(x, s[0]) {
      InsertSorted(x, s[1..]);
      InsertFrom(x, s[1..]);
      var t := Insert(x, s[1..]);
      forall k | 0 <= k < |t| ensures KeyLe(s[0], t[k]) {
        if t[k] != x {
          var m :| 0 <= m < |s[1..]| && s[1..][m] == t[k];
          assert s[1..][m] == s[m + 1];
        }
      }
      assert Insert(x, s) == [s[0]] + t;
    }
  }

  /** After processIPv4 the list is ordered by subnet and then by length, and holds the same prefixes. */
  lemma SortPrefixesSpec(s: seq<Prefix4>)
    ensures SortedByKey(SortPrefixes(s)) && multiset(SortPrefixes(s)) == multiset(s)
  {
    SortPrefixesSorted(s);
    SortPrefixesPerm(s);
  }

  lemma {:induction false} SortPrefixesSorted(s: seq<Prefix4>)
    ensures SortedByKey(SortPrefixes(s))
    decreases |s|
  {
    if |s| > 0 {
      SortPrefixesSorted(s[1..]);
      InsertSorted(s[0], SortPrefixes(s[1..]));
    }
  }

  lemma {:induction false} SortPrefixesPerm(s: seq<Prefix4>)
    ensures multiset(SortPrefixes(s)) == multiset(s)
    decreases |s|
  {
    if |s| > 0 {
      SortPrefixesPerm(s[1..]);
      InsertPerm(s[0], SortPrefixes(s[1..]));
      assert s == [s[0]] + s[1..];
    }
  }

  /** A sorted list of well-formed prefixes without two equal (subnet, plen) keys is what the scan needs. */
  lemma SortedWf(s: seq<Prefix4>)
    requires SortedByKey(s) && forall i :: 0 <= i < |s| ==> PrefixOk(s[i])
    requires forall i, j :: 0 <= i < j < |s| ==> (s[i].subnet, s[i].plen) != (s[j].subnet, s[j].plen)
    ensures WfList(s)
  {
  }

  // ---------------------------------------------------------------------
  // filterFree

  /** The free blocks of one prefix length, in list order. */
  function OfLength(bs: seq<Block4>, len: int): (r: seq<Block4>)
    ensures |r| <= |bs|
  {
    if |bs| == 0 then []
    else OfLength(bs[..|bs| - 1], len) + (if bs[|bs| - 1].plen == len then [bs[|bs| - 1]] else [])
  }

  /** Every block of the length is kept, as often as it occurs. */
  lemma {:induction false} OfLengthCount(bs: seq<Block4>, len: int, b: Block4)
    ensures multiset(OfLength(bs, len))[b] == if b.plen == len then multiset(bs)[b] else 0
    decreases |bs|
  {
    if |bs| > 0 {
      OfLengthCount(bs[..|bs| - 1], len, b);
      assert bs == bs[..|bs| - 1] + [bs[|bs| - 1]];
    }
  }

  /** Every draw is a value of Math.random(). */
  predicate Unit(draws: seq<real>)
  {
    forall i :: 0 <= i < |draws| ==> 0.0 <= draws[i] < 1.0
  }

  /** tlist.splice(k, 1): the list without its k-th element. */
  function Remove(s: seq<Block4>, k: nat): (r: seq<Block4>)
    requires k < |s|
    ensures |r| == |s| - 1
  {
    s[..k] + s[k + 1..]
  }

  /** Removing the k-th element takes exactly one occurrence of it out of the list. */
  lemma RemoveCount(s: seq<Block4>, k: nat)
    requires k < |s|
    ensures multiset(Remove(s, k)) + multiset{s[k]} == multiset(s)
  {
    assert s == s[..k] + [s[k]] + s[k + 1..];
  }

  /**
   * The blocks drawn, following the loop of filterFree: while blocks are
   * left and fewer than ten were drawn, draw i picks an index of the
   * remaining list and moves that block to the picked ones.
   */
  function Picks(picked: seq<Block4>, tlist: seq<Block4>, draws: seq<real>, i: nat): (r: seq<Block4>)
    requires Unit(draws) && |draws| >= 10
    decreases 10 - i
  {
    if |tlist| > 0 && i < 10 then
      var k := FloorScaled(draws[i], |tlist|);
      Picks(picked + [tlist[k]], Remove(tlist, k), draws, i + 1)
    else picked
  }

  /**
   * Ten blocks are drawn, or all of them when fewer are left; every one
   * comes from the list and none is drawn more often than it occurs there.
   */
  lemma PicksSpec(picked: seq<Block4>, tlist: seq<Block4>, draws: seq<real>, i: nat)
    requires Unit(draws) && |draws| >= 10 && i <= 10
    ensures |Picks(picked, tlist, draws, i)| == |picked| + if 10 - i < |tlist| then 10 - i else |tlist|
    ensures multiset(Picks(picked, tlist, draws, i)) <= multiset(picked) + multiset(tlist)
  {
    PicksCount(picked, tlist, draws, i);
    PicksFrom(picked, tlist, draws, i);
  }

  lemma {:induction false} PicksCount(picked: seq<Block4>, tlist: seq<Block4>, draws: seq<real>, i: nat)
    requires Unit(draws) && |draws| >= 10 && i <= 10
    ensures |Picks(picked, tlist, draws, i)| == |picked| + if 10 - i < |tlist| then 10 - i else |tlist|
    decreases 10 - i
  {
    if |tlist| > 0 && i < 10 {
      var k := FloorScaled(draws[i], |tlist|);
      PicksCount(picked + [tlist[k]], Remove(tlist, k), draws, i + 1);
    }
  }

  lemma {:induction false} PicksFrom(picked: seq<Block4>, tlist: seq<Block4>, draws: seq<real>, i: nat)
    requires Unit(draws) && |draws| >= 10 && i <= 10
    ensures multiset(Picks(picked, tlist, draws, i)) <= multiset(picked) + multiset(tlist)
    decreases 10 - i
  {
    if |tlist| > 0 && i < 10 {
      var k := FloorScaled(draws[i], |tlist|);
      PicksFrom(picked + [tlist[k]], Remove(tlist, k), draws, i + 1);
      RemoveCount(tlist, k);
      assert multiset(picked + [tlist[k]]) == multiset(picked) + multiset{tlist[k]};
    }
  }

  /**
   * As written: `tlist[Math.round(Math.random() * tlist.length)]`; None
   * where the index is one past the end, tlist[ix] is undefined and reading
   * its subnet throws.
   */
  function FilterPickAsWritten(tlist: seq<Block4>, r: real): Option<Block4>
    requires 0.0 <= r < 1.0
  {
    var k := RoundScaled(r, |tlist|);
    if k < |tlist| then Some(tlist[k]) else None
  }

  /** The source's rounding can pick one past the end of any non-empty list of free blocks. */
  lemma FilterPickAsWrittenOverruns(tlist: seq<Block4>)
    requires |tlist| > 0
    ensures RoundScaled(1.0 - 1.0 / (2 * |tlist|) as real, |tlist|) == |tlist|
    ensures FilterPickAsWritten(tlist, 1.0 - 1.0 / (2 * |tlist|) as real) == None
  {
    RoundScaledOverruns(|tlist|);
  }

  /** The "a.b.c.d/len" texts of the drawn blocks. */
  function Texts(bs: seq<Block4>): (r: seq<String>)
    ensures |r| == |bs|
  {
    if |bs| == 0 then [] else Texts(bs[..|bs| - 1]) + [Format4(bs[|bs| - 1].subnet, bs[|bs| - 1].plen)]
  }


  /** The texts of one more block are the texts so far and its own. */
  lemma TextsAppend(bs: seq<Block4>, b: Block4)
    ensures Texts(bs + [b]) == Texts(bs) + [Format4(b.subnet, b.plen)]
  {
    assert (bs + [b])[..|bs|] == bs;
  }

}
