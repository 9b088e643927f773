// The app-free4 view component: the state it keeps between refreshes and
// the methods that fill it.
module FreeView4 {

  import opened Wrappers
  import opened Bits
  import opened Text
  import opened FreeIPv4
  import opened Prefixes4
  import opened Seqs

  datatype ViewState = Invalid | Loading | Ready | Error

  /** Appending two runs of blocks one after the other appends their concatenation and adds up their counts. */
  lemma JoinCounts(f0: seq<Block4>, f1: seq<Block4>, f2: seq<Block4>, n0: nat, n1: nat, n2: nat, a0: nat, a1: nat, a2: nat,
                   l: seq<Block4>, r: seq<Block4>, b: seq<Block4>)
    requires b == l + r && f1 == f0 + l && f2 == f1 + r
    requires n1 == n0 + Nets(l) && n2 == n1 + Nets(r) && a1 == a0 + Addr(l) && a2 == a1 + Addr(r)
    ensures f2 == f0 + b && n2 == n0 + Nets(b) && a2 == a0 + Addr(b)
  {
    StatsAppend(l, r);
    AppendAssoc(f0, l, r);
  }

  /** Appending the first run of a split list leaves the rest to append, with the same totals. */
  lemma PrefixCounts(f0: seq<Block4>, f1: seq<Block4>, n0: nat, n1: nat, a0: nat, a1: nat,
                     s: seq<Block4>, rest: seq<Block4>, d: seq<Block4>)
    requires d == s + rest && f1 == f0 + s && n1 == n0 + Nets(s) && a1 == a0 + Addr(s)
    ensures f1 + rest == f0 + d && n1 + Nets(rest) == n0 + Nets(d) && a1 + Addr(rest) == a0 + Addr(d)
  {
    StatsAppend(s, rest);
    AppendAssoc(f0, s, rest);
  }

  class Free4View {
    var state: ViewState
    var p4: seq<Prefix4>
    var free4: seq<Block4>
    /** The cursor into p4 shared by every level of the scan. */
    var ix: nat
    var alloc: nat
    var addr: nat
    var nets: nat
    /** The prefix length the free list is filtered on. */
    var filter: int
    var filtered: seq<String>
    var ftotal: nat

    constructor()
      ensures state == Invalid && p4 == [] && free4 == [] && ix == 0
      ensures alloc == 0 && addr == 0 && nets == 0
      ensures filter == 27 && filtered == [] && ftotal == 0
    {
      state := Invalid;
      p4 := [];
      free4 := [];
      ix := 0;
      alloc := 0;
      addr := 0;
      nets := 0;
      filter := 27;
      filtered := [];
      ftotal := 0;
    }

    /** reload: forget the prefixes (but not the free list) and wait for the registry. */
    method Reload()
      modifies this`p4, this`state
      ensures p4 == [] && state == Loading
    {
      p4 := [];
      state := Loading;
    }

    /** After updateFree4: the free list grew by the scan of p4, and the counters describe that scan alone. */
    ghost predicate Scanned(free0: seq<Block4>)
      reads this`p4, this`free4, this`alloc, this`nets, this`addr
    {
      && WfList(p4)
      && free4 == free0 + ScanAll(p4).blocks
      && alloc == |p4| && nets == Nets(ScanAll(p4).blocks) && addr == Addr(ScanAll(p4).blocks)
    }

    /** The scan state after appending the blocks of out to f0 and their counts to n0 and a0. */
    ghost predicate Appended(f0: seq<Block4>, n0: nat, a0: nat, out: ScanOut)
      reads this`free4, this`ix, this`nets, this`addr
    {
      free4 == f0 + out.blocks && ix == out.ix && nets == n0 + Nets(out.blocks) && addr == a0 + Addr(out.blocks)
    }

    /** After filterFree: the count of free blocks of the selected length, and the texts of those drawn. */
    ghost predicate Filtered(draws: seq<real>)
      requires Unit(draws) && |draws| >= 10
      reads this`free4, this`filter, this`ftotal, this`filtered
    {
      ftotal == |OfLength(free4, filter)| && filtered == Texts(Picks([], OfLength(free4, filter), draws, 0))
    }

    /**
     * processIPv4: collect and sort the prefixes, rescan, refilter.  The
     * registry must hold prefixes whose lengths are within 0 .. 32, aligned
     * and without two of the same subnet and length (otherwise the scan does
     * not end); a missing cidr attribute aborts the processing and the view
     * shows an error.
     */
    method ProcessIPv4(objects: seq<Attrs>, draws: seq<real>)
      requires Collect(objects).Some? ==> Usable(Collect(objects).value)
      requires Collect(objects).Some? && Usable(Collect(objects).value) ==> WfList(SortPrefixes(Prefixes(Collect(objects).value)))
      requires Unit(draws) && |draws| >= 10
      modifies this
      ensures filter == old(filter)
      ensures Collect(objects).None? ==>
        state == Error && p4 == old(p4) && free4 == old(free4) && ix == old(ix)
        && alloc == old(alloc) && nets == old(nets) && addr == old(addr)
        && ftotal == old(ftotal) && filtered == old(filtered)
      ensures Collect(objects).Some? ==>
        p4 == SortPrefixes(Prefixes(Collect(objects).value)) && alloc == |Collect(objects).value| && state == Ready
        && Scanned(old(free4)) && ix == |p4| && Filtered(draws)
    {
      var inets := Collect(objects);
      if inets.None? {
        state := Error;
        return;
      }
      var prefixes := Prefixes(inets.value);
      assert |SortPrefixes(prefixes)| == |inets.value| by {
        SortPrefixesPerm(prefixes);
        assert |multiset(SortPrefixes(prefixes))| == |multiset(prefixes)|;
      }
      Rebuild(SortPrefixes(prefixes), draws);
    }

    /** The rest of processIPv4 once the prefixes are collected and sorted: rescan, refilter, and show the view. */
    method Rebuild(sorted: seq<Prefix4>, draws: seq<real>)
      requires WfList(sorted)
      requires Unit(draws) && |draws| >= 10
      modifies this
      ensures p4 == sorted && state == Ready && Scanned(old(free4)) && Filtered(draws)
      ensures filter == old(filter) && ix == |p4|
    {
      var length := filter;
      Rescan(sorted);
      ghost var scanned := (p4, free4, alloc, nets, addr, ix);
      UpdatePrefixLen(length, draws);
      assert (p4, free4, alloc, nets, addr, ix) == scanned && filter == length;
      state := Ready;
    }

    /** The splice of the sorted prefixes into p4, and updateFree4. */
    method Rescan(sorted: seq<Prefix4>)
      requires WfList(sorted)
      modifies this`p4, this`alloc, this`addr, this`nets, this`ix, this`free4
      ensures p4 == sorted && Scanned(old(free4)) && ix == |p4|
    {
      p4 := sorted;
      UpdateFree4();
    }

    /** updateFree4: reset the counters and the cursor and scan 0.0.0.0/0; the free list is appended to, not cleared. */
    method UpdateFree4()
      requires WfList(p4)
      modifies this`alloc, this`addr, this`nets, this`ix, this`free4
      ensures Scanned(old(free4)) && ix == |p4|
    {
      alloc := |p4|;
      addr := 0;
      nets := 0;
      ix := 0;
      RootNode();
      ScanSubnets(RootSubnet, RootMask, RootLen);
    }

    /** updatePrefixLen: select the prefix length to show and refilter (the button highlighting is left out). */
    method UpdatePrefixLen(value: int, draws: seq<real>)
      requires Unit(draws) && |draws| >= 10
      modifies this`filter, this`ftotal, this`filtered
      ensures filter == value && Filtered(draws)
    {
      filter := value;
      FilterFree(draws);
    }

    /** filterFree: the blocks of the selected length, and up to ten of them drawn at random. */
    method FilterFree(draws: seq<real>)
      requires Unit(draws) && |draws| >= 10
      modifies this`ftotal, this`filtered
      ensures Filtered(draws)
    {
      var tlist: seq<Block4> := [];
      for j := 0 to |free4|
        invariant tlist == OfLength(free4[..j], filter)
      {
        assert free4[..j + 1][..j] == free4[..j];
        if free4[j].plen == filter {
          tlist := tlist + [free4[j]];
        }
      }
      assert free4[..|free4|] == free4;
      ftotal := |tlist|;
      ghost var picked: seq<Block4> := [];
      ghost var tlist0 := tlist;
      var result: seq<String> := [];
      var i := 0;
      while |tlist| > 0 && i < 10
        invariant 0 <= i <= 10
        invariant Picks(picked, tlist, draws, i) == Picks([], tlist0, draws, 0)
        invariant result == Texts(picked)
        invariant ftotal == |OfLength(free4, filter)|
        decreases 10 - i
      {
        var k := FloorScaled(draws[i], |tlist|);
        var obj := tlist[k];
        TextsAppend(picked, obj);
        result := result + [Format4(obj.subnet, obj.plen)];
        picked := picked + [obj];
        tlist := Remove(tlist, k);
        i := i + 1;
      }
      filtered := result;
    }

    /** stats4: count a free block when it lies in 172.20.0.0/14. */
    method Stats4(subnet: nat, plen: nat)
      requires plen <= 32
      modifies this`nets, this`addr
      ensures nets == old(nets) + (if InScope(subnet) then 1 else 0)
      ensures addr == old(addr) + (if InScope(subnet) then Size(plen) else 0)
    {
      var masked := BitAnd(subnet, 0xFFFC_0000);
      if masked == 0xAC14_0000 {
        nets := nets + 1;
        addr := addr + Pow2(32 - plen);
      }
    }

    /** Record a free block: count it and append it to free4. */
    method Emit(subnet: nat, mask: nat, plen: nat)
      requires plen <= 32
      modifies this`nets, this`addr, this`free4
      ensures free4 == old(free4) + [Block4(subnet, mask, plen)]
      ensures nets == old(nets) + Nets([Block4(subnet, mask, plen)])
      ensures addr == old(addr) + Addr([Block4(subnet, mask, plen)])
    {
      Stats4(subnet, plen);
      free4 := free4 + [Block4(subnet, mask, plen)];
    }

    /**
     * scanSubnets: append the free blocks of the node to free4, moving the
     * cursor past every entry inside the node.
     */
    method ScanSubnets(subnet: nat, mask: nat, plen: nat)
      requires WfList(p4) && ix <= |p4| && NodeOk(subnet, mask, plen) && AtOrAfter(p4, ix, subnet, plen)
      modifies this`ix, this`free4, this`nets, this`addr
      ensures free4 == old(free4) + Scan(p4, old(ix), subnet, mask, plen).blocks
      ensures ix == Scan(p4, old(ix), subnet, mask, plen).ix
      ensures nets == old(nets) + Nets(Scan(p4, old(ix), subnet, mask, plen).blocks)
      ensures addr == old(addr) + Addr(Scan(p4, old(ix), subnet, mask, plen).blocks)
      decreases 32 - plen, 5
    {
      if ix >= |p4| {
        Emit(subnet, mask, plen);
        return;
      }
      var prefix := p4[ix];
      if prefix.subnet == subnet && prefix.plen == plen {
        ScanExact(subnet, mask, plen);
      } else {
        ScanOther(p4, ix, subnet, mask, plen);
        SplitSubnet(subnet, mask, plen);
      }
    }

    /**
     * The cursor entry is the node itself: a closed one hides the node but
     * for the open entries inside it; an open one is stepped over and the
     * node split as for any other entry.
     */
    method ScanExact(subnet: nat, mask: nat, plen: nat)
      requires WfList(p4) && ix < |p4| && NodeOk(subnet, mask, plen) && AtOrAfter(p4, ix, subnet, plen)
      requires p4[ix].subnet == subnet && p4[ix].plen == plen
      modifies this`ix, this`free4, this`nets, this`addr
      ensures Appended(old(free4), old(nets), old(addr), Scan(p4, old(ix), subnet, mask, plen))
      decreases 32 - plen, 4
    {
      if !IsOpen(p4[ix]) {
        ScanExactClosed(p4, ix, subnet, mask, plen);
        ix := ix + 1;
        ScanChildren(subnet, mask, plen);
      } else {
        ScanPastOpen(subnet, mask, plen);
      }
    }

    /** An open entry that is the node itself: step over it; the node is free but for what lies inside it. */
    method ScanPastOpen(subnet: nat, mask: nat, plen: nat)
      requires WfList(p4) && ix < |p4| && NodeOk(subnet, mask, plen) && AtOrAfter(p4, ix, subnet, plen)
      requires p4[ix].subnet == subnet && p4[ix].plen == plen && IsOpen(p4[ix])
      modifies this`ix, this`free4, this`nets, this`addr
      ensures free4 == old(free4) + Scan(p4, old(ix), subnet, mask, plen).blocks
      ensures ix == Scan(p4, old(ix), subnet, mask, plen).ix
      ensures nets == old(nets) + Nets(Scan(p4, old(ix), subnet, mask, plen).blocks)
      ensures addr == old(addr) + Addr(Scan(p4, old(ix), subnet, mask, plen).blocks)
      decreases 32 - plen, 3
    {
      ix := ix + 1;
      if ix >= |p4| {
        Emit(subnet, mask, plen);
        return;
      }
      ScanExactOpen(p4, ix - 1, subnet, mask, plen);
      SplitSubnet(subnet, mask, plen);
    }

    /** The tail of scanSubnets: split the node when the cursor entry lies inside it, otherwise emit it whole. */
    method SplitSubnet(subnet: nat, mask: nat, plen: nat)
      requires WfList(p4) && ix < |p4| && NodeOk(subnet, mask, plen) && After(p4, ix, subnet, plen)
      modifies this`ix, this`free4, this`nets, this`addr
      ensures free4 == old(free4) + Bisect(p4, old(ix), subnet, mask, plen).blocks
      ensures ix == Bisect(p4, old(ix), subnet, mask, plen).ix
      ensures nets == old(nets) + Nets(Bisect(p4, old(ix), subnet, mask, plen).blocks)
      ensures addr == old(addr) + Addr(Bisect(p4, old(ix), subnet, mask, plen).blocks)
      decreases 32 - plen, 2
    {
      var prefix := p4[ix];
      assert PrefixOk(prefix);
      var masked := Masked4(prefix.subnet, subnet, mask, plen);
      if subnet == masked {
        ScanHalves(subnet, mask, plen);
      } else {
        BisectEmit(p4, ix, subnet, mask, plen);
        Emit(subnet, mask, plen);
      }
    }

    /** The split: scan the lower half, then the upper half from where the lower left the cursor. */
    method ScanHalves(subnet: nat, mask: nat, plen: nat)
      requires WfList(p4) && ix < |p4| && NodeOk(subnet, mask, plen) && After(p4, ix, subnet, plen)
      requires subnet <= p4[ix].subnet < subnet + Size(plen)
      modifies this`ix, this`free4, this`nets, this`addr
      ensures free4 == old(free4) + Bisect(p4, old(ix), subnet, mask, plen).blocks
      ensures ix == Bisect(p4, old(ix), subnet, mask, plen).ix
      ensures nets == old(nets) + Nets(Bisect(p4, old(ix), subnet, mask, plen).blocks)
      ensures addr == old(addr) + Addr(Bisect(p4, old(ix), subnet, mask, plen).blocks)
      decreases 32 - plen, 1
    {
      SplitReady(p4, ix, subnet, plen);
      var lo, hi, mask' := Halves4(subnet, mask, plen);
      BisectSplit(p4, ix, subnet, mask, plen, lo, hi, mask');
      ghost var left := Scan(p4, ix, lo, mask', plen + 1);
      ghost var right := Scan(p4, left.ix, hi, mask', plen + 1);
      ghost var f0, n0, a0 := free4, nets, addr;
      ScanSubnets(lo, mask', plen + 1);
      ghost var f1, n1, a1 := free4, nets, addr;
      ScanSubnets(hi, mask', plen + 1);
      JoinCounts(f0, f1, free4, n0, n1, nets, a0, a1, addr, left.blocks, right.blocks, left.blocks + right.blocks);
    }

    /** The loop under a closed exact match: rescan open children, skip closed ones. */
    method ScanChildren(subnet: nat, mask: nat, plen: nat)
      requires WfList(p4) && ix <= |p4| && NodeOk(subnet, mask, plen) && After(p4, ix, subnet, plen)
      modifies this`ix, this`free4, this`nets, this`addr
      ensures free4 == old(free4) + Descendants(p4, old(ix), subnet, mask, plen).blocks
      ensures ix == Descendants(p4, old(ix), subnet, mask, plen).ix
      ensures nets == old(nets) + Nets(Descendants(p4, old(ix), subnet, mask, plen).blocks)
      ensures addr == old(addr) + Addr(Descendants(p4, old(ix), subnet, mask, plen).blocks)
      decreases 32 - plen, 2
    {
      ghost var d0 := Descendants(p4, ix, subnet, mask, plen);
      while ix < |p4|
        invariant ix <= |p4| && After(p4, ix, subnet, plen)
        invariant free4 + Descendants(p4, ix, subnet, mask, plen).blocks == old(free4) + d0.blocks
        invariant Descendants(p4, ix, subnet, mask, plen).ix == d0.ix
        invariant nets + Nets(Descendants(p4, ix, subnet, mask, plen).blocks) == old(nets) + Nets(d0.blocks)
        invariant addr + Addr(Descendants(p4, ix, subnet, mask, plen).blocks) == old(addr) + Addr(d0.blocks)
        decreases |p4| - ix
      {
        var prefix := p4[ix];
        assert PrefixOk(prefix);
        var masked := Masked4(prefix.subnet, subnet, mask, plen);
        if subnet != masked {
          break;
        }
        ScanChild(subnet, mask, plen);
      }
      DescendStop(p4, ix, subnet, mask, plen);
    }

    /** One entry inside the closed node: rescan it when it is open, skip it when it is closed. */
    method ScanChild(subnet: nat, mask: nat, plen: nat)
      requires WfList(p4) && ix < |p4| && NodeOk(subnet, mask, plen) && After(p4, ix, subnet, plen)
      requires subnet <= p4[ix].subnet < subnet + Size(plen)
      modifies this`ix, this`free4, this`nets, this`addr
      ensures old(ix) < ix <= |p4| && After(p4, ix, subnet, plen)
      ensures Descendants(p4, ix, subnet, mask, plen).ix == Descendants(p4, old(ix), subnet, mask, plen).ix
      ensures free4 + Descendants(p4, ix, subnet, mask, plen).blocks
              == old(free4) + Descendants(p4, old(ix), subnet, mask, plen).blocks
      ensures nets + Nets(Descendants(p4, ix, subnet, mask, plen).blocks)
              == old(nets) + Nets(Descendants(p4, old(ix), subnet, mask, plen).blocks)
      ensures addr + Addr(Descendants(p4, ix, subnet, mask, plen).blocks)
              == old(addr) + Addr(Descendants(p4, old(ix), subnet, mask, plen).blocks)
      decreases 32 - plen, 1
    {
      if IsOpen(p4[ix]) {
        RescanChild(subnet, mask, plen);
      } else {
        DescendClosed(p4, ix, subnet, mask, plen);
        ix := ix + 1;
      }
    }

    /** An open entry inside the closed node: scan it as a node of its own. */
    method RescanChild(subnet: nat, mask: nat, plen: nat)
      requires WfList(p4) && ix < |p4| && NodeOk(subnet, mask, plen) && After(p4, ix, subnet, plen)
      requires subnet <= p4[ix].subnet < subnet + Size(plen) && IsOpen(p4[ix])
      modifies this`ix, this`free4, this`nets, this`addr
      ensures old(ix) < ix <= |p4| && After(p4, ix, subnet, plen)
      ensures Descendants(p4, ix, subnet, mask, plen).ix == Descendants(p4, old(ix), subnet, mask, plen).ix
      ensures free4 + Descendants(p4, ix, subnet, mask, plen).blocks
              == old(free4) + Descendants(p4, old(ix), subnet, mask, plen).blocks
      ensures nets + Nets(Descendants(p4, ix, subnet, mask, plen).blocks)
              == old(nets) + Nets(Descendants(p4, old(ix), subnet, mask, plen).blocks)
      ensures addr + Addr(Descendants(p4, ix, subnet, mask, plen).blocks)
              == old(addr) + Addr(Descendants(p4, old(ix), subnet, mask, plen).blocks)
      decreases 32 - plen, 0
    {
      var prefix := p4[ix];
      DescendOpen(p4, ix, subnet, mask, plen);
      ghost var d := Descendants(p4, ix, subnet, mask, plen);
      ghost var sub := Scan(p4, ix, prefix.subnet, prefix.mask, prefix.plen);
      ghost var rest := Descendants(p4, sub.ix, subnet, mask, plen);
      ghost var f0, n0, a0 := free4, nets, addr;
      ScanSubnets(prefix.subnet, prefix.mask, prefix.plen);
      PrefixCounts(f0, free4, n0, nets, a0, addr, sub.blocks, rest.blocks, d.blocks);
      assert rest == Descendants(p4, ix, subnet, mask, plen);
    }
  }
}
