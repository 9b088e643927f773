// The ROA generator of roaapi.go: the prefix filters read from the
// registry's filter files, the route objects they admit, and the ROA data
// the server publishes as JSON and as BIRD configuration.
module Roa {

  import opened Wrappers
  import opened Text
  import opened Seqs

  // ---------------------------------------------------------------------
  // Networks

  /**
   * A network as net.ParseCIDR returns it: the bits of its (masked)
   * address and the length of its mask.  Parsing a CIDR text is not part
   * of this model: it is a parameter of the operations that need it.
   */
  datatype Net = Net(addr: seq<bool>, size: nat)

  /** IPNet.Contains: an address of the same family whose leading size bits are the network's. */
  predicate NetContains(n: Net, ip: seq<bool>)
  {
    |ip| == |n.addr| && n.size <= |ip| && ip[..n.size] == n.addr[..n.size]
  }

  /** One line of a filter file: number, action, prefix, shortest and longest announced length. */
  datatype RoaFilter = RoaFilter(number: nat, action: String, prefix: String, minLen: nat, maxLen: nat, network: Net)

  /** One ROA: a prefix, the longest length it may be announced with, and the origin AS. */
  datatype PrefixRoa = PrefixRoa(prefix: String, maxLen: nat, asn: String)

  const Uint8: nat := 0x100
  const Uint32: nat := 0x1_0000_0000
  const Uint64: nat := 0x1_0000_0000_0000_0000

  // ---------------------------------------------------------------------
  // Filter files

  /**
   * The convert closure of loadFilter: the value of a decimal number, 0
   * when strconv.Atoi refuses it.  The closure declares its own cerr with
   * :=, so the cerr that loadFilter tests stays nil and a filter with a bad
   * number is still added.
   */
  function Convert(s: String): int
  {
    match Atoi(s)
    case Some(v) => v
    case None => 0
  }

  /** A line with the trailing comment, from the first '#' on, removed. */
  function Uncommented(text: String): (r: String)
    ensures '#' !in r
    ensures '#' !in TrimSpace(text) ==> r == TrimSpace(text)
    ensures '#' in TrimSpace(text) ==> r + "#" <= TrimSpace(text)
  {
    var line := TrimSpace(text);
    var ix := IndexOf(line, '#');
    if ix == -1 then line else line[..ix]
  }

  /**
   * The filter one line of a filter file defines: at least five fields and
   * a prefix that parses.  The number keeps its 64-bit unsigned wrap and
   * the lengths are truncated to a byte.
   */
  function LineFilter(text: String, parse: String -> Option<Net>): (r: Option<RoaFilter>)
    ensures r.Some? <==> |Fields(Uncommented(text))| >= 5 && parse(Fields(Uncommented(text))[2]).Some?
    ensures r.Some? ==> r.value.number < Uint64 && r.value.minLen < Uint8 && r.value.maxLen < Uint8
    ensures r.Some? ==> var fields := Fields(Uncommented(text));
      r.value.action == fields[1] && r.value.prefix == fields[2] && r.value.network == parse(fields[2]).value
    ensures r.Some? ==> var fields := Fields(Uncommented(text));
      r.value.number == Convert(fields[0]) % Uint64 && r.value.minLen == Convert(fields[3]) % Uint8 && r.value.maxLen == Convert(fields[4]) % Uint8
  {
    var fields := Fields(Uncommented(text));
    if |fields| < 5 then None
    else
      match parse(fields[2])
      case None => None
      case Some(network) =>
        Some(RoaFilter(Convert(fields[0]) % Uint64, fields[1], fields[2],
                       Convert(fields[3]) % Uint8, Convert(fields[4]) % Uint8, network))
  }

  /** A length that is not a number reads as 0, and the filter is kept. */
  lemma BadLengthKept(text: String, parse: String -> Option<Net>)
    requires |Fields(Uncommented(text))| >= 5 && parse(Fields(Uncommented(text))[2]).Some?
    requires Atoi(Fields(Uncommented(text))[3]).None?
    ensures LineFilter(text, parse).Some? && LineFilter(text, parse).value.minLen == 0
  {
    var fields := Fields(Uncommented(text));
    assert Convert(fields[3]) == 0;
  }

  /** A length above 255 keeps only its low byte: 300 becomes 44, -1 becomes 255. */
  lemma LengthTruncated(text: String, parse: String -> Option<Net>)
    requires |Fields(Uncommented(text))| >= 5 && parse(Fields(Uncommented(text))[2]).Some?
    ensures Atoi(Fields(Uncommented(text))[4]) == Some(300) ==> LineFilter(text, parse).value.maxLen == 44
    ensures Atoi(Fields(Uncommented(text))[4]) == Some(-1) ==> LineFilter(text, parse).value.maxLen == 255
  {
    var fields := Fields(Uncommented(text));
    var r := LineFilter(text, parse);
    assert r.value.maxLen == Convert(fields[4]) % Uint8;
    if Atoi(fields[4]) == Some(300) {
      assert Convert(fields[4]) == 300 && 300 % Uint8 == 44;
    }
    if Atoi(fields[4]) == Some(-1) {
      assert Convert(fields[4]) == -1 && -1 % Uint8 == 255;
    }
  }

  /** The filters one line defines: none or one. */
  function LineFilters(text: String, parse: String -> Option<Net>): seq<RoaFilter>
  {
    match LineFilter(text, parse)
    case None => []
    case Some(f) => [f]
  }

  /** The filters of a whole file, in line order. */
  function FileFilters(lines: seq<String>, parse: String -> Option<Net>): seq<RoaFilter>
  {
    FlatMap(lines, text => LineFilters(text, parse))
  }

  /** A filter belongs to a file exactly when one of its lines defines it. */
  lemma FileFiltersFrom(lines: seq<String>, parse: String -> Option<Net>, f: RoaFilter)
    ensures f in FileFilters(lines, parse) <==> exists i :: 0 <= i < |lines| && LineFilter(lines[i], parse) == Some(f)
  {
    FlatMapMember(lines, text => LineFilters(text, parse), f);
  }

  // ---------------------------------------------------------------------
  // Ordering by prefix length

  /** Longer prefixes first: the order loadFilter sorts each file's filters into. */
  predicate NonIncreasing(fs: seq<RoaFilter>)
  {
    forall i, j :: 0 <= i < j < |fs| ==> fs[i].network.size >= fs[j].network.size
  }

  function Insert(f: RoaFilter, fs: seq<RoaFilter>): (r: seq<RoaFilter>)
    requires NonIncreasing(fs)
    ensures NonIncreasing(r)
    ensures multiset(r) == multiset(fs) + multiset{f}
    ensures forall j :: 0 <= j < |r| ==> r[j] == f || r[j] in fs
  {
    if |fs| == 0 || fs[0].network.size <= f.network.size then
      PrependOrdered(f, fs);
      [f] + fs
    else
      var rest := Insert(f, fs[1..]);
      assert fs == [fs[0]] + fs[1..];
      forall j | 0 <= j < |rest|
        ensures rest[j].network.size <= fs[0].network.size
      {
        if rest[j] != f {
          var k :| 0 <= k < |fs[1..]| && fs[1..][k] == rest[j];
          assert fs[k + 1] == rest[j];
        }
      }
      PrependOrdered(fs[0], rest);
      [fs[0]] + rest
  }

  /** A head no shorter than every element keeps the order. */
  lemma PrependOrdered(h: RoaFilter, rest: seq<RoaFilter>)
    requires NonIncreasing(rest) && forall j :: 0 <= j < |rest| ==> rest[j].network.size <= h.network.size
    ensures NonIncreasing([h] + rest)
  {
    var r := [h] + rest;
    forall i, j | 0 <= i < j < |r|
      ensures r[i].network.size >= r[j].network.size
    {
      assert r[j] == rest[j - 1];
      if i > 0 {
        assert r[i] == rest[i - 1];
      }
    }
  }

  /**
   * The sort of loadFilter.  sort.Slice is not stable, so the source fixes
   * no order between filters of one length; this insertion sort is one of
   * the orders it may produce, and LoadFilter promises only what all of
   * them share.
   */
  function SortByLength(fs: seq<RoaFilter>): (r: seq<RoaFilter>)
    ensures NonIncreasing(r)
    ensures multiset(r) == multiset(fs)
  {
    if |fs| == 0 then []
    else
      var n := |fs| - 1;
      assert fs == fs[..n] + [fs[n]];
      Insert(fs[n], SortByLength(fs[..n]))
  }

  // ---------------------------------------------------------------------
  // Matching a prefix to a filter

  /** The first filter, in list order, whose network contains ip. */
  function Match(filters: seq<RoaFilter>, ip: seq<bool>): (r: Option<RoaFilter>)
    ensures r.None? <==> forall i :: 0 <= i < |filters| ==> !NetContains(filters[i].network, ip)
    ensures r.Some? ==> exists k :: (0 <= k < |filters| && filters[k] == r.value && NetContains(r.value.network, ip)
      && forall j :: 0 <= j < k ==> !NetContains(filters[j].network, ip))
  {
    if |filters| == 0 then None
    else if NetContains(filters[0].network, ip) then Some(filters[0])
    else
      var r := Match(filters[1..], ip);
      assert forall i :: 1 <= i < |filters| ==> filters[i] == filters[1..][i - 1];
      r
  }

  /**
   * The max-length a route object gets: the filter's, unless the object's
   * own max-length parses as a byte strictly between the filter's lengths.
   */
  function MaxLength(filter: RoaFilter, local: Option<String>): (m: nat)
    ensures m <= filter.maxLen
    ensures m == filter.maxLen || (local.Some? && ParseUint8(local.value) == Some(m) && filter.minLen < m)
    ensures local.Some? && ParseUint8(local.value).Some? && filter.minLen < ParseUint8(local.value).value < filter.maxLen
      ==> m == ParseUint8(local.value).value
  {
    match local
    case None => filter.maxLen
    case Some(raw) =>
      match ParseUint8(raw)
      case None => filter.maxLen
      case Some(v) => if v < filter.maxLen && v > filter.minLen then v else filter.maxLen
  }

  /** A max-length written in decimal and strictly inside the filter's range is taken as it is. */
  lemma LocalMaxLength(filter: RoaFilter, v: nat)
    requires filter.minLen < v < filter.maxLen && v < Uint8
    ensures MaxLength(filter, Some(Decimal(v))) == v
  {
    ParseUint8Decimal(v);
  }

  // ---------------------------------------------------------------------
  // Compiling the ROAs of route objects

  /**
   * The part of a schema's key index that CompileROA reads: for each
   * object (by reference) the raw values of its route, origin and
   * max-length attributes.  The key index is not part of this model
   * beyond these maps.
   */
  datatype RouteIndex = RouteIndex(routes: map<String, seq<String>>, origins: map<String, seq<String>>, maxLengths: map<String, seq<String>>)

  /** The key index lists at least one attribute for every object it holds. */
  predicate Listed(idx: RouteIndex)
  {
    (forall o :: o in idx.routes ==> |idx.routes[o]| > 0) && (forall o :: o in idx.maxLengths ==> |idx.maxLengths[o]| > 0)
  }

  /** One ROA for each origin, with the prefix and max-length given. */
  function Announce(prefix: String, m: nat, asns: seq<String>): (r: seq<PrefixRoa>)
    ensures |r| == |asns|
    ensures forall k :: 0 <= k < |r| ==> r[k] == PrefixRoa(prefix, m, asns[k])
  {
    if |asns| == 0 then [] else Announce(prefix, m, asns[..|asns| - 1]) + [PrefixRoa(prefix, m, asns[|asns| - 1])]
  }

  /** The filter a route object's prefix is matched to, when the prefix parses and a filter contains it. */
  function RouteFilter(filters: seq<RoaFilter>, parse: String -> Option<Net>, idx: RouteIndex, o: String): Option<RoaFilter>
    requires o in idx.routes && Listed(idx)
  {
    match parse(idx.routes[o][0])
    case None => None
    case Some(pnet) => Match(filters, pnet.addr)
  }

  /** The ROAs one route object yields. */
  function ObjectRoas(filters: seq<RoaFilter>, parse: String -> Option<Net>, idx: RouteIndex, o: String): seq<PrefixRoa>
    requires o in idx.routes && Listed(idx)
  {
    match RouteFilter(filters, parse, idx, o)
    case None => []
    case Some(f) =>
      if f.action == "deny" || o !in idx.origins then []
      else Announce(idx.routes[o][0], MaxLength(f, if o in idx.maxLengths then Some(idx.maxLengths[o][0]) else None), idx.origins[o])
  }

  /**
   * A route object yields no ROA when its prefix does not parse, matches
   * no filter or a deny filter, or it has no origin; otherwise one ROA per
   * origin, for its route, no longer than the filter allows.
   */
  lemma ObjectRoasSpec(filters: seq<RoaFilter>, parse: String -> Option<Net>, idx: RouteIndex, o: String)
    requires o in idx.routes && Listed(idx)
    ensures var f := RouteFilter(filters, parse, idx, o);
      |ObjectRoas(filters, parse, idx, o)| == if f.Some? && f.value.action != "deny" && o in idx.origins then |idx.origins[o]| else 0
    ensures forall k :: 0 <= k < |ObjectRoas(filters, parse, idx, o)| ==>
      Admitted(filters, parse, idx, o, ObjectRoas(filters, parse, idx, o)[k]) && ObjectRoas(filters, parse, idx, o)[k].asn == idx.origins[o][k]
  {
  }

  /** x announces o's route from one of o's origins, under a permitting filter and within its max-length. */
  predicate Admitted(filters: seq<RoaFilter>, parse: String -> Option<Net>, idx: RouteIndex, o: String, x: PrefixRoa)
    requires o in idx.routes && Listed(idx)
  {
    var f := RouteFilter(filters, parse, idx, o);
    f.Some? && f.value.action != "deny" && o in idx.origins
    && x.prefix == idx.routes[o][0] && x.asn in idx.origins[o] && x.maxLen <= f.value.maxLen
  }

  /** The ROAs of the route objects, visited in the given order. */
  function Compile(filters: seq<RoaFilter>, parse: String -> Option<Net>, idx: RouteIndex, order: seq<String>): seq<PrefixRoa>
    requires forall o :: o in order ==> o in idx.routes
    requires Listed(idx)
  {
    FlatMap(order, o requires o in idx.routes && Listed(idx) => ObjectRoas(filters, parse, idx, o))
  }

  /** A ROA is compiled exactly when one of the objects visited yields it. */
  lemma CompileMember(filters: seq<RoaFilter>, parse: String -> Option<Net>, idx: RouteIndex, order: seq<String>, x: PrefixRoa)
    requires forall o :: o in order ==> o in idx.routes
    requires Listed(idx)
    ensures x in Compile(filters, parse, idx, order) <==> exists k :: 0 <= k < |order| && x in ObjectRoas(filters, parse, idx, order[k])
  {
    FlatMapMember(order, o requires o in idx.routes && Listed(idx) => ObjectRoas(filters, parse, idx, o), x);
  }

  /** Every ROA announces the route of an object a permitting filter admits, from one of its origins, no longer than the filter allows. */
  lemma CompileSound(filters: seq<RoaFilter>, parse: String -> Option<Net>, idx: RouteIndex, order: seq<String>, x: PrefixRoa)
    requires forall o :: o in order ==> o in idx.routes
    requires Listed(idx)
    requires x in Compile(filters, parse, idx, order)
    ensures exists o :: o in order && Admitted(filters, parse, idx, o, x)
  {
    CompileMember(filters, parse, idx, order, x);
    var k :| 0 <= k < |order| && x in ObjectRoas(filters, parse, idx, order[k]);
    var r := ObjectRoas(filters, parse, idx, order[k]);
    ObjectRoasSpec(filters, parse, idx, order[k]);
    var j :| 0 <= j < |r| && r[j] == x;
    assert order[k] in order;
  }

  /** The ROA data of one registry load. */
  class RoaData {
    const CTime: int
    const Commit: String
    var Filters: seq<RoaFilter>
    var IPv4: seq<PrefixRoa>
    var IPv6: seq<PrefixRoa>

    constructor(ctime: int, commit: String)
      ensures CTime == ctime && Commit == commit && Filters == [] && IPv4 == [] && IPv6 == []
    {
      CTime := ctime;
      Commit := commit;
      Filters := [];
      IPv4 := [];
      IPv6 := [];
    }

    /**
     * loadFilter: the filters of one file, ordered by prefix length, are
     * appended to Filters.  file is None when the file cannot be opened or
     * read; Filters is then unchanged.
     */
    method LoadFilter(file: Option<seq<String>>, parse: String -> Option<Net>) returns (ok: bool)
      modifies this`Filters
      ensures ok <==> file.Some?
      ensures !ok ==> Filters == old(Filters)
      ensures ok ==> |Filters| >= |old(Filters)| && Filters[..|old(Filters)|] == old(Filters)
      ensures ok ==> multiset(Filters[|old(Filters)|..]) == multiset(FileFilters(file.value, parse))
      ensures ok ==> NonIncreasing(Filters[|old(Filters)|..])
    {
      if file.None? {
        return false;
      }
      var lines := file.value;
      var filters: seq<RoaFilter> := [];
      for i := 0 to |lines|
        invariant filters == FileFilters(lines[..i], parse)
      {
        assert lines[..i + 1][..i] == lines[..i];
        assert FileFilters(lines[..i + 1], parse) == FileFilters(lines[..i], parse) + LineFilters(lines[i], parse);
        var f := LineFilter(lines[i], parse);
        if f.Some? {
          filters := filters + [f.value];
        }
      }
      assert lines[..|lines|] == lines;
      var sorted := SortByLength(filters);
      Filters := Filters + sorted;
      assert Filters[|old(Filters)|..] == sorted;
      return true;
    }

    /** MatchFilter: the first filter whose network contains ip. */
    method MatchFilter(ip: seq<bool>) returns (r: Option<RoaFilter>)
      ensures r == Match(Filters, ip)
    {
      for i := 0 to |Filters|
        invariant Match(Filters[i..], ip) == Match(Filters, ip)
      {
        assert Filters[i..][1..] == Filters[i + 1..];
        if NetContains(Filters[i].network, ip) {
          return Some(Filters[i]);
        }
      }
      return None;
    }

    /**
     * CompileROA: the ROAs of the route objects of one type.  order is the
     * order Go's map iteration visits the objects in: each object once.
     */
    method CompileRoa(parse: String -> Option<Net>, idx: RouteIndex, order: seq<String>) returns (roas: seq<PrefixRoa>)
      requires Listed(idx) && NoDup(order) && forall o :: o in order <==> o in idx.routes
      ensures roas == Compile(Filters, parse, idx, order)
    {
      roas := [];
      for i := 0 to |order|
        invariant roas == Compile(Filters, parse, idx, order[..i])
      {
        assert order[..i + 1][..i] == order[..i];
        assert Compile(Filters, parse, idx, order[..i + 1]) == Compile(Filters, parse, idx, order[..i]) + ObjectRoas(Filters, parse, idx, order[i]);
        var more := CompileObject(parse, idx, order[i]);
        roas := roas + more;
      }
      assert order[..|order|] == order;
    }

    /** The body of CompileROA's loop for one route object. */
    method CompileObject(parse: String -> Option<Net>, idx: RouteIndex, obj: String) returns (roas: seq<PrefixRoa>)
      requires Listed(idx) && obj in idx.routes
      ensures roas == ObjectRoas(Filters, parse, idx, obj)
    {
      roas := [];
      var prefix := idx.routes[obj][0];
      var pnet := parse(prefix);
      if pnet.None? {
        return;
      }
      var filter := MatchFilter(pnet.value.addr);
      if filter.None? || filter.value.action == "deny" {
        return;
      }
      var mlen := MaxLength(filter.value, if obj in idx.maxLengths then Some(idx.maxLengths[obj][0]) else None);
      if obj in idx.origins {
        var oattribs := idx.origins[obj];
        for j := 0 to |oattribs|
          invariant roas == Announce(prefix, mlen, oattribs[..j])
        {
          assert oattribs[..j + 1][..j] == oattribs[..j];
          roas := roas + [PrefixRoa(prefix, mlen, oattribs[j])];
        }
        assert oattribs[..|oattribs|] == oattribs;
      }
    }
  }

  // ---------------------------------------------------------------------
  // Publishing

  /** The metadata of the JSON response: the count of ROAs and the validity window. */
  datatype MetaData = MetaData(counts: nat, generated: nat, valid: nat)

  /** The JSON response: metadata and the ROAs, IPv4 first. */
  datatype RoaJson = RoaJson(metadata: MetaData, roas: seq<PrefixRoa>)

  /** Twelve hours, in seconds. */
  const ValidFor: nat := 12 * 3600

  /**
   * The metadata for ROAs generated at Unix time now: the time is cut to
   * 32 bits, and valid is twelve hours later in 32-bit arithmetic.
   */
  function Stamp(counts: nat, now: int): MetaData
  {
    var utime := now % Uint32;
    MetaData(counts, utime, (utime + ValidFor) % Uint32)
  }

  /**
   * Both times fit in 32 bits, the generation time is now cut to 32 bits,
   * and the validity ends twelve hours later, wrapping around past 2^32.
   */
  lemma StampSpec(counts: nat, now: int)
    ensures var m := Stamp(counts, now);
      m.counts == counts && m.generated < Uint32 && m.valid < Uint32 && m.generated == now % Uint32
      && (m.valid - m.generated) % Uint32 == ValidFor
      && (m.generated + ValidFor < Uint32 ==> m.valid == m.generated + ValidFor)
      && (m.generated + ValidFor >= Uint32 ==> m.valid == m.generated + ValidFor - Uint32)
  {
  }

  /** The published ROA state: ROAData and ROAJSONResponse. */
  class RoaApi {
    var Data: RoaData?
    var Response: Option<RoaJson>

    constructor()
      ensures Data == null && Response == None
    {
      Data := null;
      Response := None;
    }

    /**
     * ROAUpdate: new ROA data from the two filter files and the route and
     * route6 key indexes; nothing changes when either file cannot be read.
     * now stands for time.Now().
     */
    method RoaUpdate(commit: String, now: int, filter4: Option<seq<String>>, filter6: Option<seq<String>>,
                     parse: String -> Option<Net>, idx4: RouteIndex, order4: seq<String>, idx6: RouteIndex, order6: seq<String>)
      requires Listed(idx4) && NoDup(order4) && forall o :: o in order4 <==> o in idx4.routes
      requires Listed(idx6) && NoDup(order6) && forall o :: o in order6 <==> o in idx6.routes
      modifies this
      ensures filter4.None? || filter6.None? ==> Data == old(Data) && Response == old(Response)
      ensures filter4.Some? && filter6.Some? ==> Data != null && fresh(Data) && Data.CTime == now && Data.Commit == commit
      ensures filter4.Some? && filter6.Some? ==> Loaded(Data.Filters, FileFilters(filter4.value, parse), FileFilters(filter6.value, parse))
      ensures filter4.Some? && filter6.Some? ==>
        Data.IPv4 == Compile(Data.Filters, parse, idx4, order4) && Data.IPv6 == Compile(Data.Filters, parse, idx6, order6)
      ensures filter4.Some? && filter6.Some? ==> Response.Some? && Response.value.roas == Data.IPv4 + Data.IPv6
      ensures filter4.Some? && filter6.Some? ==> Response.Some? && Response.value.metadata == Stamp(|Data.IPv4| + |Data.IPv6|, now)
    {
      var roa := new RoaData(now, commit);
      var ok := roa.LoadFilter(filter4, parse);
      if !ok {
        return;
      }
      ghost var f4 := roa.Filters;
      assert f4[0..] == f4;
      ok := roa.LoadFilter(filter6, parse);
      if !ok {
        return;
      }
      TwoLoads(f4, roa.Filters, FileFilters(filter4.value, parse), FileFilters(filter6.value, parse));
      var v4 := roa.CompileRoa(parse, idx4, order4);
      var v6 := roa.CompileRoa(parse, idx6, order6);
      roa.IPv4, roa.IPv6 := v4, v6;
      Data := roa;
      var metadata := Stamp(|v4| + |v6|, now);
      Response := Some(RoaJson(metadata, v4 + v6));
      assert Data.IPv4 == v4 && Data.IPv6 == v6;
    }
  }

  lemma TwoLoads(f4: seq<RoaFilter>, fs: seq<RoaFilter>, first: seq<RoaFilter>, second: seq<RoaFilter>)
    requires multiset(f4) == multiset(first) && NonIncreasing(f4)
    requires |fs| >= |f4| && fs[..|f4|] == f4 && multiset(fs[|f4|..]) == multiset(second) && NonIncreasing(fs[|f4|..])
    ensures Loaded(fs, first, second)
  {
    assert |multiset(f4)| == |f4| && |multiset(fs[|f4|..])| == |fs[|f4|..]|;
  }

  /**
   * The filters of the two files, the first file's ahead of the second's,
   * each file's ordered by prefix length.
   */
  predicate Loaded(fs: seq<RoaFilter>, first: seq<RoaFilter>, second: seq<RoaFilter>)
  {
    |fs| == |first| + |second|
    && multiset(fs[..|first|]) == multiset(first) && NonIncreasing(fs[..|first|])
    && multiset(fs[|first|..]) == multiset(second) && NonIncreasing(fs[|first|..])
  }

  // ---------------------------------------------------------------------
  // BIRD configuration

  /** The roa statement of BIRD 1, the route statement of BIRD 2. */
  function Verb(birdv: String): String
  {
    if birdv == "2" then "route" else "roa"
  }

  /** The ROAs the handler lists: IPv4 when ipv has a '4', then IPv6 when it has a '6'. */
  function Selected(ipv: String, v4: seq<PrefixRoa>, v6: seq<PrefixRoa>): seq<PrefixRoa>
  {
    (if '4' in ipv then v4 else []) + (if '6' in ipv then v6 else [])
  }

  /** An AS number written "AS<n>" is announced as n. */
  predicate Numbered(roas: seq<PrefixRoa>)
  {
    forall i :: 0 <= i < |roas| ==> |roas[i].asn| >= 2
  }

  /** One BIRD statement: verb P max L as N; with N the ASN without its first two characters. */
  function BirdLine(verb: String, roa: PrefixRoa): String
    requires |roa.asn| >= 2
  {
    verb + " " + roa.prefix + " max " + Decimal(roa.maxLen) + " as " + roa.asn[2..] + ";\n"
  }

  /** The statement is its six words separated by single spaces. */
  lemma BirdLineWords(verb: String, roa: PrefixRoa)
    requires |roa.asn| >= 2
    ensures BirdLine(verb, roa) == Join([verb, roa.prefix, "max", Decimal(roa.maxLen), "as", roa.asn[2..] + ";\n"], ' ')
  {
    var ws := [verb, roa.prefix, "max", Decimal(roa.maxLen), "as", roa.asn[2..] + ";\n"];
    assert ws[..2][..1] == ws[..1] == [verb];
    assert Join(ws[..2], ' ') == verb + " " + roa.prefix;
    assert ws[..3][..2] == ws[..2];
    assert Join(ws[..3], ' ') == verb + " " + roa.prefix + " max";
    assert ws[..4][..3] == ws[..3];
    assert Join(ws[..4], ' ') == verb + " " + roa.prefix + " max " + Decimal(roa.maxLen);
    assert ws[..5][..4] == ws[..4];
    assert Join(ws[..5], ' ') == verb + " " + roa.prefix + " max " + Decimal(roa.maxLen) + " as";
    assert ws[..6] == ws && ws[..6][..5] == ws[..5];
  }

  /** A statement whose prefix and ASN hold no space reads back by words: its prefix, a max-length that ParseUint8 takes back, and the AS number. */
  lemma BirdLineReads(verb: String, roa: PrefixRoa)
    requires |roa.asn| >= 2 && ' ' !in verb && ' ' !in roa.prefix && ' ' !in roa.asn && roa.maxLen < Uint8
    ensures var ws := Split(BirdLine(verb, roa), ' ');
      |ws| == 6 && ws[0] == verb && ws[1] == roa.prefix && ParseUint8(ws[3]) == Some(roa.maxLen) && ws[5] == roa.asn[2..] + ";\n"
  {
    var ws := [verb, roa.prefix, "max", Decimal(roa.maxLen), "as", roa.asn[2..] + ";\n"];
    BirdLineWords(verb, roa);
    DecimalDigits(roa.maxLen);
    assert ' ' !in roa.asn[2..] + ";\n" by {
      assert forall c :: c in roa.asn[2..] ==> c in roa.asn;
    }
    assert forall i :: 0 <= i < |ws| ==> ' ' !in ws[i];
    SplitJoin(ws, ' ');
    ParseUint8Decimal(roa.maxLen);
  }

  /** The statements for the selected ROAs, one per ROA in order; None where an ASN is too short and the handler panics. */
  function BirdLines(verb: String, roas: seq<PrefixRoa>): (r: Option<seq<String>>)
    ensures r.Some? <==> Numbered(roas)
    ensures r.Some? ==> |r.value| == |roas| && forall i :: 0 <= i < |roas| ==> r.value[i] == BirdLine(verb, roas[i])
  {
    if |roas| == 0 then Some([])
    else
      var n := |roas| - 1;
      match BirdLines(verb, roas[..n])
      case None =>
        assert !Numbered(roas) by {
          var i :| 0 <= i < n && |roas[..n][i].asn| < 2;
          assert roas[..n][i] == roas[i];
        }
        None
      case Some(front) =>
        if |roas[n].asn| < 2 then None
        else
          assert Numbered(roas) by {
            forall i | 0 <= i < |roas| ensures |roas[i].asn| >= 2 {
              if i < n {
                assert roas[..n][i] == roas[i];
              }
            }
          }
          Some(front + [BirdLine(verb, roas[n])])
  }

  /**
   * roaBirdHandler: the statements that follow the comment header, for
   * the ROA data's IPv4 and IPv6 lists as ipv selects them.  The header
   * and the HTTP response are not part of this model.
   */
  method RoaBird(data: RoaData, birdv: String, ipv: String) returns (out: Option<seq<String>>)
    ensures out == BirdLines(Verb(birdv), Selected(ipv, data.IPv4, data.IPv6))
  {
    var verb := Verb(birdv);
    var roa: seq<PrefixRoa> := [];
    if '4' in ipv {
      roa := roa + data.IPv4;
    }
    if '6' in ipv {
      roa := roa + data.IPv6;
    }
    assert roa == Selected(ipv, data.IPv4, data.IPv6);
    var lines: seq<String> := [];
    for i := 0 to |roa|
      invariant BirdLines(verb, roa[..i]) == Some(lines)
    {
      assert roa[..i + 1][..i] == roa[..i];
      if |roa[i].asn| < 2 {
        assert !Numbered(roa);
        return None;
      }
      lines := lines + [BirdLine(verb, roa[i])];
    }
    assert roa[..|roa|] == roa;
    out := Some(lines);
  }
}
