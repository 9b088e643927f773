// The DN42 root zone of dnsapi.go: NS, stub A/AAAA and DS records built
// from the nserver and ds-rdata attributes of domain and network objects,
// and their BIND master-file form (section 5.1 of RFC 1035).
module Dns {

  import opened Wrappers
  import opened Text
  import opened Seqs
  import opened Registry

  /** One record of the zone. */
  datatype DnsRecord = DnsRecord(name: String, rtype: String, content: String, comment: String)

  /** DNSRootAuthZones: the zones that are authoritative within DN42, with the object that delegates each. */
  const RootAuthZones: map<String, String> := map[
    "dn42" := "domain/dn42",
    "recursive-servers.dn42" := "domain/recursive-servers.dn42",
    "delegation-servers.dn42" := "domain/delegation-servers.dn42",
    "d.f.ip6.arpa" := "inet6num/fd00::_8",
    "20.172.in-addr.arpa" := "inetnum/172.20.0.0_16",
    "21.172.in-addr.arpa" := "inetnum/172.21.0.0_16",
    "22.172.in-addr.arpa" := "inetnum/172.22.0.0_16",
    "23.172.in-addr.arpa" := "inetnum/172.23.0.0_16",
    "31.172.in-addr.arpa" := "inetnum/172.31.0.0_16",
    "10.in-addr.arpa" := "inetnum/10.0.0.0_8"
  ]

  const AuthComment: String := "DN42 Authoritative Zone"
  const ForwardComment: String := "Forward Zone"

  // ---------------------------------------------------------------------
  // Records of one object

  /** The type of a stub record: AAAA for an address with a ':', A otherwise. */
  function StubType(addr: String): (t: String)
    ensures t == "AAAA" <==> ':' in addr
    ensures t == "A" <==> ':' !in addr
  {
    if IndexOf(addr, ':') == -1 then "A" else "AAAA"
  }

  /**
   * The records of one nserver value: "host addr" gives an NS record for
   * host and a stub record for its address; any other value an NS record
   * for the value as written.
   */
  function NsRecords(name: String, raw: String, comment: String): seq<DnsRecord>
  {
    var fields := Split(raw, ' ');
    if |fields| == 2 then
      [DnsRecord(name, "NS", fields[0] + ".", comment), DnsRecord(fields[0], StubType(fields[1]), fields[1], comment)]
    else
      [DnsRecord(name, "NS", raw + ".", comment)]
  }

  /** A host and an address separated by one space give the NS record and the stub record, AAAA exactly for an IPv6 address. */
  lemma NsWithStub(name: String, host: String, addr: String, comment: String)
    requires ' ' !in host && ' ' !in addr
    ensures NsRecords(name, host + " " + addr, comment) ==
      [DnsRecord(name, "NS", host + ".", comment), DnsRecord(host, if ':' in addr then "AAAA" else "A", addr, comment)]
  {
    assert Join([host, addr], ' ') == host + " " + addr by {
      assert [host, addr][..1] == [host];
    }
    SplitJoin([host, addr], ' ');
  }

  /** A value without a space gives a single NS record. */
  lemma NsAlone(name: String, raw: String, comment: String)
    requires ' ' !in raw
    ensures NsRecords(name, raw, comment) == [DnsRecord(name, "NS", raw + ".", comment)]
  {
    SplitJoin([raw], ' ');
  }

  /** Every record of an nserver value is an NS record of the zone or a stub record. */
  lemma NsRecordsKinds(name: String, raw: String, comment: String)
    ensures forall r :: r in NsRecords(name, raw, comment) ==>
      r.comment == comment && ((r.rtype == "NS" && r.name == name) || r.rtype == "A" || r.rtype == "AAAA")
    ensures |NsRecords(name, raw, comment)| > 0 && NsRecords(name, raw, comment)[0].rtype == "NS"
  {
    var fields := Split(raw, ' ');
    if |fields| == 2 {
      var t := StubType(fields[1]);
      assert t == "A" || t == "AAAA";
      assert NsRecords(name, raw, comment) == [DnsRecord(name, "NS", fields[0] + ".", comment), DnsRecord(fields[0], t, fields[1], comment)];
    } else {
      assert NsRecords(name, raw, comment) == [DnsRecord(name, "NS", raw + ".", comment)];
    }
  }

  function NsOf(name: String, comment: String): RegAttribute -> seq<DnsRecord>
  {
    (a: RegAttribute) => NsRecords(name, a.RawValue, comment)
  }

  function DsOf(name: String, comment: String): RegAttribute -> seq<DnsRecord>
  {
    (a: RegAttribute) => [DnsRecord(name, "DS", a.RawValue, comment)]
  }

  /** The records of an object: its nserver values in order, then one DS record per ds-rdata value in order. */
  function ObjectRecords(name: String, obj: RegObject, comment: String): seq<DnsRecord>
  {
    FlatMap(KeyAttrs(obj.Data, "nserver"), NsOf(name, comment)) + FlatMap(KeyAttrs(obj.Data, "ds-rdata"), DsOf(name, comment))
  }

  /** A record of an object is an NS record of the zone, a stub record, or a DS record of the zone, all with the comment given. */
  lemma ObjectRecordsKinds(name: String, obj: RegObject, comment: String, r: DnsRecord)
    requires r in ObjectRecords(name, obj, comment)
    ensures r.comment == comment
    ensures r.rtype == "NS" || r.rtype == "DS" ==> r.name == name
    ensures r.rtype == "NS" || r.rtype == "DS" || r.rtype == "A" || r.rtype == "AAAA"
  {
    var ns := KeyAttrs(obj.Data, "nserver");
    var ds := KeyAttrs(obj.Data, "ds-rdata");
    FlatMapMember(ns, NsOf(name, comment), r);
    FlatMapMember(ds, DsOf(name, comment), r);
    if r in FlatMap(ns, NsOf(name, comment)) {
      var k :| 0 <= k < |ns| && r in NsRecords(name, ns[k].RawValue, comment);
      NsRecordsKinds(name, ns[k].RawValue, comment);
    }
  }

  /** The object's records are found under its reference, when the registry holds it. */
  function RecordsAt(objects: map<String, RegObject>, name: String, path: String, comment: String): seq<DnsRecord>
  {
    if path in objects then ObjectRecords(name, objects[path], comment) else []
  }

  // ---------------------------------------------------------------------
  // The zone

  /** A zone under construction: its records in the order they were added. */
  class DnsZone {
    var Records: seq<DnsRecord>
    const Commit: String
    /** time.Now() when the zone was made, in seconds. */
    const Generated: int

    constructor(commit: String, generated: int)
      ensures Records == [] && Commit == commit && Generated == generated
    {
      Records := [];
      Commit := commit;
      Generated := generated;
    }

    /** AddRecord: one record with the given fields after the others. */
    method AddRecord(name: String, t: String, content: String, comment: String)
      modifies this`Records
      ensures Records == old(Records) + [DnsRecord(name, t, content, comment)]
    {
      Records := Records + [DnsRecord(name, t, content, comment)];
    }

    /**
     * AddRecords: the records of the object at path, for the zone name;
     * nothing when the registry has no such object.  objects stands for
     * the registry's lookup of an object by reference.
     */
    method AddRecords(objects: map<String, RegObject>, name: String, path: String, comment: String)
      modifies this`Records
      ensures Records == old(Records) + RecordsAt(objects, name, path, comment)
    {
      if path !in objects {
        return;
      }
      var obj := objects[path];
      var nserver := obj.GetKey("nserver");
      AddNsRecords(name, nserver, comment);
      var dsrdata := obj.GetKey("ds-rdata");
      AddDsRecords(name, dsrdata, comment);
    }

    /** AddRecords' loop over the nserver attributes. */
    method AddNsRecords(name: String, nserver: seq<RegAttribute>, comment: String)
      modifies this`Records
      ensures Records == old(Records) + FlatMap(nserver, NsOf(name, comment))
    {
      for i := 0 to |nserver|
        invariant Records == old(Records) + FlatMap(nserver[..i], NsOf(name, comment))
      {
        assert nserver[..i + 1][..i] == nserver[..i];
        assert FlatMap(nserver[..i + 1], NsOf(name, comment)) == FlatMap(nserver[..i], NsOf(name, comment)) + NsRecords(name, nserver[i].RawValue, comment);
        AddNs(name, nserver[i].RawValue, comment);
      }
      assert nserver[..|nserver|] == nserver;
    }

    /** AddRecords' loop over the ds-rdata attributes. */
    method AddDsRecords(name: String, dsrdata: seq<RegAttribute>, comment: String)
      modifies this`Records
      ensures Records == old(Records) + FlatMap(dsrdata, DsOf(name, comment))
    {
      for i := 0 to |dsrdata|
        invariant Records == old(Records) + FlatMap(dsrdata[..i], DsOf(name, comment))
      {
        assert dsrdata[..i + 1][..i] == dsrdata[..i];
        assert FlatMap(dsrdata[..i + 1], DsOf(name, comment)) == FlatMap(dsrdata[..i], DsOf(name, comment)) + [DnsRecord(name, "DS", dsrdata[i].RawValue, comment)];
        AddRecord(name, "DS", dsrdata[i].RawValue, comment);
      }
      assert dsrdata[..|dsrdata|] == dsrdata;
    }

    /** The body of AddRecords' loop over the nserver values. */
    method AddNs(name: String, raw: String, comment: String)
      modifies this`Records
      ensures Records == old(Records) + NsRecords(name, raw, comment)
    {
      var fields := Split(raw, ' ');
      if |fields| == 2 {
        var stubtype := if IndexOf(fields[1], ':') == -1 then "A" else "AAAA";
        AddRecord(name, "NS", fields[0] + ".", comment);
        AddRecord(fields[0], stubtype, fields[1], comment);
      } else {
        AddRecord(name, "NS", raw + ".", comment);
      }
    }

    /** DNSUpdate's loop over DNSRootAuthZones. */
    method AddAuthZones(objects: map<String, RegObject>, authOrder: seq<String>)
      requires forall n :: n in authOrder ==> n in RootAuthZones
      modifies this`Records
      ensures Records == old(Records) + AuthRecords(objects, authOrder)
    {
      for i := 0 to |authOrder|
        invariant Records == old(Records) + AuthRecords(objects, authOrder[..i])
      {
        assert authOrder[..i + 1][..i] == authOrder[..i];
        var name := authOrder[i];
        ghost var added := RecordsAt(objects, name, RootAuthZones[name], AuthComment);
        assert FlatMap(authOrder[..i + 1], AuthOf(objects)) == FlatMap(authOrder[..i], AuthOf(objects)) + added;
        ghost var before := Records;
        AddRecords(objects, name, RootAuthZones[name], AuthComment);
        AppendAssoc(old(Records), FlatMap(authOrder[..i], AuthOf(objects)), added);
      }
      assert authOrder[..|authOrder|] == authOrder;
    }

    /** DNSUpdate's loop over the domain objects. */
    method AddForwardZones(objects: map<String, RegObject>, domains: map<String, RegObject>, order: seq<String>)
      requires forall n :: n in order ==> n in domains
      modifies this`Records
      ensures Records == old(Records) + ForwardZones(objects, domains, order)
    {
      for i := 0 to |order|
        invariant Records == old(Records) + ForwardZones(objects, domains, order[..i])
      {
        assert order[..i + 1][..i] == order[..i];
        var name := order[i];
        ghost var added := ForwardRecords(objects, domains, name);
        assert FlatMap(order[..i + 1], ForwardOf(objects, domains)) == FlatMap(order[..i], ForwardOf(objects, domains)) + added;
        ghost var before := Records;
        if IndexOf(name, '.') == -1 {
          if (if name in RootAuthZones then RootAuthZones[name] else "") == "" {
            AddRecords(objects, name, domains[name].Ref, ForwardComment);
          }
        }
        assert Records == before + added;
        AppendAssoc(old(Records), FlatMap(order[..i], ForwardOf(objects, domains)), added);
      }
      assert order[..|order|] == order;
    }
  }

  /** DNSRootAuthZones[name] is "" exactly for a name that is not an authoritative zone. */
  lemma AuthZoneNamed(name: String)
    ensures (if name in RootAuthZones then RootAuthZones[name] else "") == "" <==> name !in RootAuthZones
  {
  }

  /** A domain is a forward zone when it is a top-level name ('.'-free) that is not authoritative within DN42. */
  predicate Forward(name: String)
  {
    IndexOf(name, '.') == -1 && (if name in RootAuthZones then RootAuthZones[name] else "") == ""
  }

  function AuthOf(objects: map<String, RegObject>): String --> seq<DnsRecord>
  {
    n requires n in RootAuthZones => RecordsAt(objects, n, RootAuthZones[n], AuthComment)
  }

  /** The records of the authoritative zones, visited in the given order. */
  function AuthRecords(objects: map<String, RegObject>, order: seq<String>): seq<DnsRecord>
    requires forall n :: n in order ==> n in RootAuthZones
  {
    FlatMap(order, AuthOf(objects))
  }

  /** The records of a domain object, when it is a forward zone. */
  function ForwardRecords(objects: map<String, RegObject>, domains: map<String, RegObject>, name: String): seq<DnsRecord>
    requires name in domains
  {
    if Forward(name) then RecordsAt(objects, name, domains[name].Ref, ForwardComment) else []
  }

  function ForwardOf(objects: map<String, RegObject>, domains: map<String, RegObject>): String --> seq<DnsRecord>
  {
    n requires n in domains => ForwardRecords(objects, domains, n)
  }

  /** The records of the forward zones among the domains, visited in the given order. */
  function ForwardZones(objects: map<String, RegObject>, domains: map<String, RegObject>, order: seq<String>): seq<DnsRecord>
    requires forall n :: n in order ==> n in domains
  {
    FlatMap(order, ForwardOf(objects, domains))
  }

  /** The NS and DS records of forward zones are only for top-level names that are not authoritative within DN42. */
  lemma ForwardOnly(objects: map<String, RegObject>, domains: map<String, RegObject>, authOrder: seq<String>, order: seq<String>, r: DnsRecord)
    requires forall n :: n in authOrder ==> n in RootAuthZones
    requires forall n :: n in order ==> n in domains
    requires r in AuthRecords(objects, authOrder) + ForwardZones(objects, domains, order)
    requires r.comment == ForwardComment && (r.rtype == "NS" || r.rtype == "DS")
    ensures '.' !in r.name && r.name !in RootAuthZones
  {
    FlatMapMember(authOrder, AuthOf(objects), r);
    if r in AuthRecords(objects, authOrder) {
      var k :| 0 <= k < |authOrder| && r in RecordsAt(objects, authOrder[k], RootAuthZones[authOrder[k]], AuthComment);
      var n := authOrder[k];
      ObjectRecordsKinds(n, objects[RootAuthZones[n]], AuthComment, r);
      assert false;
    }
    FlatMapMember(order, ForwardOf(objects, domains), r);
    var k :| 0 <= k < |order| && r in ForwardRecords(objects, domains, order[k]);
    var n := order[k];
    assert Forward(n) && r in ObjectRecords(n, objects[domains[n].Ref], ForwardComment);
    ObjectRecordsKinds(n, objects[domains[n].Ref], ForwardComment, r);
    assert r.name == n;
    AuthZoneNamed(n);
  }

  /** The published root zone: DNSRootZone. */
  class DnsApi {
    var RootZone: DnsZone?

    constructor()
      ensures RootZone == null
    {
      RootZone := null;
    }

    /**
     * DNSUpdate: a new root zone holding the records of the authoritative
     * zones and then those of the forward zones.  authOrder and order are
     * the orders Go's map iteration visits DNSRootAuthZones and the domain
     * objects in; now stands for time.Now().  The registry's type "domain"
     * must exist: the source dereferences it.
     */
    method DnsUpdate(commit: String, now: int, objects: map<String, RegObject>, types: map<String, RegType>,
                     authOrder: seq<String>, order: seq<String>)
      requires NoDup(authOrder) && forall n :: n in authOrder <==> n in RootAuthZones
      requires "domain" in types && NoDup(order) && forall n :: n in order <==> n in types["domain"].Objects
      modifies this
      ensures RootZone != null && fresh(RootZone) && RootZone.Commit == commit && RootZone.Generated == now
      ensures RootZone.Records == AuthRecords(objects, authOrder) + ForwardZones(objects, types["domain"].Objects, order)
    {
      var zone := new DnsZone(commit, now);
      ghost var auth := AuthRecords(objects, authOrder);
      ghost var forward := ForwardZones(objects, types["domain"].Objects, order);
      zone.AddAuthZones(objects, authOrder);
      assert zone.Records == auth;
      zone.AddForwardZones(objects, types["domain"].Objects, order);
      assert zone.Records == auth + forward;
      RootZone := zone;
    }
  }

  // ---------------------------------------------------------------------
  // BIND format

  /** ToBindString: name, IN, type and content separated by tabs, then "; comment" after a tab when there is a comment. */
  function ToBindString(r: DnsRecord): String
  {
    r.name + "\tIN\t" + r.rtype + "\t" + r.content + (if r.comment == "" then "" else "\t; " + r.comment)
  }

  /** A record whose fields hold no tab reads back field by field. */
  lemma BindFields(r: DnsRecord)
    requires '\t' !in r.name && '\t' !in r.rtype && '\t' !in r.content && '\t' !in r.comment
    ensures Split(ToBindString(r), '\t') == [r.name, "IN", r.rtype, r.content] + (if r.comment == "" then [] else ["; " + r.comment])
  {
    var parts := [r.name, "IN", r.rtype, r.content] + (if r.comment == "" then [] else ["; " + r.comment]);
    var four := [r.name, "IN", r.rtype, r.content];
    assert four[..2][..1] == four[..1] == [r.name];
    assert Join(four[..2], '\t') == r.name + "\tIN";
    assert four[..3][..2] == four[..2];
    assert Join(four[..3], '\t') == r.name + "\tIN\t" + r.rtype;
    assert four[..4] == four && four[..4][..3] == four[..3];
    assert Join(four, '\t') == r.name + "\tIN\t" + r.rtype + "\t" + r.content;
    if r.comment != "" {
      assert |parts| == 5 && parts[..4] == four && parts[4] == "; " + r.comment;
    } else {
      assert parts == four;
    }
    assert Join(parts, '\t') == ToBindString(r);
    assert forall i :: 0 <= i < |parts| ==> '\t' !in parts[i];
    SplitJoin(parts, '\t');
  }
}
