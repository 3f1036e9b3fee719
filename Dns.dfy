/** The zone update behind `createDNSRecord`: the project's subdomain is
    pointed at the proxy, either by replacing each `A` record it already
    has with the new record (so k such records become k copies of it) or
    by appending one new record, and the update is sent with an
    `overwrite` flag saying which. */
module Dns {
  import opened Wrappers

  datatype RecordType = A | AAAA | CNAME | ALIAS | MX | TXT | NS | SOA | SRV | CAA

  datatype RecordValue = RecordValue(content: string, isDisabled: Option<bool>)

  datatype ZoneRecord = ZoneRecord(name: string, rtype: RecordType, records: seq<RecordValue>, ttl: int)

  /** The body of the zone `PUT`: the flag and the whole new zone. */
  datatype ZoneUpdate = ZoneUpdate(overwrite: bool, zone: seq<ZoneRecord>)

  /** The request `createDNSRecord` sends: a path and its body. */
  datatype ZoneRequest = ZoneRequest(path: string, update: ZoneUpdate)

  const DefaultDomain := "leobrum.run"
  const DefaultTtl := 3600
  const ZonesPath := "/api/dns/v1/zones"

  /** The test both the `find` and the `map` apply: same name, type `A`. */
  predicate Matches(r: ZoneRecord, subdomain: string)
  {
    r.name == subdomain && r.rtype == A
  }

  predicate HasMatch(zone: seq<ZoneRecord>, subdomain: string)
  {
    exists i :: 0 <= i < |zone| && Matches(zone[i], subdomain)
  }

  /** The record written for the subdomain: one value, the address. */
  function ARecord(subdomain: string, ip: string, ttl: int): ZoneRecord
  {
    ZoneRecord(subdomain, A, [RecordValue(ip, None)], ttl)
  }

  /** `currentRecords.find(...)`: the first matching record. */
  function Find(zone: seq<ZoneRecord>, subdomain: string): (r: Option<ZoneRecord>)
    ensures r.Some? <==> HasMatch(zone, subdomain)
    ensures r.Some? ==> Matches(r.value, subdomain)
    ensures r.Some? ==>
      exists i :: 0 <= i < |zone| && zone[i] == r.value && forall j :: 0 <= j < i ==> !Matches(zone[j], subdomain)
  {
    if zone == [] then None
    else if Matches(zone[0], subdomain) then Some(zone[0])
    else
      var r := Find(zone[1..], subdomain);
      assert forall i :: 0 <= i < |zone[1..]| ==> zone[1..][i] == zone[i + 1];
      if r.Some? then
        var i :| 0 <= i < |zone[1..]| && zone[1..][i] == r.value
                 && forall j :: 0 <= j < i ==> !Matches(zone[1..][j], subdomain);
        assert zone[i + 1] == r.value;
        assert forall j :: 0 <= j < i + 1 ==> !Matches(zone[j], subdomain) by {
          forall j | 0 <= j < i + 1 ensures !Matches(zone[j], subdomain) {
            if j > 0 { assert zone[j] == zone[1..][j - 1]; }
          }
        }
        r
      else r
  }

  /** `currentRecords.map(...)`: every match becomes the new `A` record;
      every other record, a same-name `CNAME` included, stays as it was,
      in place. */
  function ReplaceMatches(zone: seq<ZoneRecord>, subdomain: string, ip: string, ttl: int): (r: seq<ZoneRecord>)
    ensures |r| == |zone|
    ensures forall i :: 0 <= i < |zone| ==>
      r[i] == if Matches(zone[i], subdomain) then ARecord(subdomain, ip, ttl) else zone[i]
  {
    if zone == [] then []
    else
      var head := if Matches(zone[0], subdomain) then ARecord(subdomain, ip, ttl) else zone[0];
      [head] + ReplaceMatches(zone[1..], subdomain, ip, ttl)
  }

  /** The zone list `createDNSRecord` sends and its `overwrite` flag. */
  function Upsert(zone: seq<ZoneRecord>, subdomain: string, ip: string, ttl: int): (r: ZoneUpdate)
    ensures r.overwrite <==> HasMatch(zone, subdomain)
    ensures r.overwrite ==> |r.zone| == |zone|
    ensures !r.overwrite ==> r.zone == zone + [ARecord(subdomain, ip, ttl)]
  {
    if Find(zone, subdomain).Some? then ZoneUpdate(true, ReplaceMatches(zone, subdomain, ip, ttl))
    else ZoneUpdate(false, zone + [ARecord(subdomain, ip, ttl)])
  }

  /** `ttl: number = 3600`: an omitted ttl is the default. */
  function TtlOrDefault(ttl: Option<int>): (r: int)
    ensures ttl.None? ==> r == DefaultTtl
    ensures ttl.Some? ==> r == ttl.value
  {
    if ttl.Some? then ttl.value else DefaultTtl
  }

  /** `response.data || []`: a missing body reads as an empty zone. */
  function ZoneOrEmpty(data: Option<seq<ZoneRecord>>): (r: seq<ZoneRecord>)
    ensures data.None? ==> r == []
    ensures data.Some? ==> r == data.value
  {
    if data.Some? then data.value else []
  }

  /** The path of `getDNSRecords`' `GET`. */
  function ReadPath(domain: string): string
  {
    ZonesPath + "/" + domain
  }

  /** The path of the zone `PUT` as written, with no `/` before the
      domain. */
  function WritePathAsWritten(domain: string): string
  {
    ZonesPath + domain
  }

  /** The path of the zone `PUT` as intended: the zone that was read. */
  function WritePath(domain: string): (r: string)
    ensures r == ReadPath(domain)
  {
    ZonesPath + "/" + domain
  }

  /** `createDNSRecord` as written, on the zone the `GET` returned: the
      update goes to the path without `/` before the domain. */
  function CreateDnsRecord(domain: string, data: Option<seq<ZoneRecord>>, subdomain: string, ip: string, ttl: Option<int>): (r: ZoneRequest)
    ensures r.path != ReadPath(domain)
    ensures r.update.overwrite <==> HasMatch(ZoneOrEmpty(data), subdomain)
  {
    WritePathAsWrittenMisses(domain);
    ZoneRequest(WritePathAsWritten(domain), Upsert(ZoneOrEmpty(data), subdomain, ip, TtlOrDefault(ttl)))
  }

  /** `createDNSRecord` corrected: the same update, sent to the zone that
      was read. */
  function CreateDnsRecordCorrected(domain: string, data: Option<seq<ZoneRecord>>, subdomain: string, ip: string, ttl: Option<int>): (r: ZoneRequest)
    ensures r.path == ReadPath(domain)
    ensures r.update == CreateDnsRecord(domain, data, subdomain, ip, ttl).update
  {
    ZoneRequest(WritePath(domain), Upsert(ZoneOrEmpty(data), subdomain, ip, TtlOrDefault(ttl)))
  }

  // ---------------------------------------------------------------------
  // Lemmas
  // ---------------------------------------------------------------------

  /** `overwrite` is set exactly when the zone already has an `A` record
      with that name. */
  lemma OverwriteIff(zone: seq<ZoneRecord>, subdomain: string, ip: string, ttl: int)
    ensures Upsert(zone, subdomain, ip, ttl).overwrite <==> HasMatch(zone, subdomain)
  {
  }

  /** With a match, the zone keeps its length and order; matches are
      replaced and nothing else changes. */
  lemma ReplaceCase(zone: seq<ZoneRecord>, subdomain: string, ip: string, ttl: int)
    requires HasMatch(zone, subdomain)
    ensures var u := Upsert(zone, subdomain, ip, ttl);
      u.overwrite && |u.zone| == |zone|
      && forall i :: 0 <= i < |zone| ==>
           (Matches(zone[i], subdomain) ==> u.zone[i] == ARecord(subdomain, ip, ttl))
           && (!Matches(zone[i], subdomain) ==> u.zone[i] == zone[i])
  {
  }

  /** Without a match, the new record is appended after the old zone. */
  lemma AppendCase(zone: seq<ZoneRecord>, subdomain: string, ip: string, ttl: int)
    requires !HasMatch(zone, subdomain)
    ensures var u := Upsert(zone, subdomain, ip, ttl);
      !u.overwrite && |u.zone| == |zone| + 1
      && u.zone[..|zone|] == zone && u.zone[|zone|] == ARecord(subdomain, ip, ttl)
  {
  }

  /** A record of another type with the subdomain's name is no match: it
      is kept, and the `A` record goes next to it. */
  lemma OtherTypeKept(zone: seq<ZoneRecord>, subdomain: string, ip: string, ttl: int, i: nat)
    requires i < |zone| && zone[i].name == subdomain && zone[i].rtype != A
    ensures Upsert(zone, subdomain, ip, ttl).zone[i] == zone[i]
  {
    if !HasMatch(zone, subdomain) {
      assert (zone + [ARecord(subdomain, ip, ttl)])[i] == zone[i];
    }
  }

  /** After the update the subdomain resolves to the address, and only to
      it: its `A` records are all the new record, and there is one. */
  lemma PointsToAddress(zone: seq<ZoneRecord>, subdomain: string, ip: string, ttl: int)
    ensures var z := Upsert(zone, subdomain, ip, ttl).zone;
      HasMatch(z, subdomain)
      && forall i :: 0 <= i < |z| && Matches(z[i], subdomain) ==> z[i] == ARecord(subdomain, ip, ttl)
  {
    var z := Upsert(zone, subdomain, ip, ttl).zone;
    if HasMatch(zone, subdomain) {
      var k :| 0 <= k < |zone| && Matches(zone[k], subdomain);
      assert Matches(z[k], subdomain);
    } else {
      assert Matches(z[|zone|], subdomain);
      assert z[..|zone|] == zone;
    }
  }

  /** Repeating the same deployment's update is an overwrite that changes
      nothing more. */
  lemma UpsertTwice(zone: seq<ZoneRecord>, subdomain: string, ip: string, ttl: int)
    ensures var z := Upsert(zone, subdomain, ip, ttl).zone;
      Upsert(z, subdomain, ip, ttl) == ZoneUpdate(true, z)
  {
    var z := Upsert(zone, subdomain, ip, ttl).zone;
    PointsToAddress(zone, subdomain, ip, ttl);
    var z2 := ReplaceMatches(z, subdomain, ip, ttl);
    assert forall i :: 0 <= i < |z| ==> z2[i] == z[i];
    assert z2 == z;
  }

  /** Records for other names are untouched, whichever case applies. */
  lemma OthersUnchanged(zone: seq<ZoneRecord>, subdomain: string, ip: string, ttl: int, i: nat)
    requires i < |zone| && zone[i].name != subdomain
    ensures Upsert(zone, subdomain, ip, ttl).zone[i] == zone[i]
  {
    if !HasMatch(zone, subdomain) {
      assert (zone + [ARecord(subdomain, ip, ttl)])[i] == zone[i];
    }
  }

  /** On a missing zone the record is appended with the default ttl when
      none is given, and the request goes to the as-written path. */
  lemma FirstRecord(domain: string, subdomain: string, ip: string)
    ensures CreateDnsRecord(domain, None, subdomain, ip, None)
         == ZoneRequest(WritePathAsWritten(domain), ZoneUpdate(false, [ARecord(subdomain, ip, DefaultTtl)]))
  {
  }

  /** The corrected composition sends the same first record to the zone
      that was read. */
  lemma FirstRecordCorrected(domain: string, subdomain: string, ip: string)
    ensures CreateDnsRecordCorrected(domain, None, subdomain, ip, None)
         == ZoneRequest(ReadPath(domain), ZoneUpdate(false, [ARecord(subdomain, ip, DefaultTtl)]))
  {
  }

  /** The path as written never names the zone that was read. */
  lemma WritePathAsWrittenMisses(domain: string)
    ensures WritePathAsWritten(domain) != ReadPath(domain)
  {
    assert |WritePathAsWritten(domain)| + 1 == |ReadPath(domain)|;
  }

  /** For the default domain the `PUT` goes to `/api/dns/v1/zonesleobrum.run`. */
  lemma WritePathAsWrittenDefault()
    ensures WritePathAsWritten(DefaultDomain) == "/api/dns/v1/zonesleobrum.run"
    ensures ReadPath(DefaultDomain) == "/api/dns/v1/zones/leobrum.run"
  {
  }
}
