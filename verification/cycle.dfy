/**
 One iteration of the updater's main loop once the network check has
 passed: resolve the public address (with its retry), list the zones the
 `CLOUDFLARE_FQDNS` setting admits, then reconcile each zone's records.
 */
module Cycle {
  import opened Wrappers
  import opened Text
  import opened IpFormat
  import opened PublicIp
  import opened Zones
  import opened Records

  /** The settings read from the environment. */
  datatype Config = Config(settings: Settings, fqdns: string)

  /**
   What the network answers during one iteration: the three services'
   responses in each address-lookup attempt, the zone listing (`None` when the request
   fails), and each zone's record listing by zone id (absent when that
   request fails or is answered with a non-200 status).
   */
  datatype Observed = Observed(
    ipPasses: seq<ServiceResponses>,
    zoneListing: Option<seq<Zone>>,
    recordListings: map<string, seq<Record>>)

  function RecordListing(listings: map<string, seq<Record>>, zoneId: string): Option<seq<Record>> {
    if zoneId in listings then Some(listings[zoneId]) else None
  }

  /** The records a zone's listing returned: none when the request failed. */
  function Listed(listings: map<string, seq<Record>>, zoneId: string): seq<Record> {
    RecordListing(listings, zoneId).GetOr([])
  }

  /** How many listed records of `zones` are named like their zone. */
  function KeptCount(zones: ZoneDict, listings: map<string, seq<Record>>): nat {
    if |zones| == 0 then 0
    else |FilterRecords(Listed(listings, zones[0].1), zones[0].0)| + KeptCount(zones[1..], listings)
  }

  /** Action `a` reconciles a listed record of one of `zones`, named like that zone. */
  predicate ListedAction(a: Action, s: Settings, ip: string, zones: ZoneDict, listings: map<string, seq<Record>>) {
    exists j :: 0 <= j < |zones| && FromListing(a, s, ip, zones[j].0, zones[j].1, Listed(listings, zones[j].1))
  }

  /** Every listed record of every zone, named like its zone, is reconciled by an action of `plan`. */
  predicate CoversZones(plan: seq<Action>, s: Settings, ip: string, zones: ZoneDict, listings: map<string, seq<Record>>) {
    forall j, k ::
      (0 <= j < |zones| && 0 <= k < |Listed(listings, zones[j].1)| && Listed(listings, zones[j].1)[k].name == zones[j].0) ==>
      Reconcile(s, ip, zones[j].1, Listed(listings, zones[j].1)[k]) in plan
  }

  /** Action `a` rewrites a record of one of `zones`, named like that zone, to `ip`. */
  predicate FromZone(a: Action, zones: ZoneDict, ip: string)
    requires !a.NoUpdateNeeded?
  {
    exists j :: 0 <= j < |zones| && a.zoneId == zones[j].1 && a.payload.name == zones[j].0 && a.payload.content == ip
  }

  /** Every write or dry-run action of `plan` comes from one of `zones`. */
  predicate AllFromZones(plan: seq<Action>, zones: ZoneDict, ip: string) {
    forall i :: 0 <= i < |plan| && !plan[i].NoUpdateNeeded? ==> FromZone(plan[i], zones, ip)
  }

  predicate NoWrites(plan: seq<Action>) {
    forall i :: 0 <= i < |plan| ==> !plan[i].Write?
  }

  /**
   `fetch_and_update_zones`: the zones in dict order, each zone's actions in
   record order. Every action reconciles a listed record of one of the
   zones, every listed record named like its zone is reconciled, and
   there is one action per such record.
   */
  function UpdateZones(s: Settings, ip: string, zones: ZoneDict, listings: map<string, seq<Record>>): (plan: seq<Action>)
    ensures |plan| == KeptCount(zones, listings)
    ensures forall i :: 0 <= i < |plan| ==> ListedAction(plan[i], s, ip, zones, listings)
    ensures CoversZones(plan, s, ip, zones, listings)
    ensures AllFromZones(plan, zones, ip)
    ensures s.dryRun ==> NoWrites(plan)
  {
    if |zones| == 0 then []
    else
      var head := ProcessZone(s, ip, zones[0].0, zones[0].1, RecordListing(listings, zones[0].1));
      var rest := UpdateZones(s, ip, zones[1..], listings);
      FirstZoneActions(s, ip, zones, head, RecordListing(listings, zones[0].1));
      TailZoneActions(rest, zones, ip);
      AppendActions(head, rest, zones, ip);
      FirstZoneListed(s, ip, zones, listings, head);
      TailZonesListed(s, ip, zones, listings, rest);
      AppendListed(s, ip, zones, listings, head, rest);
      CoversStep(s, ip, zones, listings, head, rest);
      head + rest
  }

  /** Updating the zones of `a` and then those of `b` is updating the zones of `a + b`. */
  lemma {:induction false} UpdateZonesAppend(s: Settings, ip: string, a: ZoneDict, b: ZoneDict, listings: map<string, seq<Record>>)
    ensures UpdateZones(s, ip, a + b, listings) == UpdateZones(s, ip, a, listings) + UpdateZones(s, ip, b, listings)
  {
    if |a| == 0 {
      assert a + b == b;
    } else {
      assert (a + b)[0] == a[0];
      assert (a + b)[1..] == a[1..] + b;
      UpdateZonesAppend(s, ip, a[1..], b, listings);
    }
  }

  /** A single zone is updated by its own pass over its record listing. */
  lemma UpdateZonesSingle(s: Settings, ip: string, zoneName: string, zoneId: string, listings: map<string, seq<Record>>)
    ensures UpdateZones(s, ip, [(zoneName, zoneId)], listings) == ProcessZone(s, ip, zoneName, zoneId, RecordListing(listings, zoneId))
  { }

  lemma FirstZoneListed(s: Settings, ip: string, zones: ZoneDict, listings: map<string, seq<Record>>, head: seq<Action>)
    requires |zones| > 0 && head == ProcessZone(s, ip, zones[0].0, zones[0].1, RecordListing(listings, zones[0].1))
    ensures forall i :: 0 <= i < |head| ==> ListedAction(head[i], s, ip, zones, listings)
  {
    forall i | 0 <= i < |head| ensures ListedAction(head[i], s, ip, zones, listings) {
      assert FromListing(head[i], s, ip, zones[0].0, zones[0].1, Listed(listings, zones[0].1));
    }
  }

  lemma TailZonesListed(s: Settings, ip: string, zones: ZoneDict, listings: map<string, seq<Record>>, rest: seq<Action>)
    requires |zones| > 0
    requires forall i :: 0 <= i < |rest| ==> ListedAction(rest[i], s, ip, zones[1..], listings)
    ensures forall i :: 0 <= i < |rest| ==> ListedAction(rest[i], s, ip, zones, listings)
  {
    forall i | 0 <= i < |rest| ensures ListedAction(rest[i], s, ip, zones, listings) {
      var j :| 0 <= j < |zones[1..]| && FromListing(rest[i], s, ip, zones[1..][j].0, zones[1..][j].1, Listed(listings, zones[1..][j].1));
      assert zones[1..][j] == zones[j + 1];
    }
  }

  lemma AppendListed(s: Settings, ip: string, zones: ZoneDict, listings: map<string, seq<Record>>, head: seq<Action>, rest: seq<Action>)
    requires forall i :: 0 <= i < |head| ==> ListedAction(head[i], s, ip, zones, listings)
    requires forall i :: 0 <= i < |rest| ==> ListedAction(rest[i], s, ip, zones, listings)
    ensures forall i :: 0 <= i < |head + rest| ==> ListedAction((head + rest)[i], s, ip, zones, listings)
  {
    var plan := head + rest;
    assert forall i :: |head| <= i < |plan| ==> plan[i] == rest[i - |head|];
  }

  /** The first zone's actions cover its records, the later zones' actions cover theirs. */
  lemma CoversStep(s: Settings, ip: string, zones: ZoneDict, listings: map<string, seq<Record>>, head: seq<Action>, rest: seq<Action>)
    requires |zones| > 0 && head == ProcessZone(s, ip, zones[0].0, zones[0].1, RecordListing(listings, zones[0].1))
    requires CoversZones(rest, s, ip, zones[1..], listings)
    ensures CoversZones(head + rest, s, ip, zones, listings)
  {
    forall j, k | 0 <= j < |zones| && 0 <= k < |Listed(listings, zones[j].1)| && Listed(listings, zones[j].1)[k].name == zones[j].0
      ensures Reconcile(s, ip, zones[j].1, Listed(listings, zones[j].1)[k]) in head + rest
    {
      var a := Reconcile(s, ip, zones[j].1, Listed(listings, zones[j].1)[k]);
      if j == 0 {
        assert a in head;
      } else {
        assert zones[1..][j - 1] == zones[j];
        assert a in rest;
      }
    }
  }

  lemma FirstZoneActions(s: Settings, ip: string, zones: ZoneDict, head: seq<Action>, listing: Option<seq<Record>>)
    requires |zones| > 0 && head == ProcessZone(s, ip, zones[0].0, zones[0].1, listing)
    ensures AllFromZones(head, zones, ip)
    ensures s.dryRun ==> NoWrites(head)
  {
    forall i | 0 <= i < |head| && !head[i].NoUpdateNeeded? ensures FromZone(head[i], zones, ip) {
      assert head[i].zoneId == zones[0].1;
    }
  }

  lemma TailZoneActions(rest: seq<Action>, zones: ZoneDict, ip: string)
    requires |zones| > 0 && AllFromZones(rest, zones[1..], ip)
    ensures AllFromZones(rest, zones, ip)
  {
    forall i | 0 <= i < |rest| && !rest[i].NoUpdateNeeded? ensures FromZone(rest[i], zones, ip) {
      var j :| 0 <= j < |zones[1..]| && rest[i].zoneId == zones[1..][j].1 &&
        rest[i].payload.name == zones[1..][j].0 && rest[i].payload.content == ip;
      assert zones[1..][j] == zones[j + 1];
    }
  }

  lemma AppendActions(head: seq<Action>, rest: seq<Action>, zones: ZoneDict, ip: string)
    requires AllFromZones(head, zones, ip) && AllFromZones(rest, zones, ip)
    ensures AllFromZones(head + rest, zones, ip)
    ensures NoWrites(head) && NoWrites(rest) ==> NoWrites(head + rest)
  {
    var plan := head + rest;
    assert forall i :: |head| <= i < |plan| ==> plan[i] == rest[i - |head|];
  }
  /** An action of the cycle rewrites a record named by one of the setting's tokens to a valid, stripped address. */
  predicate Requested(a: Action, fqdns: string)
    requires !a.NoUpdateNeeded?
  {
    a.payload.name in FqdnFilter(fqdns) && IsValidIp(a.payload.content) && IsStripped(a.payload.content)
  }

  /**
   One iteration of `main` after the network check: `get_public_ip`
   (whose failure propagates and ends the process), `get_zones` with the
   split setting, and the zone updates with the resolved address.
   */
  function RunCycle(cfg: Config, obs: Observed): (r: Result<seq<Action>, PassOutcome>)
    requires |obs.ipPasses| == MaxAttempts
    ensures r.Failure? <==> forall k :: 0 <= k < MaxAttempts ==> !AttemptOutcome(obs.ipPasses[k]).Found?
    ensures r.Success? ==> GetPublicIp(obs.ipPasses).Success?
    ensures r.Success? ==> forall i :: 0 <= i < |r.value| && !r.value[i].NoUpdateNeeded? ==>
      Requested(r.value[i], cfg.fqdns) && r.value[i].payload.content == GetPublicIp(obs.ipPasses).value
    ensures r.Success? ==> forall i :: 0 <= i < |r.value| ==>
      ListedAction(r.value[i], cfg.settings, GetPublicIp(obs.ipPasses).value,
        GetZones(obs.zoneListing, FqdnFilter(cfg.fqdns)), obs.recordListings)
    ensures r.Success? ==> CoversZones(r.value, cfg.settings, GetPublicIp(obs.ipPasses).value,
      GetZones(obs.zoneListing, FqdnFilter(cfg.fqdns)), obs.recordListings)
    ensures r.Success? ==> |r.value| == KeptCount(GetZones(obs.zoneListing, FqdnFilter(cfg.fqdns)), obs.recordListings)
    ensures r.Success? && cfg.settings.dryRun ==> NoWrites(r.value)
    ensures r.Success? && obs.zoneListing.None? ==> r.value == []
  {
    match GetPublicIp(obs.ipPasses)
    case Failure(e) => Failure(e)
    case Success(ip) =>
      var zones := GetZones(obs.zoneListing, FqdnFilter(cfg.fqdns));
      var plan := UpdateZones(cfg.settings, ip, zones, obs.recordListings);
      ActionsRequested(plan, obs.zoneListing, cfg.fqdns, ip);
      Success(plan)
  }

  lemma ActionsRequested(plan: seq<Action>, listing: Option<seq<Zone>>, fqdns: string, ip: string)
    requires AllFromZones(plan, GetZones(listing, FqdnFilter(fqdns)), ip)
    requires IsValidIp(ip) && IsStripped(ip)
    ensures forall i :: 0 <= i < |plan| && !plan[i].NoUpdateNeeded? ==> Requested(plan[i], fqdns)
  {
    var zones := GetZones(listing, FqdnFilter(fqdns));
    forall i | 0 <= i < |plan| && !plan[i].NoUpdateNeeded? ensures Requested(plan[i], fqdns) {
      var j :| 0 <= j < |zones| && plan[i].zoneId == zones[j].1 && plan[i].payload.name == zones[j].0 &&
        plan[i].payload.content == ip;
      assert Names(zones)[j] == zones[j].0;
      assert Admits(FqdnFilter(fqdns), zones[j].0);
    }
  }

  /** With the setting left empty and no zone literally named `""`, a cycle that resolves its address does nothing. */
  lemma EmptySettingIdle(cfg: Config, obs: Observed)
    requires |obs.ipPasses| == MaxAttempts && cfg.fqdns == ""
    requires obs.zoneListing.Some? ==> forall i :: 0 <= i < |obs.zoneListing.value| ==> obs.zoneListing.value[i].name != ""
    ensures RunCycle(cfg, obs).Success? ==> RunCycle(cfg, obs).value == []
  {
    EmptySettingAdmitsOnlyUnnamed(obs.zoneListing);
    var zones := GetZones(obs.zoneListing, FqdnFilter(cfg.fqdns));
    assert |zones| > 0 ==> zones[0].0 in Names(zones);
  }
}
