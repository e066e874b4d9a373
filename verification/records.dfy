/**
 What one zone's pass does with its DNS records: keep the records named
 exactly like the zone, decide per record whether it needs rewriting, and
 either issue the write, log a dry-run line, or log that nothing changes.
 */
module Records {
  import opened Wrappers

  /** An A record as the provider lists it; `proxied` may be absent from the listing. */
  datatype Record = Record(id: string, name: string, content: string, ttl: int, proxied: Option<bool>)

  /** The body of the write request. */
  datatype Payload = Payload(recordType: string, name: string, content: string, ttl: int, proxied: bool)

  /** The `DRY_RUN` and `FORCE_UPDATE` switches. */
  datatype Settings = Settings(dryRun: bool, force: bool)

  /** What processing one record amounts to. */
  datatype Action =
    | NoUpdateNeeded(record: Record)
    | DryRunUpdate(zoneId: string, recordId: string, payload: Payload)
    | Write(zoneId: string, recordId: string, payload: Payload)

  /** `a` is `b` with some elements dropped, order kept. */
  predicate IsSubsequence<T(==)>(a: seq<T>, b: seq<T>)
    decreases |b|
  {
    |a| == 0 || (|b| > 0 && if a[0] == b[0] then IsSubsequence(a[1..], b[1..]) else IsSubsequence(a, b[1..]))
  }

  /** `filter_dns_records`: the records whose name is exactly the zone name, in listing order. */
  function FilterRecords(records: seq<Record>, zoneName: string): (r: seq<Record>)
    ensures IsSubsequence(r, records)
    ensures forall i :: 0 <= i < |r| ==> r[i].name == zoneName
  {
    if |records| == 0 then []
    else
      var rest := FilterRecords(records[1..], zoneName);
      assert records == [records[0]] + records[1..];
      if records[0].name == zoneName then
        assert ([records[0]] + rest)[1..] == rest;
        [records[0]] + rest
      else
        SubsequenceOfTail(rest, records);
        rest
  }

  lemma {:induction false} SubsequenceOfTail<T>(a: seq<T>, b: seq<T>)
    requires |b| > 0 && IsSubsequence(a, b[1..])
    ensures IsSubsequence(a, b)
    decreases |b|, |a|
  {
    if |a| > 0 && a[0] == b[0] {
      DropFirst(a, b[1..]);
    }
  }

  lemma {:induction false} DropFirst<T>(a: seq<T>, b: seq<T>)
    requires |a| > 0 && IsSubsequence(a, b)
    ensures IsSubsequence(a[1..], b)
    decreases |b|, |a|
  {
    if a[0] != b[0] {
      DropFirst(a, b[1..]);
    }
    SubsequenceOfTail(a[1..], b);
  }

  /** Each record occurs in the filtered listing as often as in the listing if it is named like the zone, else never. */
  lemma {:induction false} FilterCounts(records: seq<Record>, zoneName: string)
    ensures forall x :: multiset(FilterRecords(records, zoneName))[x] == (if x.name == zoneName then multiset(records)[x] else 0)
  {
    if |records| > 0 {
      var rest := FilterRecords(records[1..], zoneName);
      FilterCounts(records[1..], zoneName);
      FilterStep(records, zoneName);
      assert records == [records[0]] + records[1..];
      assert multiset(records) == multiset([records[0]]) + multiset(records[1..]);
      if records[0].name == zoneName {
        assert multiset(FilterRecords(records, zoneName)) == multiset([records[0]]) + multiset(rest);
      } else {
        assert FilterRecords(records, zoneName) == rest;
      }
    }
  }

  lemma FilterStep(records: seq<Record>, zoneName: string)
    requires |records| > 0
    ensures FilterRecords(records, zoneName) ==
      (if records[0].name == zoneName then [records[0]] else []) + FilterRecords(records[1..], zoneName)
  {
  }

  /** Filtering a concatenated listing filters each part. */
  lemma {:induction false} FilterAppend(a: seq<Record>, b: seq<Record>, zoneName: string)
    ensures FilterRecords(a + b, zoneName) == FilterRecords(a, zoneName) + FilterRecords(b, zoneName)
  {
    if |a| > 0 {
      var ab := a + b;
      assert ab[0] == a[0] && ab[1..] == a[1..] + b;
      FilterAppend(a[1..], b, zoneName);
      FilterStep(ab, zoneName);
      FilterStep(a, zoneName);
      var head := if a[0].name == zoneName then [a[0]] else [];
      var fa, fb := FilterRecords(a[1..], zoneName), FilterRecords(b, zoneName);
      assert head + (fa + fb) == (head + fa) + fb;
    } else {
      assert a + b == b;
    }
  }

  /** `should_update_record`: rewrite when forced or when the stored address differs. */
  predicate ShouldUpdate(force: bool, ip: string, rec: Record) {
    force || rec.content != ip
  }

  /** The write payload built from a record and the public address. */
  function NewPayload(rec: Record, ip: string): (p: Payload)
    ensures p.recordType == "A" && p.name == rec.name && p.content == ip && p.ttl == rec.ttl
    ensures p.proxied <==> rec.proxied == Some(true)
  {
    Payload("A", rec.name, ip, rec.ttl, rec.proxied.GetOr(false))
  }

  /** The body of the inner loop of `fetch_and_update_zones` together with `update_dns_record`'s dry-run switch. */
  function Reconcile(s: Settings, ip: string, zoneId: string, rec: Record): (a: Action)
    ensures a.NoUpdateNeeded? <==> !s.force && rec.content == ip
    ensures a.Write? <==> !s.dryRun && (s.force || rec.content != ip)
    ensures !a.NoUpdateNeeded? ==> a.zoneId == zoneId && a.recordId == rec.id && a.payload == NewPayload(rec, ip)
    ensures a.NoUpdateNeeded? ==> a.record == rec
  {
    if !ShouldUpdate(s.force, ip, rec) then NoUpdateNeeded(rec)
    else if s.dryRun then DryRunUpdate(zoneId, rec.id, NewPayload(rec, ip))
    else Write(zoneId, rec.id, NewPayload(rec, ip))
  }

  /** The actions for a zone's filtered records, one per record, in order. */
  function PlanRecords(s: Settings, ip: string, zoneId: string, records: seq<Record>): (plan: seq<Action>)
    ensures |plan| == |records|
    ensures forall i :: 0 <= i < |records| ==> plan[i] == Reconcile(s, ip, zoneId, records[i])
  {
    if |records| == 0 then [] else [Reconcile(s, ip, zoneId, records[0])] + PlanRecords(s, ip, zoneId, records[1..])
  }

  /** Action `a` reconciles one of the listed records named like the zone. */
  predicate FromListing(a: Action, s: Settings, ip: string, zoneName: string, zoneId: string, records: seq<Record>) {
    exists j :: 0 <= j < |records| && records[j].name == zoneName && a == Reconcile(s, ip, zoneId, records[j])
  }

  /**
   One zone of `fetch_and_update_zones`: the record listing either fails
   (`fetch_dns_records` logs and returns no records) or is filtered on the
   zone name and each remaining record reconciled.
   */
  function ProcessZone(s: Settings, ip: string, zoneName: string, zoneId: string, listing: Option<seq<Record>>): (plan: seq<Action>)
    ensures listing.None? ==> plan == []
    ensures |plan| == |FilterRecords(listing.GetOr([]), zoneName)|
    ensures forall i :: 0 <= i < |plan| ==> plan[i] == Reconcile(s, ip, zoneId, FilterRecords(listing.GetOr([]), zoneName)[i])
    ensures forall i :: 0 <= i < |plan| ==> FromListing(plan[i], s, ip, zoneName, zoneId, listing.GetOr([]))
    ensures forall j :: 0 <= j < |listing.GetOr([])| && listing.GetOr([])[j].name == zoneName ==>
      Reconcile(s, ip, zoneId, listing.GetOr([])[j]) in plan
    ensures s.dryRun ==> forall i :: 0 <= i < |plan| ==> !plan[i].Write?
    ensures forall i :: 0 <= i < |plan| && !plan[i].NoUpdateNeeded? ==>
      plan[i].zoneId == zoneId && plan[i].payload.name == zoneName && plan[i].payload.content == ip
    ensures forall i :: 0 <= i < |plan| && plan[i].NoUpdateNeeded? ==>
      plan[i].record.name == zoneName && plan[i].record.content == ip
  {
    var records := listing.GetOr([]);
    var plan := PlanRecords(s, ip, zoneId, FilterRecords(records, zoneName));
    PlanFromListing(s, ip, zoneName, zoneId, records, plan);
    PlanCoversListing(s, ip, zoneName, zoneId, records, plan);
    plan
  }

  /** Every action of a zone's plan reconciles a listed record named like the zone. */
  lemma PlanFromListing(s: Settings, ip: string, zoneName: string, zoneId: string, records: seq<Record>, plan: seq<Action>)
    requires plan == PlanRecords(s, ip, zoneId, FilterRecords(records, zoneName))
    ensures forall i :: 0 <= i < |plan| ==> FromListing(plan[i], s, ip, zoneName, zoneId, records)
  {
    var filtered := FilterRecords(records, zoneName);
    FilterCounts(records, zoneName);
    forall i | 0 <= i < |plan| ensures FromListing(plan[i], s, ip, zoneName, zoneId, records) {
      assert filtered[i] in multiset(filtered);
      assert filtered[i] in multiset(records);
      var j :| 0 <= j < |records| && records[j] == filtered[i];
    }
  }

  /** Every listed record named like the zone is reconciled by one of the zone's actions. */
  lemma PlanCoversListing(s: Settings, ip: string, zoneName: string, zoneId: string, records: seq<Record>, plan: seq<Action>)
    requires plan == PlanRecords(s, ip, zoneId, FilterRecords(records, zoneName))
    ensures forall j :: 0 <= j < |records| && records[j].name == zoneName ==> Reconcile(s, ip, zoneId, records[j]) in plan
  {
    var filtered := FilterRecords(records, zoneName);
    FilterCounts(records, zoneName);
    forall j | 0 <= j < |records| && records[j].name == zoneName
      ensures Reconcile(s, ip, zoneId, records[j]) in plan
    {
      assert records[j] in multiset(records);
      assert records[j] in multiset(filtered);
      var k :| 0 <= k < |filtered| && filtered[k] == records[j];
      assert plan[k] == Reconcile(s, ip, zoneId, records[j]);
    }
  }

  /** `plan[i]` is the last write in `plan` addressed to record `id`. */
  predicate LastWriteAt(plan: seq<Action>, i: int, id: string) {
    0 <= i < |plan| && plan[i].Write? && plan[i].recordId == id &&
    forall j :: i < j < |plan| && plan[j].Write? ==> plan[j].recordId != id
  }

  /** No write in `plan` is addressed to record `id`. */
  predicate NoWriteTo(plan: seq<Action>, id: string) {
    forall i :: 0 <= i < |plan| && plan[i].Write? ==> plan[i].recordId != id
  }

  /** The payload of the last write addressed to record `id`: write requests sent in order leave the last one standing. */
  function LastWrite(plan: seq<Action>, id: string): (r: Option<Payload>)
    ensures r.None? <==> NoWriteTo(plan, id)
    ensures r.Some? ==> exists i :: LastWriteAt(plan, i, id) && plan[i].payload == r.value
  {
    if |plan| == 0 then None
    else
      var last := plan[|plan| - 1];
      if last.Write? && last.recordId == id then
        assert LastWriteAt(plan, |plan| - 1, id);
        Some(last.payload)
      else
        var init := plan[..|plan| - 1];
        var r := LastWrite(init, id);
        LastWriteShifts(plan, init, id, r);
        r
  }

  lemma LastWriteShifts(plan: seq<Action>, init: seq<Action>, id: string, r: Option<Payload>)
    requires |plan| > 0 && init == plan[..|plan| - 1]
    requires !(plan[|plan| - 1].Write? && plan[|plan| - 1].recordId == id)
    requires r.None? <==> NoWriteTo(init, id)
    requires r.Some? ==> exists i :: LastWriteAt(init, i, id) && init[i].payload == r.value
    ensures r.None? <==> NoWriteTo(plan, id)
    ensures r.Some? ==> exists i :: LastWriteAt(plan, i, id) && plan[i].payload == r.value
  {
    assert forall i :: 0 <= i < |init| ==> init[i] == plan[i];
    if r.Some? {
      var i :| LastWriteAt(init, i, id) && init[i].payload == r.value;
      assert LastWriteAt(plan, i, id);
    }
  }

  /** There is at most one last write to a record, so it is the one `LastWrite` finds. */
  lemma LastWriteFound(plan: seq<Action>)
    ensures forall id, j :: LastWriteAt(plan, j, id) ==> LastWrite(plan, id) == Some(plan[j].payload)
  {
    forall id, j | LastWriteAt(plan, j, id) ensures LastWrite(plan, id) == Some(plan[j].payload) {
      assert LastWrite(plan, id).Some?;
      var i :| LastWriteAt(plan, i, id) && plan[i].payload == LastWrite(plan, id).value;
      assert 0 <= i < |plan| && 0 <= j < |plan|;
    }
  }

  /** The record the provider holds after a write request replaced it with `p`. */
  function Applied(rec: Record, p: Payload): Record {
    Record(rec.id, p.name, p.content, p.ttl, Some(p.proxied))
  }

  /**
   The provider's listing once the writes of `plan` have been carried out in
   order: a record nothing was written to stays as it was, and a record
   written to holds the payload of the last write addressed to it.
   */
  function ApplyWrites(records: seq<Record>, plan: seq<Action>): (r: seq<Record>)
    ensures |r| == |records|
    ensures forall i :: 0 <= i < |records| ==> r[i].id == records[i].id
    ensures forall i :: 0 <= i < |records| && NoWriteTo(plan, records[i].id) ==> r[i] == records[i]
    ensures forall i, j :: 0 <= i < |records| && LastWriteAt(plan, j, records[i].id) ==>
      r[i] == Applied(records[i], plan[j].payload)
  {
    LastWriteFound(plan);
    seq(|records|, i requires 0 <= i < |records| =>
      match LastWrite(plan, records[i].id) case None => records[i] case Some(p) => Applied(records[i], p))
  }

  /** A dry run leaves the provider's records as they were, so repeating it plans the same thing again. */
  lemma DryRunLeavesRecords(force: bool, ip: string, zoneName: string, zoneId: string, records: seq<Record>)
    ensures ApplyWrites(records, ProcessZone(Settings(true, force), ip, zoneName, zoneId, Some(records))) == records
  {
    var plan := ProcessZone(Settings(true, force), ip, zoneName, zoneId, Some(records));
    assert forall i :: 0 <= i < |records| ==> NoWriteTo(plan, records[i].id);
  }

  /** After a pass's writes are carried out, every record named like the zone holds the public address. */
  lemma WrittenRecordsHoldAddress(force: bool, ip: string, zoneName: string, zoneId: string, records: seq<Record>)
    ensures var plan := ProcessZone(Settings(false, force), ip, zoneName, zoneId, Some(records));
      var after := ApplyWrites(records, plan);
      forall j :: 0 <= j < |after| && after[j].name == zoneName ==> after[j].content == ip
  {
    var s := Settings(false, force);
    var plan := ProcessZone(s, ip, zoneName, zoneId, Some(records));
    var after := ApplyWrites(records, plan);
    forall j | 0 <= j < |after| && after[j].name == zoneName ensures after[j].content == ip {
      var id := records[j].id;
      if NoWriteTo(plan, id) {
        var a := Reconcile(s, ip, zoneId, records[j]);
        var i :| 0 <= i < |plan| && plan[i] == a;
      } else {
        var i :| LastWriteAt(plan, i, id) && plan[i].payload == LastWrite(plan, id).value;
      }
    }
  }

  /** Once a pass's writes are carried out, a pass that is not forced finds nothing to update. */
  lemma SecondPassQuiet(force: bool, ip: string, zoneName: string, zoneId: string, records: seq<Record>)
    ensures var plan := ProcessZone(Settings(false, force), ip, zoneName, zoneId, Some(records));
      var again := ProcessZone(Settings(false, false), ip, zoneName, zoneId, Some(ApplyWrites(records, plan)));
      forall a :: a in again ==> a.NoUpdateNeeded?
  {
    var plan := ProcessZone(Settings(false, force), ip, zoneName, zoneId, Some(records));
    var after := ApplyWrites(records, plan);
    WrittenRecordsHoldAddress(force, ip, zoneName, zoneId, records);
    var again := ProcessZone(Settings(false, false), ip, zoneName, zoneId, Some(after));
    forall i | 0 <= i < |again| ensures again[i].NoUpdateNeeded? {
      var j :| 0 <= j < |after| && after[j].name == zoneName && again[i] == Reconcile(Settings(false, false), ip, zoneId, after[j]);
    }
  }
}
