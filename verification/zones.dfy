/**
 The zone filter (`get_zones`) and the filter list it is given, built by
 splitting the `CLOUDFLARE_FQDNS` setting on commas.
 */
module Zones {
  import opened Wrappers
  import opened Text

  /** One entry of the provider's zone listing. */
  datatype Zone = Zone(name: string, id: string)

  /** A Python dict from zone name to zone id: its items, in insertion order. */
  type ZoneDict = seq<(string, string)>

  predicate UniqueNames(d: ZoneDict) {
    forall i, j :: 0 <= i < j < |d| ==> d[i].0 != d[j].0
  }

  /** The dict's keys, in iteration order. */
  function Names(d: ZoneDict): (ks: seq<string>)
    ensures |ks| == |d|
    ensures forall i :: 0 <= i < |d| ==> ks[i] == d[i].0
  {
    seq(|d|, i requires 0 <= i < |d| => d[i].0)
  }

  /** Position of the first item whose key is `name`. */
  function IndexOf(d: ZoneDict, name: string): (i: nat)
    requires name in Names(d)
    ensures i < |d| && d[i].0 == name
    ensures forall j :: 0 <= j < i ==> d[j].0 != name
  {
    if d[0].0 == name then 0
    else
      assert Names(d) == [d[0].0] + Names(d[1..]);
      1 + IndexOf(d[1..], name)
  }

  /** `d.get(name)`. */
  function Lookup(d: ZoneDict, name: string): (r: Option<string>)
    ensures r.Some? <==> name in Names(d)
    ensures r.Some? ==> exists i :: 0 <= i < |d| && d[i] == (name, r.value)
  {
    if name in Names(d) then Some(d[IndexOf(d, name)].1) else None
  }

  /** In a dict without repeated keys, the item at any position is what lookup of its key finds. */
  lemma LookupAt(d: ZoneDict, i: nat)
    requires UniqueNames(d) && i < |d|
    ensures Lookup(d, d[i].0) == Some(d[i].1)
  {
    assert Names(d)[i] == d[i].0;
  }

  /** `d[name] = id`: a new key goes to the end, an existing key keeps its place and takes the new value. */
  function Put(d: ZoneDict, name: string, id: string): (r: ZoneDict)
    requires UniqueNames(d)
    ensures UniqueNames(r)
    ensures Lookup(r, name) == Some(id)
    ensures forall k :: k != name ==> Lookup(r, k) == Lookup(d, k)
    ensures Names(r) == if name in Names(d) then Names(d) else Names(d) + [name]
  {
    if name in Names(d) then
      var r := d[IndexOf(d, name) := (name, id)];
      PutKeeps(d, name, id, r);
      r
    else
      var r := d + [(name, id)];
      PutAppends(d, name, id, r);
      r
  }

  lemma PutKeeps(d: ZoneDict, name: string, id: string, r: ZoneDict)
    requires UniqueNames(d) && name in Names(d)
    requires r == d[IndexOf(d, name) := (name, id)]
    ensures UniqueNames(r) && Names(r) == Names(d)
    ensures Lookup(r, name) == Some(id)
    ensures forall k :: k != name ==> Lookup(r, k) == Lookup(d, k)
  {
    assert Names(r) == Names(d);
    LookupAt(r, IndexOf(d, name));
    forall k | k != name
      ensures Lookup(r, k) == Lookup(d, k)
    {
      if k in Names(d) {
        LookupAt(d, IndexOf(d, k));
        LookupAt(r, IndexOf(d, k));
      }
    }
  }

  lemma PutAppends(d: ZoneDict, name: string, id: string, r: ZoneDict)
    requires UniqueNames(d) && name !in Names(d)
    requires r == d + [(name, id)]
    ensures UniqueNames(r) && Names(r) == Names(d) + [name]
    ensures Lookup(r, name) == Some(id)
    ensures forall k :: k != name ==> Lookup(r, k) == Lookup(d, k)
  {
    assert Names(r) == Names(d) + [name];
    assert forall i :: 0 <= i < |d| ==> d[i].0 == Names(d)[i];
    LookupAt(r, |d|);
    forall k | k != name
      ensures Lookup(r, k) == Lookup(d, k)
    {
      if k in Names(d) {
        LookupAt(d, IndexOf(d, k));
        LookupAt(r, IndexOf(d, k));
      }
    }
  }

  /** `not filter_zones or zone["name"] in filter_zones`: an empty filter admits every zone. */
  predicate Admits(filter: seq<string>, name: string) {
    |filter| == 0 || name in filter
  }

  /** `zones[i]` is the last listed zone called `name`. */
  predicate LastNamed(zones: seq<Zone>, i: int, name: string) {
    0 <= i < |zones| && zones[i].name == name &&
    forall j :: i < j < |zones| ==> zones[j].name != name
  }

  /** The id of the last listed zone called `name`, if any. */
  function LastId(zones: seq<Zone>, name: string): (r: Option<string>)
    ensures r.Some? <==> exists i :: 0 <= i < |zones| && zones[i].name == name
    ensures r.Some? ==> exists i :: LastNamed(zones, i, name) && zones[i].id == r.value
  {
    if |zones| == 0 then None
    else
      var last := zones[|zones| - 1];
      var init := zones[..|zones| - 1];
      if last.name == name then
        assert LastNamed(zones, |zones| - 1, name);
        Some(last.id)
      else
        var r := LastId(init, name);
        LastIdInit(zones, init, name, r);
        r
  }

  lemma LastIdInit(zones: seq<Zone>, init: seq<Zone>, name: string, r: Option<string>)
    requires |zones| > 0 && zones[|zones| - 1].name != name && init == zones[..|zones| - 1]
    requires r.Some? <==> exists i :: 0 <= i < |init| && init[i].name == name
    requires r.Some? ==> exists i :: LastNamed(init, i, name) && init[i].id == r.value
    ensures r.Some? <==> exists i :: 0 <= i < |zones| && zones[i].name == name
    ensures r.Some? ==> exists i :: LastNamed(zones, i, name) && zones[i].id == r.value
  {
    if r.Some? {
      var i :| LastNamed(init, i, name) && init[i].id == r.value;
      assert LastNamed(zones, i, name);
    } else {
      forall i | 0 <= i < |zones| ensures zones[i].name != name {
        if i < |init| { assert init[i] == zones[i]; }
      }
    }
  }

  /** The loop of `get_zones` over a zone listing, one zone at a time. */
  function CollectZones(zones: seq<Zone>, filter: seq<string>): (r: ZoneDict)
    ensures UniqueNames(r)
    ensures forall k :: Lookup(r, k) == if Admits(filter, k) then LastId(zones, k) else None
  {
    if |zones| == 0 then []
    else
      var init := zones[..|zones| - 1];
      var z := zones[|zones| - 1];
      var d := CollectZones(init, filter);
      assert forall k :: k != z.name ==> LastId(zones, k) == LastId(init, k);
      if Admits(filter, z.name) then Put(d, z.name, z.id) else d
  }

  /** The names of the admitted zones, in listing order, repeats included. */
  function AdmittedNames(zones: seq<Zone>, filter: seq<string>): (ns: seq<string>)
    ensures forall k :: k in ns <==> Admits(filter, k) && exists i :: 0 <= i < |zones| && zones[i].name == k
  {
    if |zones| == 0 then []
    else
      var init := zones[..|zones| - 1];
      var z := zones[|zones| - 1];
      assert forall i :: 0 <= i < |init| ==> init[i] == zones[i];
      AdmittedNames(init, filter) + if Admits(filter, z.name) then [z.name] else []
  }

  /** `s` with every repeat after the first occurrence removed. */
  function Dedup(s: seq<string>): (r: seq<string>)
    ensures forall x :: x in r <==> x in s
  {
    if |s| == 0 then []
    else
      var p := Dedup(s[..|s| - 1]);
      assert s == s[..|s| - 1] + [s[|s| - 1]];
      if s[|s| - 1] in p then p else p + [s[|s| - 1]]
  }

  /** The dict iterates zones in the order of their first admitted listing, each once. */
  lemma {:induction false} ZoneOrder(zones: seq<Zone>, filter: seq<string>)
    ensures Names(CollectZones(zones, filter)) == Dedup(AdmittedNames(zones, filter))
  {
    if |zones| > 0 {
      var init := zones[..|zones| - 1];
      var z := zones[|zones| - 1];
      ZoneOrder(init, filter);
      var s := AdmittedNames(zones, filter);
      if Admits(filter, z.name) {
        assert s[..|s| - 1] == AdmittedNames(init, filter);
      } else {
        assert s == AdmittedNames(init, filter);
      }
    }
  }

  /**
   `get_zones(filter)`: the listing request either fails, and the error is
   logged and an empty dict returned, or yields the zones to filter.
   */
  function GetZones(listing: Option<seq<Zone>>, filter: seq<string>): (r: ZoneDict)
    ensures UniqueNames(r)
    ensures listing.None? ==> r == []
    ensures forall k :: k in Names(r) <==>
      listing.Some? && Admits(filter, k) && exists i :: 0 <= i < |listing.value| && listing.value[i].name == k
    ensures listing.Some? ==> forall k :: Lookup(r, k) == if Admits(filter, k) then LastId(listing.value, k) else None
  {
    match listing
    case None => []
    case Some(zones) => CollectZones(zones, filter)
  }

  /**
   `os.getenv("CLOUDFLARE_FQDNS", "").split(",")`: never empty, so never
   falsy, and a zone passes it exactly when its name is one of the tokens.
   */
  function FqdnFilter(setting: string): (filter: seq<string>)
    ensures |filter| >= 1
    ensures forall name :: Admits(filter, name) <==> name in filter
    ensures forall i :: 0 <= i < |filter| ==> ',' !in filter[i]
    ensures Join(filter, ',') == setting
  {
    Split(setting, ',')
  }

  /** An empty setting splits into `[""]`, so only a zone literally named `""` can pass. */
  lemma EmptySettingAdmitsOnlyUnnamed(listing: Option<seq<Zone>>)
    ensures FqdnFilter("") == [""]
    ensures forall k :: k in Names(GetZones(listing, FqdnFilter(""))) ==> k == ""
  {
    assert Split("", ',') == [""];
  }

  /** Tokens are not trimmed: `"a.com, b.com"` filters on `"a.com"` and `" b.com"`. */
  lemma TokensKeepWhitespace(setting: string)
    requires setting == "a.com, b.com"
    ensures FqdnFilter(setting) == ["a.com", " b.com"]
  {
    var parts := ["a.com", " b.com"];
    assert Join(parts, ',') == setting;
    SplitJoin(parts, ',');
  }
}
