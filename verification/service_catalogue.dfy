/** Resolving a booking's requested service ids against the catalogue and
    freezing what was found into service snapshots with their totals. */
module ServiceCatalogue {
  import opened Domain

  /** The service collection in store order. */
  type Catalogue = seq<Service>

  function IdsOf(cat: Catalogue): (r: seq<ServiceId>)
    ensures |r| == |cat|
    ensures forall i :: 0 <= i < |cat| ==> r[i] == cat[i].id
  {
    seq(|cat|, i requires 0 <= i < |cat| => cat[i].id)
  }

  /** Service ids are primary keys: no two catalogue entries share one. */
  predicate UniqueIds(cat: Catalogue) {
    forall i, j :: 0 <= i < j < |cat| ==> cat[i].id != cat[j].id
  }

  /** `Service.find({ _id: { $in: ids } })`: the catalogue entries whose id
      was requested, in catalogue order, each entry at most once however
      often its id was requested. */
  function Find(cat: Catalogue, ids: seq<ServiceId>): (r: seq<Service>)
    ensures forall s :: s in r <==> s in cat && s.id in ids
    ensures multiset(r) <= multiset(cat)
    ensures UniqueIds(cat) ==> UniqueIds(r)
    decreases |cat|
  {
    if cat == [] then []
    else
      var tail := Find(cat[1..], ids);
      assert cat == [cat[0]] + cat[1..];
      FindStep(cat, ids, tail);
      (if cat[0].id in ids then [cat[0]] else []) + tail
  }

  lemma FindStep(cat: Catalogue, ids: seq<ServiceId>, tail: seq<Service>)
    requires cat != []
    requires forall s :: s in tail ==> s in cat[1..]
    requires UniqueIds(cat[1..]) ==> UniqueIds(tail)
    ensures UniqueIds(cat) ==> UniqueIds((if cat[0].id in ids then [cat[0]] else []) + tail)
  {
    if UniqueIds(cat) {
      UniqueIdsTail(cat);
      ConsUniqueIds(cat[0], tail);
    }
  }

  /** The snapshot of one service: its id, duration and price as they are
      at this instant. */
  function Snapshot(s: Service): ServiceEntry {
    ServiceEntry(s.id, s.duration, s.price)
  }

  function Snapshots(found: seq<Service>): (r: seq<ServiceEntry>)
    ensures |r| == |found|
    ensures forall i :: 0 <= i < |found| ==> r[i] == Snapshot(found[i])
  {
    seq(|found|, i requires 0 <= i < |found| => Snapshot(found[i]))
  }

  /** Resolve the requested ids, failing (`None`) when the lookup returns a
      different number of documents than ids were requested. With unique
      catalogue ids a success holds one snapshot per requested id. */
  function Resolve(cat: Catalogue, ids: seq<ServiceId>): (r: Option<seq<ServiceEntry>>)
    ensures r.Some? ==> |r.value| == |ids|
    ensures r.Some? ==> forall e :: e in r.value ==>
      e.serviceId in ids && Service(e.serviceId, e.duration, e.price) in cat
    ensures UniqueIds(cat) && r.Some? ==>
      forall id :: id in ids ==> exists e :: e in r.value && e.serviceId == id
    ensures UniqueIds(cat) && r.Some? ==>
      forall i, j :: 0 <= i < j < |r.value| ==> r.value[i].serviceId != r.value[j].serviceId
  {
    var found := Find(cat, ids);
    if |found| == |ids| then
      var snap := Snapshots(found);
      SnapshotFacts(cat, ids, found, snap);
      Some(snap)
    else None
  }

  /** What the snapshots of a full lookup hold: one per requested id, each
      a copy of a catalogue entry, with distinct ids when the catalogue's
      are unique. */
  lemma SnapshotFacts(cat: Catalogue, ids: seq<ServiceId>, found: seq<Service>, snap: seq<ServiceEntry>)
    requires found == Find(cat, ids) && |found| == |ids|
    requires snap == Snapshots(found)
    ensures forall e :: e in snap ==> e.serviceId in ids && Service(e.serviceId, e.duration, e.price) in cat
    ensures UniqueIds(cat) ==> forall id :: id in ids ==> exists e :: e in snap && e.serviceId == id
    ensures UniqueIds(cat) ==> forall i, j :: 0 <= i < j < |snap| ==> snap[i].serviceId != snap[j].serviceId
  {
    forall e | e in snap ensures e.serviceId in ids && Service(e.serviceId, e.duration, e.price) in cat {
      var k :| 0 <= k < |snap| && snap[k] == e;
      assert found[k] in found;
      assert Service(e.serviceId, e.duration, e.price) == found[k];
    }
    if UniqueIds(cat) {
      FullFindCovers(cat, ids);
      SnapshotsCover(cat, ids, found, snap);
      forall i, j | 0 <= i < j < |snap| ensures snap[i].serviceId != snap[j].serviceId {
        assert snap[i].serviceId == found[i].id && snap[j].serviceId == found[j].id;
      }
    }
  }

  /** Snapshots of a lookup that found every requested id cover every
      requested id. */
  lemma SnapshotsCover(cat: Catalogue, ids: seq<ServiceId>, found: seq<Service>, snap: seq<ServiceEntry>)
    requires forall s :: s in found <==> s in cat && s.id in ids
    requires forall id :: id in ids ==> exists m :: 0 <= m < |cat| && cat[m].id == id
    requires snap == Snapshots(found)
    ensures forall id :: id in ids ==> exists e :: e in snap && e.serviceId == id
  {
    forall id | id in ids ensures exists e :: e in snap && e.serviceId == id {
      var m :| 0 <= m < |cat| && cat[m].id == id;
      assert cat[m] in found;
      var k :| 0 <= k < |found| && found[k] == cat[m];
      assert snap[k].serviceId == id;
    }
  }

  /** Sum of snapshot durations (`reduce((sum, s) => sum + s.duration, 0)`). */
  function TotalDuration(entries: seq<ServiceEntry>): int {
    if entries == [] then 0 else entries[0].duration + TotalDuration(entries[1..])
  }

  /** Sum of snapshot prices. */
  function TotalPrice(entries: seq<ServiceEntry>): int {
    if entries == [] then 0 else entries[0].price + TotalPrice(entries[1..])
  }

  /** A total over snapshots is at least any single non-negative part when
      every part is non-negative: no service shortens a booking. */
  lemma {:induction false} TotalDurationBounds(entries: seq<ServiceEntry>, k: int)
    requires forall e :: e in entries ==> e.duration >= 0
    requires 0 <= k < |entries|
    ensures entries[k].duration <= TotalDuration(entries)
    ensures TotalDuration(entries) >= 0
  {
    if k == 0 {
      TotalDurationNonNegative(entries[1..]);
    } else {
      TotalDurationBounds(entries[1..], k - 1);
    }
  }

  lemma {:induction false} TotalDurationNonNegative(entries: seq<ServiceEntry>)
    requires forall e :: e in entries ==> e.duration >= 0
    ensures TotalDuration(entries) >= 0
  {
    if entries != [] {
      TotalDurationNonNegative(entries[1..]);
    }
  }

  // ---- cardinality facts behind the resolution check ----

  lemma {:induction false} SetOfSeqSize<T>(s: seq<T>)
    ensures |ToSet(s)| <= |s|
    ensures |ToSet(s)| == |s| <==> Distinct(s)
  {
    if s != [] {
      var t := s[1..];
      SetOfSeqSize(t);
      assert s == [s[0]] + t;
      assert ToSet(s) == {s[0]} + ToSet(t);
      if s[0] in t {
        assert ToSet(s) == ToSet(t);
        var j :| 0 <= j < |t| && t[j] == s[0];
        assert s[0] == s[j + 1];
      } else {
        assert |ToSet(s)| == 1 + |ToSet(t)|;
        if Distinct(t) {
          forall i, j | 0 <= i < j < |s| ensures s[i] != s[j] {
            if i == 0 {
              assert s[j] == t[j - 1];
            } else {
              assert s[i] == t[i - 1] && s[j] == t[j - 1];
            }
          }
        }
        if Distinct(s) {
          forall i, j | 0 <= i < j < |t| ensures t[i] != t[j] {
            assert t[i] == s[i + 1] && t[j] == s[j + 1];
          }
        }
      }
    }
  }

  lemma SubsetOfEqualSize<T>(a: set<T>, b: set<T>)
    requires a <= b && |a| == |b|
    ensures a == b
  {
    if x :| x in b && x !in a {
      SubsetSize(a, b - {x});
    }
  }

  lemma SubsetSize<T>(a: set<T>, b: set<T>)
    requires a <= b
    ensures |a| <= |b|
    decreases |b|
  {
    if x :| x in a {
      SubsetSize(a - {x}, b - {x});
    }
  }

  lemma UniqueIdsTail(cat: Catalogue)
    requires UniqueIds(cat) && cat != []
    ensures UniqueIds(cat[1..])
    ensures forall s :: s in cat[1..] ==> s.id != cat[0].id
  {
    var rest := cat[1..];
    forall s | s in rest ensures s.id != cat[0].id {
      var m :| 0 <= m < |rest| && rest[m] == s;
      assert rest[m] == cat[m + 1];
    }
    forall i, j | 0 <= i < j < |rest| ensures rest[i].id != rest[j].id {
      assert rest[i] == cat[i + 1] && rest[j] == cat[j + 1];
    }
  }

  lemma ConsUniqueIds(x: Service, tail: seq<Service>)
    requires UniqueIds(tail)
    requires forall s :: s in tail ==> s.id != x.id
    ensures UniqueIds([x] + tail)
  {
    var r := [x] + tail;
    forall i, j | 0 <= i < j < |r| ensures r[i].id != r[j].id {
      assert r[j] == tail[j - 1];
      if i > 0 {
        assert r[i] == tail[i - 1];
      }
    }
  }

  /** The ids of a filtered catalogue are the requested ids that exist. */
  lemma FilteredIds(cat: Catalogue, ids: seq<ServiceId>, found: seq<Service>)
    requires forall s :: s in found <==> s in cat && s.id in ids
    ensures ToSet(IdsOf(found)) == ToSet(ids) * ToSet(IdsOf(cat))
  {
    forall x ensures x in ToSet(IdsOf(found)) <==> x in ToSet(ids) * ToSet(IdsOf(cat)) {
      if x in ToSet(IdsOf(found)) {
        var i :| 0 <= i < |found| && IdsOf(found)[i] == x;
        assert found[i] in cat;
        var m :| 0 <= m < |cat| && cat[m] == found[i];
        assert IdsOf(cat)[m] == x;
      }
      if x in ToSet(ids) * ToSet(IdsOf(cat)) {
        var m :| 0 <= m < |cat| && IdsOf(cat)[m] == x;
        assert cat[m] in found;
        var i :| 0 <= i < |found| && found[i] == cat[m];
        assert IdsOf(found)[i] == x;
      }
    }
  }

  /** With unique catalogue ids, the lookup returns as many documents as
      there are distinct requested ids that exist. */
  lemma FindSize(cat: Catalogue, ids: seq<ServiceId>)
    requires UniqueIds(cat)
    ensures |Find(cat, ids)| == |ToSet(ids) * ToSet(IdsOf(cat))|
  {
    var found := Find(cat, ids);
    SetOfSeqSize(IdsOf(found));
    assert Distinct(IdsOf(found));
    FilteredIds(cat, ids, found);
  }

  /** A lookup that returns as many documents as ids were requested, over
      unique catalogue ids, means every requested id exists and none was
      requested twice. */
  lemma FullFindCovers(cat: Catalogue, ids: seq<ServiceId>)
    requires UniqueIds(cat) && |Find(cat, ids)| == |ids|
    ensures Distinct(ids)
    ensures forall id :: id in ids ==> exists m :: 0 <= m < |cat| && cat[m].id == id
  {
    var s := ToSet(ids);
    var c := ToSet(IdsOf(cat));
    FindSize(cat, ids);
    SetOfSeqSize(ids);
    SubsetSize(s * c, s);
    SubsetOfEqualSize(s * c, s);
    forall id | id in ids ensures exists m :: 0 <= m < |cat| && cat[m].id == id {
      assert id in s;
      var m :| 0 <= m < |cat| && IdsOf(cat)[m] == id;
    }
  }

  /** The resolution check accepts a request exactly when every requested
      id exists and no id is requested twice: a repeated id makes the
      lookup return fewer documents than were asked for. */
  lemma ResolveSucceedsIff(cat: Catalogue, ids: seq<ServiceId>)
    requires UniqueIds(cat)
    ensures Resolve(cat, ids).Some?
        <==> Distinct(ids) && forall i :: 0 <= i < |ids| ==> ids[i] in IdsOf(cat)
  {
    var s := ToSet(ids);
    var c := ToSet(IdsOf(cat));
    if Resolve(cat, ids).Some? {
      FullFindCovers(cat, ids);
      forall i | 0 <= i < |ids| ensures ids[i] in IdsOf(cat) {
        assert ids[i] in ids;
        var m :| 0 <= m < |cat| && cat[m].id == ids[i];
        assert IdsOf(cat)[m] == ids[i];
      }
    }
    if Distinct(ids) && forall i :: 0 <= i < |ids| ==> ids[i] in IdsOf(cat) {
      FindSize(cat, ids);
      SetOfSeqSize(ids);
      assert s * c == s;
    }
  }
}
