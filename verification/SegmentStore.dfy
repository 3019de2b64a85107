/** The bounded segment cache (backend-rs/src/hls.rs). */
module SegmentStore {
  import opened Wrappers
  import opened Bytes
  import opened SegmentName
  import opened SegmentBucket

  type Cameras = map<string, Bucket>

  const STALE_CAMERA_AGE := 60_000

  function BucketOf(m: Cameras, camera: string): Bucket { if camera in m then m[camera] else [] }

  ghost predicate AllSorted(m: Cameras) { forall c :: c in m ==> Sorted(m[c]) }

  // ----- The walked total ------------------------------------------------------

  /** The authoritative total: every body of every camera. */
  ghost function Walked(m: Cameras): nat
    decreases |m|
  {
    if m == map[] then 0
    else
      var c :| c in m;
      Size(m[c]) + Walked(m - {c})
  }

  /** The camera picked first does not matter. */
  lemma {:induction false} WalkedWithout(m: Cameras, c: string)
    requires c in m
    ensures Walked(m) == Size(m[c]) + Walked(m - {c})
    decreases |m|
  {
    var d :| d in m && Walked(m) == Size(m[d]) + Walked(m - {d});
    if d != c {
      WalkedWithout(m - {d}, c);
      WalkedWithout(m - {c}, d);
      assert m - {d} - {c} == m - {c} - {d};
    }
  }

  lemma WalkedUpdate(m: Cameras, c: string, b: Bucket)
    ensures Walked(m[c := b]) == Walked(m) - Size(BucketOf(m, c)) + Size(b)
  {
    var m' := m[c := b];
    WalkedWithout(m', c);
    assert m' - {c} == m - {c};
    if c in m {
      WalkedWithout(m, c);
    } else {
      assert m - {c} == m;
    }
  }

  lemma WalkedRemove(m: Cameras, c: string)
    ensures Walked(m - {c}) == Walked(m) - Size(BucketOf(m, c))
  {
    if c in m {
      WalkedWithout(m, c);
    } else {
      assert m - {c} == m;
    }
  }

  // ----- What the store holds ----------------------------------------------------

  /** One cached segment, wherever it is. */
  datatype Item = Item(camera: string, entry: Entry)

  ghost function Held(m: Cameras): set<Item> {
    set c, e | c in m && e in m[c] :: Item(c, e)
  }

  /** Oldest first, ties by camera and then by name. */
  predicate Older(a: Item, b: Item) {
    a.entry.at < b.entry.at ||
    (a.entry.at == b.entry.at &&
     Then(Lexical(a.camera, b.camera), Compare(a.entry.name, b.entry.name)) == Less)
  }

  ghost predicate Ordered(s: seq<Item>) { forall i, j :: 0 <= i < j < |s| ==> Older(s[i], s[j]) }

  ghost function Items(s: seq<Item>): set<Item> { set i | 0 <= i < |s| :: s[i] }

  /** `s` lists everything held, oldest first. */
  ghost predicate Lists(m: Cameras, s: seq<Item>) { Ordered(s) && Items(s) == Held(m) }

  function Weight(s: seq<Item>): nat { if s == [] then 0 else |s[0].entry.body| + Weight(s[1..]) }

  /** One item taken out, and its camera too when that was its last. */
  function Drop(m: Cameras, x: Item): Cameras {
    if x.camera !in m then m
    else
      var b := Remove(m[x.camera], x.entry.name);
      if b == [] then m - {x.camera} else m[x.camera := b]
  }

  lemma OlderTransitive(a: Item, b: Item, c: Item)
    requires Older(a, b) && Older(b, c)
    ensures Older(a, c)
  {
    LexicalAntisymmetric(a.camera, b.camera);
    LexicalAntisymmetric(b.camera, c.camera);
    if Lexical(a.camera, b.camera) != Greater && Lexical(b.camera, c.camera) != Greater {
      LexicalTransitive(a.camera, b.camera, c.camera);
    }
    if Compare(a.entry.name, b.entry.name) == Less && Compare(b.entry.name, c.entry.name) == Less {
      CompareTransitive(a.entry.name, b.entry.name, c.entry.name);
    }
    LexicalAntisymmetric(a.camera, c.camera);
  }

  lemma OlderTotal(a: Item, b: Item)
    ensures Older(a, b) || Older(b, a) || (a.camera == b.camera && a.entry.name == b.entry.name)
    ensures !(Older(a, b) && Older(b, a)) && !Older(a, a)
  {
    LexicalAntisymmetric(a.camera, b.camera);
    CompareAntisymmetric(a.entry.name, b.entry.name);
    LexicalAntisymmetric(a.camera, a.camera);
    CompareAntisymmetric(a.entry.name, a.entry.name);
  }

  /** The listing is unique. */
  lemma {:induction false} OneListing(s: seq<Item>, t: seq<Item>)
    requires Ordered(s) && Ordered(t) && Items(s) == Items(t)
    ensures s == t
    decreases |s|
  {
    assert forall i :: 0 <= i < |s| ==> s[i] in Items(s);
    assert forall i :: 0 <= i < |t| ==> t[i] in Items(t);
    if s != [] && t != [] {
      assert s[0] in Items(t) && t[0] in Items(s);
      if s[0] != t[0] {
        var i :| 0 < i < |t| && t[i] == s[0];
        var j :| 0 < j < |s| && s[j] == t[0];
        OlderTotal(s[0], t[0]);
        assert false;
      }
      ItemsTail(s);
      ItemsTail(t);
      OneListing(s[1..], t[1..]);
    }
  }

  lemma ItemsTail(s: seq<Item>)
    requires s != [] && Ordered(s)
    ensures Items(s[1..]) == Items(s) - {s[0]}
  {
    forall x | x in Items(s[1..]) ensures x in Items(s) && x != s[0] {
      var i :| 0 <= i < |s[1..]| && s[1..][i] == x;
      assert s[i + 1] == x;
      OlderTotal(s[0], s[i + 1]);
    }
    forall x | x in Items(s) && x != s[0] ensures x in Items(s[1..]) {
      var i :| 0 <= i < |s| && s[i] == x;
      assert s[1..][i - 1] == x;
    }
  }

  lemma DropHeld(m: Cameras, x: Item)
    requires AllSorted(m) && x in Held(m)
    ensures AllSorted(Drop(m, x)) && Held(Drop(m, x)) == Held(m) - {x}
    ensures Walked(Drop(m, x)) == Walked(m) - |x.entry.body|
  {
    var b := m[x.camera];
    RemoveMembers(b, x.entry.name);
    FindMember(b, x.entry);
    var b' := Remove(b, x.entry.name);
    WalkedUpdate(m, x.camera, b');
    WalkedRemove(m, x.camera);
    forall e | e in b && e.name == x.entry.name ensures e == x.entry { FindMember(b, e); }
    assert forall e :: e in b' <==> e in b && e != x.entry;
    assert Drop(m, x) == if b' == [] then m - {x.camera} else m[x.camera := b'];
    if b' == [] { assert Size(b') == 0; }
  }

  /** The items taken out one after another. */
  function DropAll(m: Cameras, s: seq<Item>): Cameras
    decreases |s|
  {
    if s == [] then m else Drop(DropAll(m, s[..|s| - 1]), s[|s| - 1])
  }

  lemma WeightSnoc(s: seq<Item>, x: Item)
    ensures Weight(s + [x]) == Weight(s) + |x.entry.body|
  {
    if s == [] {
      assert ([] + [x])[1..] == [];
    } else {
      assert (s + [x])[1..] == s[1..] + [x];
      WeightSnoc(s[1..], x);
    }
  }

  /** Insert into an ordered listing. */
  function Place(s: seq<Item>, x: Item): seq<Item> {
    if s == [] || Older(x, s[0]) then [x] + s else [s[0]] + Place(s[1..], x)
  }

  lemma OrderedTail(s: seq<Item>)
    requires s != [] && Ordered(s)
    ensures Ordered(s[1..]) && Items(s) == {s[0]} + Items(s[1..]) && forall y :: y in Items(s[1..]) ==> Older(s[0], y)
  {
    forall y | y in Items(s[1..]) ensures Older(s[0], y) {
      var i :| 0 <= i < |s[1..]| && s[1..][i] == y;
      assert s[i + 1] == y;
    }
    ItemsTail(s);
    assert s[0] in Items(s);
  }

  lemma OrderedCons(h: Item, rest: seq<Item>)
    requires Ordered(rest) && forall y :: y in Items(rest) ==> Older(h, y)
    ensures Ordered([h] + rest) && Items([h] + rest) == {h} + Items(rest)
  {
    var r := [h] + rest;
    assert r[0] == h && forall i :: 0 <= i < |rest| ==> r[i + 1] == rest[i] && rest[i] in Items(rest);
  }

  lemma {:induction false} PlaceOrdered(s: seq<Item>, x: Item)
    requires Ordered(s)
    requires forall y :: y in Items(s) ==> y.camera != x.camera || y.entry.name != x.entry.name
    ensures Ordered(Place(s, x)) && Items(Place(s, x)) == Items(s) + {x}
    decreases |s|
  {
    hide Older;
    if s == [] {
      OrderedCons(x, s);
    } else {
      hide Ordered, Items;
      OrderedTail(s);
      OlderTotal(x, s[0]);
      if Older(x, s[0]) {
        forall y | y in Items(s) ensures Older(x, y) {
          if y != s[0] { OlderTransitive(x, s[0], y); }
        }
        OrderedCons(x, s);
      } else {
        PlaceOrdered(s[1..], x);
        OrderedCons(s[0], Place(s[1..], x));
      }
    }
  }

  /** A push before any eviction. */
  function Pushed(m: Cameras, camera: string, e: Entry): Cameras {
    m[camera := Insert(BucketOf(m, camera), e)]
  }

  /** One camera cut down to its newest `max`. */
  function Trimmed(m: Cameras, camera: string, max: nat): Cameras {
    if camera !in m then m else m[camera := Last(m[camera], max)]
  }

  /** Exactly the shortest oldest-first run that brings the total to `low` was taken out. */
  ghost predicate EvictedTo(m: Cameras, low: int, order: seq<Item>, n: nat, m': Cameras) {
    && Lists(m, order) && n <= |order|
    && m' == DropAll(m, order[..n])
    && Held(m') == Held(m) - Items(order[..n])
    && Walked(m') == Walked(m) - Weight(order[..n])
    && (forall k :: 0 <= k < n ==> Walked(m) - Weight(order[..k]) > low)
    && (Walked(m') <= low || n == |order|)
  }

  /** Nothing newer than the cutoff. */
  predicate Stale(b: Bucket, cutoff: int) { forall i :: 0 <= i < |b| ==> b[i].at < cutoff }

  lemma EmptyWalks(m: Cameras)
    requires Held(m) == {}
    ensures Walked(m) == 0
    decreases |m|
  {
    if m != map[] {
      var c :| c in m;
      WalkedWithout(m, c);
      assert forall i :: 0 <= i < |m[c]| ==> Item(c, m[c][i]) in Held(m);
      assert Held(m - {c}) <= Held(m);
      EmptyWalks(m - {c});
    }
  }

  /** Removing the oldest name takes the head off a bucket. */
  lemma RemoveHead(m: Cameras, camera: string)
    requires AllSorted(m) && camera in m && m[camera] != []
    ensures var b := m[camera];
            && Find(b, b[0].name) == Some(b[0]) && Remove(b, b[0].name) == b[1..]
            && AllSorted(m[camera := b[1..]])
            && Walked(m[camera := b[1..]]) == Walked(m) - |b[0].body|
  {
    WalkedUpdate(m, camera, m[camera][1..]);
  }

  class Store {
    var cameras: Cameras
    /** The running sum of all bodies' lengths. */
    var byteTotal: int

    ghost predicate Valid() reads this { AllSorted(cameras) && byteTotal == Walked(cameras) }

    constructor ()
      ensures Valid() && cameras == map[]
    {
      cameras := map[];
      byteTotal := 0;
    }

    /** `evict_per_camera`. */
    method EvictPerCamera(camera: string, max: nat)
      requires Valid()
      modifies this
      ensures Valid() && cameras == Trimmed(old(cameras), camera, max)
      ensures Newest(BucketOf(old(cameras), camera), BucketOf(cameras, camera), max)
      ensures cameras.Keys == old(cameras).Keys
      ensures forall c :: c in cameras && c != camera ==> cameras[c] == old(cameras)[c]
    {
      LastIsNewest(BucketOf(cameras, camera), max);
      hide Newest;
      if camera !in cameras {
        return;
      }
      var bucket := cameras[camera];
      if |bucket| <= max {
        assert cameras == cameras[camera := bucket];
        return;
      }
      hide Find, Remove, Before;
      var dropCount := |bucket| - max;
      assert bucket[0..] == bucket;
      for k := 0 to dropCount
        invariant AllSorted(cameras) && byteTotal == Walked(cameras)
        invariant cameras == old(cameras)[camera := bucket[k..]]
      {
        var b, name := cameras[camera], bucket[k].name;
        var found := Find(b, name);
        assert b[0] == bucket[k] && b[1..] == bucket[k + 1..];
        RemoveHead(cameras, camera);
        if found.Some? {
          cameras := cameras[camera := Remove(b, name)];
          byteTotal := byteTotal - |found.value.body|;
        }
      }
    }

    /** Every cached segment, sorted oldest first. */
    method ListOldestFirst() returns (order: seq<Item>)
      requires Valid()
      ensures Lists(cameras, order)
    {
      order := [];
      var left := cameras.Keys;
      while left != {}
        invariant left <= cameras.Keys
        invariant Ordered(order)
        invariant Items(order) == set x | x in Held(cameras) && x.camera !in left
        decreases |left|
      {
        var c :| c in left;
        ghost var before := Items(order);
        var b := cameras[c];
        for k := 0 to |b|
          invariant Ordered(order)
          invariant Items(order) == before + set i | 0 <= i < k :: Item(c, b[i])
        {
          forall i | 0 <= i < k ensures b[i].name != b[k].name { CompareAntisymmetric(b[i].name, b[k].name); }
          PlaceOrdered(order, Item(c, b[k]));
          order := Place(order, Item(c, b[k]));
        }
        left := left - {c};
      }
    }

    /** `evict_global_oldest`. `low` is the low-water mark of `maxTotal`. */
    method EvictGlobalOldest(maxTotal: int, low: int) returns (evicted: nat, ghost order: seq<Item>)
      requires Valid()
      modifies this
      ensures Valid()
      ensures old(byteTotal) <= maxTotal ==> evicted == 0 && cameras == old(cameras)
      ensures old(byteTotal) > maxTotal ==> EvictedTo(old(cameras), low, order, evicted, cameras)
      ensures old(byteTotal) > maxTotal && 0 <= low ==> byteTotal <= low
      ensures Held(cameras) <= Held(old(cameras))
      ensures forall x, y :: x in Held(old(cameras)) - Held(cameras) && y in Held(cameras) ==> x.entry.at <= y.entry.at
    {
      evicted, order := 0, [];
      if byteTotal <= maxTotal {
        return;
      }
      ghost var m := cameras;
      var candidates := ListOldestFirst();
      order := candidates;
      EvictBegins(m, order, low);
      hide Find, Remove, Drop, Evicting, EvictedTo, Walked;
      var k := 0;
      while k < |candidates| && byteTotal > low
        invariant k == evicted <= |candidates|
        invariant AllSorted(cameras) && byteTotal == Walked(cameras)
        invariant Evicting(m, low, order, k, cameras)
      {
        var x := candidates[k];
        EvictStep(m, low, order, k, cameras);
        DropStep(cameras, x);
        if x.camera in cameras {
          var bucket := cameras[x.camera];
          var found := Find(bucket, x.entry.name);
          var rest := Remove(bucket, x.entry.name);
          if found.Some? {
            byteTotal := byteTotal - |x.entry.body|;
            evicted := evicted + 1;
          }
          // A camera with nothing left is not kept.
          cameras := if rest == [] then cameras - {x.camera} else cameras[x.camera := rest];
        }
        k := k + 1;
      }
      EvictEnds(m, low, order, k, cameras);
      OldestWent(m, low, order, k, cameras);
    }

    /** `push_segment`: insert, then both eviction passes. The answer is the
        camera's segment count afterwards. */
    method PushSegment(camera: string, name: string, body: seq<byte>, now: int, maxPerCamera: nat,
                       maxTotal: int, low: int)
        returns (count: nat, ghost evicted: nat, ghost order: seq<Item>)
      requires Valid()
      modifies this
      ensures Valid()
      ensures count == |BucketOf(cameras, camera)|
      ensures var m := Trimmed(Pushed(old(cameras), camera, Entry(name, body, now)), camera, maxPerCamera);
              if Walked(m) <= maxTotal then cameras == m
              else EvictedTo(m, low, order, evicted, cameras)
      ensures 0 <= low <= maxTotal ==> byteTotal <= maxTotal
      ensures var m := Trimmed(Pushed(old(cameras), camera, Entry(name, body, now)), camera, maxPerCamera);
              && Newest(Insert(BucketOf(old(cameras), camera), Entry(name, body, now)), BucketOf(m, camera),
                        maxPerCamera)
              && Held(cameras) <= Held(m)
              && forall x, y :: x in Held(m) - Held(cameras) && y in Held(cameras) ==> x.entry.at <= y.entry.at
    {
      hide Walked, EvictedTo, Insert, Find;
      var bucket := BucketOf(cameras, camera);
      var e := Entry(name, body, now);
      // An entry of this name is replaced: only the difference counts.
      var previous := Find(bucket, name);
      PushStep(cameras, camera, e);
      cameras := cameras[camera := Insert(bucket, e)];
      var delta := |body|;
      if previous.Some? {
        delta := delta - |previous.value.body|;
      }
      byteTotal := byteTotal + delta;
      EvictPerCamera(camera, maxPerCamera);
      evicted, order := EvictGlobalOldest(maxTotal, low);
      count := |BucketOf(cameras, camera)|;
    }

    /** `segment`. */
    method Segment(camera: string, name: string) returns (r: Option<seq<byte>>)
      requires Valid()
      ensures forall e :: Item(camera, e) in Held(cameras) && e.name == name ==> r == Some(e.body)
      ensures r.Some? ==> exists e :: Item(camera, e) in Held(cameras) && e.name == name && e.body == r.value
    {
      var found := Find(BucketOf(cameras, camera), name);
      r := if found.Some? then Some(found.value.body) else None;
      if found.Some? {
        assert Item(camera, found.value) in Held(cameras);
      }
      forall e | Item(camera, e) in Held(cameras) && e.name == name ensures r == Some(e.body) {
        FindMember(cameras[camera], e);
      }
    }

    /** `snapshot_recent`: the newest `count`, oldest first. */
    method SnapshotRecent(camera: string, count: nat) returns (r: Snapshot)
      requires Valid()
      ensures r == if BucketOf(cameras, camera) == [] then NoCamera
                   else Segments(Bodies(Last(BucketOf(cameras, camera), count)))
      ensures r.Segments? ==>
                exists kept :: Newest(BucketOf(cameras, camera), kept, count) && r.bodies == Bodies(kept)
    {
      LastIsNewest(BucketOf(cameras, camera), count);
      hide Newest;
      var bucket := BucketOf(cameras, camera);
      if bucket == [] {
        return NoCamera;
      }
      if count == 0 {
        assert Last(bucket, 0) == [] && Bodies([]) == [];
        return Segments([]);
      }
      var skip := if |bucket| > count then |bucket| - count else 0;
      assert bucket[skip..] == Last(bucket, count);
      r := Segments(Bodies(bucket[skip..]));
    }

    /** `cleanup_camera`, for this cache. */
    method CleanupCamera(camera: string)
      requires Valid()
      modifies this
      ensures Valid() && cameras == old(cameras) - {camera}
    {
      WalkedRemove(cameras, camera);
      if camera in cameras {
        byteTotal := byteTotal - Size(cameras[camera]);
        cameras := cameras - {camera};
      } else {
        assert cameras == cameras - {camera};
      }
    }

    /** `recompute_bytes`. */
    method RecomputeBytes() returns (total: nat)
      ensures total == Walked(cameras)
    {
      total := 0;
      var left := cameras;
      while left != map[]
        invariant left.Keys <= cameras.Keys
        invariant total + Walked(left) == Walked(cameras)
        decreases |left|
      {
        var c :| c in left;
        WalkedWithout(left, c);
        total := total + Size(left[c]);
        left := left - {c};
      }
    }

    /** `evict_stale_cameras`. The recomputed total takes off exactly what was
        swept: the running total had not drifted. */
    method EvictStaleCameras(now: int)
      requires Valid()
      modifies this
      ensures Valid()
      ensures cameras == map c | c in old(cameras) && !Stale(old(cameras)[c], now - STALE_CAMERA_AGE) :: old(cameras)[c]
      ensures forall c :: c in old(cameras) ==>
                (c in cameras <==> exists e :: e in old(cameras)[c] && e.at >= now - STALE_CAMERA_AGE)
      ensures byteTotal == old(byteTotal) - Walked(old(cameras) - cameras.Keys)
    {
      var cutoff := now - STALE_CAMERA_AGE;
      ghost var m := cameras;
      var stale := set c | c in cameras && Stale(cameras[c], cutoff);
      cameras := cameras - stale;
      byteTotal := RecomputeBytes();
      WalkedParts(m, cameras, m - cameras.Keys);
    }
  }

  lemma PushStep(m: Cameras, camera: string, e: Entry)
    requires AllSorted(m)
    ensures var b := BucketOf(m, camera);
            && Sorted(b) && AllSorted(Pushed(m, camera, e))
            && Walked(Pushed(m, camera, e)) ==
               Walked(m) + |e.body| - (if Find(b, e.name).Some? then |Find(b, e.name).value.body| else 0)
  {
    var b := BucketOf(m, camera);
    InsertMembers(b, e);
    InsertSize(b, e);
    WalkedUpdate(m, camera, Insert(b, e));
  }

  /** `m` is made of the disjoint `a` and `b`. */
  ghost predicate Parts(m: Cameras, a: Cameras, b: Cameras) {
    && a.Keys !! b.Keys && m.Keys == a.Keys + b.Keys
    && (forall c :: c in a ==> m[c] == a[c])
    && (forall c :: c in b ==> m[c] == b[c])
  }

  lemma PartsWithout(m: Cameras, a: Cameras, b: Cameras, c: string)
    requires Parts(m, a, b) && c in b
    ensures c in m && m[c] == b[c] && Parts(m - {c}, a, b - {c})
  {
  }

  /** The totals of two disjoint parts add up. */
  lemma {:induction false} WalkedParts(m: Cameras, a: Cameras, b: Cameras)
    requires Parts(m, a, b)
    ensures Walked(m) == Walked(a) + Walked(b)
    decreases b.Keys
  {
    hide Walked, Size, Parts;
    if b == map[] {
      WalkedOnePart(m, a, b);
    } else {
      var c :| c in b;
      PartsWithout(m, a, b, c);
      WalkedWithout(b, c);
      WalkedWithout(m, c);
      WalkedParts(m - {c}, a, b - {c});
    }
  }

  lemma WalkedOnePart(m: Cameras, a: Cameras, b: Cameras)
    requires Parts(m, a, b) && b == map[]
    ensures Walked(m) == Walked(a) + Walked(b)
  {
    assert m == a;
  }

  /** Where the eviction loop stands after `k` items. */
  ghost predicate Evicting(m: Cameras, low: int, order: seq<Item>, k: nat, now: Cameras) {
    && k <= |order| && Lists(m, order) && Lists(now, order[k..])
    && now == DropAll(m, order[..k]) && Held(now) == Held(m) - Items(order[..k])
    && Walked(now) == Walked(m) - Weight(order[..k])
    && (forall j :: 0 <= j < k ==> Walked(m) - Weight(order[..j]) > low)
  }

  lemma EvictBegins(m: Cameras, order: seq<Item>, low: int)
    requires Lists(m, order)
    ensures Evicting(m, low, order, 0, m)
  {
    assert order[..0] == [] && order[0..] == order;
  }

  lemma DropStep(m: Cameras, x: Item)
    requires x.camera in m
    ensures var rest := Remove(m[x.camera], x.entry.name);
            Drop(m, x) == if rest == [] then m - {x.camera} else m[x.camera := rest]
  {
  }

  /** One turn of the eviction loop. */
  lemma EvictStep(m: Cameras, low: int, order: seq<Item>, k: nat, now: Cameras)
    requires k < |order| && AllSorted(now) && Evicting(m, low, order, k, now) && Walked(now) > low
    ensures var x := order[k]; var next := Drop(now, x);
            && x.camera in now && Find(now[x.camera], x.entry.name) == Some(x.entry)
            && AllSorted(next) && Evicting(m, low, order, k + 1, next)
            && Walked(next) == Walked(now) - |x.entry.body|
  {
    hide Find, Remove, Older, Drop;
    var x, tail := order[k], order[k..];
    assert tail[0] == x && tail[1..] == order[k + 1..];
    assert x in Items(tail);
    FindMember(now[x.camera], x.entry);
    DropHeld(now, x);
    ItemsTail(tail);
    assert order[..k + 1] == order[..k] + [x];
    WeightSnoc(order[..k], x);
    ItemsSnoc(order[..k], x);
  }

  lemma EvictEnds(m: Cameras, low: int, order: seq<Item>, k: nat, now: Cameras)
    requires Evicting(m, low, order, k, now) && (k == |order| || Walked(now) <= low)
    ensures EvictedTo(m, low, order, k, now) && (0 <= low ==> Walked(now) <= low)
  {
    if k == |order| {
      assert order[k..] == [] && Items([]) == {};
      EmptyWalks(now);
    }
  }

  /** Nothing that was taken out is newer than anything kept. */
  lemma OldestWent(m: Cameras, low: int, order: seq<Item>, n: nat, m': Cameras)
    requires EvictedTo(m, low, order, n, m')
    ensures Held(m') <= Held(m)
    ensures forall x, y :: x in Held(m) - Held(m') && y in Held(m') ==> x.entry.at <= y.entry.at
  {
    forall x, y | x in Held(m) - Held(m') && y in Held(m') ensures x.entry.at <= y.entry.at {
      assert x in Items(order[..n]) && y in Items(order);
      var i :| 0 <= i < n && order[i] == x;
      var j :| 0 <= j < |order| && order[j] == y;
      assert forall k :: 0 <= k < n ==> order[..n][k] == order[k] && order[k] !in Held(m');
    }
  }

  lemma ItemsSnoc(s: seq<Item>, x: Item)
    ensures Items(s + [x]) == Items(s) + {x}
  {
    var t := s + [x];
    assert t[|s|] == x && forall i :: 0 <= i < |s| ==> t[i] == s[i];
  }

  // ----- Streams of pushes, while the byte cap is not reached ----------------------

  datatype Push = Push(camera: string, entry: Entry)

  /** What was pushed to one camera. */
  function Of(pushes: seq<Push>, camera: string): seq<Entry> {
    if pushes == [] then []
    else
      var n := |pushes| - 1;
      Of(pushes[..n], camera) + (if pushes[n].camera == camera then [pushes[n].entry] else [])
  }

  function Step(m: Cameras, p: Push, max: nat): Cameras { Trimmed(Pushed(m, p.camera, p.entry), p.camera, max) }

  /** The store after pushes to any cameras in any order. */
  function StoreAfter(m: Cameras, pushes: seq<Push>, max: nat): Cameras {
    if pushes == [] then m else Step(StoreAfter(m, pushes[..|pushes| - 1], max), pushes[|pushes| - 1], max)
  }

  lemma StepBuckets(m: Cameras, p: Push, max: nat, camera: string)
    ensures BucketOf(Step(m, p, max), camera) ==
            if camera == p.camera then Last(Insert(BucketOf(m, camera), p.entry), max) else BucketOf(m, camera)
  {
    hide Insert, Last;
  }

  /** Whatever the others push in between, a camera whose names arrive in order holds the newest
      `max` of what it held and what it was pushed. */
  lemma {:induction false} LiveStream(m: Cameras, pushes: seq<Push>, max: nat, camera: string)
    requires Sorted(BucketOf(m, camera) + Of(pushes, camera))
    ensures BucketOf(StoreAfter(m, pushes, max), camera) == Fed(BucketOf(m, camera), Of(pushes, camera), max)
    decreases |pushes|
  {
    hide Insert, Last, Sorted, Step;
    if pushes != [] {
      var n := |pushes| - 1;
      var b, before := BucketOf(m, camera), Of(pushes[..n], camera);
      StepBuckets(StoreAfter(m, pushes[..n], max), pushes[n], max, camera);
      if pushes[n].camera == camera {
        FedMore(b, before, pushes[n].entry, max);
      } else {
        assert before + [] == before;
      }
      LiveStream(m, pushes[..n], max, camera);
    }
  }

  /** The last push to such a camera is held, as its last, and everything that went came before
      everything that is held. */
  lemma NewestIsHeld(m: Cameras, pushes: seq<Push>, max: nat, camera: string)
    requires Sorted(BucketOf(m, camera) + Of(pushes, camera)) && Of(pushes, camera) != []
    ensures var sent := Of(pushes, camera); var held := BucketOf(StoreAfter(m, pushes, max), camera);
            && Newest(BucketOf(m, camera) + sent, held, max)
            && (max > 0 ==> held != [] && held[|held| - 1] == sent[|sent| - 1])
  {
    hide Newest, StoreAfter, Of, Sorted;
    LiveStream(m, pushes, max, camera);
    LastIsNewest(BucketOf(m, camera) + Of(pushes, camera), max);
  }

  /** A snapshot of such a camera: the newest of what it holds. */
  lemma LiveSnapshot(b: Bucket, pushes: seq<Entry>, max: nat, count: nat)
    requires |b| <= max
    ensures Last(Fed(b, pushes, max), count) == Last(b + pushes, if count < max then count else max)
    ensures Sorted(b + pushes) ==>
              Newest(b + pushes, Last(Fed(b, pushes, max), count), if count < max then count else max)
  {
    if Sorted(b + pushes) { LastIsNewest(b + pushes, if count < max then count else max); }
    hide Newest;
    if pushes == [] { assert b + pushes == b; }
  }

  /** Calls of `push_segment`, one after another. While the total stays within the cap nothing
      but the trimming happens. */
  method PushAll(store: Store, pushes: seq<Push>, maxPerCamera: nat, maxTotal: int, low: int)
    requires store.Valid()
    modifies store
    ensures store.Valid()
    ensures (forall k :: 0 < k <= |pushes| ==>
               Walked(StoreAfter(old(store.cameras), pushes[..k], maxPerCamera)) <= maxTotal)
            ==>
              && store.cameras == StoreAfter(old(store.cameras), pushes, maxPerCamera)
              && forall c :: Of(pushes, c) != [] && Sorted(BucketOf(old(store.cameras), c) + Of(pushes, c)) ==>
                   Newest(BucketOf(old(store.cameras), c) + Of(pushes, c), BucketOf(store.cameras, c), maxPerCamera)
  {
    hide Walked, Trimmed, Pushed, EvictedTo, Newest, Insert;
    ghost var m := store.cameras;
    ghost var within := forall k :: 0 < k <= |pushes| ==> Walked(StoreAfter(m, pushes[..k], maxPerCamera)) <= maxTotal;
    for i := 0 to |pushes|
      invariant store.Valid()
      invariant within ==> store.cameras == StoreAfter(m, pushes[..i], maxPerCamera)
    {
      assert pushes[..i + 1][..i] == pushes[..i];
      var p := pushes[i];
      var _, _, _ := store.PushSegment(p.camera, p.entry.name, p.entry.body, p.entry.at, maxPerCamera, maxTotal, low);
    }
    assert pushes[..|pushes|] == pushes;
    forall c | Of(pushes, c) != [] && Sorted(BucketOf(m, c) + Of(pushes, c))
      ensures Newest(BucketOf(m, c) + Of(pushes, c), BucketOf(StoreAfter(m, pushes, maxPerCamera), c), maxPerCamera)
    {
      NewestIsHeld(m, pushes, maxPerCamera, c);
    }
  }
}
