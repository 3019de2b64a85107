/** The live path's auth cache (backend-rs/src/hls.rs). */
module AuthCache {
  import opened Wrappers

  const AUTH_CACHE_MAX_ENTRIES := 10_000

  /** A cached value and when it was cached. */
  datatype Timed<T> = Timed(value: T, at: int)

  /** What the cache holds: three maps and the generation they were filled in.
      The value types are left open, since nothing here looks inside a value. */
  datatype Contents<N, C, V> = Contents(
    generation: nat,
    nodes: map<string, Timed<N>>,
    cameras: map<(int, string), Timed<C>>,
    viewable: map<(string, string), Timed<V>>)

  /** Emptied if anything was invalidated since the maps were filled. */
  function Synced<N, C, V>(c: Contents<N, C, V>, loaded: nat): (r: Contents<N, C, V>)
    ensures r.generation == loaded
    ensures r == c || (r.nodes == map[] && r.cameras == map[] && r.viewable == map[])
  {
    if c.generation != loaded then Contents(loaded, map[], map[], map[]) else c
  }

  /** `put`: an answer obtained under generation `seen` is stored only while that is current. */
  function Put<K, T>(m: map<K, Timed<T>>, current: nat, seen: nat, ttl: nat, key: K, value: Timed<T>)
      : (r: map<K, Timed<T>>)
    ensures |m| <= AUTH_CACHE_MAX_ENTRIES ==> |r| <= AUTH_CACHE_MAX_ENTRIES
    ensures forall k :: k in r ==> (k == key && r[k] == value && seen == current) || (k in m && r[k] == m[k])
  {
    if seen != current || ttl == 0 then m
    else if |m| >= AUTH_CACHE_MAX_ENTRIES then map[key := value]
    else m[key := value]
  }

  /** A value if it is there and fresh enough. */
  function Fresh<K, T>(m: map<K, Timed<T>>, key: K, now: int, ttl: nat): Option<T> {
    if key in m && now - m[key].at < ttl then Some(m[key].value) else None
  }

  /** The object behind the lock. `loaded` is what an atomic load of the
      process-wide generation returned. */
  class Cache<N, C, V> {
    const ttl: nat
    var generation: nat
    var nodes: map<string, Timed<N>>
    var cameras: map<(int, string), Timed<C>>
    var viewable: map<(string, string), Timed<V>>

    function State(): Contents<N, C, V> reads this { Contents(generation, nodes, cameras, viewable) }

    constructor (ttl: nat)
      ensures this.ttl == ttl && State() == Contents(0, map[], map[], map[])
    {
      this.ttl := ttl;
      generation := 0;
      nodes, cameras, viewable := map[], map[], map[];
    }

    method Sync(loaded: nat)
      modifies this
      ensures State() == Synced(old(State()), loaded)
    {
      if generation != loaded {
        nodes := map[];
        cameras := map[];
        viewable := map[];
        generation := loaded;
      }
    }

    method CachedPushNode(loaded: nat, keyHash: string, now: int) returns (r: Option<N>)
      modifies this
      ensures State() == Synced(old(State()), loaded) && r == Fresh(nodes, keyHash, now, ttl)
    {
      Sync(loaded);
      r := Fresh(nodes, keyHash, now, ttl);
    }

    method CachePushNode(loaded: nat, seen: nat, keyHash: string, node: N, now: int)
      modifies this
      ensures var c := Synced(old(State()), loaded);
              State() == c.(nodes := Put(c.nodes, loaded, seen, ttl, keyHash, Timed(node, now)))
    {
      Sync(loaded);
      nodes := Put(nodes, generation, seen, ttl, keyHash, Timed(node, now));
    }

    method CachedPushCamera(loaded: nat, nodePk: int, cameraId: string, now: int) returns (r: Option<C>)
      modifies this
      ensures State() == Synced(old(State()), loaded) && r == Fresh(cameras, (nodePk, cameraId), now, ttl)
    {
      Sync(loaded);
      r := Fresh(cameras, (nodePk, cameraId), now, ttl);
    }

    method CachePushCamera(loaded: nat, seen: nat, nodePk: int, cameraId: string, camera: C, now: int)
      modifies this
      ensures var c := Synced(old(State()), loaded);
              State() == c.(cameras := Put(c.cameras, loaded, seen, ttl, (nodePk, cameraId), Timed(camera, now)))
    {
      Sync(loaded);
      cameras := Put(cameras, generation, seen, ttl, (nodePk, cameraId), Timed(camera, now));
    }

    method CachedViewable(loaded: nat, orgId: string, cameraId: string, now: int) returns (r: Option<V>)
      modifies this
      ensures State() == Synced(old(State()), loaded) && r == Fresh(viewable, (orgId, cameraId), now, ttl)
    {
      Sync(loaded);
      r := Fresh(viewable, (orgId, cameraId), now, ttl);
    }

    method CacheViewable(loaded: nat, seen: nat, orgId: string, cameraId: string, nodeId: V, now: int)
      modifies this
      ensures var c := Synced(old(State()), loaded);
              State() == c.(viewable := Put(c.viewable, loaded, seen, ttl, (orgId, cameraId), Timed(nodeId, now)))
    {
      Sync(loaded);
      viewable := Put(viewable, generation, seen, ttl, (orgId, cameraId), Timed(nodeId, now));
    }
  }
}

/**
 * The cache among concurrent readers, writers and lookups. Each step is one
 * atomic action: a commit, a bump of the generation, a load of it, a query, and
 * the part of a cache call before and after its own load, which the lock keeps
 * together but which a bump can still fall between.
 */
module AuthProtocol {
  import opened Wrappers
  import opened AuthCache

  datatype Question =
    | NodeOf(keyHash: string)
    | CameraOf(nodePk: int, cameraId: string)
    | ViewableBy(orgId: string, cameraId: string)

  /** An answer is whatever the database row holds; `version` records which
      committed state of the database gave it. No step reads it. */
  datatype Seen = Seen(answer: string, version: nat)

  type Database = map<Question, string>

  datatype Reader = Began(q: Question, seen: nat) | Queried(q: Question, seen: nat, got: Seen)

  datatype Lock = Free | Storing(reader: nat) | Looking(q: Question, loaded: nat)

  /** A finished lookup: the generation its sync loaded, when it looked, and what it returned. */
  datatype Lookup = Lookup(q: Question, loaded: nat, now: int, result: Option<Seen>)

  datatype State = State(
    history: seq<Database>,
    committing: map<nat, nat>,
    bumped: seq<nat>,
    readers: map<nat, Reader>,
    lock: Lock,
    cache: Contents<Seen, Seen, Seen>,
    lookups: seq<Lookup>)

  datatype Step =
    | Commit(writer: nat, db: Database)
    | Bump(writer: nat)
    | Begin(reader: nat, q: Question)
    | Query(reader: nat)
    | StoreSync(reader: nat)
    | StorePut(now: int)
    | LookSync(q: Question)
    | LookGet(now: int)

  function Generation(s: State): nat { |s.bumped| }

  function Initial(db: Database): State {
    State([db], map[], [], map[], Free, Contents(0, map[], map[], map[]), [])
  }

  function Store(c: Contents<Seen, Seen, Seen>, seen: nat, ttl: nat, q: Question, v: Timed<Seen>)
      : Contents<Seen, Seen, Seen>
  {
    match q
    case NodeOf(h) => c.(nodes := Put(c.nodes, c.generation, seen, ttl, h, v))
    case CameraOf(n, i) => c.(cameras := Put(c.cameras, c.generation, seen, ttl, (n, i), v))
    case ViewableBy(o, i) => c.(viewable := Put(c.viewable, c.generation, seen, ttl, (o, i), v))
  }

  function Get(c: Contents<Seen, Seen, Seen>, q: Question, now: int, ttl: nat): Option<Seen> {
    match q
    case NodeOf(h) => Fresh(c.nodes, h, now, ttl)
    case CameraOf(n, i) => Fresh(c.cameras, (n, i), now, ttl)
    case ViewableBy(o, i) => Fresh(c.viewable, (o, i), now, ttl)
  }

  /** The step, where it is enabled. */
  function Apply(s: State, step: Step, ttl: nat): Option<State>
    requires s.history != []
  {
    match step
    case Commit(w, db) =>
      if w in s.committing then None
      else Some(s.(history := s.history + [db], committing := s.committing[w := |s.history|]))
    case Bump(w) =>
      if w !in s.committing then None
      else Some(s.(bumped := s.bumped + [s.committing[w]], committing := s.committing - {w}))
    case Begin(r, q) =>
      if r in s.readers then None else Some(s.(readers := s.readers[r := Began(q, Generation(s))]))
    case Query(r) =>
      if r !in s.readers || !s.readers[r].Began? then None
      else
        var Began(q, seen) := s.readers[r];
        var now := |s.history| - 1;
        // A row that is not found is not stored, so the reader is done.
        if q !in s.history[now] then Some(s.(readers := s.readers - {r}))
        else Some(s.(readers := s.readers[r := Queried(q, seen, Seen(s.history[now][q], now))]))
    case StoreSync(r) =>
      if !s.lock.Free? || r !in s.readers || !s.readers[r].Queried? then None
      else Some(s.(lock := Storing(r), cache := Synced(s.cache, Generation(s))))
    case StorePut(at) =>
      if !s.lock.Storing? || s.lock.reader !in s.readers || !s.readers[s.lock.reader].Queried? then None
      else
        var Queried(q, seen, got) := s.readers[s.lock.reader];
        Some(s.(lock := Free, readers := s.readers - {s.lock.reader},
                cache := Store(s.cache, seen, ttl, q, Timed(got, at))))
    case LookSync(q) =>
      if !s.lock.Free? then None
      else Some(s.(lock := Looking(q, Generation(s)), cache := Synced(s.cache, Generation(s))))
    case LookGet(now) =>
      if !s.lock.Looking? then None
      else Some(s.(lock := Free,
                   lookups := s.lookups + [Lookup(s.lock.q, s.lock.loaded, now, Get(s.cache, s.lock.q, now, ttl))]))
  }

  /** A run: the states it goes through and the steps between them. */
  ghost predicate Runs(db: Database, ttl: nat, steps: seq<Step>, run: seq<State>) {
    && |run| == |steps| + 1 && run[0] == Initial(db)
    && forall i :: 0 <= i < |steps| ==> run[i].history != [] && Apply(run[i], steps[i], ttl) == Some(run[i + 1])
  }

  /** The answer was the database's at a state no older than any commit that was
      announced by one of the first `g` bumps. */
  ghost predicate Current(history: seq<Database>, bumped: seq<nat>, q: Question, a: Seen, g: nat) {
    && g <= |bumped|
    && a.version < |history| && q in history[a.version] && history[a.version][q] == a.answer
    && forall k :: 0 <= k < g ==> bumped[k] <= a.version
  }

  /** What the cache holds for a question, fresh or not. */
  function Slot(c: Contents<Seen, Seen, Seen>, q: Question): Option<Timed<Seen>> {
    match q
    case NodeOf(h) => if h in c.nodes then Some(c.nodes[h]) else None
    case CameraOf(n, i) => if (n, i) in c.cameras then Some(c.cameras[(n, i)]) else None
    case ViewableBy(o, i) => if (o, i) in c.viewable then Some(c.viewable[(o, i)]) else None
  }

  /** Every entry of the cache answers its question as of the cache's generation. */
  ghost predicate CacheOk(history: seq<Database>, bumped: seq<nat>, c: Contents<Seen, Seen, Seen>) {
    && c.generation <= |bumped|
    && |c.nodes| <= AUTH_CACHE_MAX_ENTRIES && |c.cameras| <= AUTH_CACHE_MAX_ENTRIES
    && |c.viewable| <= AUTH_CACHE_MAX_ENTRIES
    && forall q :: Slot(c, q).Some? ==> Current(history, bumped, q, Slot(c, q).value.value, c.generation)
  }

  ghost predicate ReaderOk(history: seq<Database>, bumped: seq<nat>, r: Reader) {
    match r
    case Began(q, seen) => seen <= |bumped|
    case Queried(q, seen, got) => Current(history, bumped, q, got, seen)
  }

  ghost predicate LookupOk(history: seq<Database>, bumped: seq<nat>, l: Lookup) {
    l.result.Some? ==> Current(history, bumped, l.q, l.result.value, l.loaded)
  }

  ghost predicate WritersOk(s: State) {
    && s.history != []
    && (forall w :: w in s.committing ==> s.committing[w] < |s.history|)
    && (forall k :: 0 <= k < |s.bumped| ==> s.bumped[k] < |s.history|)
  }

  ghost predicate Inv(s: State) {
    && WritersOk(s)
    && (forall r :: r in s.readers ==> ReaderOk(s.history, s.bumped, s.readers[r]))
    && CacheOk(s.history, s.bumped, s.cache)
    && (s.lock.Looking? ==> s.lock.loaded == s.cache.generation)
    && (s.lock.Storing? ==>
          var r := s.lock.reader; r in s.readers && s.readers[r].Queried? && s.readers[r].seen <= s.cache.generation)
    && (forall i :: 0 <= i < |s.lookups| ==> LookupOk(s.history, s.bumped, s.lookups[i]))
  }

  /** Growing the history or the bumps keeps what was current current. */
  lemma Grows(s: State, history: seq<Database>, bumped: seq<nat>)
    requires Inv(s) && s.history <= history && s.bumped <= bumped
    ensures CacheOk(history, bumped, s.cache)
    ensures forall r :: r in s.readers ==> ReaderOk(history, bumped, s.readers[r])
    ensures forall i :: 0 <= i < |s.lookups| ==> LookupOk(history, bumped, s.lookups[i])
  {
    hide Slot;
    forall q | Slot(s.cache, q).Some?
      ensures Current(history, bumped, q, Slot(s.cache, q).value.value, s.cache.generation)
    {
      assert Current(s.history, s.bumped, q, Slot(s.cache, q).value.value, s.cache.generation);
    }
    forall r | r in s.readers ensures ReaderOk(history, bumped, s.readers[r]) {
      assert ReaderOk(s.history, s.bumped, s.readers[r]);
    }
    forall i | 0 <= i < |s.lookups| ensures LookupOk(history, bumped, s.lookups[i]) {
      assert LookupOk(s.history, s.bumped, s.lookups[i]);
    }
  }

  lemma SyncedOk(s: State)
    requires Inv(s)
    ensures CacheOk(s.history, s.bumped, Synced(s.cache, Generation(s)))
  {
  }

  /** Two questions answered from the same map. */
  predicate SameMap(p: Question, q: Question) {
    (p.NodeOf? && q.NodeOf?) || (p.CameraOf? && q.CameraOf?) || (p.ViewableBy? && q.ViewableBy?)
  }

  function Entries(c: Contents<Seen, Seen, Seen>, q: Question): nat {
    match q case NodeOf(_) => |c.nodes| case CameraOf(_, _) => |c.cameras| case ViewableBy(_, _) => |c.viewable|
  }

  /** What a put leaves in every slot. */
  lemma StoreSlots(c: Contents<Seen, Seen, Seen>, seen: nat, ttl: nat, q: Question, v: Timed<Seen>, p: Question)
    ensures Slot(Store(c, seen, ttl, q, v), p) ==
            if seen != c.generation || ttl == 0 then Slot(c, p)
            else if p == q then Some(v)
            else if SameMap(p, q) && Entries(c, q) >= AUTH_CACHE_MAX_ENTRIES then None
            else Slot(c, p)
    ensures Store(c, seen, ttl, q, v).generation == c.generation
  {
  }

  /** A reader's answer goes in only under the generation it began in. */
  lemma StoredOk(s: State, q: Question, seen: nat, got: Seen, at: int, ttl: nat)
    requires Inv(s) && Current(s.history, s.bumped, q, got, seen)
    ensures CacheOk(s.history, s.bumped, Store(s.cache, seen, ttl, q, Timed(got, at)))
  {
    var c := Store(s.cache, seen, ttl, q, Timed(got, at));
    assert |c.nodes| <= AUTH_CACHE_MAX_ENTRIES && |c.cameras| <= AUTH_CACHE_MAX_ENTRIES
           && |c.viewable| <= AUTH_CACHE_MAX_ENTRIES;
    hide Slot, Store, Current;
    forall p: Question | Slot(c, p).Some?
      ensures Current(s.history, s.bumped, p, Slot(c, p).value.value, c.generation)
    {
      StoreSlots(s.cache, seen, ttl, q, Timed(got, at), p);
    }
    StoreSlots(s.cache, seen, ttl, q, Timed(got, at), q);
  }

  lemma GetFromSlot(c: Contents<Seen, Seen, Seen>, q: Question, now: int, ttl: nat)
    ensures Get(c, q, now, ttl) ==
            if Slot(c, q).Some? && now - Slot(c, q).value.at < ttl then Some(Slot(c, q).value.value) else None
  {
  }

  lemma WriterStep(s: State, step: Step, ttl: nat, s': State)
    requires Inv(s) && s.history != [] && Apply(s, step, ttl) == Some(s') && (step.Commit? || step.Bump?)
    ensures Inv(s')
  {
    hide CacheOk, ReaderOk, LookupOk, Current;
    Grows(s, s'.history, s'.bumped);
  }

  lemma ReaderStep(s: State, step: Step, ttl: nat, s': State)
    requires Inv(s) && s.history != [] && Apply(s, step, ttl) == Some(s') && (step.Begin? || step.Query?)
    ensures Inv(s')
  {
    hide CacheOk, LookupOk;
    if step.Query? { assert ReaderOk(s.history, s.bumped, s.readers[step.reader]); }
  }

  lemma StoreStep(s: State, step: Step, ttl: nat, s': State)
    requires Inv(s) && s.history != [] && Apply(s, step, ttl) == Some(s') && (step.StoreSync? || step.StorePut?)
    ensures Inv(s')
  {
    hide CacheOk, LookupOk, Synced, Store;
    SyncedOk(s);
    if step.StorePut? {
      var Queried(q, seen, got) := s.readers[s.lock.reader];
      assert ReaderOk(s.history, s.bumped, s.readers[s.lock.reader]);
      StoredOk(s, q, seen, got, step.now, ttl);
    }
  }

  lemma LookStep(s: State, step: Step, ttl: nat, s': State)
    requires Inv(s) && s.history != [] && Apply(s, step, ttl) == Some(s') && (step.LookSync? || step.LookGet?)
    ensures Inv(s')
  {
    hide ReaderOk, Get, Slot, Current;
    SyncedOk(s);
    if step.LookGet? {
      GetFromSlot(s.cache, s.lock.q, step.now, ttl);
    }
  }

  /** Every step keeps the invariant. */
  lemma StepKeepsInv(s: State, step: Step, ttl: nat, s': State)
    requires Inv(s) && s.history != [] && Apply(s, step, ttl) == Some(s')
    ensures Inv(s')
  {
    hide Apply, Inv;
    match step
    case Commit(_, _) => WriterStep(s, step, ttl, s');
    case Bump(_) => WriterStep(s, step, ttl, s');
    case Begin(_, _) => ReaderStep(s, step, ttl, s');
    case Query(_) => ReaderStep(s, step, ttl, s');
    case StoreSync(_) => StoreStep(s, step, ttl, s');
    case StorePut(_) => StoreStep(s, step, ttl, s');
    case LookSync(_) => LookStep(s, step, ttl, s');
    case LookGet(_) => LookStep(s, step, ttl, s');
  }

  lemma {:induction false} RunsKeepInv(db: Database, ttl: nat, steps: seq<Step>, run: seq<State>, n: nat)
    requires Runs(db, ttl, steps, run) && n < |run|
    ensures Inv(run[n])
  {
    if n > 0 {
      hide Apply;
      RunsKeepInv(db, ttl, steps, run, n - 1);
      StepKeepsInv(run[n - 1], steps[n - 1], ttl, run[n]);
    }
  }

  /** In every run: a lookup whose sync came after a writer's bump never returns
      an answer queried before that writer's commit, what it returns is what the
      database held at some state since, and no map outgrows its cap. */
  lemma NoStaleAnswer(db: Database, ttl: nat, steps: seq<Step>, run: seq<State>, n: nat, i: nat)
    requires Runs(db, ttl, steps, run) && n < |run|
    ensures var s := run[n];
            && |s.cache.nodes| <= AUTH_CACHE_MAX_ENTRIES && |s.cache.cameras| <= AUTH_CACHE_MAX_ENTRIES
            && |s.cache.viewable| <= AUTH_CACHE_MAX_ENTRIES
            && (i < |s.lookups| && s.lookups[i].result.Some? ==>
                  var Lookup(q, loaded, _, result) := s.lookups[i];
                  var Seen(answer, version) := result.value;
                  && loaded <= |s.bumped| && version < |s.history|
                  && q in s.history[version] && s.history[version][q] == answer
                  && forall k :: 0 <= k < loaded ==> s.bumped[k] <= version)
  {
    hide Runs;
    var s := run[n];
    RunsKeepInv(db, ttl, steps, run, n);
    if i < |s.lookups| { assert LookupOk(s.history, s.bumped, s.lookups[i]); }
  }

  // ----- When a lookup hits -----------------------------------------------------------------------------

  /** The step files `a`, obtained under generation `g`, as the answer to `q`, at time `at`. */
  predicate Files(s: State, step: Step, q: Question, a: Seen, g: nat, at: int) {
    && step == StorePut(at) && s.lock.Storing? && s.lock.reader in s.readers
    && s.readers[s.lock.reader] == Queried(q, g, a)
  }

  /** The step files an answer obtained under the cache's own generation that pushes out what is held
      for `q`: another answer to it, or one more for a map that is full. */
  predicate Displaces(s: State, step: Step, q: Question) {
    && step.StorePut? && s.lock.Storing? && s.lock.reader in s.readers
    && match s.readers[s.lock.reader] {
         case Began(_, _) => false
         case Queried(p, seen, _) =>
           && seen == s.cache.generation
           && (p == q || (SameMap(p, q) && Entries(s.cache, q) >= AUTH_CACHE_MAX_ENTRIES))
       }
  }

  /** Step `j` filed `v` for `q` under generation `g`, and nothing before step `n` pushed it out. */
  ghost predicate Stands(steps: seq<Step>, run: seq<State>, j: nat, n: nat, q: Question, v: Timed<Seen>, g: nat) {
    && j < n < |run| && n <= |steps| && Files(run[j], steps[j], q, v.value, g, v.at)
    && forall k {:trigger steps[k]} :: j < k < n ==> !Displaces(run[k], steps[k], q)
  }

  ghost predicate SomeStands(steps: seq<Step>, run: seq<State>, n: nat, q: Question, v: Timed<Seen>, g: nat) {
    exists j :: 0 <= j < n && Stands(steps, run, j, n, q, v, g)
  }

  /** The cache holds for each question exactly what stands under its generation. */
  ghost predicate Tells(ttl: nat, steps: seq<Step>, run: seq<State>, n: nat, q: Question, v: Timed<Seen>)
    requires n < |run|
  {
    Slot(run[n].cache, q) == Some(v) <==> ttl > 0 && SomeStands(steps, run, n, q, v, run[n].cache.generation)
  }

  lemma StandsOn(steps: seq<Step>, run: seq<State>, j: nat, n: nat, q: Question, v: Timed<Seen>, g: nat)
    requires n + 1 < |run| && n < |steps|
    ensures Stands(steps, run, j, n + 1, q, v, g) <==>
              || (Stands(steps, run, j, n, q, v, g) && !Displaces(run[n], steps[n], q))
              || (j == n && Files(run[n], steps[n], q, v.value, g, v.at))
  {
    hide Files, Displaces;
  }

  lemma SomeStandsOn(steps: seq<Step>, run: seq<State>, n: nat, q: Question, v: Timed<Seen>, g: nat)
    requires n + 1 < |run| && n < |steps|
    ensures SomeStands(steps, run, n + 1, q, v, g) <==>
              || (SomeStands(steps, run, n, q, v, g) && !Displaces(run[n], steps[n], q))
              || Files(run[n], steps[n], q, v.value, g, v.at)
  {
    hide Files, Displaces, Stands;
    StandsOn(steps, run, n, n, q, v, g);
    if SomeStands(steps, run, n + 1, q, v, g) {
      var j :| 0 <= j < n + 1 && Stands(steps, run, j, n + 1, q, v, g);
      StandsOn(steps, run, j, n, q, v, g);
      if Stands(steps, run, j, n, q, v, g) { StandsInside(steps, run, j, n, q, v, g); }
    }
    if SomeStands(steps, run, n, q, v, g) {
      var j :| 0 <= j < n && Stands(steps, run, j, n, q, v, g);
      StandsOn(steps, run, j, n, q, v, g);
    }
  }

  lemma StandsInside(steps: seq<Step>, run: seq<State>, j: nat, n: nat, q: Question, v: Timed<Seen>, g: nat)
    requires Stands(steps, run, j, n, q, v, g)
    ensures j < n
  {
  }

  lemma {:induction false} GenerationGrows(db: Database, ttl: nat, steps: seq<Step>, run: seq<State>, j: nat, n: nat)
    requires Runs(db, ttl, steps, run) && j <= n < |run|
    ensures run[j].cache.generation <= run[n].cache.generation
    decreases n
  {
    hide Apply, Inv;
    if j < n {
      GenerationGrows(db, ttl, steps, run, j, n - 1);
      RunsKeepInv(db, ttl, steps, run, n - 1);
      CacheMoves(run[n - 1], steps[n - 1], ttl, run[n]);
    }
  }

  lemma CacheMoves(s: State, step: Step, ttl: nat, s': State)
    requires Inv(s) && s.history != [] && Apply(s, step, ttl) == Some(s')
    ensures s.cache.generation <= s'.cache.generation
  {
    hide Put;
  }

  /** What was filed under a generation was filed by the time the cache had it. */
  lemma FiledBefore(db: Database, ttl: nat, steps: seq<Step>, run: seq<State>, j: nat, n: nat, q: Question,
                    v: Timed<Seen>, g: nat)
    requires Runs(db, ttl, steps, run) && n < |run| && Stands(steps, run, j, n, q, v, g)
    ensures g <= run[j].cache.generation <= run[n].cache.generation
  {
    hide Runs, Apply;
    GenerationGrows(db, ttl, steps, run, j, n);
    RunsKeepInv(db, ttl, steps, run, j);
  }

  /** One more step. */
  lemma StepTells(db: Database, ttl: nat, steps: seq<Step>, run: seq<State>, n: nat, q: Question, v: Timed<Seen>)
    requires Runs(db, ttl, steps, run) && n < |steps| && Tells(ttl, steps, run, n, q, v)
    ensures Tells(ttl, steps, run, n + 1, q, v)
  {
    hide SomeStands, Slot, Entries, Store, Apply, Inv;
    var s, s', step := run[n], run[n + 1], steps[n];
    var g := s'.cache.generation;
    SomeStandsOn(steps, run, n, q, v, g);
    RunsKeepInv(db, ttl, steps, run, n);
    if step.StorePut? {
      var p, seen, got := PutStep(s, step, ttl, s');
      StoreSlots(s.cache, seen, ttl, p, Timed(got, step.now), q);
      SameEntries(s.cache, p, q);
    } else {
      SyncSteps(s, step, ttl, s');
      if s'.cache != s.cache {
        ClearedTells(db, ttl, steps, run, n, q, v);
      }
    }
  }

  lemma PutStep(s: State, step: Step, ttl: nat, s': State) returns (q: Question, seen: nat, got: Seen)
    requires s.history != [] && Apply(s, step, ttl) == Some(s') && step.StorePut?
    ensures s.lock.Storing? && s.lock.reader in s.readers && s.readers[s.lock.reader] == Queried(q, seen, got)
    ensures s'.cache == Store(s.cache, seen, ttl, q, Timed(got, step.now))
  {
    hide Store;
    var r := s.readers[s.lock.reader];
    q, seen, got := r.q, r.seen, r.got;
  }

  /** Nothing was filed under a generation the cache only now takes up. */
  lemma ClearedTells(db: Database, ttl: nat, steps: seq<Step>, run: seq<State>, n: nat, q: Question, v: Timed<Seen>)
    requires Runs(db, ttl, steps, run) && n < |steps| && run[n].cache.generation < run[n + 1].cache.generation
    ensures !SomeStands(steps, run, n, q, v, run[n + 1].cache.generation)
    ensures run[n + 1].cache == Contents(run[n + 1].cache.generation, map[], map[], map[]) ==>
              Slot(run[n + 1].cache, q) == None
  {
    RunLength(db, ttl, steps, run);
    hide Stands, Runs;
    var g := run[n + 1].cache.generation;
    if SomeStands(steps, run, n, q, v, g) {
      var j :| 0 <= j < n && Stands(steps, run, j, n, q, v, g);
      FiledBefore(db, ttl, steps, run, j, n, q, v, g);
    }
  }

  lemma SameEntries(c: Contents<Seen, Seen, Seen>, p: Question, q: Question)
    ensures SameMap(p, q) ==> Entries(c, p) == Entries(c, q)
  {
  }

  lemma {:induction false} RunTells(db: Database, ttl: nat, steps: seq<Step>, run: seq<State>, n: nat, q: Question,
                                    v: Timed<Seen>)
    requires Runs(db, ttl, steps, run) && n < |run|
    ensures Tells(ttl, steps, run, n, q, v)
    decreases n
  {
    if n > 0 {
      hide Tells, Runs;
      RunLength(db, ttl, steps, run);
      RunTells(db, ttl, steps, run, n - 1, q, v);
      StepTells(db, ttl, steps, run, n - 1, q, v);
    }
  }

  lemma RunLength(db: Database, ttl: nat, steps: seq<Step>, run: seq<State>)
    requires Runs(db, ttl, steps, run)
    ensures |run| == |steps| + 1
  {
  }

  /** Only a put, or a sync under a new generation, touches the cache. */
  lemma SyncSteps(s: State, step: Step, ttl: nat, s': State)
    requires Inv(s) && s.history != [] && Apply(s, step, ttl) == Some(s') && !step.StorePut?
    ensures s'.cache == s.cache || (s.cache.generation < s'.cache.generation == Generation(s) &&
                                    s'.cache == Contents(s'.cache.generation, map[], map[], map[]))
  {
  }

  /** A lookup returns an answer exactly if one was filed under the generation its sync loaded, less
      than `ttl` ago, and no other put has pushed it out since. */
  lemma HitExactly(db: Database, ttl: nat, steps: seq<Step>, run: seq<State>, n: nat, a: Seen)
    requires Runs(db, ttl, steps, run) && n < |steps| && steps[n].LookGet?
    ensures run[n].lock.Looking? && |run[n + 1].lookups| == |run[n].lookups| + 1
    ensures var Lookup(q, loaded, now, result) := run[n + 1].lookups[|run[n].lookups|];
            && q == run[n].lock.q && loaded == run[n].lock.loaded && now == steps[n].now
            && (result == Some(a) <==>
                  ttl > 0 && exists j, at {:trigger Stands(steps, run, j, n, q, Timed(a, at), loaded)} ::
                    0 <= j < n && now - at < ttl && Stands(steps, run, j, n, q, Timed(a, at), loaded))
  {
    hide Stands, Slot, Get;
    RunsKeepInv(db, ttl, steps, run, n);
    var s, now := run[n], steps[n].now;
    assert Apply(s, steps[n], ttl) == Some(run[n + 1]);
    var q, g := s.lock.q, s.cache.generation;
    GetFromSlot(s.cache, q, now, ttl);
    hide Apply, Inv, Runs;
    if Slot(s.cache, q).Some? { RunTells(db, ttl, steps, run, n, q, Slot(s.cache, q).value); }
    forall j, at | 0 <= j < n && Stands(steps, run, j, n, q, Timed(a, at), g)
      ensures ttl > 0 ==> Slot(s.cache, q) == Some(Timed(a, at))
    {
      RunTells(db, ttl, steps, run, n, q, Timed(a, at));
    }
  }
}
