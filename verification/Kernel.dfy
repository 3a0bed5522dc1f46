/** The kernel as a keyed store that changes by events, and what replaying its notifications over a
    non-atomic dump yields. */
module Kernel {
  import opened Wire
  import opened SnapshotErrors
  import opened Records
  import opened Tables
  import opened Normalize

  /** Links, addresses, routes and neighbours by identity. */
  type Store = map<Key, Entity>

  /** The kernel change a notification announces. Rules are not keyed and live outside the store. */
  function Apply(s: Store, m: Message): Store {
    match m
    case NewLink(Ok(r)) => s[KeyOfLink(r) := WrapLink(r)]
    case DelLink(index) => s - {LinkKey(index)}
    case NewAddress(Ok(r)) => s[KeyOfAddress(r) := WrapAddress(r)]
    case DelAddress(Ok(r)) => s - {KeyOfAddress(r)}
    case NewRoute(Ok(r)) => s[KeyOfRoute(r) := WrapRoute(r)]
    case DelRoute(Ok(r)) => s - {KeyOfRoute(r)}
    case NewNeighbor(Ok(r)) => s[KeyOfNeighbor(r) := WrapNeighbor(r)]
    case DelNeighbor(Ok(r)) => s - {KeyOfNeighbor(r)}
    case _ => s
  }

  function Replay(s: Store, ms: seq<Message>): Store {
    if ms == [] then s else Apply(Replay(s, ms[..|ms| - 1]), ms[|ms| - 1])
  }

  function Lookup(s: Store, k: Key): Option<Entity> {
    if k in s then Some(s[k]) else None
  }

  /** The identity an event is about, if any. */
  function Subject(m: Message): Option<Key> {
    match m
    case NewLink(Ok(r)) => Some(KeyOfLink(r))
    case DelLink(index) => Some(LinkKey(index))
    case NewAddress(Ok(r)) => Some(KeyOfAddress(r))
    case DelAddress(Ok(r)) => Some(KeyOfAddress(r))
    case NewRoute(Ok(r)) => Some(KeyOfRoute(r))
    case DelRoute(Ok(r)) => Some(KeyOfRoute(r))
    case NewNeighbor(Ok(r)) => Some(KeyOfNeighbor(r))
    case DelNeighbor(Ok(r)) => Some(KeyOfNeighbor(r))
    case _ => None
  }

  lemma ApplyOther(s: Store, m: Message, k: Key)
    requires Subject(m) != Some(k)
    ensures Lookup(Apply(s, m), k) == Lookup(s, k)
  {
  }

  lemma ApplySubject(s: Store, t: Store, m: Message, k: Key)
    requires Subject(m) == Some(k)
    ensures Lookup(Apply(s, m), k) == Lookup(Apply(t, m), k)
  {
  }

  predicate Touched(ms: seq<Message>, k: Key) {
    exists i :: 0 <= i < |ms| && Subject(ms[i]) == Some(k)
  }

  lemma {:induction false} ReplayAppend(s: Store, a: seq<Message>, b: seq<Message>)
    ensures Replay(s, a + b) == Replay(Replay(s, a), b)
    decreases |b|
  {
    if b == [] {
      assert a + b == a;
    } else {
      assert (a + b)[..|a + b| - 1] == a + b[..|b| - 1];
      ReplayAppend(s, a, b[..|b| - 1]);
    }
  }

  /** What a key holds after a replay: the starting value if untouched, else the same over any start. */
  lemma {:induction false} ReplayPointwise(s: Store, t: Store, ms: seq<Message>, k: Key)
    ensures !Touched(ms, k) ==> Lookup(Replay(s, ms), k) == Lookup(s, k)
    ensures Touched(ms, k) ==> Lookup(Replay(s, ms), k) == Lookup(Replay(t, ms), k)
  {
    if ms == [] { return; }
    var init, last := ms[..|ms| - 1], ms[|ms| - 1];
    ReplayPointwise(s, t, init, k);
    if Subject(last) == Some(k) {
      ApplySubject(Replay(s, init), Replay(t, init), last, k);
    } else {
      ApplyOther(Replay(s, init), last, k);
      ApplyOther(Replay(t, init), last, k);
      if Touched(ms, k) {
        var i :| 0 <= i < |ms| && Subject(ms[i]) == Some(k);
        assert init[i] == ms[i];
      }
      if Touched(init, k) {
        var i :| 0 <= i < |init| && Subject(init[i]) == Some(k);
        assert ms[i] == init[i];
      }
    }
  }

  lemma UntouchedPrefix(ms: seq<Message>, n: nat, k: Key)
    requires n <= |ms| && !Touched(ms, k)
    ensures !Touched(ms[..n], k)
  {
    forall i | 0 <= i < n ensures Subject(ms[..n][i]) != Some(k) {
      assert ms[..n][i] == ms[i];
    }
  }

  lemma ReplayTwo(s: Store, a: Message, b: Message)
    ensures Replay(s, [a]) == Apply(s, a)
    ensures Replay(s, [a, b]) == Apply(Apply(s, a), b)
  {
    assert [a][..0] == [] && [a, b][..1] == [a];
  }

  /** The store after the first `i` events of a history. */
  function At(start: Store, history: seq<Message>, i: nat): Store
    requires i <= |history|
  {
    Replay(start, history[..i])
  }

  lemma AtStep(start: Store, history: seq<Message>, lo: nat, hi: nat)
    requires lo <= hi <= |history|
    ensures At(start, history, hi) == Replay(At(start, history, lo), history[lo..hi])
  {
    assert history[..hi] == history[..lo] + history[lo..hi];
    ReplayAppend(start, history[..lo], history[lo..hi]);
  }

  /** `seen` shows `k` as it was at some instant between `lo` and `hi`. */
  ghost predicate SeenBetween(seen: Store, start: Store, history: seq<Message>, lo: nat, hi: nat, k: Key)
    requires lo <= hi <= |history|
  {
    exists t: nat :: lo <= t <= hi && Lookup(seen, k) == Lookup(At(start, history, t), k)
  }

  /** Replaying every event since `lo` over a view that shows each identity at its own instant after
      `lo` gives exactly the store at `hi`, whatever those instants were. */
  lemma ReplayCoherence(seen: Store, start: Store, history: seq<Message>, lo: nat, hi: nat)
    requires lo <= hi <= |history|
    requires forall k :: SeenBetween(seen, start, history, lo, hi, k)
    ensures Replay(seen, history[lo..hi]) == At(start, history, hi)
  {
    var events := history[lo..hi];
    AtStep(start, history, lo, hi);
    var now, from := Replay(seen, events), At(start, history, lo);
    forall k ensures Lookup(now, k) == Lookup(At(start, history, hi), k) {
      ReplayPointwise(seen, from, events, k);
      ReplayPointwise(from, from, events, k);
      if !Touched(events, k) {
        assert SeenBetween(seen, start, history, lo, hi, k);
        var t: nat :| lo <= t <= hi && Lookup(seen, k) == Lookup(At(start, history, t), k);
        AtStep(start, history, lo, t);
        assert history[lo..t] == events[..t - lo];
        UntouchedPrefix(events, t - lo, k);
        ReplayPointwise(from, from, history[lo..t], k);
      }
    }
    SameLookups(now, At(start, history, hi));
  }

  lemma SameLookups(s: Store, t: Store)
    requires forall k :: Lookup(s, k) == Lookup(t, k)
    ensures s == t
  {
    forall k ensures k in s <==> k in t {
      assert Lookup(s, k) == Lookup(t, k);
    }
    forall k | k in s ensures s[k] == t[k] {
      assert Lookup(s, k) == Lookup(t, k);
    }
  }

  /** A gap is fatal: if the event that last changed a link is missing from the replay, a stale
      notification still in the queue overwrites the newer value the dump has seen. */
  lemma LostEventBreaksReplay()
    ensures exists seen: Store, start: Store, history: seq<Message>, received: seq<Message> ::
              && |history| == 2 && received == history[..1]
              && seen == At(start, history, 2)
              && Replay(seen, received) != At(start, history, 2)
  {
    var older := Interface(7, None, None, None, [], [1]);
    var newer := Interface(7, None, None, None, [], [2]);
    var history := [NewLink(Ok(older)), NewLink(Ok(newer))];
    var start: Store := map[];
    ReplayTwo(start, history[0], history[1]);
    assert history[..2] == history && history[..1] == [NewLink(Ok(older))];
    var seen := At(start, history, 2);
    ReplayTwo(seen, history[0], history[1]);
    assert Lookup(seen, LinkKey(7)) == Some(LinkEntity(newer));
    assert Lookup(Replay(seen, history[..1]), LinkKey(7)) == Some(LinkEntity(older));
  }

  // ---------------------------------------------------------------------------------------
  // The tables and the store.

  /** The keyed store a set of tables stands for. */
  function View(p: Parts): Store {
    Links(p) + Addressing(p) + Routing(p) + Neighborhood(p)
  }

  ghost predicate KeysDistinct(p: Parts) {
    && Distinct(p.interfaces, KeyOfLink)
    && Distinct(p.addresses, KeyOfAddress)
    && Distinct(p.routes, KeyOfRoute)
    && Distinct(p.neighbors, KeyOfNeighbor)
  }

  lemma KeyKinds(p: Parts)
    ensures forall k :: k in Index(p.interfaces, KeyOfLink, WrapLink) ==> k.LinkKey?
    ensures forall k :: k in Index(p.addresses, KeyOfAddress, WrapAddress) ==> k.AddressKey?
    ensures forall k :: k in Index(p.routes, KeyOfRoute, WrapRoute) ==> k.RouteKey?
    ensures forall k :: k in Index(p.neighbors, KeyOfNeighbor, WrapNeighbor) ==> k.NeighborKey?
  {
    forall k | k in Index(p.interfaces, KeyOfLink, WrapLink) ensures k.LinkKey? {
      var i := IndexKeys(p.interfaces, KeyOfLink, WrapLink, k);
    }
    forall k | k in Index(p.addresses, KeyOfAddress, WrapAddress) ensures k.AddressKey? {
      var i := IndexKeys(p.addresses, KeyOfAddress, WrapAddress, k);
    }
    forall k | k in Index(p.routes, KeyOfRoute, WrapRoute) ensures k.RouteKey? {
      var i := IndexKeys(p.routes, KeyOfRoute, WrapRoute, k);
    }
    forall k | k in Index(p.neighbors, KeyOfNeighbor, WrapNeighbor) ensures k.NeighborKey? {
      var i := IndexKeys(p.neighbors, KeyOfNeighbor, WrapNeighbor, k);
    }
  }

  function Links(p: Parts): Store { Index(p.interfaces, KeyOfLink, WrapLink) }
  function Addressing(p: Parts): Store { Index(p.addresses, KeyOfAddress, WrapAddress) }
  function Routing(p: Parts): Store { Index(p.routes, KeyOfRoute, WrapRoute) }
  function Neighborhood(p: Parts): Store { Index(p.neighbors, KeyOfNeighbor, WrapNeighbor) }

  /** Changing one of four disjoint maps by one key changes their union by that key. */
  lemma UnionUpdate(before: Store, s: Store, t: Store, after: Store, k: Key, e: Option<Entity>)
    requires Changed(s, t, k, e) && k !in before && k !in after
    ensures Changed(before + s + after, before + t + after, k, e)
  {
  }

  lemma UnionAssociative(a: Store, b: Store, c: Store)
    ensures (a + b) + c == a + (b + c)
  {
  }

  /** Changing one table by one key changes the view by that key. */
  lemma ViewUpdate(p: Parts, q: Parts, k: Key, e: Option<Entity>)
    requires match k
             case LinkKey(_) => q == p.(interfaces := q.interfaces) && Changed(Links(p), Links(q), k, e)
             case AddressKey(_, _, _, _, _) => q == p.(addresses := q.addresses)
                 && Changed(Addressing(p), Addressing(q), k, e)
             case RouteKey(_, _, _, _, _, _, _, _, _) => q == p.(routes := q.routes)
                 && Changed(Routing(p), Routing(q), k, e)
             case NeighborKey(_, _, _) =>
                 q == p.(neighbors := q.neighbors)
                 && Changed(Neighborhood(p), Neighborhood(q), k, e)
    ensures Changed(View(p), View(q), k, e)
  {
    hide Index, Changed;
    KeyKinds(p);
    var l, a, r, n := Links(p), Addressing(p), Routing(p), Neighborhood(p);
    match k
    case LinkKey(_) =>
      UnionUpdate(map[], l, Links(q), a + r + n, k, e);
      assert map[] + l == l && map[] + Links(q) == Links(q);
      Regroup(l, a, r, n);
      Regroup(Links(q), a, r, n);
    case AddressKey(_, _, _, _, _) =>
      UnionUpdate(l, a, Addressing(q), r + n, k, e);
      Regroup(l, a, r, n);
      Regroup(l, Addressing(q), r, n);
    case RouteKey(_, _, _, _, _, _, _, _, _) =>
      UnionUpdate(l + a, r, Routing(q), n, k, e);
    case NeighborKey(_, _, _) =>
      UnionUpdate(l + a + r, n, Neighborhood(q), map[], k, e);
      assert forall s: Store :: s + map[] == s;
  }

  lemma Regroup(a: Store, b: Store, c: Store, d: Store)
    ensures a + b + c + d == a + (b + c + d) == a + b + (c + d)
  {
    UnionAssociative(a, b, c);
    UnionAssociative(a, b + c, d);
    UnionAssociative(a + b, c, d);
  }

  ghost predicate Changed(s: Store, t: Store, k: Key, e: Option<Entity>) {
    t == if e.Some? then s[k := e.value] else s - {k}
  }

  lemma ReplaceStep<T>(s: seq<T>, key: T -> Key, wrap: T -> Entity, x: T, maximum: nat, resource: SnapshotResource)
    requires Distinct(s, key) && Replace(s, key, x, maximum, resource).Ok?
    ensures var t := Replace(s, key, x, maximum, resource).value;
            Distinct(t, key) && Changed(Index(s, key, wrap), Index(t, key, wrap), key(x), Some(wrap(x)))
  {
    ReplaceDistinct(s, key, x);
    ReplaceIndex(s, key, wrap, x);
  }

  lemma RetainStep<T>(s: seq<T>, key: T -> Key, wrap: T -> Entity, k: Key)
    requires Distinct(s, key)
    ensures Distinct(Retain(s, key, k), key)
    ensures Changed(Index(s, key, wrap), Index(Retain(s, key, k), key, wrap), k, None)
  {
    RetainDistinct(s, key, k);
    RetainIndex(s, key, wrap, k);
  }

  /** A notification the tables accept changes their view exactly as the event changed the kernel. */
  lemma ChangeView(p: Parts, m: Message)
    requires KeysDistinct(p) && Change(p, m).Ok?
    ensures KeysDistinct(Change(p, m).value) && View(Change(p, m).value) == Apply(View(p), m)
  {
    hide Index, Retain, Replace, CopyUnknown, Distinct;
    var q := Change(p, m).value;
    match m
    case NewLink(Ok(r)) =>
      ReplaceStep(p.interfaces, KeyOfLink, WrapLink, r, MAX_INTERFACES, Interfaces);
      ViewUpdate(p, q, KeyOfLink(r), Some(WrapLink(r)));
    case DelLink(index) =>
      RetainStep(p.interfaces, KeyOfLink, WrapLink, LinkKey(index));
      ViewUpdate(p, q, LinkKey(index), None);
    case NewAddress(Ok(r)) =>
      ReplaceStep(p.addresses, KeyOfAddress, WrapAddress, r, MAX_ADDRESSES, Addresses);
      ViewUpdate(p, q, KeyOfAddress(r), Some(WrapAddress(r)));
    case DelAddress(Ok(r)) =>
      RetainStep(p.addresses, KeyOfAddress, WrapAddress, KeyOfAddress(r));
      ViewUpdate(p, q, KeyOfAddress(r), None);
    case NewRoute(Ok(r)) =>
      ReplaceStep(p.routes, KeyOfRoute, WrapRoute, r, MAX_ROUTES, Routes);
      ViewUpdate(p, q, KeyOfRoute(r), Some(WrapRoute(r)));
    case DelRoute(Ok(r)) =>
      RetainStep(p.routes, KeyOfRoute, WrapRoute, KeyOfRoute(r));
      ViewUpdate(p, q, KeyOfRoute(r), None);
    case NewNeighbor(Ok(r)) =>
      ReplaceStep(p.neighbors, KeyOfNeighbor, WrapNeighbor, r, MAX_NEIGHBORS, Neighbors);
      ViewUpdate(p, q, KeyOfNeighbor(r), Some(WrapNeighbor(r)));
    case DelNeighbor(Ok(r)) =>
      RetainStep(p.neighbors, KeyOfNeighbor, WrapNeighbor, KeyOfNeighbor(r));
      ViewUpdate(p, q, KeyOfNeighbor(r), None);
    case _ =>
  }

  lemma {:induction false} ApplyAllView(p: Parts, ms: seq<Message>)
    requires KeysDistinct(p) && ApplyAll(p, ms).Ok?
    ensures KeysDistinct(ApplyAll(p, ms).value) && View(ApplyAll(p, ms).value) == Replay(View(p), ms)
    decreases |ms|
  {
    hide Index, Change, KeysDistinct, View, Total;
    if ms == [] { return; }
    var changed := Change(p, ms[0]).value;
    var q := ApplyOne(p, ms[0]).value;
    ChangeView(p, ms[0]);
    SameTables(changed, q);
    ApplyAllView(q, ms[1..]);
    assert ms == [ms[0]] + ms[1..];
    ReplayTwo(View(p), ms[0], ms[0]);
    ReplayAppend(View(p), [ms[0]], ms[1..]);
  }

  lemma SameTables(p: Parts, q: Parts)
    requires q == p.(unknownBytes := q.unknownBytes)
    ensures View(p) == View(q) && KeysDistinct(p) == KeysDistinct(q)
  {
  }

  // ---------------------------------------------------------------------------------------
  // Dumps.

  /** The eight dump requests of one snapshot attempt. */
  datatype DumpRequest =
    | LinkDump
    | AddressDump
    | RouteDump(family: Family)
    | RuleDump(family: Family)
    | NeighborDump(family: Family)

  const SNAPSHOT_DUMPS: seq<DumpRequest> := [
    LinkDump, AddressDump,
    RouteDump(Inet), RuleDump(Inet), NeighborDump(Inet),
    RouteDump(Inet6), RuleDump(Inet6), NeighborDump(Inet6)
  ]

  /** The identities a dump reports on. */
  predicate Covers(r: DumpRequest, k: Key) {
    match r
    case LinkDump => k.LinkKey?
    case AddressDump => k.AddressKey?
    case RouteDump(family) => k.RouteKey? && k.family == family
    case RuleDump(_) => false
    case NeighborDump(family) => k.NeighborKey? && k.family == family
  }

  predicate CoveredBy(rs: seq<DumpRequest>, k: Key) {
    exists i :: 0 <= i < |rs| && Covers(rs[i], k)
  }

  lemma DumpsCoverAll(k: Key)
    ensures CoveredBy(SNAPSHOT_DUMPS, k)
  {
    match k
    case LinkKey(_) => assert Covers(SNAPSHOT_DUMPS[0], k);
    case AddressKey(_, _, _, _, _) => assert Covers(SNAPSHOT_DUMPS[1], k);
    case RouteKey(family, _, _, _, _, _, _, _, _) => assert Covers(SNAPSHOT_DUMPS[if family.Inet? then 2 else 5], k);
    case NeighborKey(family, _, _) => assert Covers(SNAPSHOT_DUMPS[if family.Inet? then 4 else 7], k);
  }

  /** No identity is covered by two of the eight dumps. */
  lemma DumpsDisjoint(i: nat, j: nat, k: Key)
    requires i < j < |SNAPSHOT_DUMPS| && Covers(SNAPSHOT_DUMPS[j], k)
    ensures !Covers(SNAPSHOT_DUMPS[i], k)
  {
  }

  /** `ms` is a dump for `r`: it reports each identity at most once and only identities it covers, and
      shows every covered identity, present or absent, at some instant between `lo` and `hi`. */
  ghost predicate IsDump(ms: seq<Message>, r: DumpRequest, start: Store, history: seq<Message>, lo: nat, hi: nat)
    requires lo <= hi <= |history|
  {
    && (forall i :: 0 <= i < |ms| && Subject(ms[i]).Some? ==> Covers(r, Subject(ms[i]).value))
    && SubjectsDistinct(ms)
    && (forall k :: Covers(r, k) ==> SeenBetween(Replay(map[], ms), start, history, lo, hi, k))
  }

  ghost predicate SubjectsDistinct(ms: seq<Message>) {
    forall i, j :: 0 <= i < j < |ms| && Subject(ms[i]).Some? ==> Subject(ms[i]) != Subject(ms[j])
  }

  lemma PushStep<T>(s: seq<T>, key: T -> Key, wrap: T -> Entity, x: T)
    requires Distinct(s, key) && key(x) !in Index(s, key, wrap)
    ensures Distinct(s + [x], key)
    ensures Changed(Index(s, key, wrap), Index(s + [x], key, wrap), key(x), Some(wrap(x)))
  {
    forall i | 0 <= i < |s| ensures key(s[i]) != key(x) {
      IndexMembers(s, key, wrap, i);
    }
    PushIndex(s, key, wrap, x);
  }

  lemma PushView(p: Parts, m: Message)
    requires KeysDistinct(p) && PushMessage(p, m).Ok?
    requires Subject(m).Some? ==> Subject(m).value !in View(p)
    ensures KeysDistinct(PushMessage(p, m).value) && View(PushMessage(p, m).value) == Apply(View(p), m)
  {
    hide Index, CopyUnknown, Distinct;
    var q := PushMessage(p, m).value;
    SameTables(q, q.(unknownBytes := p.unknownBytes));
    match m
    case NewLink(Ok(r)) =>
      PushStep(p.interfaces, KeyOfLink, WrapLink, r);
      ViewUpdate(p, q, KeyOfLink(r), Some(WrapLink(r)));
    case NewAddress(Ok(r)) =>
      PushStep(p.addresses, KeyOfAddress, WrapAddress, r);
      ViewUpdate(p, q, KeyOfAddress(r), Some(WrapAddress(r)));
    case NewRoute(Ok(r)) =>
      PushStep(p.routes, KeyOfRoute, WrapRoute, r);
      ViewUpdate(p, q.(unknownBytes := p.unknownBytes), KeyOfRoute(r), Some(WrapRoute(r)));
    case NewNeighbor(Ok(r)) =>
      PushStep(p.neighbors, KeyOfNeighbor, WrapNeighbor, r);
      ViewUpdate(p, q.(unknownBytes := p.unknownBytes), KeyOfNeighbor(r), Some(WrapNeighbor(r)));
    case _ =>
  }

  /** Pushing a dump of identities not yet in the tables replays it over their view. */
  lemma {:induction false} PushAllView(p: Parts, ms: seq<Message>)
    requires KeysDistinct(p) && PushAll(p, ms).Ok? && SubjectsDistinct(ms)
    requires forall i :: 0 <= i < |ms| && Subject(ms[i]).Some? ==> Subject(ms[i]).value !in View(p)
    ensures KeysDistinct(PushAll(p, ms).value) && View(PushAll(p, ms).value) == Replay(View(p), ms)
    decreases |ms|
  {
    hide Index, PushMessage, KeysDistinct, View, Apply;
    if ms == [] { return; }
    var q := PushMessage(p, ms[0]).value;
    PushView(p, ms[0]);
    forall i | 0 <= i < |ms[1..]| && Subject(ms[1..][i]).Some?
      ensures Subject(ms[1..][i]).value !in View(q)
    {
      assert Subject(ms[i + 1]) != Subject(ms[0]);
      ApplyOther(View(p), ms[0], Subject(ms[i + 1]).value);
    }
    PushAllView(q, ms[1..]);
    assert ms == [ms[0]] + ms[1..];
    ReplayTwo(View(p), ms[0], ms[0]);
    ReplayAppend(View(p), [ms[0]], ms[1..]);
  }

  /** Every identity of the first dumps is shown at some instant of the window; the others are absent. */
  ghost predicate PartialView(v: Store, rs: seq<DumpRequest>, start: Store, history: seq<Message>, lo: nat, hi: nat)
    requires lo <= hi <= |history|
  {
    forall k :: if CoveredBy(rs, k) then SeenBetween(v, start, history, lo, hi, k) else Lookup(v, k).None?
  }

  /** One more dump extends the partial view to the identities it covers. */
  lemma DumpExtends(p: Parts, n: nat, ms: seq<Message>, start: Store, history: seq<Message>, lo: nat, from: nat,
      hi: nat)
    requires lo <= from <= hi <= |history| && n < |SNAPSHOT_DUMPS|
    requires KeysDistinct(p) && PushAll(p, ms).Ok?
    requires PartialView(View(p), SNAPSHOT_DUMPS[..n], start, history, lo, hi)
    requires IsDump(ms, SNAPSHOT_DUMPS[n], start, history, from, hi)
    ensures KeysDistinct(PushAll(p, ms).value)
    ensures PartialView(View(PushAll(p, ms).value), SNAPSHOT_DUMPS[..n + 1], start, history, lo, hi)
  {
    hide Index, PushAll, KeysDistinct, View, Apply, Replay, Subject;
    var r, done := SNAPSHOT_DUMPS[n], SNAPSHOT_DUMPS[..n];
    forall k | Covers(r, k) ensures !CoveredBy(done, k) && k !in View(p) {
      forall i | 0 <= i < n ensures !Covers(done[i], k) { DumpsDisjoint(i, n, k); }
    }
    PushAllView(p, ms);
    var v := View(PushAll(p, ms).value);
    forall k
      ensures if CoveredBy(SNAPSHOT_DUMPS[..n + 1], k) then SeenBetween(v, start, history, lo, hi, k)
          else Lookup(v, k).None?
    {
      ReplayPointwise(View(p), map[], ms, k);
      ReplayPointwise(map[], map[], ms, k);
      CoveredNext(n, k);
      if Covers(r, k) {
        assert Lookup(v, k) == Lookup(Replay(map[], ms), k);
        SeenWider(v, Replay(map[], ms), start, history, lo, from, hi, k);
      } else {
        assert !Touched(ms, k);
        if CoveredBy(done, k) { SeenWider(v, View(p), start, history, lo, lo, hi, k); }
      }
    }
  }

  lemma CoveredNext(n: nat, k: Key)
    requires n < |SNAPSHOT_DUMPS|
    ensures CoveredBy(SNAPSHOT_DUMPS[..n + 1], k) <==> CoveredBy(SNAPSHOT_DUMPS[..n], k) || Covers(SNAPSHOT_DUMPS[n], k)
  {
    assert SNAPSHOT_DUMPS[..n + 1] == SNAPSHOT_DUMPS[..n] + [SNAPSHOT_DUMPS[n]];
    if CoveredBy(SNAPSHOT_DUMPS[..n], k) {
      var i :| 0 <= i < n && Covers(SNAPSHOT_DUMPS[..n][i], k);
      assert Covers(SNAPSHOT_DUMPS[..n + 1][i], k);
    }
    if Covers(SNAPSHOT_DUMPS[n], k) {
      assert Covers(SNAPSHOT_DUMPS[..n + 1][n], k);
    }
  }

  lemma SeenWider(v: Store, w: Store, start: Store, history: seq<Message>, lo: nat, from: nat, hi: nat, k: Key)
    requires lo <= from <= hi <= |history| && Lookup(v, k) == Lookup(w, k)
    requires SeenBetween(w, start, history, from, hi, k)
    ensures SeenBetween(v, start, history, lo, hi, k)
  {
    var t: nat :| from <= t <= hi && Lookup(w, k) == Lookup(At(start, history, t), k);
  }

  lemma PartialLater(v: Store, rs: seq<DumpRequest>, start: Store, history: seq<Message>, lo: nat, hi: nat, later: nat)
    requires lo <= hi <= later <= |history| && PartialView(v, rs, start, history, lo, hi)
    ensures PartialView(v, rs, start, history, lo, later)
  {
    forall k | CoveredBy(rs, k) ensures SeenBetween(v, start, history, lo, later, k) {
      var t: nat :| lo <= t <= hi && Lookup(v, k) == Lookup(At(start, history, t), k);
    }
  }

  /** Dump-plus-replay coherence: eight dumps taken identity by identity at any instants after the clear,
      then the in-order events since the clear, leave exactly the kernel's store at the drain. */
  lemma SnapshotCoherence(p: Parts, start: Store, history: seq<Message>, lo: nat, hi: nat)
    requires lo <= hi <= |history| && KeysDistinct(p)
    requires PartialView(View(p), SNAPSHOT_DUMPS, start, history, lo, hi)
    requires ApplyAll(p, history[lo..hi]).Ok?
    ensures KeysDistinct(ApplyAll(p, history[lo..hi]).value)
    ensures View(ApplyAll(p, history[lo..hi]).value) == At(start, history, hi)
  {
    hide Index, ApplyAll, KeysDistinct, View, Apply, Replay;
    forall k ensures SeenBetween(View(p), start, history, lo, hi, k) {
      DumpsCoverAll(k);
    }
    ApplyAllView(p, history[lo..hi]);
    ReplayCoherence(View(p), start, history, lo, hi);
  }

  // ---------------------------------------------------------------------------------------
  // Closing the tables.

  /** The fields that name an interface: a link names its controller, and the link below it unless that lies in
      another namespace or is the link itself; a route names its input, its output and every next hop. */
  predicate Names(e: Entity, i: U32) {
    match e
    case LinkEntity(r) => r.controller == Some(i) || (r.link == Some(i) && r.linkNetns.None? && r.index != i)
    case AddressEntity(r) => r.interfaceIndex == i
    case RouteEntity(r) => r.input == Some(i) || r.output == Some(i) || exists n :: 0 <= n < |r.hops| && r.hops[n] == i
    case NeighborEntity(r) => r.interfaceIndex == i
  }

  lemma NamesLink(r: Interface, i: U32)
    ensures i in RefsOfLink(r) <==> Names(WrapLink(r), i)
  {
  }

  lemma NamesRoute(r: Route, i: U32)
    ensures i in RefsOfRoute(r) <==> Names(WrapRoute(r), i)
  {
  }

  lemma NamesOne(i: U32)
    ensures forall r: Address :: i in RefsOfAddress(r) <==> Names(WrapAddress(r), i)
    ensures forall r: Neighbor :: i in RefsOfNeighbor(r) <==> Names(WrapNeighbor(r), i)
  {
  }

  /** Some entity of the store refers to interface `i`. */
  ghost predicate Refers(s: Store, i: U32) {
    exists k :: k in s && Names(s[k], i)
  }

  /** Every interface an entity of the store refers to is in the store. */
  ghost predicate Closed(s: Store) {
    forall i :: Refers(s, i) ==> LinkKey(i) in s
  }

  ghost predicate TablesOrdered(p: Parts) {
    && Ordered(p.interfaces, FlatLink)
    && Ordered(p.addresses, FlatAddress)
    && Ordered(p.routes, FlatRoute)
    && Ordered(p.rules, FlatRule)
    && Ordered(p.neighbors, FlatNeighbor)
  }

  lemma {:induction false} ConcatMember<T>(s: seq<T>, f: T -> seq<U32>, x: T, i: U32)
    requires x in s && i in f(x)
    ensures i in Concat(s, f)
  {
    if x != s[0] {
      assert s == [s[0]] + s[1..];
      ConcatMember(s[1..], f, x, i);
    }
  }

  lemma {:induction false} ConcatSource<T>(s: seq<T>, f: T -> seq<U32>, i: U32) returns (n: nat)
    requires i in Concat(s, f)
    ensures n < |s| && i in f(s[n])
  {
    if i in f(s[0]) { return 0; }
    var m := ConcatSource(s[1..], f, i);
    n := m + 1;
  }

  /** The references of a table are those of the entities it stands for. */
  lemma TableRefs<T>(s: seq<T>, key: T -> Key, wrap: T -> Entity, refs: T -> seq<U32>, i: U32)
    requires Distinct(s, key) && forall j :: 0 <= j < |s| ==> (i in refs(s[j]) <==> Names(wrap(s[j]), i))
    ensures i in Concat(s, refs) <==> Refers(Index(s, key, wrap), i)
  {
    var m := Index(s, key, wrap);
    if i in Concat(s, refs) {
      var n := ConcatSource(s, refs, i);
      IndexMembers(s, key, wrap, n);
      assert key(s[n]) in m && Names(m[key(s[n])], i);
    }
    forall k | k in m && Names(m[k], i) ensures i in Concat(s, refs) {
      var n := IndexKeys(s, key, wrap, k);
      IndexMembers(s, key, wrap, n);
      ConcatMember(s, refs, s[n], i);
    }
  }

  lemma IndicesExact(p: Parts, i: U32)
    ensures i in Indices(p) <==> LinkKey(i) in View(p)
  {
    KeyKinds(p);
    if i in Indices(p) {
      var r :| r in p.interfaces && r.index == i;
      var n :| 0 <= n < |p.interfaces| && p.interfaces[n] == r;
      IndexMembers(p.interfaces, KeyOfLink, WrapLink, n);
    }
    if LinkKey(i) in Links(p) {
      var n := IndexKeys(p.interfaces, KeyOfLink, WrapLink, LinkKey(i));
      assert p.interfaces[n] in p.interfaces;
    }
  }

  /** Membership of a union of four maps with keys of different kinds. */
  lemma ViewMember(p: Parts, k: Key)
    ensures match k
            case LinkKey(_) => Lookup(View(p), k) == Lookup(Links(p), k)
            case AddressKey(_, _, _, _, _) => Lookup(View(p), k) == Lookup(Addressing(p), k)
            case RouteKey(_, _, _, _, _, _, _, _, _) => Lookup(View(p), k) == Lookup(Routing(p), k)
            case NeighborKey(_, _, _) => Lookup(View(p), k) == Lookup(Neighborhood(p), k)
  {
    hide Index;
    KeyKinds(p);
  }

  lemma RefersInView(p: Parts, i: U32)
    ensures Refers(View(p), i) <==>
            Refers(Links(p), i) || Refers(Addressing(p), i) || Refers(Routing(p), i) || Refers(Neighborhood(p), i)
  {
    hide Index, Names;
    KeyKinds(p);
    if Refers(View(p), i) {
      var k :| k in View(p) && Names(View(p)[k], i);
      ViewMember(p, k);
    }
    if Refers(Links(p), i) {
      var k :| k in Links(p) && Names(Links(p)[k], i);
      ViewMember(p, k);
    } else if Refers(Addressing(p), i) {
      var k :| k in Addressing(p) && Names(Addressing(p)[k], i);
      ViewMember(p, k);
    } else if Refers(Routing(p), i) {
      var k :| k in Routing(p) && Names(Routing(p)[k], i);
      ViewMember(p, k);
    } else if Refers(Neighborhood(p), i) {
      var k :| k in Neighborhood(p) && Names(Neighborhood(p)[k], i);
      ViewMember(p, k);
    }
  }

  lemma ReferencesExact(p: Parts, i: U32)
    requires KeysDistinct(p)
    ensures i in References(p) <==> Refers(View(p), i)
  {
    hide Index, Concat, Refers, View, Distinct, RefsOfLink, RefsOfRoute, Names;
    forall r: Interface ensures i in RefsOfLink(r) <==> Names(WrapLink(r), i) { NamesLink(r, i); }
    forall r: Route ensures i in RefsOfRoute(r) <==> Names(WrapRoute(r), i) { NamesRoute(r, i); }
    NamesOne(i);
    TableRefs(p.interfaces, KeyOfLink, WrapLink, RefsOfLink, i);
    TableRefs(p.addresses, KeyOfAddress, WrapAddress, RefsOfAddress, i);
    TableRefs(p.routes, KeyOfRoute, WrapRoute, RefsOfRoute, i);
    TableRefs(p.neighbors, KeyOfNeighbor, WrapNeighbor, RefsOfNeighbor, i);
    RefersInView(p, i);
  }

  /** Sorting leaves the view alone and orders the tables. */
  lemma SortedView(p: Parts)
    requires KeysDistinct(p)
    ensures KeysDistinct(Sorted(p)) && TablesOrdered(Sorted(p)) && View(Sorted(p)) == View(p)
  {
    SortIndex(p.interfaces, FlatLink, KeyOfLink, WrapLink);
    SortIndex(p.addresses, FlatAddress, KeyOfAddress, WrapAddress);
    SortIndex(p.routes, FlatRoute, KeyOfRoute, WrapRoute);
    SortOrdered(p.rules, FlatRule);
    SortIndex(p.neighbors, FlatNeighbor, KeyOfNeighbor, WrapNeighbor);
  }

  /** `finish` succeeds exactly on referentially closed stores, and then only sorts. */
  lemma FinishExact(p: Parts)
    requires KeysDistinct(p)
    ensures Finish(p).Ok? <==> Closed(View(p))
    ensures Finish(p).Ok? ==>
              var q := Finish(p).value;
              KeysDistinct(q) && TablesOrdered(q) && View(q) == View(p)
  {
    hide View, KeysDistinct, TablesOrdered, References, Indices, FirstDangling, Sorted;
    var q := Sorted(p);
    SortedView(p);
    DanglingExact(References(q), Indices(q));
    forall i: U32 ensures i in References(q) <==> Refers(View(q), i) {
      ReferencesExact(q, i);
    }
    forall i: U32 ensures i in Indices(q) <==> LinkKey(i) in View(q) {
      IndicesExact(q, i);
    }
  }

  /** Some record of the tables names interface `i`, field by field. */
  ghost predicate Mentions(p: Parts, i: U32) {
    || (exists n :: 0 <= n < |p.interfaces| && p.interfaces[n].controller == Some(i))
    || (exists n :: 0 <= n < |p.interfaces| && p.interfaces[n].link == Some(i)
                    && p.interfaces[n].linkNetns.None? && p.interfaces[n].index != i)
    || (exists n :: 0 <= n < |p.addresses| && p.addresses[n].interfaceIndex == i)
    || (exists n :: 0 <= n < |p.routes| && (p.routes[n].input == Some(i) || p.routes[n].output == Some(i)))
    || (exists n, h :: 0 <= n < |p.routes| && 0 <= h < |p.routes[n].hops| && p.routes[n].hops[h] == i)
    || (exists n :: 0 <= n < |p.neighbors| && p.neighbors[n].interfaceIndex == i)
  }

  ghost predicate Present(p: Parts, i: U32) { exists n :: 0 <= n < |p.interfaces| && p.interfaces[n].index == i }

  lemma MentionsConcat(p: Parts, i: U32)
    ensures Mentions(p, i) <==> i in References(p)
  {
    hide RefsOfLink, RefsOfRoute, Concat;
    if i in Concat(p.interfaces, RefsOfLink) {
      var n := ConcatSource(p.interfaces, RefsOfLink, i);
      NamesLink(p.interfaces[n], i);
    } else if i in Concat(p.addresses, RefsOfAddress) {
      var n := ConcatSource(p.addresses, RefsOfAddress, i);
    } else if i in Concat(p.routes, RefsOfRoute) {
      var n := ConcatSource(p.routes, RefsOfRoute, i);
      NamesRoute(p.routes[n], i);
    } else if i in Concat(p.neighbors, RefsOfNeighbor) {
      var n := ConcatSource(p.neighbors, RefsOfNeighbor, i);
    }
    forall n | 0 <= n < |p.interfaces| && Names(WrapLink(p.interfaces[n]), i) ensures i in References(p) {
      NamesLink(p.interfaces[n], i);
      ConcatMember(p.interfaces, RefsOfLink, p.interfaces[n], i);
    }
    forall n | 0 <= n < |p.addresses| && p.addresses[n].interfaceIndex == i ensures i in References(p) {
      ConcatMember(p.addresses, RefsOfAddress, p.addresses[n], i);
    }
    forall n | 0 <= n < |p.routes| && Names(WrapRoute(p.routes[n]), i) ensures i in References(p) {
      NamesRoute(p.routes[n], i);
      ConcatMember(p.routes, RefsOfRoute, p.routes[n], i);
    }
    forall n | 0 <= n < |p.neighbors| && p.neighbors[n].interfaceIndex == i ensures i in References(p) {
      ConcatMember(p.neighbors, RefsOfNeighbor, p.neighbors[n], i);
    }
  }

  lemma {:induction false} ConcatSame<T(!new)>(s: seq<T>, t: seq<T>, f: T -> seq<U32>, i: U32)
    requires forall x :: x in s <==> x in t
    ensures i in Concat(s, f) <==> i in Concat(t, f)
  {
    if i in Concat(s, f) {
      var n := ConcatSource(s, f, i);
      assert s[n] in t;
      ConcatMember(t, f, s[n], i);
    }
    if i in Concat(t, f) {
      var n := ConcatSource(t, f, i);
      assert t[n] in s;
      ConcatMember(s, f, t[n], i);
    }
  }

  lemma SortedReferences(p: Parts, i: U32)
    ensures i in References(Sorted(p)) <==> i in References(p)
    ensures i in Indices(Sorted(p)) <==> i in Indices(p)
  {
    hide Sort, Concat, RefsOfLink, RefsOfRoute;
    SortMembers(p.interfaces, FlatLink);
    SortMembers(p.addresses, FlatAddress);
    SortMembers(p.routes, FlatRoute);
    SortMembers(p.neighbors, FlatNeighbor);
    ConcatSame(Sorted(p).interfaces, p.interfaces, RefsOfLink, i);
    ConcatSame(Sorted(p).addresses, p.addresses, RefsOfAddress, i);
    ConcatSame(Sorted(p).routes, p.routes, RefsOfRoute, i);
    ConcatSame(Sorted(p).neighbors, p.neighbors, RefsOfNeighbor, i);
  }

  lemma PresentExact(p: Parts, i: U32)
    ensures Present(p, i) <==> i in Indices(p)
  {
    if Present(p, i) {
      var n :| 0 <= n < |p.interfaces| && p.interfaces[n].index == i;
      assert p.interfaces[n] in p.interfaces;
    }
    if i in Indices(p) {
      var r :| r in p.interfaces && r.index == i;
      var n :| 0 <= n < |p.interfaces| && p.interfaces[n] == r;
      assert p.interfaces[n].index == i;
    }
  }

  /** `finish` on the records, whatever the tables hold: it succeeds exactly when every interface a field names is
      there, and otherwise reports one that is named and missing. */
  lemma FinishRecords(p: Parts)
    ensures Finish(p).Ok? <==> forall i: U32 :: Mentions(p, i) ==> Present(p, i)
    ensures Finish(p).Err? ==>
              exists i: U32 :: Finish(p) == Err(MakeIncomplete(DisappearingInterface(i)))
                               && Mentions(p, i) && !Present(p, i)
  {
    hide Mentions, Present, References, Indices, Sorted, FirstDangling;
    var q := Sorted(p);
    DanglingExact(References(q), Indices(q));
    forall i: U32
      ensures i in References(q) <==> Mentions(p, i)
      ensures i in Indices(q) <==> Present(p, i)
    {
      SortedReferences(p, i);
      MentionsConcat(p, i);
      PresentExact(p, i);
    }
  }

  // ---------------------------------------------------------------------------------------
  // A finished snapshot depends on the store alone.

  lemma OptionInjective(a: Option<int>, b: Option<int>)
    requires FlatOption(a) == FlatOption(b)
    ensures a == b
  {
    assert FlatOption(a)[0] == FlatOption(b)[0] && FlatOption(a)[1] == FlatOption(b)[1];
  }

  lemma TailInjective(a: seq<int>, b: seq<int>, c: seq<int>, d: seq<int>, h: seq<int>, g: seq<int>)
    requires |h| == |g| && |a| == |c| && h + a + b == g + c + d
    ensures h == g && a == c && b == d
  {
    var s, t := h + a + b, g + c + d;
    assert s[..|h|] == h && t[..|g|] == g;
    assert s[|h|..|h| + |a|] == a && t[|g|..|g| + |c|] == c;
    assert s[|h| + |a|..] == b && t[|g| + |c|..] == d;
  }

  lemma FlatLinkInjective(x: Interface, y: Interface)
    requires FlatLink(x) == FlatLink(y)
    ensures x == y
  {
    var a := [x.index] + FlatOption(x.controller) + FlatOption(x.link) + FlatOption(x.linkNetns) + [|x.unknown|];
    var b := [y.index] + FlatOption(y.controller) + FlatOption(y.link) + FlatOption(y.linkNetns) + [|y.unknown|];
    assert FlatLink(x) == a + x.unknown + x.detail && FlatLink(y) == b + y.unknown + y.detail;
    assert a[..8] == FlatLink(x)[..8] == FlatLink(y)[..8] == b[..8];
    assert a[0] == b[0] && a[7] == b[7] && a[1..3] == b[1..3] && a[3..5] == b[3..5] && a[5..7] == b[5..7];
    assert FlatOption(x.controller) == a[1..3] && FlatOption(y.controller) == b[1..3];
    assert FlatOption(x.link) == a[3..5] && FlatOption(y.link) == b[3..5];
    assert FlatOption(x.linkNetns) == a[5..7] && FlatOption(y.linkNetns) == b[5..7];
    OptionInjective(x.controller, y.controller);
    OptionInjective(x.link, y.link);
    OptionInjective(x.linkNetns, y.linkNetns);
    TailInjective(x.unknown, x.detail, y.unknown, y.detail, a, b);
  }

  lemma FlatAddressInjective(x: Address, y: Address)
    requires FlatAddress(x) == FlatAddress(y)
    ensures x == y
  {
    var a := [x.interfaceIndex, FlatFamily(x.family), x.prefixLength, x.scope, x.flags, x.address, x.local,
        |x.unknown|];
    var b := [y.interfaceIndex, FlatFamily(y.family), y.prefixLength, y.scope, y.flags, y.address, y.local,
        |y.unknown|];
    assert a == FlatAddress(x)[..8] == FlatAddress(y)[..8] == b;
    assert a[7] == b[7];
    TailInjective(x.unknown, x.detail, y.unknown, y.detail, a, b);
  }

  lemma FlatNeighborInjective(x: Neighbor, y: Neighbor)
    requires FlatNeighbor(x) == FlatNeighbor(y)
    ensures x == y
  {
    var a := [FlatFamily(x.family), x.interfaceIndex, x.destination, |x.unknown|];
    var b := [FlatFamily(y.family), y.interfaceIndex, y.destination, |y.unknown|];
    assert a == FlatNeighbor(x)[..4] == FlatNeighbor(y)[..4] == b;
    assert a[3] == b[3];
    TailInjective(x.unknown, x.detail, y.unknown, y.detail, a, b);
  }

  lemma FlatRouteInjective(x: Route, y: Route)
    requires FlatRoute(x) == FlatRoute(y)
    ensures x == y
  {
    var a, b := RouteHead(x), RouteHead(y);
    assert FlatRoute(x) == a + x.hops + (x.unknown + x.detail) && FlatRoute(y) == b + y.hops + (y.unknown + y.detail);
    assert a == FlatRoute(x)[..17] == FlatRoute(y)[..17] == b;
    assert a[15] == b[15] && a[16] == b[16];
    RouteHeadInjective(x, y);
    TailInjective(x.hops, x.unknown + x.detail, y.hops, y.unknown + y.detail, a, b);
    assert [] + x.unknown + x.detail == x.unknown + x.detail && [] + y.unknown + y.detail == y.unknown + y.detail;
    TailInjective(x.unknown, x.detail, y.unknown, y.detail, [], []);
  }

  function RouteScalars(r: Route): (s: seq<int>)
    ensures |s| == 9
  {
    [FlatFamily(r.family), r.destinationPrefixLength, r.sourcePrefixLength, r.destination, r.source, r.table,
     r.routeType, r.scope, r.protocol]
  }

  function RouteHead(r: Route): (s: seq<int>)
    ensures |s| == 17
  {
    RouteScalars(r) + FlatOption(r.priority) + FlatOption(r.input) + FlatOption(r.output) + [|r.hops|, |r.unknown|]
  }

  lemma RouteHeadInjective(x: Route, y: Route)
    requires RouteHead(x) == RouteHead(y)
    ensures y == x.(hops := y.hops, unknown := y.unknown, detail := y.detail)
  {
    var a, b := RouteHead(x), RouteHead(y);
    assert RouteScalars(x) == a[..9] && RouteScalars(y) == b[..9];
    assert FlatOption(x.priority) == a[9..11] && FlatOption(y.priority) == b[9..11];
    assert FlatOption(x.input) == a[11..13] && FlatOption(y.input) == b[11..13];
    assert FlatOption(x.output) == a[13..15] && FlatOption(y.output) == b[13..15];
    OptionInjective(x.priority, y.priority);
    OptionInjective(x.input, y.input);
    OptionInjective(x.output, y.output);
    var s, t := RouteScalars(x), RouteScalars(y);
    assert s[0] == t[0] && s[1] == t[1] && s[2] == t[2] && s[3] == t[3] && s[4] == t[4];
    assert s[5] == t[5] && s[6] == t[6] && s[7] == t[7] && s[8] == t[8];
  }

  lemma ComponentsOf(p: Parts, q: Parts)
    requires View(p) == View(q)
    ensures Links(p) == Links(q) && Addressing(p) == Addressing(q)
    ensures Routing(p) == Routing(q) && Neighborhood(p) == Neighborhood(q)
  {
    hide Index, View;
    forall k
      ensures Lookup(Links(p), k) == Lookup(Links(q), k) && Lookup(Addressing(p), k) == Lookup(Addressing(q), k)
      ensures Lookup(Routing(p), k) == Lookup(Routing(q), k) && Lookup(Neighborhood(p), k) == Lookup(Neighborhood(q), k)
    {
      KeyKinds(p);
      KeyKinds(q);
      ViewMember(p, k);
      ViewMember(q, k);
    }
    SameLookups(Links(p), Links(q));
    SameLookups(Addressing(p), Addressing(q));
    SameLookups(Routing(p), Routing(q));
    SameLookups(Neighborhood(p), Neighborhood(q));
  }

  /** Two finished sets of tables that stand for the same store are equal table by table: the published
      snapshot does not depend on dump order, replay order or retries. */
  lemma FinishedDeterministic(p: Parts, q: Parts)
    requires KeysDistinct(p) && KeysDistinct(q) && TablesOrdered(p) && TablesOrdered(q) && View(p) == View(q)
    ensures p.interfaces == q.interfaces && p.addresses == q.addresses
    ensures p.routes == q.routes && p.neighbors == q.neighbors
  {
    hide Index, View, Distinct, Ordered, FlatLink, FlatAddress, FlatRoute, FlatNeighbor;
    ComponentsOf(p, q);
    forall x, y | FlatLink(x) == FlatLink(y) ensures x == y { FlatLinkInjective(x, y); }
    forall x, y | FlatAddress(x) == FlatAddress(y) ensures x == y { FlatAddressInjective(x, y); }
    forall x, y | FlatRoute(x) == FlatRoute(y) ensures x == y { FlatRouteInjective(x, y); }
    forall x, y | FlatNeighbor(x) == FlatNeighbor(y) ensures x == y { FlatNeighborInjective(x, y); }
    SortedUnique(p.interfaces, q.interfaces, FlatLink, KeyOfLink, WrapLink);
    SortedUnique(p.addresses, q.addresses, FlatAddress, KeyOfAddress, WrapAddress);
    SortedUnique(p.routes, q.routes, FlatRoute, KeyOfRoute, WrapRoute);
    SortedUnique(p.neighbors, q.neighbors, FlatNeighbor, KeyOfNeighbor, WrapNeighbor);
  }
}
