/**
 Time-limited leases on actions.

 An acquire is one atomic step on the lease rows.  A release reads its row first and deletes
 by key later, and a scrub lists, compares with the clock and then deletes row by row, so
 other calls may come in between; times never decrease from step to step.
 */
module Leases {
  import KeyValue

  const SCOPE := "leases"
  const DEFAULT_TTL := 600_000_000_000 // ten minutes in nanoseconds

  datatype Lease = Lease(holder: string, grantedAt: int, expiresAt: int)

  type Rows = map<string, Lease>

  datatype Acquired = Granted(lease: Lease) | Held | Invalid

  datatype Released = Ok | NotHolder | NoAction

  predicate Live(rows: Rows, key: string, now: int) {
    key in rows && now < rows[key].expiresAt
  }

  function Effective(ttl: int): int {
    if ttl <= 0 then DEFAULT_TTL else ttl
  }

  /** Whether another holder is in the way. */
  predicate Blocked(rows: Rows, key: string, holder: string, now: int) {
    Live(rows, key, now) && rows[key].holder != holder
  }

  function Grant(holder: string, ttl: int, now: int): Lease {
    Lease(holder, now, now + Effective(ttl))
  }

  predicate MayRelease(rows: Rows, key: string, holder: string) {
    key in rows ==> rows[key].holder == "" || holder == "" || rows[key].holder == holder
  }

  /** The listing prefix of one project's leases. */
  function ScrubPrefix(project: string): string {
    var p := KeyValue.Key(SCOPE, project, "");
    if p[|p| - 1] == ':' then p else p + ":"
  }

  function Scrubbed(rows: Rows, listed: set<string>, now: int): Rows {
    map k | k in rows && !(k in listed && now > rows[k].expiresAt) :: rows[k]
  }

  lemma ScrubOneMore(rows: Rows, done: set<string>, k: string, now: int)
    requires k in rows && k !in done
    ensures var before, after := Scrubbed(rows, done, now), Scrubbed(rows, done + {k}, now);
      && k in before && before[k] == rows[k]
      && after == (if now > rows[k].expiresAt then before - {k} else before)
      && |after| == |before| - if now > rows[k].expiresAt then 1 else 0
  {
    var before, after := Scrubbed(rows, done, now), Scrubbed(rows, done + {k}, now);
    if now > rows[k].expiresAt {
      assert after == before - {k};
      assert before.Keys == after.Keys + {k};
    } else {
      assert after == before;
    }
  }

  class Store {
    var rows: Rows
    const collation: KeyValue.Collation

    constructor (collation: KeyValue.Collation)
      ensures rows == map[] && this.collation == collation
    {
      rows := map[];
      this.collation := collation;
    }

    method AcquireLease(project: string, actionId: string, holder: string, ttl: int, now: int) returns (r: Acquired)
      modifies this
      ensures var key := KeyValue.Key(SCOPE, project, actionId);
        var lease := Lease(holder, now, now + if ttl <= 0 then 600_000_000_000 else ttl);
        if actionId == "" || holder == "" then r == Invalid && rows == old(rows)
        else if key in old(rows) && now < old(rows)[key].expiresAt && old(rows)[key].holder != holder
        then r == Held && rows == old(rows)
        else r == Granted(lease) && rows == old(rows)[key := lease]
    {
      if actionId == "" || holder == "" {
        return Invalid;
      }
      var ttl' := ttl;
      if ttl' <= 0 {
        ttl' := DEFAULT_TTL;
      }
      var key := KeyValue.Key(SCOPE, project, actionId);
      if key in rows {
        var prev := rows[key];
        if now < prev.expiresAt && prev.holder != holder {
          return Held;
        }
      }
      var lease := Lease(holder, now, now + ttl');
      rows := rows[key := lease];
      r := Granted(lease);
    }

    method ReleaseLease(project: string, actionId: string, holder: string) returns (r: Released)
      modifies this
      ensures var key := KeyValue.Key(SCOPE, project, actionId);
        if actionId == "" then r == NoAction && rows == old(rows)
        else if key !in old(rows) then r == Ok && rows == old(rows)
        else if holder == "" || old(rows)[key].holder == "" || old(rows)[key].holder == holder
        then r == Ok && rows == old(rows) - {key}
        else r == NotHolder && rows == old(rows)
    {
      if actionId == "" {
        return NoAction;
      }
      var key := KeyValue.Key(SCOPE, project, actionId);
      if key !in rows {
        return Ok;
      }
      var existing := rows[key];
      if existing.holder != "" && holder != "" && existing.holder != holder {
        return NotHolder;
      }
      rows := rows - {key};
      r := Ok;
    }

    /** The listing may contain rows of other projects; only expired rows go. */
    method ScrubLeases(project: string, now: int) returns (n: nat, ghost listed: set<string>)
      requires KeyValue.IsCollation(collation)
      modifies this
      ensures rows == Scrubbed(old(rows), listed, now)
      ensures forall k :: k in rows <==> k in old(rows) && (k !in listed || now <= old(rows)[k].expiresAt)
      ensures forall k :: k in rows ==> rows[k] == old(rows)[k]
      ensures n == |old(rows)| - |rows|
      ensures listed <= KeyValue.Selected(old(rows), ScrubPrefix(project))
      ensures |KeyValue.Selected(old(rows), ScrubPrefix(project))| <= KeyValue.LIST_CAP ==>
                listed == KeyValue.Selected(old(rows), ScrubPrefix(project))
    {
      var prefix := KeyValue.Key(SCOPE, project, "");
      if prefix[|prefix| - 1] != ':' {
        prefix := prefix + ":";
      }
      assert prefix == ScrubPrefix(project);
      var pairs := KeyValue.ListByPrefix(rows, prefix, collation);
      listed := pairs.Keys;
      if |KeyValue.Selected(rows, prefix)| <= KeyValue.LIST_CAP {
        KeyValue.ShortListingIsAll(rows, prefix, collation, pairs);
      }
      n := DeleteExpiredOf(pairs, now);
    }

    method DeleteExpiredOf(pairs: Rows, now: int) returns (n: nat)
      requires forall k :: k in pairs ==> k in rows && pairs[k] == rows[k]
      modifies this
      ensures rows == Scrubbed(old(rows), pairs.Keys, now) && n == |old(rows)| - |rows|
    {
      var todo := pairs.Keys;
      n := 0;
      ghost var before := rows;
      assert Scrubbed(before, {}, now) == before;
      while todo != {}
        invariant todo <= pairs.Keys
        invariant rows == Scrubbed(before, pairs.Keys - todo, now)
        invariant n == |before| - |rows|
        decreases |todo|
      {
        var k :| k in todo;
        ScrubOneMore(before, pairs.Keys - todo, k, now);
        assert pairs.Keys - (todo - {k}) == (pairs.Keys - todo) + {k};
        assert pairs[k] == before[k];
        if now > pairs[k].expiresAt {
          rows := rows - {k};
          n := n + 1;
        }
        todo := todo - {k};
      }
      assert pairs.Keys - {} == pairs.Keys;
    }
  }

  lemma LeasePrefix(project: string, actionId: string)
    requires project != "" && project[|project| - 1] != ':' && actionId != ""
    ensures ScrubPrefix(project) == "leases:" + project + ":"
    ensures KeyValue.Key(SCOPE, project, actionId) == "leases:" + project + ":" + actionId
  {
    var p := KeyValue.Key(SCOPE, project, "");
    assert p == "leases:" + project;
    assert p[|p| - 1] == project[|project| - 1];
  }

  lemma LeasePrefixIsLiteral(project: string)
    requires KeyValue.Literal(project)
    ensures KeyValue.Literal("leases:" + project + ":")
  {
    var prefix := "leases:" + project + ":";
    forall i | 0 <= i < |prefix| ensures !KeyValue.IsSpecial(prefix[i]) {
      assert 7 <= i < 7 + |project| ==> prefix[i] == project[i - 7];
      assert i < 7 ==> prefix[i] == "leases:"[i];
    }
  }

  /** A project whose name is free of special characters: a scrub that lists all its rows removes its
      leases that expired before `now`, and no row whose key does not begin with its prefix. */
  lemma ScrubRemovesOwnExpired(rows: Rows, project: string, actionId: string, now: int)
    requires project != "" && project[|project| - 1] != ':' && actionId != "" && KeyValue.Literal(project)
    ensures var left := Scrubbed(rows, KeyValue.Selected(rows, ScrubPrefix(project)), now);
      && (forall k :: k in left <==>
            k in rows && (now <= rows[k].expiresAt || !KeyValue.IsPrefix("leases:" + project + ":", k)))
      && KeyValue.IsPrefix("leases:" + project + ":", KeyValue.Key(SCOPE, project, actionId))
  {
    var prefix := "leases:" + project + ":";
    LeasePrefix(project, actionId);
    LeasePrefixIsLiteral(project);
    assert (prefix + actionId)[..|prefix|] == prefix;
    forall k ensures KeyValue.Like(prefix + "%", k) <==> KeyValue.IsPrefix(prefix, k) {
      KeyValue.LiteralLike(prefix, k);
    }
  }

  // ---------------------------------------------------------------------------
  // Interleavings
  // ---------------------------------------------------------------------------

  /** A release between its read and its delete: whether the read found a row it may delete,
      and whether an acquire of the key was granted since. */
  datatype Release = Release(key: string, entitled: bool, overtaken: bool)

  /** A scrub between its listing and its deletes: the rows it listed, later the keys it decided
      to delete, and the keys granted since the listing. */
  datatype Scrub =
    | Listed(snapshot: Rows, overtaken: set<string>)
    | Doomed(keys: set<string>, overtaken: set<string>)

  /** Calls under way are numbered. */
  datatype State = State(rows: Rows, releases: map<nat, Release>, scrubs: map<nat, Scrub>)

  datatype Event =
    | Acquire(key: string, holder: string, ttl: int, now: int)
    | ReadRelease(op: nat, key: string, holder: string, now: int)
    | DeleteReleased(op: nat, now: int)
    | ListLeases(op: nat, listed: set<string>, now: int)
    | CheckListed(op: nat, now: int)
    | DeleteExpired(op: nat, key: string, now: int)

  predicate IsScrub(e: Event) {
    e.ListLeases? || e.CheckListed? || e.DeleteExpired?
  }

  /** The acquire names a holder and nobody else is in the way. */
  predicate Grants(rows: Rows, e: Event) {
    e.Acquire? && e.holder != "" && !Blocked(rows, e.key, e.holder, e.now)
  }

  function Overtake(r: Release, key: string): Release {
    if r.key == key then r.(overtaken := true) else r
  }

  function AfterGrant(s: State, e: Event): State
    requires e.Acquire?
  {
    State(s.rows[e.key := Grant(e.holder, e.ttl, e.now)],
          map op | op in s.releases :: Overtake(s.releases[op], e.key),
          map op | op in s.scrubs :: s.scrubs[op].(overtaken := s.scrubs[op].overtaken + {e.key}))
  }

  function Expired(snapshot: Rows, now: int): set<string> {
    set k | k in snapshot && now > snapshot[k].expiresAt
  }

  /** The delete is one that the scrub decided on. */
  predicate Deletes(s: State, op: nat, key: string) {
    op in s.scrubs && s.scrubs[op].Doomed? && key in s.scrubs[op].keys
  }

  function Next(s: State, e: Event): State {
    match e
    case Acquire(key, holder, ttl, now) => if Grants(s.rows, e) then AfterGrant(s, e) else s
    case ReadRelease(op, key, holder, _) =>
      s.(releases := s.releases[op := Release(key, key in s.rows && MayRelease(s.rows, key, holder), false)])
    case DeleteReleased(op, _) =>
      if op !in s.releases then s
      else
        s.(rows := if s.releases[op].entitled then s.rows - {s.releases[op].key} else s.rows,
           releases := s.releases - {op})
    case ListLeases(op, listed, _) =>
      s.(scrubs := s.scrubs[op := Listed(map k | k in s.rows && k in listed :: s.rows[k], {})])
    case CheckListed(op, now) =>
      if op in s.scrubs && s.scrubs[op].Listed?
      then s.(scrubs := s.scrubs[op := Doomed(Expired(s.scrubs[op].snapshot, now), s.scrubs[op].overtaken)])
      else s
    case DeleteExpired(op, key, _) =>
      if Deletes(s, op, key)
      then s.(rows := s.rows - {key}, scrubs := s.scrubs[op := s.scrubs[op].(keys := s.scrubs[op].keys - {key})])
      else s
  }

  function After(s: State, run: seq<Event>): State
    decreases |run|
  {
    if run == [] then s else After(Next(s, run[0]), run[1..])
  }

  lemma {:induction false} AfterAppends(s: State, a: seq<Event>, b: seq<Event>)
    ensures After(s, a + b) == After(After(s, a), b)
    decreases |a|
  {
    if a == [] {
      assert a + b == b;
    } else {
      assert (a + b)[1..] == a[1..] + b;
      AfterAppends(Next(s, a[0]), a[1..], b);
    }
  }

  /** Times from `now` on never decrease. */
  predicate Monotone(now: int, run: seq<Event>)
    decreases |run|
  {
    run == [] || (now <= run[0].now && Monotone(run[0].now, run[1..]))
  }

  lemma AfterOne(s: State, e: Event)
    ensures After(s, [e]) == Next(s, e)
  {
    assert [e][1..] == [];
  }

  lemma AfterTwo(s: State, e: Event, f: Event)
    ensures After(s, [e, f]) == Next(Next(s, e), f)
  {
    assert [e, f] == [e] + [f];
    AfterAppends(s, [e], [f]);
    AfterOne(s, e);
    AfterOne(Next(s, e), f);
  }

  lemma MonotoneTwo(now: int, e: Event, f: Event)
    ensures Monotone(now, [e, f]) <==> now <= e.now <= f.now
  {
    assert [e, f][1..] == [f];
    assert [f][1..] == [];
    assert Monotone(e.now, [f]) <==> e.now <= f.now;
  }

  lemma MonotoneThree(now: int, e: Event, f: Event, g: Event)
    ensures Monotone(now, [e, f, g]) <==> now <= e.now <= f.now <= g.now
  {
    assert [e, f, g][1..] == [f, g];
    MonotoneTwo(e.now, f, g);
  }

  // --- calls that nothing comes in between ----------------------------------------

  function Resting(rows: Rows): State {
    State(rows, map[], map[])
  }

  /** Without interference a release does what `Store.ReleaseLease` promises. */
  lemma ReleaseAlone(rows: Rows, key: string, holder: string, now: int, later: int)
    ensures After(Resting(rows), [ReadRelease(0, key, holder, now), DeleteReleased(0, later)])
         == Resting(if MayRelease(rows, key, holder) then rows - {key} else rows)
  {
    var read := Next(Resting(rows), ReadRelease(0, key, holder, now));
    AfterTwo(Resting(rows), ReadRelease(0, key, holder, now), DeleteReleased(0, later));
    assert read.releases - {0} == map[];
    assert key !in rows ==> rows - {key} == rows;
  }

  /** The deletes of a scrub, in some order. */
  function DeleteAll(op: nat, keys: seq<string>, now: int): (r: seq<Event>)
    ensures |r| == |keys|
  {
    seq(|keys|, i requires 0 <= i < |keys| => DeleteExpired(op, keys[i], now))
  }

  lemma {:induction false} DeletesRemove(s: State, op: nat, keys: seq<string>, now: int)
    requires op in s.scrubs && s.scrubs[op].Doomed? && forall k :: k in keys ==> k in s.scrubs[op].keys
    requires forall i, j :: 0 <= i < j < |keys| ==> keys[i] != keys[j]
    ensures After(s, DeleteAll(op, keys, now)).rows == s.rows - (set k | k in keys)
    decreases |keys|
  {
    var run := DeleteAll(op, keys, now);
    if keys == [] {
      assert s.rows - (set k | k in keys) == s.rows;
    } else {
      var s' := Next(s, run[0]);
      assert run[1..] == DeleteAll(op, keys[1..], now);
      DeletesRemove(s', op, keys[1..], now);
      assert keys == [keys[0]] + keys[1..];
      assert s.rows - {keys[0]} - (set k | k in keys[1..]) == s.rows - (set k | k in keys);
    }
  }

  /** Without interference a scrub does what `Store.ScrubLeases` promises. */
  lemma ScrubAlone(rows: Rows, listed: set<string>, now: int, keys: seq<string>)
    requires forall k :: k in keys <==> k in rows && k in listed && now > rows[k].expiresAt
    requires forall i, j :: 0 <= i < j < |keys| ==> keys[i] != keys[j]
    ensures After(Resting(rows), [ListLeases(0, listed, now), CheckListed(0, now)] + DeleteAll(0, keys, now)).rows
         == Scrubbed(rows, listed, now)
  {
    var start := [ListLeases(0, listed, now), CheckListed(0, now)];
    var s1 := Next(Resting(rows), start[0]);
    var s2 := Next(s1, start[1]);
    AfterTwo(Resting(rows), start[0], start[1]);
    AfterAppends(Resting(rows), start, DeleteAll(0, keys, now));
    DeletesRemove(s2, 0, keys, now);
    assert rows - (set k | k in keys) == Scrubbed(rows, listed, now);
  }

  // ---------------------------------------------------------------------------
  // Mutual exclusion
  // ---------------------------------------------------------------------------

  /** Nobody is granted the key and neither its holder nor an anonymous caller releases it. */
  predicate Quiet(s: State, run: seq<Event>, key: string, holder: string)
    decreases |run|
  {
    run == [] ||
    (!(Grants(s.rows, run[0]) && run[0].key == key)
     && !(run[0].ReadRelease? && run[0].key == key && (run[0].holder == "" || run[0].holder == holder))
     && Quiet(Next(s, run[0]), run[1..], key, holder))
  }

  /** The delete concerns `key`, and an acquire of it was granted since the read. */
  predicate IsStale(s: State, e: Event, key: string) {
    || (e.DeleteReleased? && e.op in s.releases && s.releases[e.op].key == key
        && s.releases[e.op].entitled && s.releases[e.op].overtaken)
    || (e.DeleteExpired? && e.key == key && Deletes(s, e.op, key) && key in s.scrubs[e.op].overtaken)
  }

  predicate NoneStale(s: State, run: seq<Event>, key: string)
    decreases |run|
  {
    run == [] || (!IsStale(s, run[0], key) && NoneStale(Next(s, run[0]), run[1..], key))
  }

  /** The calls under way that were not overtaken leave the lease on `key` alone until it expires. */
  ghost predicate Safe(s: State, key: string, lease: Lease) {
    && key in s.rows && s.rows[key] == lease
    && (forall op :: op in s.releases && s.releases[op].key == key ==>
          s.releases[op].overtaken || !s.releases[op].entitled)
    && (forall op :: op in s.scrubs && key !in s.scrubs[op].overtaken ==> Spares(s.scrubs[op], key, lease))
  }

  predicate Spares(c: Scrub, key: string, lease: Lease) {
    if c.Listed? then key in c.snapshot ==> c.snapshot[key] == lease else key !in c.keys
  }

  lemma GrantIsSafe(s: State, e: Event)
    requires Grants(s.rows, e)
    ensures Safe(Next(s, e), e.key, Grant(e.holder, e.ttl, e.now))
  {
  }

  lemma StepKeepsSafe(s: State, e: Event, key: string, lease: Lease)
    requires Safe(s, key, lease) && lease.holder != "" && e.now <= lease.expiresAt
    requires Quiet(s, [e], key, lease.holder) && !IsStale(s, e, key)
    ensures Safe(Next(s, e), key, lease)
  {
  }

  lemma QuietFirst(s: State, run: seq<Event>, key: string, holder: string)
    requires run != [] && Quiet(s, run, key, holder)
    ensures Quiet(s, [run[0]], key, holder) && Quiet(Next(s, run[0]), run[1..], key, holder)
  {
    assert [run[0]][1..] == [];
  }

  lemma {:induction false} RunKeepsSafe(s: State, now: int, run: seq<Event>, key: string, lease: Lease, end: int)
    requires Safe(s, key, lease) && lease.holder != "" && Monotone(now, run)
    requires Quiet(s, run, key, lease.holder) && NoneStale(s, run, key)
    requires end <= lease.expiresAt && forall i :: 0 <= i < |run| ==> run[i].now <= end
    ensures Safe(After(s, run), key, lease)
    decreases |run|
  {
    if run != [] {
      QuietFirst(s, run, key, lease.holder);
      StepKeepsSafe(s, run[0], key, lease);
      RunKeepsSafe(Next(s, run[0]), run[0].now, run[1..], key, lease, end);
    }
  }

  lemma {:induction false} MonotoneEnd(now: int, run: seq<Event>, last: Event)
    requires Monotone(now, run + [last])
    ensures now <= last.now && Monotone(now, run)
    ensures forall i :: 0 <= i < |run| ==> run[i].now <= last.now
    decreases |run|
  {
    if run != [] {
      assert (run + [last])[1..] == run[1..] + [last];
      MonotoneEnd(run[0].now, run[1..], last);
    }
  }

  /** Mutual exclusion: after a grant, from whatever state and with whatever calls under way,
      another holder is granted the key only once the lease has expired, unless the lease was
      released by its holder or without naming one, or a delete came after an acquire that
      was granted since its read. */
  lemma HandoverWaitsForExpiry(s: State, grant: Event, run: seq<Event>, last: Event)
    requires Grants(s.rows, grant) && Monotone(grant.now, run + [last])
    requires Quiet(Next(s, grant), run, grant.key, grant.holder) && NoneStale(Next(s, grant), run, grant.key)
    requires Grants(After(Next(s, grant), run).rows, last) && last.key == grant.key && last.holder != grant.holder
    ensures last.now >= grant.now + if grant.ttl <= 0 then 600_000_000_000 else grant.ttl
  {
    var lease := Grant(grant.holder, grant.ttl, grant.now);
    GrantIsSafe(s, grant);
    MonotoneEnd(grant.now, run, last);
    if last.now < lease.expiresAt {
      RunKeepsSafe(Next(s, grant), grant.now, run, grant.key, lease, last.now);
      assert Blocked(After(Next(s, grant), run).rows, last.key, last.holder, last.now);
    }
  }

  /** When an acquire is granted, in the row's own fields. */
  lemma GrantedIff(rows: Rows, key: string, holder: string, ttl: int, now: int)
    ensures Grants(rows, Acquire(key, holder, ttl, now)) <==>
            holder != "" && (key !in rows || now >= rows[key].expiresAt || rows[key].holder == holder)
  {
  }

  /** With nothing in between, another holder is granted the key exactly from the expiry on: after
      the time asked for, ten minutes if none was.  The holder itself may renew at any time. */
  lemma GrantedFromExpiryOn(s: State, grant: Event, next: Event)
    requires Grants(s.rows, grant) && next.Acquire? && next.key == grant.key && next.holder != ""
    ensures next.holder != grant.holder ==>
      (Grants(Next(s, grant).rows, next)
       <==> next.now >= grant.now + if grant.ttl <= 0 then 600_000_000_000 else grant.ttl)
    ensures next.holder == grant.holder ==> Grants(Next(s, grant).rows, next)
    ensures Grants(Next(s, grant).rows, next) ==>
      Next(Next(s, grant), next).rows
      == s.rows[grant.key := Lease(next.holder, next.now,
                                   next.now + if next.ttl <= 0 then 600_000_000_000 else next.ttl)]
  {
  }

  // --- exactly which calls under way endanger a lease -----------------------------

  /** Some continuation, quiet on the key, grants it to somebody else before it expires. */
  ghost predicate Robbable(s: State, key: string, now: int)
    requires key in s.rows
  {
    exists run, last :: Robbery(s, key, now, run, last)
  }

  ghost predicate Robbery(s: State, key: string, now: int, run: seq<Event>, last: Event)
    requires key in s.rows
  {
    && Monotone(now, run + [last]) && Quiet(s, run, key, s.rows[key].holder)
    && Grants(After(s, run).rows, last) && last.key == key
    && last.holder != s.rows[key].holder && last.now < s.rows[key].expiresAt
  }

  predicate Endangers(c: Scrub, key: string, lease: Lease) {
    if c.Listed? then key in c.snapshot && c.snapshot[key].expiresAt + 1 < lease.expiresAt else key in c.keys
  }

  /** A delete of the row is on its way, or a scrub listed the key with an earlier expiry. */
  ghost predicate Exposed(s: State, key: string)
    requires key in s.rows
  {
    || (exists op :: op in s.releases && s.releases[op].key == key && s.releases[op].entitled)
    || (exists op :: op in s.scrubs && Endangers(s.scrubs[op], key, s.rows[key]))
  }

  lemma StepKeepsUnexposed(s: State, e: Event, key: string)
    requires key in s.rows && !Exposed(s, key) && s.rows[key].holder != "" && e.now < s.rows[key].expiresAt
    requires Quiet(s, [e], key, s.rows[key].holder)
    ensures key in Next(s, e).rows && Next(s, e).rows[key] == s.rows[key] && !Exposed(Next(s, e), key)
  {
    StepKeepsRow(s, e, key);
    var t := Next(s, e);
    forall op | op in t.releases && t.releases[op].key == key ensures !t.releases[op].entitled {
    }
    forall op | op in t.scrubs ensures !Endangers(t.scrubs[op], key, t.rows[key]) {
    }
  }

  lemma StepKeepsRow(s: State, e: Event, key: string)
    requires key in s.rows && !Exposed(s, key) && s.rows[key].holder != "" && e.now < s.rows[key].expiresAt
    requires Quiet(s, [e], key, s.rows[key].holder)
    ensures key in Next(s, e).rows && Next(s, e).rows[key] == s.rows[key]
  {
  }

  lemma {:induction false} RunKeepsUnexposed(s: State, now: int, run: seq<Event>, key: string, end: int)
    requires key in s.rows && !Exposed(s, key) && s.rows[key].holder != "" && Monotone(now, run)
    requires Quiet(s, run, key, s.rows[key].holder)
    requires end < s.rows[key].expiresAt && forall i :: 0 <= i < |run| ==> run[i].now <= end
    ensures key in After(s, run).rows && After(s, run).rows[key] == s.rows[key]
    decreases |run|
  {
    if run != [] {
      QuietFirst(s, run, key, s.rows[key].holder);
      StepKeepsUnexposed(s, run[0], key);
      RunKeepsUnexposed(Next(s, run[0]), run[0].now, run[1..], key, end);
    }
  }

  function Rival(lease: Lease): (holder: string)
    ensures holder != "" && holder != lease.holder
  {
    lease.holder + "x"
  }

  /** An event after which the row is gone opens the way to a rival. */
  lemma RobAfter(s: State, key: string, now: int, run: seq<Event>, t: int)
    requires key in s.rows && now <= t < s.rows[key].expiresAt
    requires Quiet(s, run, key, s.rows[key].holder) && key !in After(s, run).rows
    requires Monotone(now, run + [Acquire(key, Rival(s.rows[key]), 1, t)])
    ensures Robbable(s, key, now)
  {
    assert Robbery(s, key, now, run, Acquire(key, Rival(s.rows[key]), 1, t));
  }

  lemma PendingReleaseRobs(s: State, key: string, now: int, op: nat)
    requires Live(s.rows, key, now) && op in s.releases && s.releases[op].key == key && s.releases[op].entitled
    ensures Robbable(s, key, now)
  {
    var e, probe := DeleteReleased(op, now), Acquire(key, Rival(s.rows[key]), 1, now);
    AfterOne(s, e);
    MonotoneTwo(now, e, probe);
    assert [e] + [probe] == [e, probe];
    RobAfter(s, key, now, [e], now);
  }

  lemma PendingDeleteRobs(s: State, key: string, now: int, op: nat)
    requires Live(s.rows, key, now) && Deletes(s, op, key)
    ensures Robbable(s, key, now)
  {
    var e, probe := DeleteExpired(op, key, now), Acquire(key, Rival(s.rows[key]), 1, now);
    AfterOne(s, e);
    MonotoneTwo(now, e, probe);
    assert [e] + [probe] == [e, probe];
    RobAfter(s, key, now, [e], now);
  }

  lemma PendingListRobs(s: State, key: string, now: int, op: nat)
    requires Live(s.rows, key, now) && op in s.scrubs && s.scrubs[op].Listed?
    requires Endangers(s.scrubs[op], key, s.rows[key])
    ensures Robbable(s, key, now)
  {
    var old' := s.scrubs[op].snapshot[key].expiresAt + 1;
    var t := if now < old' then old' else now;
    var e, f, probe := CheckListed(op, t), DeleteExpired(op, key, t), Acquire(key, Rival(s.rows[key]), 1, t);
    assert Deletes(Next(s, e), op, key);
    AfterTwo(s, e, f);
    MonotoneThree(now, e, f, probe);
    assert [e, f] + [probe] == [e, f, probe];
    assert [e, f][1..] == [f] && [f][1..] == [];
    RobAfter(s, key, now, [e, f], t);
  }

  /** A live lease can be taken over before it expires, without its holder or an anonymous caller
      releasing it from now on, exactly when a delete of its row is already on its way, or a
      scrub listed the key with an earlier expiry. */
  lemma RobbableIffExposed(s: State, key: string, now: int)
    requires Live(s.rows, key, now) && s.rows[key].holder != ""
    ensures Robbable(s, key, now) <==> Exposed(s, key)
  {
    if Exposed(s, key) {
      if op :| op in s.releases && s.releases[op].key == key && s.releases[op].entitled {
        PendingReleaseRobs(s, key, now, op);
      } else {
        var op :| op in s.scrubs && Endangers(s.scrubs[op], key, s.rows[key]);
        if s.scrubs[op].Listed? {
          PendingListRobs(s, key, now, op);
        } else {
          PendingDeleteRobs(s, key, now, op);
        }
      }
    } else {
      forall run, last ensures !Robbery(s, key, now, run, last) {
        if Robbery(s, key, now, run, last) {
          MonotoneEnd(now, run, last);
          RunKeepsUnexposed(s, now, run, key, last.now);
          assert Blocked(After(s, run).rows, key, last.holder, last.now);
        }
      }
    }
  }

  /** The interleaving that fails: a release reads its own row, the lease expires, a second
      holder acquires, the delete removes the second lease and a third holder is granted it. */
  lemma StaleReleaseRobs(key: string, a: string, b: string, c: string)
    requires a != "" && b != "" && c != "" && a != b && b != c
    ensures var run := [Acquire(key, a, 1, 0), ReadRelease(0, key, a, 0), Acquire(key, b, 10, 1), DeleteReleased(0, 2)];
      && Monotone(0, run)
      && Grants(After(Resting(map[]), run[..2]).rows, run[2])
      && Grants(After(Resting(map[]), run).rows, Acquire(key, c, 10, 2))
  {
    var e0, e1 := Acquire(key, a, 1, 0), ReadRelease(0, key, a, 0);
    var e2, e3 := Acquire(key, b, 10, 1), DeleteReleased(0, 2);
    var run := [e0, e1, e2, e3];
    var s2 := Next(Next(Resting(map[]), e0), e1);
    assert run[..2] == [e0, e1] && run == [e0, e1] + [e2, e3];
    AfterTwo(Resting(map[]), e0, e1);
    AfterAppends(Resting(map[]), [e0, e1], [e2, e3]);
    AfterTwo(s2, e2, e3);
    assert run[1..] == [e1, e2, e3];
    MonotoneThree(0, e1, e2, e3);
  }

  /** The same with a scrub: it lists and dooms an expired lease, a second holder acquires, and the
      delete removes the second lease. */
  lemma StaleScrubRobs(key: string, a: string, b: string, c: string)
    requires a != "" && b != "" && c != "" && b != c
    ensures var run := [Acquire(key, a, 1, 0), ListLeases(0, {key}, 2), CheckListed(0, 2),
                        Acquire(key, b, 10, 2), DeleteExpired(0, key, 2)];
      && Monotone(0, run)
      && Grants(After(Resting(map[]), run[..3]).rows, run[3])
      && Grants(After(Resting(map[]), run).rows, Acquire(key, c, 10, 3))
  {
    var e0, e1, e2 := Acquire(key, a, 1, 0), ListLeases(0, {key}, 2), CheckListed(0, 2);
    var e3, e4 := Acquire(key, b, 10, 2), DeleteExpired(0, key, 2);
    var run := [e0, e1, e2, e3, e4];
    var s1 := Next(Resting(map[]), e0);
    var s2 := Next(s1, e1);
    var s3 := Next(s2, e2);
    AfterTwo(Resting(map[]), e0, e1);
    AfterOne(s2, e2);
    AfterAppends(Resting(map[]), [e0, e1], [e2]);
    assert run[..3] == [e0, e1] + [e2];
    AfterTwo(s3, e3, e4);
    AfterAppends(Resting(map[]), [e0, e1] + [e2], [e3, e4]);
    assert run == ([e0, e1] + [e2]) + [e3, e4];
    assert Deletes(s3, 0, key);
    MonotoneFive(0, e0, e1, e2, e3, e4);
  }

  lemma MonotoneFive(now: int, d: Event, e: Event, f: Event, g: Event, h: Event)
    requires now <= d.now <= e.now <= f.now <= g.now <= h.now
    ensures Monotone(now, [d, e, f, g, h])
  {
    assert [d, e, f, g, h][1..] == [e, f, g, h] && [e, f, g, h][1..] == [f, g, h];
    MonotoneThree(e.now, f, g, h);
  }

  // ---------------------------------------------------------------------------
  // Scrubbing is invisible
  // ---------------------------------------------------------------------------

  /** The outcomes of the acquires in a run, in order. */
  function Outcomes(s: State, run: seq<Event>): seq<Acquired>
    decreases |run|
  {
    if run == [] then [] else Outcome(s, run[0]) + Outcomes(Next(s, run[0]), run[1..])
  }

  function Outcome(s: State, e: Event): seq<Acquired> {
    if !e.Acquire? then []
    else [if e.holder == "" then Invalid
          else if Blocked(s.rows, e.key, e.holder, e.now) then Held
          else Granted(Grant(e.holder, e.ttl, e.now))]
  }

  function WithoutScrubs(run: seq<Event>): seq<Event> {
    if run == [] then []
    else (if IsScrub(run[0]) then [] else [run[0]]) + WithoutScrubs(run[1..])
  }

  /** A scrub deletes a row whose lease is live. */
  predicate TakesLiveRow(s: State, e: Event) {
    e.DeleteExpired? && Deletes(s, e.op, e.key) && Live(s.rows, e.key, e.now)
  }

  predicate TakesNoLiveRow(s: State, run: seq<Event>)
    decreases |run|
  {
    run == [] || (!TakesLiveRow(s, run[0]) && TakesNoLiveRow(Next(s, run[0]), run[1..]))
  }

  /** No release deletes after an acquire of its key was granted since its read. */
  predicate NoStaleRelease(s: State, run: seq<Event>)
    decreases |run|
  {
    run == [] ||
    (!(run[0].DeleteReleased? && run[0].op in s.releases && s.releases[run[0].op].overtaken)
     && NoStaleRelease(Next(s, run[0]), run[1..]))
  }

  /** The two tables agree on every lease still live. */
  ghost predicate SameLive(a: Rows, b: Rows, now: int) {
    forall k :: (Live(a, k, now) || Live(b, k, now)) ==> k in a && k in b && a[k] == b[k]
  }

  /** The releases under way differ at most in whether they found a row that is not live. */
  ghost predicate SameReleases(a: State, b: State, now: int) {
    && a.releases.Keys == b.releases.Keys
    && (forall op :: op in a.releases ==>
          a.releases[op].key == b.releases[op].key && a.releases[op].overtaken == b.releases[op].overtaken)
    && (forall op :: op in a.releases && a.releases[op].entitled != b.releases[op].entitled ==>
          || a.releases[op].overtaken
          || (!Live(a.rows, a.releases[op].key, now) && !Live(b.rows, a.releases[op].key, now)))
  }

  ghost predicate Alike(a: State, b: State, now: int) {
    SameLive(a.rows, b.rows, now) && SameReleases(a, b, now)
  }

  lemma AlikeLater(a: State, b: State, now: int, later: int)
    requires Alike(a, b, now) && now <= later
    ensures Alike(a, b, later)
  {
    forall k | Live(a.rows, k, later) || Live(b.rows, k, later)
      ensures k in a.rows && k in b.rows && a.rows[k] == b.rows[k]
    {
      assert Live(a.rows, k, later) ==> Live(a.rows, k, now);
      assert Live(b.rows, k, later) ==> Live(b.rows, k, now);
    }
    forall op | op in a.releases && !(Live(a.rows, a.releases[op].key, now))
      ensures !Live(a.rows, a.releases[op].key, later)
    {
    }
    forall op | op in a.releases && !(Live(b.rows, a.releases[op].key, now))
      ensures !Live(b.rows, a.releases[op].key, later)
    {
    }
  }

  lemma SameAnswer(a: State, b: State, e: Event)
    requires SameLive(a.rows, b.rows, e.now) && e.Acquire?
    ensures Outcome(a, e) == Outcome(b, e) && (Grants(a.rows, e) <==> Grants(b.rows, e))
  {
    assert Blocked(a.rows, e.key, e.holder, e.now) <==> Blocked(b.rows, e.key, e.holder, e.now);
  }

  lemma GrantKeepsSameLive(a: Rows, b: Rows, key: string, lease: Lease, now: int)
    requires SameLive(a, b, now)
    ensures SameLive(a[key := lease], b[key := lease], now)
  {
    var a', b' := a[key := lease], b[key := lease];
    forall k | Live(a', k, now) || Live(b', k, now) ensures k in a' && k in b' && a'[k] == b'[k] {
      if k != key {
        assert Live(a, k, now) || Live(b, k, now);
      }
    }
  }

  lemma GrantKeepsSameReleases(a: State, b: State, e: Event)
    requires SameReleases(a, b, e.now) && e.Acquire?
    ensures SameReleases(AfterGrant(a, e), AfterGrant(b, e), e.now)
  {
    var a', b' := AfterGrant(a, e), AfterGrant(b, e);
    forall op | op in a'.releases && a'.releases[op].entitled != b'.releases[op].entitled
      ensures a'.releases[op].overtaken || (!Live(a'.rows, a'.releases[op].key, e.now)
                                            && !Live(b'.rows, a'.releases[op].key, e.now))
    {
      assert a.releases[op].entitled != b.releases[op].entitled;
    }
  }

  lemma AcquireKeepsAlike(a: State, b: State, e: Event)
    requires Alike(a, b, e.now) && e.Acquire?
    ensures Outcome(a, e) == Outcome(b, e) && Alike(Next(a, e), Next(b, e), e.now)
  {
    SameAnswer(a, b, e);
    if Grants(a.rows, e) {
      GrantKeepsSameLive(a.rows, b.rows, e.key, Grant(e.holder, e.ttl, e.now), e.now);
      GrantKeepsSameReleases(a, b, e);
    }
  }

  lemma ReleaseKeepsAlike(a: State, b: State, e: Event)
    requires Alike(a, b, e.now) && (e.ReadRelease? || e.DeleteReleased?)
    requires !(e.DeleteReleased? && e.op in a.releases && a.releases[e.op].overtaken)
    ensures Alike(Next(a, e), Next(b, e), e.now)
  {
  }

  lemma ScrubKeepsAlike(a: State, b: State, e: Event)
    requires Alike(a, b, e.now) && IsScrub(e) && !TakesLiveRow(a, e)
    ensures Alike(Next(a, e), b, e.now)
  {
  }

  lemma {:induction false} WithoutScrubsAppends(run: seq<Event>, e: Event)
    ensures WithoutScrubs(run + [e]) == WithoutScrubs(run) + if IsScrub(e) then [] else [e]
    decreases |run|
  {
    var last := if IsScrub(e) then [] else [e];
    var all := run + [e];
    if run == [] {
      assert all == [e] && all[1..] == [];
    } else {
      var head := if IsScrub(run[0]) then [] else [run[0]];
      assert all[0] == run[0] && all[1..] == run[1..] + [e];
      WithoutScrubsAppends(run[1..], e);
      assert head + (WithoutScrubs(run[1..]) + last) == (head + WithoutScrubs(run[1..])) + last;
    }
  }

  lemma PlainKeepsAlike(a: State, b: State, e: Event)
    requires Alike(a, b, e.now) && !IsScrub(e)
    requires !(e.DeleteReleased? && e.op in a.releases && a.releases[e.op].overtaken)
    ensures Outcome(a, e) == Outcome(b, e) && Alike(Next(a, e), Next(b, e), e.now)
  {
    if e.Acquire? {
      AcquireKeepsAlike(a, b, e);
    } else {
      ReleaseKeepsAlike(a, b, e);
    }
  }

  lemma StripFirst(s: State, run: seq<Event>)
    requires run != []
    ensures IsScrub(run[0]) ==> WithoutScrubs(run) == WithoutScrubs(run[1..])
    ensures !IsScrub(run[0]) ==>
      && Outcomes(s, WithoutScrubs(run)) == Outcome(s, run[0]) + Outcomes(Next(s, run[0]), WithoutScrubs(run[1..]))
      && After(s, WithoutScrubs(run)) == After(Next(s, run[0]), WithoutScrubs(run[1..]))
  {
    var rest := WithoutScrubs(run[1..]);
    assert ([run[0]] + rest)[1..] == rest;
  }

  lemma ScrubAnswersNothing(a: State, run: seq<Event>)
    requires run != [] && IsScrub(run[0])
    ensures Outcomes(a, run) == Outcomes(Next(a, run[0]), run[1..])
  {
    assert Outcome(a, run[0]) == [];
  }

  /** The first step of a run and what it leaves to the rest. */
  lemma FirstKeepsAlike(a: State, b: State, run: seq<Event>)
    requires run != [] && Alike(a, b, run[0].now) && NoStaleRelease(a, run) && TakesNoLiveRow(a, run)
    ensures var e, b' := run[0], if IsScrub(run[0]) then b else Next(b, run[0]);
      && Alike(Next(a, e), b', e.now)
      && (Outcomes(Next(a, e), run[1..]) == Outcomes(b', WithoutScrubs(run[1..])) ==>
            Outcomes(a, run) == Outcomes(b, WithoutScrubs(run)))
      && After(b, WithoutScrubs(run)) == After(b', WithoutScrubs(run[1..]))
  {
    var e := run[0];
    StripFirst(b, run);
    if IsScrub(e) {
      ScrubKeepsAlike(a, b, e);
      ScrubAnswersNothing(a, run);
    } else {
      PlainKeepsAlike(a, b, e);
    }
  }

  lemma {:induction false} RunKeepsAlike(a: State, b: State, now: int, run: seq<Event>)
    requires Alike(a, b, now) && Monotone(now, run) && NoStaleRelease(a, run) && TakesNoLiveRow(a, run)
    ensures Outcomes(a, run) == Outcomes(b, WithoutScrubs(run))
    ensures Alike(After(a, run), After(b, WithoutScrubs(run)), if run == [] then now else run[|run| - 1].now)
    decreases |run|
  {
    if run != [] {
      var e, b' := run[0], if IsScrub(run[0]) then b else Next(b, run[0]);
      AlikeLater(a, b, now, e.now);
      FirstKeepsAlike(a, b, run);
      RunKeepsAlike(Next(a, e), b', e.now, run[1..]);
      assert run[|run| - 1].now == if run[1..] == [] then e.now else run[1..][|run[1..]| - 1].now;
    }
  }

  /** The scrubs change no outcome up to event `n`, nor that of an acquire made then. */
  ghost predicate InvisibleAt(s: State, now: int, run: seq<Event>, n: nat, probe: Event)
    requires n <= |run|
  {
    probe.Acquire? && Monotone(now, run[..n] + [probe]) ==>
      Outcomes(s, run[..n] + [probe]) == Outcomes(s, WithoutScrubs(run[..n]) + [probe])
  }

  /** At no point of the run can an acquire tell that there are scrubs. */
  ghost predicate ScrubsInvisible(s: State, now: int, run: seq<Event>) {
    forall n, probe :: 0 <= n <= |run| ==> InvisibleAt(s, now, run, n, probe)
  }

  lemma {:induction false} PrefixesInherit(s: State, now: int, run: seq<Event>, n: nat)
    requires n <= |run|
    ensures Monotone(now, run) ==> Monotone(now, run[..n])
    ensures NoStaleRelease(s, run) ==> NoStaleRelease(s, run[..n])
    ensures TakesNoLiveRow(s, run) ==> TakesNoLiveRow(s, run[..n])
    decreases n
  {
    if n > 0 {
      assert run[..n][1..] == run[1..][..n - 1];
      PrefixesInherit(Next(s, run[0]), run[0].now, run[1..], n - 1);
    }
  }

  lemma {:induction false} OutcomesAppend(s: State, run: seq<Event>, e: Event)
    ensures Outcomes(s, run + [e]) == Outcomes(s, run) + Outcome(After(s, run), e)
    decreases |run|
  {
    if run == [] {
      assert run + [e] == [e] && [e][1..] == [];
      assert Outcome(s, e) + [] == [] + Outcome(s, e);
    } else {
      assert (run + [e])[1..] == run[1..] + [e];
      OutcomesAppend(Next(s, run[0]), run[1..], e);
    }
  }

  lemma HarmlessIsInvisible(s: State, now: int, run: seq<Event>, n: nat, probe: Event)
    requires Monotone(now, run) && NoStaleRelease(s, run) && TakesNoLiveRow(s, run) && n <= |run|
    ensures InvisibleAt(s, now, run, n, probe)
  {
    var prefix := run[..n];
    if probe.Acquire? && Monotone(now, prefix + [probe]) {
      PrefixesInherit(s, now, run, n);
      RunKeepsAlike(s, s, now, prefix);
      OutcomesAppend(s, prefix, probe);
      OutcomesAppend(s, WithoutScrubs(prefix), probe);
      MonotoneEnd(now, prefix, probe);
      var a, b := After(s, prefix), After(s, WithoutScrubs(prefix));
      AlikeLater(a, b, if n == 0 then now else prefix[n - 1].now, probe.now);
      AcquireKeepsAlike(a, b, probe);
    }
  }

  /** The first delete of a live row. */
  lemma {:induction false} FirstTaken(s: State, run: seq<Event>) returns (m: nat)
    requires !TakesNoLiveRow(s, run)
    ensures m < |run| && TakesNoLiveRow(s, run[..m]) && TakesLiveRow(After(s, run[..m]), run[m])
    decreases |run|
  {
    if TakesLiveRow(s, run[0]) {
      m := 0;
    } else {
      m := FirstTaken(Next(s, run[0]), run[1..]);
      assert run[..m + 1][1..] == run[1..][..m];
      m := m + 1;
    }
  }

  lemma {:induction false} MonotoneAppend(now: int, run: seq<Event>, e: Event)
    requires Monotone(now, run) && e.now >= (if run == [] then now else run[|run| - 1].now)
    ensures Monotone(now, run + [e])
    decreases |run|
  {
    if run == [] {
      assert (run + [e])[1..] == [];
    } else {
      assert (run + [e])[1..] == run[1..] + [e];
      MonotoneAppend(run[0].now, run[1..], e);
    }
  }

  lemma LastDiffers<T>(x: seq<T>, y: seq<T>, p: T, q: T)
    requires p != q
    ensures x + [p] != y + [q]
  {
    var u, v := x + [p], y + [q];
    assert u[|u| - 1] == p && v[|v| - 1] == q;
  }

  lemma RivalTells(a: State, b: State, e: Event)
    requires Alike(a, b, e.now) && TakesLiveRow(a, e)
    ensures var probe := Acquire(e.key, Rival(a.rows[e.key]), 1, e.now);
      Outcome(Next(a, e), probe) == [Granted(Grant(probe.holder, 1, e.now))] && Outcome(b, probe) == [Held]
  {
    assert Live(a.rows, e.key, e.now);
  }

  lemma TakenIsVisible(s: State, now: int, run: seq<Event>, m: nat)
    requires Monotone(now, run) && NoStaleRelease(s, run) && m < |run|
    requires TakesNoLiveRow(s, run[..m]) && TakesLiveRow(After(s, run[..m]), run[m])
    ensures !ScrubsInvisible(s, now, run)
  {
    var before, e := run[..m], run[m];
    var a, b := After(s, before), After(s, WithoutScrubs(before));
    assert run[..m + 1] == before + [e];
    PrefixesInherit(s, now, run, m);
    PrefixesInherit(s, now, run, m + 1);
    MonotoneEnd(now, before, e);
    RunKeepsAlike(s, s, now, before);
    AlikeLater(a, b, if m == 0 then now else before[m - 1].now, e.now);
    RivalTells(a, b, e);
    var probe := Acquire(e.key, Rival(a.rows[e.key]), 1, e.now);
    MonotoneAppend(now, before + [e], probe);
    AfterAppends(s, before, [e]);
    AfterOne(a, e);
    WithoutScrubsAppends(before, e);
    assert WithoutScrubs(before + [e]) == WithoutScrubs(before);
    OutcomesAppend(s, before + [e], probe);
    OutcomesAppend(s, WithoutScrubs(before), probe);
    LastDiffers(Outcomes(s, before + [e]), Outcomes(s, WithoutScrubs(before)),
                Granted(Grant(probe.holder, 1, e.now)), Held);
    assert !InvisibleAt(s, now, run, m + 1, probe);
  }

  /** Scrubs anywhere in a run are invisible to acquires exactly when none of them deletes the row
      of a live lease (releases whose delete is overtaken aside, which can fail on their own). */
  lemma ScrubsInvisibleIff(s: State, now: int, run: seq<Event>)
    requires Monotone(now, run) && NoStaleRelease(s, run)
    ensures ScrubsInvisible(s, now, run) <==> TakesNoLiveRow(s, run)
  {
    if TakesNoLiveRow(s, run) {
      forall n, probe | 0 <= n <= |run| ensures InvisibleAt(s, now, run, n, probe) {
        HarmlessIsInvisible(s, now, run, n, probe);
      }
    } else {
      var m := FirstTaken(s, run);
      TakenIsVisible(s, now, run, m);
    }
  }

  // --- only overtaken scrubs take live rows ---------------------------------------

  /** Unless the key was granted since the listing, its row is the listed one or gone. */
  ghost predicate ScrubsCurrent(s: State, now: int) {
    forall op, k :: op in s.scrubs && k !in s.scrubs[op].overtaken && k in s.rows ==>
      IsCurrent(s.scrubs[op], k, s.rows[k], now)
  }

  predicate IsCurrent(c: Scrub, k: string, row: Lease, now: int) {
    if c.Listed? then k in c.snapshot ==> c.snapshot[k] == row else k in c.keys ==> now > row.expiresAt
  }

  lemma StepKeepsCurrent(s: State, now: int, e: Event)
    requires ScrubsCurrent(s, now) && now <= e.now
    ensures ScrubsCurrent(Next(s, e), e.now)
  {
    var t := Next(s, e);
    forall op, k | op in t.scrubs && k !in t.scrubs[op].overtaken && k in t.rows
      ensures IsCurrent(t.scrubs[op], k, t.rows[k], e.now)
    {
      if op in s.scrubs && !(e.ListLeases? && e.op == op) {
        assert k in s.rows && t.rows[k] == s.rows[k];
        assert IsCurrent(s.scrubs[op], k, s.rows[k], now);
      }
    }
  }

  /** No scrub deletes a key that was granted since the listing. */
  predicate NoStaleScrub(s: State, run: seq<Event>)
    decreases |run|
  {
    run == [] ||
    (!(run[0].DeleteExpired? && IsStale(s, run[0], run[0].key)) && NoStaleScrub(Next(s, run[0]), run[1..]))
  }

  lemma {:induction false} NotOvertakenIsHarmless(s: State, now: int, run: seq<Event>)
    requires ScrubsCurrent(s, now) && Monotone(now, run) && NoStaleScrub(s, run)
    ensures TakesNoLiveRow(s, run)
    decreases |run|
  {
    if run != [] {
      var e := run[0];
      if e.DeleteExpired? && Deletes(s, e.op, e.key) && e.key in s.rows {
        assert IsCurrent(s.scrubs[e.op], e.key, s.rows[e.key], now);
      }
      StepKeepsCurrent(s, now, e);
      NotOvertakenIsHarmless(Next(s, e), e.now, run[1..]);
    }
  }

  /** So scrubs inserted anywhere change no outcome as long as no acquire of a key is granted
      between a read of its row and the delete that follows. */
  lemma ScrubsAreInvisible(s: State, now: int, run: seq<Event>)
    requires s.scrubs == map[] && Monotone(now, run) && NoStaleRelease(s, run) && NoStaleScrub(s, run)
    ensures Outcomes(s, run) == Outcomes(s, WithoutScrubs(run))
    ensures ScrubsInvisible(s, now, run)
  {
    NotOvertakenIsHarmless(s, now, run);
    RunKeepsAlike(s, s, now, run);
    ScrubsInvisibleIff(s, now, run);
  }
}
