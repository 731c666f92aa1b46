/** Boa's event loop: the three request lists, the descriptors that wait in `select`, and the
    pass over the ready list (boa-0.94.13/src/queue.c, request.c, select.c).

    The C globals travel as one value, `Globals`; the records are objects. The kernel and the
    request handlers are oracles: they answer anything, except that a new descriptor is never
    one that is still open.
 */
module Server {
  import opened Requests

  datatype Globals = Globals(
    ready: Request?, block: Request?, free: Request?,   // list heads
    total: int,                                         // total_connections
    fds: FdSets,
    pending: bool, now: int,                            // pending_requests, current_time
    open: set<nat>)                                     // the kernel's open descriptors

  /** `block_read_fdset`, `block_write_fdset` and `max_fd`, the arguments of `select`. */
  datatype FdSets = FdSets(readSet: set<nat>, writeSet: set<nat>, maxFd: int)

  datatype Role = Client | Data | PostData

  lemma {:induction false} Bounded(s: set<nat>) returns (b: nat)
    ensures forall x | x in s :: x < b
    decreases |s|
  {
    if s == {} {
      b := 0;
    } else {
      var x :| x in s;
      var b' := Bounded(s - {x});
      assert forall y | y in s :: y == x || y in s - {x};
      b := if x < b' then b' else x + 1;
    }
  }

  /** What the proof knows of the records: which list each is on, and which open descriptor
      belongs to which live request. */
  datatype Shape = Shape(
    ready: seq<Request>, block: seq<Request>, free: seq<Request>,
    pool: set<Request>, owner: map<nat, (Request, Role)>)

  datatype Config = Config(serverFd: nat, fdSetSize: nat, maxConnections: int, kaMax: int, kaTimeout: int)

  const REQUEST_TIMEOUT: int := 60

  ghost predicate Within(s: seq<Request>, pool: set<Request>) {
    forall i | 0 <= i < |s| :: s[i] in pool
  }

  /** The lists are well formed and share no record. */
  ghost predicate Lists(g: Globals, l: Shape)
    reads l.ready`next, l.ready`prev, l.ready`place
    reads l.block`next, l.block`prev, l.block`place
    reads l.free`next, l.free`prev, l.free`place
  {
    && Linked(g.ready, l.ready, OnReady)
    && Linked(g.block, l.block, OnBlock)
    && Linked(g.free, l.free, OnFree)
    && Within(l.ready, l.pool) && Within(l.block, l.pool) && Within(l.free, l.pool)
  }

  /** The connection count is right, and no record is lost. */
  ghost predicate Counts(g: Globals, l: Shape) {
    && g.total == |l.ready| + |l.block|
    && |l.pool| == |l.ready| + |l.block| + |l.free|
  }

  /** The descriptors of `r` are open and nobody else's. */
  ghost predicate Owns(r: Request, owner: map<nat, (Request, Role)>)
    reads r`info
  {
    var i := r.info;
    && i.fd != 0 && i.fd in owner && owner[i.fd] == (r, Client)
    && (i.dataFd != 0 ==> i.dataFd in owner && owner[i.dataFd] == (r, Data))
    && (i.postDataFd != 0 ==> i.postDataFd in owner && owner[i.postDataFd] == (r, PostData))
    && (i.status == PipeRead ==> i.dataFd != 0)
    && (i.status == BodyWrite ==> i.postDataFd != 0)
  }

  ghost predicate AllOwn(s: seq<Request>, owner: map<nat, (Request, Role)>)
    reads s`info
  {
    forall i | 0 <= i < |s| :: Owns(s[i], owner)
  }

  /** The handler that `process_requests` picks for a record makes this system call. */
  predicate Calls(i: Info, c: Call) {
    if i.bufferEnd != 0 && i.status != Dead && i.status != Done then c == Call(i.fd, true)  // req_flush
    else
      match i.status
      case ReadHeader | OneCr | OneLf | TwoCr => c == Call(i.fd, false)  // read_header
      case BodyRead => c == Call(i.fd, false)                            // read_body
      case BodyWrite => c == Call(i.postDataFd, true)                    // write_body
      case Write => c == Call(i.fd, true)                                // process_get
      case PipeRead => c == Call(i.dataFd, false)                        // read_from_pipe
      case PipeWrite => c == Call(i.fd, true)                            // write_from_pipe
      case Done => c == Call(i.fd, true)                                 // req_flush
      case Dead => false
  }

  /** A blocked request is blocked by the call of its handler, unless it has just been given up. */
  ghost predicate AllAsking(s: seq<Request>)
    reads s`info
  {
    forall i | 0 <= i < |s| :: s[i].info.status == Dead || Calls(s[i].info, s[i].info.call)
  }

  /** Which bit `block_request` sets and `ready_request` clears. */
  function Awaited(i: Info): (nat, bool) {
    if i.bufferEnd != 0 then (i.fd, true)
    else
      match i.status
      case Write | PipeWrite | Done => (i.fd, true)
      case PipeRead => (i.dataFd, false)
      case BodyWrite => (i.postDataFd, true)
      case _ => (i.fd, false)
  }

  /** It is the bit of the call that the handler made. */
  lemma CallIsAwaited(i: Info)
    requires Calls(i, i.call)
    ensures Awaited(i) == (i.call.fd, i.call.writing) && i.status != Dead
  {}

  lemma DeadAwaits(i: Info)
    ensures i.status == Dead ==> Awaited(i) == (i.fd, i.bufferEnd != 0)
  {}

  /** The descriptor of the call is in the set of its direction. */
  predicate InSet(c: Call, f: FdSets) {
    c.fd in if c.writing then f.writeSet else f.readSet
  }

  /** `select` will watch for it. */
  predicate Armed(i: Info, f: FdSets) {
    InSet(i.call, f) && i.call.fd <= f.maxFd && i.status != Dead
  }

  ghost predicate AllArmed(s: seq<Request>, f: FdSets)
    reads s`info
  {
    forall i | 0 <= i < |s| :: Armed(s[i].info, f)
  }

  /** `BOA_FD_SET`. */
  function FdSet(f: FdSets, fd: nat, writing: bool): FdSets {
    var f' := if writing then f.(writeSet := f.writeSet + {fd}) else f.(readSet := f.readSet + {fd});
    f'.(maxFd := if fd > f.maxFd then fd else f.maxFd)
  }

  /** `FD_CLR`. */
  function FdClear(f: FdSets, fd: nat, writing: bool): FdSets {
    if writing then f.(writeSet := f.writeSet - {fd}) else f.(readSet := f.readSet - {fd})
  }

  /** Live requests own their descriptors, which are open. */
  ghost predicate Descriptors(open: set<nat>, l: Shape, cfg: Config)
    reads l.ready`info, l.block`info
  {
    && AllOwn(l.ready, l.owner) && AllOwn(l.block, l.owner) && AllAsking(l.block)
    && l.owner.Keys <= open && 0 in open && cfg.serverFd in open
    && 0 !in l.owner && cfg.serverFd !in l.owner
  }

  /** All that every step of the loop keeps. */
  ghost predicate Valid(g: Globals, l: Shape, cfg: Config)
    reads l.ready, l.block, l.free
  {
    Lists(g, l) && Counts(g, l) && Descriptors(g.open, l, cfg)
  }

  /** `block_request`. */
  method BlockRequest(g: Globals, r: Request, ghost l: Shape, ghost k: nat) returns (g': Globals, ghost l': Shape)
    requires Lists(g, l) && k < |l.ready| && l.ready[k] == r && Calls(r.info, r.info.call)
    modifies l.ready`next, l.ready`prev, l.block`prev, r`place
    ensures l' == l.(ready := Without(l.ready, k), block := [r] + l.block)
    ensures Lists(g', l') && g'.pending == g.pending && g'.total == g.total && g'.now == g.now && g'.open == g.open
    ensures g'.fds == FdSet(g.fds, r.info.call.fd, r.info.call.writing) && Armed(r.info, g'.fds)
  {
    CallIsAwaited(r.info);
    ghost var ready := Without(l.ready, k);
    var head := Take(g.ready, r, l.ready, k, OnReady, g.block, l.block, OnBlock, g.free, l.free, OnFree);
    var head' := Put(g.block, r, l.block, OnBlock, head, ready, OnReady, g.free, l.free, OnFree);
    var (fd, writing) := Awaited(r.info);
    g' := g.(ready := head, block := head', fds := FdSet(g.fds, fd, writing));
    l' := l.(ready := ready, block := [r] + l.block);
  }

  /** `ready_request`. */
  method ReadyRequest(g: Globals, r: Request, ghost l: Shape, ghost k: nat) returns (g': Globals, ghost l': Shape)
    requires Lists(g, l) && k < |l.block| && l.block[k] == r
    requires r.info.status == Dead || Calls(r.info, r.info.call)
    modifies l.block`next, l.block`prev, l.ready`prev, r`place
    ensures l' == l.(ready := [r] + l.ready, block := Without(l.block, k))
    ensures Lists(g', l') && g'.pending == g.pending && g'.total == g.total && g'.now == g.now && g'.open == g.open
    ensures
      var c := if r.info.status == Dead then Call(r.info.fd, r.info.bufferEnd != 0) else r.info.call;
      g'.fds == FdClear(g.fds, c.fd, c.writing) && !InSet(c, g'.fds)
  {
    hide Calls, Awaited;
    DeadAwaits(r.info);
    if r.info.status != Dead {
      CallIsAwaited(r.info);
    }
    ghost var block := Without(l.block, k);
    var head := Take(g.block, r, l.block, k, OnBlock, g.ready, l.ready, OnReady, g.free, l.free, OnFree);
    var head' := Put(g.ready, r, l.ready, OnReady, head, block, OnBlock, g.free, l.free, OnFree);
    var (fd, writing) := Awaited(r.info);
    g' := g.(block := head, ready := head', fds := FdClear(g.fds, fd, writing));
    l' := l.(ready := [r] + l.ready, block := block);
  }

  /** Two requests never wait for the same descriptor. */
  lemma AwaitedApart(r: Request, s: Request, owner: map<nat, (Request, Role)>)
    requires Owns(r, owner) && Owns(s, owner) && r != s
    requires Calls(r.info, r.info.call)
    ensures Calls(s.info, s.info.call) ==> r.info.call.fd != s.info.call.fd
    ensures r.info.call.fd != s.info.fd
  {}

  predicate TimedOut(i: Info, now: int, cfg: Config) {
    || (i.kacount < cfg.kaMax && now - i.timeLast >= cfg.kaTimeout && !i.logline)
    || now - i.timeLast > REQUEST_TIMEOUT
  }

  /** The first `k` blocked requests have been looked at: they stay, and are watched for.
      `f0` is what `select` reported. */
  ghost predicate Settled(s: seq<Request>, k: nat, f: FdSets, f0: FdSets, now: int, cfg: Config)
    reads s`info
  {
    forall i | 0 <= i < |s| && i < k ::
      Armed(s[i].info, f) && !InSet(s[i].info.call, f0) && !TimedOut(s[i].info, now, cfg) && s[i].info.status != Dead
  }

  /** The others still show what `select` reported. */
  ghost predicate Remaining(s: seq<Request>, k: nat, f: FdSets, f0: FdSets)
    reads s`info
  {
    forall i | k <= i < |s| && s[i].info.status != Dead :: InSet(s[i].info.call, f0) <==> InSet(s[i].info.call, f)
  }

  ghost predicate AllIn(s: seq<Request>, t: seq<Request>) {
    forall x | x in s :: x in t
  }

  /** A blocked request goes on waiting: `select` did not report it, and its time is not up. */
  predicate Waits(i: Info, f0: FdSets, now: int, cfg: Config) {
    !InSet(i.call, f0) && !TimedOut(i, now, cfg) && i.status != Dead
  }

  function Expired(i: Info, now: int, cfg: Config): Info {
    if TimedOut(i, now, cfg) then i.(status := Dead) else i
  }

  ghost function Infos(s: seq<Request>): (r: seq<Info>)
    reads s`info
    ensures |r| == |s| && forall i | 0 <= i < |s| :: r[i] == s[i].info
  {
    if s == [] then [] else [s[0].info] + Infos(s[1..])
  }

  /** Of the first `j` requests those that go on waiting are blocked, and the others are ready. */
  ghost predicate Sifted(s: seq<Request>, was: seq<Info>, j: nat, l: Shape, f0: FdSets, now: int, cfg: Config) {
    forall i | 0 <= i < |s| && i < j && i < |was| ::
      (s[i] in l.block <==> Waits(was[i], f0, now, cfg)) && (s[i] in l.ready <==> !Waits(was[i], f0, now, cfg))
  }

  function ExpiredInfos(was: seq<Info>, j: nat, now: int, cfg: Config): (r: seq<Info>)
    ensures |r| == |was|
  {
    seq(|was|, i requires 0 <= i < |was| => if i < j then Expired(was[i], now, cfg) else was[i])
  }

  /** `fdset_update`: exactly the requests that `select` reported, that timed out, or that were
      dead become ready, those that timed out as dead ones; the others stay blocked, unchanged and
      watched for. */
  method FdsetUpdate(g0: Globals, cfg: Config, ghost l0: Shape) returns (g: Globals, ghost l: Shape)
    requires Valid(g0, l0, cfg)
    modifies l0.pool`next, l0.pool`prev, l0.pool`place, l0.pool`info
    ensures Valid(g, l, cfg) && l.pool == l0.pool && g.pending == g0.pending
    ensures Settled(l.block, |l.block|, g.fds, g0.fds, g0.now, cfg)
    ensures Sifted(l0.block, old(Infos(l0.block)), |l0.block|, l, g0.fds, g0.now, cfg)
    ensures Infos(l0.block) == ExpiredInfos(old(Infos(l0.block)), |l0.block|, g0.now, cfg)
  {
    hide Valid, Settled, Remaining, Sifted, ExpiredInfos, Infos, Distinct;
    g, l := g0, l0;
    var current := g.block;
    ghost var s, was := l0.block, Infos(l0.block);
    ghost var k: nat, j: nat := 0, 0;
    SiftStart(g, l, cfg);
    while current != null
      invariant Valid(g, l, cfg) && l.pool == l0.pool && g.pending == g0.pending && g.now == g0.now
      invariant k <= |l.block| && current == if k < |l.block| then l.block[k] else null
      invariant Settled(l.block, k, g.fds, g0.fds, g0.now, cfg) && Remaining(l.block, k, g.fds, g0.fds)
      invariant j <= |s| && l.block[k..] == s[j..] && Sifted(s, was, j, l, g0.fds, g0.now, cfg)
      invariant Infos(s) == ExpiredInfos(was, j, g0.now, cfg)
      decreases |l.block| - k
    {
      g, l, current, k := SiftOne(g, cfg, current, g0.fds, l, k, s, was, j);
      j := j + 1;
    }
  }

  lemma SiftStart(g: Globals, l: Shape, cfg: Config)
    requires Valid(g, l, cfg)
    ensures g.block == (if l.block == [] then null else l.block[0]) && Distinct(l.block)
    ensures l.block[0..] == l.block && Settled(l.block, 0, g.fds, g.fds, g.now, cfg)
    ensures Remaining(l.block, 0, g.fds, g.fds)
    ensures Sifted(l.block, Infos(l.block), 0, l, g.fds, g.now, cfg)
    ensures Infos(l.block) == ExpiredInfos(Infos(l.block), 0, g.now, cfg)
  {
    hide AllOwn, InSet;
  }

  lemma Pooled(g: Globals, l: Shape, cfg: Config)
    requires Valid(g, l, cfg)
    ensures Within(l.ready, l.pool) && Within(l.block, l.pool)
  {
    hide Linked, AllOwn;
  }

  method SiftOne(g: Globals, cfg: Config, r: Request, ghost f0: FdSets, ghost l: Shape, ghost k: nat,
                 ghost s: seq<Request>, ghost was: seq<Info>, ghost j: nat)
    returns (g': Globals, ghost l': Shape, next: Request?, ghost k': nat)
    requires Valid(g, l, cfg) && k < |l.block| && l.block[k] == r
    requires Settled(l.block, k, g.fds, f0, g.now, cfg) && Remaining(l.block, k, g.fds, f0)
    requires j < |s| == |was| && Distinct(s) && l.block[k..] == s[j..] && Sifted(s, was, j, l, f0, g.now, cfg)
    requires Infos(s) == ExpiredInfos(was, j, g.now, cfg)
    modifies l.pool`next, l.pool`prev, l.pool`place, l.pool`info
    ensures Valid(g', l', cfg) && l'.pool == l.pool && g'.pending == g.pending && g'.now == g.now
    ensures k' <= |l'.block| && next == if k' < |l'.block| then l'.block[k'] else null
    ensures |l'.block| - k' < |l.block| - k
    ensures Settled(l'.block, k', g'.fds, f0, g.now, cfg) && Remaining(l'.block, k', g'.fds, f0)
    ensures l'.block[k'..] == s[j + 1..] && Sifted(s, was, j + 1, l', f0, g.now, cfg)
    ensures Infos(s) == ExpiredInfos(was, j + 1, g.now, cfg)
  {
    hide Settled, Remaining, AllOwn, Owns, Counts, Linked, TimedOut, Waits;
    BlockedApart(g, l, k);
    Pooled(g, l, cfg);
    assert s[j] == s[j..][0] == l.block[k..][0] == r;
    assert r.info == Infos(s)[j] == was[j];
    ghost var infos := Infos(s);
    g', l', next, k' := UpdateOne(g, cfg, r, f0, l, k);
    assert forall i | 0 <= i < |s| && i != j :: s[i].info == infos[i];
    SiftedOne(s, was, j, k, l, l', f0, g.now, cfg);
    StillInfos(s, was, j, g.now, cfg);
  }

  lemma StillInfos(s: seq<Request>, was: seq<Info>, j: nat, now: int, cfg: Config)
    requires j < |s| == |was| && s[j].info == Expired(was[j], now, cfg)
    requires forall i | 0 <= i < |s| && i != j :: s[i].info == ExpiredInfos(was, j, now, cfg)[i]
    ensures Infos(s) == ExpiredInfos(was, j + 1, now, cfg)
  {
    hide TimedOut;
  }

  lemma BlockedApart(g: Globals, l: Shape, k: nat)
    requires Lists(g, l) && k < |l.block|
    ensures Distinct(l.block) && l.block[k] !in l.ready
  {
    Disjoint(l.ready, OnReady, l.block, OnBlock);
  }

  lemma SiftedOne(s: seq<Request>, was: seq<Info>, j: nat, k: nat, l: Shape, l': Shape, f0: FdSets, now: int,
                  cfg: Config)
    requires j < |s| == |was| && k < |l.block| && l.block[k..] == s[j..] && Distinct(s) && Distinct(l.block)
    requires l.block[k] !in l.ready && Sifted(s, was, j, l, f0, now, cfg)
    requires
      if Waits(was[j], f0, now, cfg) then l'.block == l.block && l'.ready == l.ready
      else l'.block == Without(l.block, k) && l'.ready == [l.block[k]] + l.ready
    ensures l'.block[if Waits(was[j], f0, now, cfg) then k + 1 else k..] == s[j + 1..]
    ensures Sifted(s, was, j + 1, l', f0, now, cfg)
  {
    hide Waits;
    var r := l.block[k];
    assert s[j] == s[j..][0] == r && s[j..][1..] == s[j + 1..] && l.block[k..][1..] == l.block[k + 1..];
    WithoutMembers(l.block, k);
  }

  lemma WithoutMembers(s: seq<Request>, k: nat)
    requires k < |s| && Distinct(s)
    ensures s[k] !in Without(s, k) && forall x | x != s[k] :: x in Without(s, k) <==> x in s
    ensures Without(s, k)[k..] == s[k + 1..]
  {
    forall x | x != s[k] && x in s
      ensures x in Without(s, k)
    {
      var i :| 0 <= i < |s| && s[i] == x;
      assert Without(s, k)[if i < k then i else i - 1] == x;
    }
  }

  method UpdateOne(g: Globals, cfg: Config, r: Request, ghost f0: FdSets, ghost l: Shape, ghost k: nat)
    returns (g': Globals, ghost l': Shape, next: Request?, ghost k': nat)
    requires Valid(g, l, cfg) && k < |l.block| && l.block[k] == r
    requires Settled(l.block, k, g.fds, f0, g.now, cfg) && Remaining(l.block, k, g.fds, f0)
    modifies l.block`next, l.block`prev, l.ready`prev, r`place, r`info
    ensures Valid(g', l', cfg) && l'.pool == l.pool && g'.pending == g.pending && g'.now == g.now
    ensures k' <= |l'.block| && next == if k' < |l'.block| then l'.block[k'] else null
    ensures |l'.block| - k' < |l.block| - k
    ensures Settled(l'.block, k', g'.fds, f0, g.now, cfg) && Remaining(l'.block, k', g'.fds, f0)
    ensures r.info == Expired(old(r.info), g.now, cfg)
    ensures
      if old(Waits(r.info, f0, g.now, cfg)) then l' == l && k' == k + 1
      else l'.block == Without(l.block, k) && l'.ready == [r] + l.ready && k' == k
  {
    hide Linked, AllOwn, Owns, TimedOut;
    NextBlocked(g, l, k);
    next := r.next;
    Expire(g, cfg, r, f0, l, k);
    BlockedAsks(g, l, cfg, k);
    var (fd, writing) := Awaited(r.info);
    if r.info.status == Dead || fd in (if writing then g.fds.writeSet else g.fds.readSet) {
      g', l' := Unblock(g, cfg, r, f0, l, k);
      k' := k;
    } else {
      BlockedOwn(g, l, cfg);
      OneMoreSettled(l, k, g.fds, f0, g.now, cfg);
      g' := g.(fds := FdSet(g.fds, fd, writing));
      l', k' := l, k + 1;
    }
  }

  lemma BlockedAsks(g: Globals, l: Shape, cfg: Config, k: nat)
    requires Valid(g, l, cfg) && k < |l.block|
    ensures
      var i := l.block[k].info;
      i.status == Dead || (Calls(i, i.call) && Awaited(i) == (i.call.fd, i.call.writing))
  {
    hide AllOwn, Linked;
  }

  lemma BlockedOwn(g: Globals, l: Shape, cfg: Config)
    requires Valid(g, l, cfg)
    ensures Distinct(l.block) && AllOwn(l.block, l.owner) && AllAsking(l.block)
  {
    hide AllOwn, AllAsking;
  }

  lemma NextBlocked(g: Globals, l: Shape, k: nat)
    requires Lists(g, l) && k < |l.block|
    ensures if k + 1 < |l.block| then l.block[k].next == l.block[k + 1] else l.block[k].next == null
  {
    hide Within;
  }

  /** A request that waited too long is dead. */
  method Expire(g: Globals, cfg: Config, r: Request, ghost f0: FdSets, ghost l: Shape, ghost k: nat)
    requires Valid(g, l, cfg) && k < |l.block| && l.block[k] == r
    requires Settled(l.block, k, g.fds, f0, g.now, cfg) && Remaining(l.block, k, g.fds, f0)
    modifies r`info
    ensures Valid(g, l, cfg)
    ensures Settled(l.block, k, g.fds, f0, g.now, cfg) && Remaining(l.block, k + 1, g.fds, f0)
    ensures r.info == Expired(old(r.info), g.now, cfg)
    ensures r.info == old(r.info) && r.info.status != Dead ==> (InSet(r.info.call, f0) <==> InSet(r.info.call, g.fds))
  {
    hide InSet, TimedOut, Awaited;
    if TimedOut(r.info, g.now, cfg) {
      r.info := r.info.(status := Dead);
    }
  }

  method Unblock(g: Globals, cfg: Config, r: Request, ghost f0: FdSets, ghost l: Shape, ghost k: nat)
    returns (g': Globals, ghost l': Shape)
    requires Valid(g, l, cfg) && k < |l.block| && l.block[k] == r
    requires Settled(l.block, k, g.fds, f0, g.now, cfg) && Remaining(l.block, k + 1, g.fds, f0)
    modifies l.block`next, l.block`prev, l.ready`prev, r`place
    ensures Valid(g', l', cfg) && l'.pool == l.pool && g'.pending == g.pending && g'.now == g.now
    ensures l'.block == Without(l.block, k) && l'.ready == [r] + l.ready
    ensures Settled(l'.block, k, g'.fds, f0, g.now, cfg) && Remaining(l'.block, k, g'.fds, f0)
  {
    BlockedAsks(g, l, cfg, k);
    ghost var c := if r.info.status == Dead then Call(r.info.fd, r.info.bufferEnd != 0) else r.info.call;
    StillSettled(l, k, c, g.fds, f0, g.now, cfg);
    g', l' := ReadyRequest(g, r, l, k);
  }

  lemma OneMoreSettled(l: Shape, k: nat, f: FdSets, f0: FdSets, now: int, cfg: Config)
    requires k < |l.block| && Distinct(l.block) && AllOwn(l.block, l.owner) && AllAsking(l.block)
    requires Settled(l.block, k, f, f0, now, cfg) && Remaining(l.block, k + 1, f, f0)
    requires !InSet(l.block[k].info.call, f0) && !TimedOut(l.block[k].info, now, cfg) && l.block[k].info.status != Dead
    ensures
      var f' := FdSet(f, l.block[k].info.call.fd, l.block[k].info.call.writing);
      Settled(l.block, k + 1, f', f0, now, cfg) && Remaining(l.block, k + 1, f', f0)
  {
    hide TimedOut, Calls;
    forall i | 0 <= i < |l.block| && i != k && l.block[i].info.status != Dead
      ensures l.block[i].info.call.fd != l.block[k].info.call.fd
    {
      AwaitedApart(l.block[i], l.block[k], l.owner);
    }
  }

  lemma StillSettled(l: Shape, k: nat, c: Call, f: FdSets, f0: FdSets, now: int, cfg: Config)
    requires k < |l.block| && Distinct(l.block) && AllOwn(l.block, l.owner) && AllOwn(l.ready, l.owner)
    requires AllAsking(l.block) && Settled(l.block, k, f, f0, now, cfg) && Remaining(l.block, k + 1, f, f0)
    requires var i := l.block[k].info; if i.status == Dead then c.fd == i.fd else c == i.call
    ensures
      var f' := FdClear(f, c.fd, c.writing);
      Settled(Without(l.block, k), k, f', f0, now, cfg) && Remaining(Without(l.block, k), k, f', f0)
    ensures AllOwn(Without(l.block, k), l.owner) && AllOwn([l.block[k]] + l.ready, l.owner)
    ensures AllAsking(Without(l.block, k))
  {
    hide Calls, TimedOut;
    forall i | 0 <= i < |l.block| && i != k && l.block[i].info.status != Dead
      ensures l.block[i].info.call.fd != c.fd
    {
      AwaitedApart(l.block[i], l.block[k], l.owner);
    }
  }

  /** `new_request`, a cleared record off the free list or new, and the assignments to its
      fields that follow at both places it is called from. */
  method NewRequest(g: Globals, info: Info, ghost l: Shape) returns (req: Request, g': Globals, ghost l': Shape)
    requires Lists(g, l)
    modifies l.free`next, l.free`prev, l.free`place, l.free`info
    ensures g' == g.(free := g'.free) && l' == l.(free := l'.free, pool := l'.pool)
    ensures Lists(g', l') && req.place == Off && req.info == info && req in l'.pool
    ensures (req in l.free || fresh(req)) && l'.pool == l.pool + {req}
    ensures |l'.pool| - |l'.free| == |l.pool| - |l.free| + 1
    ensures forall i | 0 <= i < |l.ready| :: l.ready[i].info == old(l.ready[i].info)
    ensures forall i | 0 <= i < |l.block| :: l.block[i].info == old(l.block[i].info)
  {
    hide Linked;
    FreeRecords(g, l);
    g', l' := g, l;
    if g.free != null {
      req := g.free;
      var head := Take(g.free, req, l.free, 0, OnFree, g.ready, l.ready, OnReady, g.block, l.block, OnBlock);
      g', l' := g.(free := head), l.(free := Without(l.free, 0));
      req.info := info;
      assert l.pool + {req} == l.pool;
    } else {
      req := new Request();
      req.info := info;
      l' := l.(pool := l.pool + {req});
    }
  }

  /** The kernel's choice of a descriptor: any that is not open. */
  method Unused(open: set<nat>) returns (fd: nat)
    ensures fd !in open
  {
    ghost var b := Bounded(open);
    assert b !in open;
    fd :| fd !in open;
  }

  lemma FreeRecords(g: Globals, l: Shape)
    requires Lists(g, l)
    ensures g.free != null ==> l.free != [] && l.free[0] == g.free
    ensures g.free == null ==> l.free == []
    ensures forall i | 0 <= i < |l.ready| :: l.ready[i] !in l.free
    ensures forall i | 0 <= i < |l.block| :: l.block[i] !in l.free
  {
    Disjoint(l.free, OnFree, l.ready, OnReady);
    Disjoint(l.free, OnFree, l.block, OnBlock);
  }

  /** What `accept` may give: nobody is there, an error, or a caller on a descriptor that is not
      open yet. Its address may not be had; `reply` is the length of the answer to one too many. */
  datatype Incoming = Nobody | Broken | Caller(fd: nat, usable: bool, reply: nat)

  method Accept(open: set<nat>) returns (i: Incoming)
    ensures i.Caller? ==> i.fd !in open
  {
    var usable: bool, reply: nat := *, *;
    var fd := Unused(open);
    i := Caller(fd, usable, reply);
    if * {
      i := Nobody;
    } else if * {
      i := Broken;
    }
  }

  /** The record of a new connection. */
  function NewConnection(i: Incoming, now: int, cfg: Config): (info: Info)
    requires i.Caller?
    ensures info.fd == i.fd && info.dataFd == info.postDataFd == 0 && info.status !in {PipeRead, BodyWrite}
    ensures info.kacount == cfg.kaMax && info.timeLast == now && !info.logline
    ensures i.fd <= cfg.maxConnections ==> info.status == ReadHeader && info.bufferEnd == 0
    ensures i.fd > cfg.maxConnections ==> info.status == Done && info.bufferEnd == i.reply
  {
    var info := ZERO.(fd := i.fd, kacount := cfg.kaMax, timeLast := now);
    if i.fd > cfg.maxConnections then info.(bufferEnd := i.reply, status := Done) else info
  }

  /** `get_request`: a new connection that can be served goes to the head of the ready list; it
      goes on accepting until nobody is there or there are too many. */
  method GetRequest(g: Globals, cfg: Config, i: Incoming, ghost l: Shape)
    returns (g': Globals, ghost l': Shape, ghost added: seq<Request>)
    requires Valid(g, l, cfg) && (i.Caller? ==> i.fd !in g.open)
    modifies l.pool
    ensures Valid(g', l', cfg) && g'.fds == g.fds
    ensures l.pool <= l'.pool && fresh(l'.pool - l.pool)
    ensures l'.block == l.block && forall i | 0 <= i < |l.block| :: l.block[i].info == old(l.block[i].info)
    ensures forall i | 0 <= i < |l.ready| :: l.ready[i].info == old(l.ready[i].info)
    ensures l'.ready == added + l.ready
    ensures
      if i.Caller? && i.usable && i.fd < cfg.fdSetSize then
        && |added| == 1 && added[0].info == NewConnection(i, g.now, cfg)
        && g'.pending == (g.pending && i.fd <= cfg.maxConnections)
      else
        added == [] && g'.pending == (g.pending && i != Nobody)
  {
    g', l', added := g, l, [];
    match i
    case Nobody => g' := g.(pending := false);
    case Broken =>
    case Caller(fd, usable, _) =>
      if fd >= cfg.fdSetSize || !usable {
        return;  // closed again
      }
      if fd > cfg.maxConnections {
        g' := g'.(pending := false);
      }
      hide Valid;
      g', l', added := Connect(g', cfg, NewConnection(i, g.now, cfg), l);
  }

  method Connect(g: Globals, cfg: Config, info: Info, ghost l: Shape)
    returns (g': Globals, ghost l': Shape, ghost added: seq<Request>)
    requires Valid(g, l, cfg)
    requires info.fd !in g.open && info.dataFd == info.postDataFd == 0 && info.status !in {PipeRead, BodyWrite}
    modifies l.pool
    ensures Valid(g', l', cfg) && g'.fds == g.fds
    ensures l.pool <= l'.pool && fresh(l'.pool - l.pool)
    ensures l'.block == l.block && forall i | 0 <= i < |l.block| :: l.block[i].info == old(l.block[i].info)
    ensures forall i | 0 <= i < |l.ready| :: l.ready[i].info == old(l.ready[i].info)
    ensures l'.ready == added + l.ready && |added| == 1 && added[0].info == info && g'.pending == g.pending
  {
    hide Owns, Linked;
    var conn, g1, l1 := NewRequest(g, info, l);
    g', l' := Admit(g1, cfg, conn, l1);
    added := [conn];
  }

  method Admit(g: Globals, cfg: Config, conn: Request, ghost l: Shape)
    returns (g': Globals, ghost l': Shape)
    requires Lists(g, l) && conn.place == Off && conn in l.pool
    requires g.total == |l.ready| + |l.block| && |l.pool| == |l.ready| + |l.block| + |l.free| + 1
    requires Descriptors(g.open, l, cfg) && conn.info.fd !in g.open
    requires conn.info.dataFd == conn.info.postDataFd == 0 && conn.info.status !in {PipeRead, BodyWrite}
    modifies conn`next, conn`prev, conn`place, l.ready`prev
    ensures Valid(g', l', cfg) && g'.fds == g.fds && g'.pending == g.pending
    ensures l' == l.(ready := [conn] + l.ready, owner := l.owner[conn.info.fd := (conn, Client)])
  {
    l' := l.(ready := [conn] + l.ready, owner := l.owner[conn.info.fd := (conn, Client)]);
    NewOwner(g.open, l, l', cfg, conn);
    var head := Put(g.ready, conn, l.ready, OnReady, g.block, l.block, OnBlock, g.free, l.free, OnFree);
    g' := g.(ready := head, total := g.total + 1, open := g.open + {conn.info.fd});
  }

  lemma Elsewhere(r: Request, s: seq<Request>, p: Place)
    requires r.place != p && forall i | 0 <= i < |s| :: s[i].place == p
    ensures forall i | 0 <= i < |s| :: s[i] != r
  {}

  lemma NewOwner(open: set<nat>, l: Shape, l': Shape, cfg: Config, conn: Request)
    requires Descriptors(open, l, cfg) && conn.info.fd !in open
    requires conn.info.dataFd == conn.info.postDataFd == 0 && conn.info.status !in {PipeRead, BodyWrite}
    requires l' == l.(ready := [conn] + l.ready, owner := l.owner[conn.info.fd := (conn, Client)])
    ensures Descriptors(open + {conn.info.fd}, l', cfg)
  {}

  /** `free_request`, called for a request on the ready list. A request with output left to
      send is only marked; any other gives way to the next one on its connection, or closes. */
  method FreeRequest(g: Globals, cfg: Config, r: Request, ghost l: Shape, ghost k: nat)
    returns (g': Globals, ghost l': Shape, ghost added: seq<Request>)
    requires Valid(g, l, cfg) && k < |l.ready| && l.ready[k] == r
    modifies l.pool
    ensures Valid(g', l', cfg) && g'.pending == g.pending
    ensures l.pool <= l'.pool && fresh(l'.pool - l.pool)
    ensures forall i | 0 <= i < |l.block| :: l.block[i].info == old(l.block[i].info)
    ensures l'.block == added + l.block
    ensures g'.fds == if added == [] then g.fds else FdSet(g.fds, added[0].info.fd, false)
    ensures
      var i := old(r.info);
      if i.bufferEnd != 0 && i.status != Dead then
        added == [] && l'.ready == l.ready && r.info == i.(status := Done)
      else
        && l'.ready == Without(l.ready, k)
        && if KeepsAlive(i) then |added| == 1 && added[0].info == NextOn(i) else added == []
  {
    assert r in l.pool;
    hide Valid;
    if r.info.bufferEnd != 0 && r.info.status != Dead {
      added := [];
      g', l' := Defer(g, cfg, r, l, k);
    } else {
      g', l', added := Release(g, cfg, r, l, k);
    }
  }

  predicate KeepsAlive(i: Info) {
    i.keepalive == Active && i.responseStatus < 500 && i.kacount > 0
  }

  method Release(g: Globals, cfg: Config, r: Request, ghost l: Shape, ghost k: nat)
    returns (g': Globals, ghost l': Shape, ghost added: seq<Request>)
    requires Valid(g, l, cfg) && k < |l.ready| && l.ready[k] == r
    modifies l.pool
    ensures Valid(g', l', cfg) && g'.pending == g.pending
    ensures l.pool <= l'.pool && fresh(l'.pool - l.pool)
    ensures forall i | 0 <= i < |l.block| :: l.block[i].info == old(l.block[i].info)
    ensures l'.ready == Without(l.ready, k) && l'.block == added + l.block
    ensures g'.fds == if added == [] then g.fds else FdSet(g.fds, added[0].info.fd, false)
    ensures if KeepsAlive(old(r.info)) then |added| == 1 && added[0].info == NextOn(old(r.info)) else added == []
  {
    assert r in l.pool && Within(l.ready, l.pool) && Within(l.free, l.pool);
    hide Valid, Retired;
    added := [];
    g', l' := Retire(g, cfg, r, l, k);
    if KeepsAlive(r.info) {
      g', l', added := Succeed(g', cfg, r, l');
    } else {
      g', l' := Close(g', cfg, r, l');
    }
  }

  /** The record of the next request on a kept connection. */
  function NextOn(i: Info): Info {
    ZERO.(fd := i.fd, kacount := i.kacount - 1, timeLast := i.timeLast, call := Call(i.fd, false))
  }

  method Defer(g: Globals, cfg: Config, r: Request, ghost l: Shape, ghost k: nat)
    returns (g': Globals, ghost l': Shape)
    requires Valid(g, l, cfg) && k < |l.ready| && l.ready[k] == r
    modifies r`info
    ensures Valid(g', l', cfg) && l' == l && g' == g && r.info == old(r.info).(status := Done)
    ensures forall i | 0 <= i < |l.block| :: l.block[i].info == old(l.block[i].info)
  {
    Disjoint(l.ready, OnReady, l.block, OnBlock);
    r.info := r.info.(status := Done);
    g', l' := g, l;
  }

  /** A retired request is on no list and owns only its connection. */
  ghost predicate Retired(r: Request, g: Globals, l: Shape, cfg: Config)
    reads l.ready, l.block, l.free, r
  {
    && Lists(g, l) && Descriptors(g.open, l, cfg) && r.place == Off && r in l.pool
    && g.total == |l.ready| + |l.block| + 1 && |l.pool| == |l.ready| + |l.block| + |l.free| + 1
    && r.info.fd in l.owner && l.owner[r.info.fd] == (r, Client) && r.info.fd != 0
  }

  method Retire(g: Globals, cfg: Config, r: Request, ghost l: Shape, ghost k: nat)
    returns (g': Globals, ghost l': Shape)
    requires Valid(g, l, cfg) && k < |l.ready| && l.ready[k] == r
    modifies l.ready`next, l.ready`prev, r`place
    ensures Retired(r, g', l', cfg)
    ensures l'.ready == Without(l.ready, k) && l'.block == l.block && l'.free == l.free && l'.pool == l.pool
    ensures g'.fds == g.fds && g'.pending == g.pending && g'.total == g.total
  {
    var closed := {r.info.dataFd, r.info.postDataFd} - {0};
    ghost var ready := Without(l.ready, k);
    Disjoint(l.ready, OnReady, l.block, OnBlock);
    ReleaseOwner(ready, l.owner, closed, r);
    ReleaseOwner(l.block, l.owner, closed, r);
    var head := Take(g.ready, r, l.ready, k, OnReady, g.block, l.block, OnBlock, g.free, l.free, OnFree);
    g' := g.(ready := head, open := g.open - closed);
    l' := l.(ready := ready, owner := l.owner - closed);
  }

  lemma ReleaseOwner(s: seq<Request>, owner: map<nat, (Request, Role)>, closed: set<nat>, r: Request)
    requires AllOwn(s, owner) && forall i | 0 <= i < |s| :: s[i] != r
    requires forall fd | fd in closed && fd in owner :: owner[fd].0 == r
    ensures AllOwn(s, owner - closed)
  {}

  /** The connection is closed. */
  method Close(g: Globals, cfg: Config, r: Request, ghost l: Shape) returns (g': Globals, ghost l': Shape)
    requires Retired(r, g, l, cfg)
    modifies r`next, r`prev, r`place, l.free`prev
    ensures Valid(g', l', cfg) && g'.fds == g.fds && g'.pending == g.pending && g'.total == g.total - 1
    ensures l'.ready == l.ready && l'.block == l.block && l'.pool == l.pool
  {
    Elsewhere(r, l.ready, OnReady);
    Elsewhere(r, l.block, OnBlock);
    ReleaseOwner(l.ready, l.owner, {r.info.fd}, r);
    ReleaseOwner(l.block, l.owner, {r.info.fd}, r);
    var head := Put(g.free, r, l.free, OnFree, g.ready, l.ready, OnReady, g.block, l.block, OnBlock);
    g' := g.(free := head, total := g.total - 1, open := g.open - {r.info.fd});
    l' := l.(free := [r] + l.free, owner := l.owner - {r.info.fd});
  }

  /** Its next request takes over: a record on the blocked list, waiting to read. */
  method Succeed(g: Globals, cfg: Config, r: Request, ghost l: Shape)
    returns (g': Globals, ghost l': Shape, ghost added: seq<Request>)
    requires Retired(r, g, l, cfg)
    modifies l.pool
    ensures Valid(g', l', cfg) && g'.pending == g.pending && g'.total == g.total
    ensures l.pool <= l'.pool && fresh(l'.pool - l.pool)
    ensures l'.ready == l.ready && l'.block == added + l.block && |added| == 1 && added[0].info == NextOn(old(r.info))
    ensures forall i | 0 <= i < |l.block| :: l.block[i].info == old(l.block[i].info)
    ensures g'.fds == FdSet(g.fds, old(r.info.fd), false)
  {
    hide Linked, Lists, Owns;
    OnNoList(g, l, r);
    var conn, g1, l1 := NewRequest(g, NextOn(r.info), l);
    HandOver(g.open, l, cfg, r, conn);
    OnNoList(g1, l1, conn);
    g', l' := Install(g1, cfg, r, conn, l1);
    added := [conn];
  }

  lemma OnNoList(g: Globals, l: Shape, r: Request)
    requires Lists(g, l) && r.place == Off
    ensures forall i | 0 <= i < |l.ready| :: l.ready[i] != r
    ensures forall i | 0 <= i < |l.block| :: l.block[i] != r
    ensures forall i | 0 <= i < |l.free| :: l.free[i] != r
    ensures Within(l.free, l.pool) && Within(l.block, l.pool)
  {
    Elsewhere(r, l.ready, OnReady);
    Elsewhere(r, l.block, OnBlock);
    Elsewhere(r, l.free, OnFree);
  }

  lemma HandOver(open: set<nat>, l: Shape, cfg: Config, r: Request, conn: Request)
    requires Descriptors(open, l, cfg) && r.info.fd in l.owner && l.owner[r.info.fd].0 == r
    requires forall i | 0 <= i < |l.ready| :: l.ready[i] != r
    requires forall i | 0 <= i < |l.block| :: l.block[i] != r
    ensures Descriptors(open, l.(owner := l.owner[r.info.fd := (conn, Client)]), cfg)
  {}

  method Install(g: Globals, cfg: Config, r: Request, conn: Request, ghost l: Shape)
    returns (g': Globals, ghost l': Shape)
    requires Lists(g, l) && r.place == Off && conn.place == Off && r != conn && r in l.pool && conn in l.pool
    requires conn.info == NextOn(r.info) && r.info.fd != 0
    requires g.total == |l.ready| + |l.block| + 1 && |l.pool| == |l.ready| + |l.block| + |l.free| + 2
    requires r.info.fd in l.owner
    requires Descriptors(g.open, l.(owner := l.owner[r.info.fd := (conn, Client)]), cfg)
    modifies r`next, r`prev, r`place, conn`next, conn`prev, conn`place, l.free`prev, l.block`prev
    ensures Valid(g', l', cfg) && g'.pending == g.pending && g'.total == g.total
    ensures g'.fds == FdSet(g.fds, conn.info.fd, false)
    ensures l'.ready == l.ready && l'.block == [conn] + l.block && l'.pool == l.pool
  {
    hide Linked, AllOwn;
    ghost var owner := l.owner[r.info.fd := (conn, Client)];
    assert Owns(conn, owner);
    var block := Put(g.block, conn, l.block, OnBlock, g.ready, l.ready, OnReady, g.free, l.free, OnFree);
    ghost var blocked := [conn] + l.block;
    var free := Put(g.free, r, l.free, OnFree, g.ready, l.ready, OnReady, block, blocked, OnBlock);
    g' := g.(block := block, free := free, fds := FdSet(g.fds, conn.info.fd, false));
    l' := l.(block := blocked, free := [r] + l.free, owner := owner);
    OneMoreOwns(conn, l.block, owner);
  }

  lemma OneMoreOwns(r: Request, s: seq<Request>, owner: map<nat, (Request, Role)>)
    requires Owns(r, owner) && AllOwn(s, owner)
    ensures AllOwn([r] + s, owner)
  {
    hide Owns;
  }

  // ---- The pass over the ready list

  /** A request handler (or `req_flush`). When its system call blocks, it answers -1 and leaves
      the record as it is; only `read_header` may have gone through some lines first. Otherwise it
      may open and close the descriptors behind a response, set any status they allow, and return
      anything else. */
  method Handle(g: Globals, cfg: Config, r: Request, ghost l: Shape, ghost k: nat)
    returns (retval: int, g': Globals, ghost l': Shape)
    requires Valid(g, l, cfg) && k < |l.ready| && l.ready[k] == r
    modifies r`info
    ensures Valid(g', l', cfg) && g' == g.(open := g'.open) && l' == l.(owner := l'.owner)
    ensures AllArmed(l.block, g.fds) == old(AllArmed(l.block, g.fds))
    ensures forall x | x in l.block :: x.info == old(x.info)
    ensures retval == -1 ==> Calls(old(r.info), r.info.call) && Calls(r.info, r.info.call)
  {
    hide Valid, AllArmed, Calls;
    var blocked, i := SystemCall(r.info);
    if blocked {
      retval, g', l' := -1, g, l;
      Pause(g, cfg, r, i, l, k);
    } else {
      retval, g', l' := Proceed(g, cfg, r, l, k);
    }
  }

  method Pause(g: Globals, cfg: Config, r: Request, i: Info, ghost l: Shape, ghost k: nat)
    requires Valid(g, l, cfg) && k < |l.ready| && l.ready[k] == r
    requires i.fd == r.info.fd && i.dataFd == r.info.dataFd && i.postDataFd == r.info.postDataFd
    requires i.status == r.info.status || {r.info.status, i.status} <= {ReadHeader, OneCr, OneLf, TwoCr}
    modifies r`info
    ensures Valid(g, l, cfg) && r.info == i
    ensures AllArmed(l.block, g.fds) == old(AllArmed(l.block, g.fds))
    ensures forall x | x in l.block :: x.info == old(x.info)
  {
    hide Linked, Armed, Calls, Within;
    NotBlocked(g, l, r, k);
    r.info := i;
    assert Owns(r, l.owner);
  }

  method Proceed(g: Globals, cfg: Config, r: Request, ghost l: Shape, ghost k: nat)
    returns (retval: int, g': Globals, ghost l': Shape)
    requires Valid(g, l, cfg) && k < |l.ready| && l.ready[k] == r
    modifies r`info
    ensures Valid(g', l', cfg) && g' == g.(open := g'.open) && l' == l.(owner := l'.owner) && retval != -1
    ensures AllArmed(l.block, g.fds) == old(AllArmed(l.block, g.fds))
    ensures forall x | x in l.block :: x.info == old(x.info)
  {
    hide Linked, OnlyOf, Armed, Calls, Within;
    NotBlocked(g, l, r, k);
    var i, open;
    ghost var owner;
    retval, i, open, owner := Answer(g.open, g.now, cfg, r, l);
    g', l' := g.(open := open), l.(owner := owner);
    Rearranged(g.open, l, cfg, r, open, owner);
    r.info := i;
    assert Owns(r, owner);
  }

  /** The dispatch of `process_requests`, up to the system call of the handler. */
  method SystemCall(i: Info) returns (blocked: bool, i': Info)
    ensures blocked ==> Calls(i, i'.call) && Calls(i', i'.call)
    ensures blocked ==> i'.fd == i.fd && i'.dataFd == i.dataFd && i'.postDataFd == i.postDataFd
    ensures blocked ==> i'.status == i.status || {i.status, i'.status} <= {ReadHeader, OneCr, OneLf, TwoCr}
  {
    blocked, i' := *, i;
    if i.bufferEnd != 0 && i.status != Dead && i.status != Done {
      i' := i.(call := Call(i.fd, true));
    } else {
      match i.status {
        case ReadHeader | OneCr | OneLf | TwoCr =>
          var status: Status, logline: bool, keepalive: KeepAlive := *, *, *;
          i' := i.(status := if status in {OneCr, OneLf, TwoCr} then status else ReadHeader,
                   logline := i.logline || logline, keepalive := keepalive, call := Call(i.fd, false));
        case BodyRead => i' := i.(call := Call(i.fd, false));
        case BodyWrite => i' := i.(call := Call(i.postDataFd, true));
        case Write => i' := i.(call := Call(i.fd, true));
        case PipeRead => i' := i.(call := Call(i.dataFd, false));
        case PipeWrite => i' := i.(call := Call(i.fd, true));
        case Done => i' := i.(call := Call(i.fd, true));
        case Dead => blocked := false;
      }
    }
  }

  lemma NotBlocked(g: Globals, l: Shape, r: Request, k: nat)
    requires Lists(g, l) && k < |l.ready| && l.ready[k] == r
    ensures forall i | 0 <= i < |l.block| :: l.block[i] != r
  {
    Elsewhere(r, l.block, OnBlock);
  }

  method Answer(open: set<nat>, now: int, cfg: Config, r: Request, ghost l: Shape)
    returns (retval: int, i: Info, open': set<nat>, ghost owner: map<nat, (Request, Role)>)
    requires Descriptors(open, l, cfg) && Holds(r, r.info, l.owner)
    ensures Holds(r, i, owner) && OnlyOf(r, l.owner, owner)
    ensures (i.status == PipeRead ==> i.dataFd != 0) && (i.status == BodyWrite ==> i.postDataFd != 0)
    ensures owner.Keys <= open' && 0 in open' && cfg.serverFd in open' && 0 !in owner && cfg.serverFd !in owner
    ensures retval != -1
  {
    var open1, open2;
    ghost var owner1, owner2;
    i, open1, owner1 := Reopen(r, r.info, open, l.owner, Data, cfg);
    i, open2, owner2 := Reopen(r, i, open1, owner1, PostData, cfg);
    var status: Status := *;
    var bufferEnd: nat := *;
    var keepalive: KeepAlive := *;
    var responseStatus: nat := *;
    var logline: bool := *;
    retval :| retval != -1;
    var timeLast := if retval == 0 || retval == 1 then now else i.timeLast;
    if (status == PipeRead && i.dataFd == 0) || (status == BodyWrite && i.postDataFd == 0) {
      status := Done;
    }
    i := i.(status := status, bufferEnd := bufferEnd, keepalive := keepalive,
            responseStatus := responseStatus, logline := logline, timeLast := timeLast);
    open', owner := open2, owner2;
  }

  /** Only what `r` owns has changed. */
  ghost predicate OnlyOf(r: Request, owner: map<nat, (Request, Role)>, owner': map<nat, (Request, Role)>) {
    && (forall fd | fd in owner :: owner[fd].0 == r || (fd in owner' && owner'[fd] == owner[fd]))
    && (forall fd | fd in owner' :: owner'[fd].0 == r || (fd in owner && owner'[fd] == owner[fd]))
  }

  ghost predicate Holds(r: Request, i: Info, owner: map<nat, (Request, Role)>) {
    && i.fd != 0 && i.fd in owner && owner[i.fd] == (r, Client)
    && (i.dataFd != 0 ==> i.dataFd in owner && owner[i.dataFd] == (r, Data))
    && (i.postDataFd != 0 ==> i.postDataFd in owner && owner[i.postDataFd] == (r, PostData))
  }

  /** Close and open a descriptor, or not. */
  method Reopen(r: Request, i: Info, open: set<nat>, ghost owner: map<nat, (Request, Role)>, role: Role, cfg: Config)
    returns (i': Info, open': set<nat>, ghost owner': map<nat, (Request, Role)>)
    requires role != Client && Holds(r, i, owner)
    requires owner.Keys <= open && 0 in open && cfg.serverFd in open && 0 !in owner && cfg.serverFd !in owner
    ensures Holds(r, i', owner') && OnlyOf(r, owner, owner') && i'.fd == i.fd
    ensures owner'.Keys <= open' && 0 in open' && cfg.serverFd in open' && 0 !in owner' && cfg.serverFd !in owner'
  {
    i', open', owner' := i, open, owner;
    var current := if role == Data then i.dataFd else i.postDataFd;
    if * {
      return;
    }
    if current != 0 {
      open', owner' := open - {current}, owner - {current};
    }
    var fd := 0;
    if * {
      fd := Unused(open');
      open', owner' := open' + {fd}, owner'[fd := (r, role)];
    }
    i' := if role == Data then i.(dataFd := fd) else i.(postDataFd := fd);
  }

  lemma Rearranged(open: set<nat>, l: Shape, cfg: Config, r: Request, open': set<nat>, owner: map<nat, (Request, Role)>)
    requires Descriptors(open, l, cfg) && OnlyOf(r, l.owner, owner)
    ensures forall i | 0 <= i < |l.ready| && l.ready[i] != r :: Owns(l.ready[i], owner)
    ensures forall i | 0 <= i < |l.block| && l.block[i] != r :: Owns(l.block[i], owner)
  {}

  /** The records still to be visited after the one at `k` are the same as before. */
  ghost predicate SameTail(s: seq<Request>, k: nat, s': seq<Request>, k': nat) {
    k < |s| && k' <= |s'| && s'[k'..] == s[k + 1..]
  }

  ghost predicate At(s: seq<Request>, k: nat, r: Request?) {
    k <= |s| && r == if k < |s| then s[k] else null
  }

  /** Where a visited request is, after its handler's answer: on the blocked list, gone from the
      ready list or marked as done, or where it was. */
  ghost predicate Placed(answer: int, r: Request, l: Shape, blocked: seq<Request>)
    reads r`info
  {
    if answer == -1 then l.block == [r] + blocked
    else if answer == 0 then
      r in l.ready ==> l.block == blocked && r.info.status == Done && r.info.bufferEnd != 0
    else l.block == blocked && r in l.ready
  }

  /** One round of the walk in `process_requests`. */
  method VisitOne(g: Globals, cfg: Config, current: Request, ghost l: Shape, ghost k: nat)
    returns (g': Globals, ghost l': Shape, next: Request?, ghost k': nat, ghost answer: int)
    requires Valid(g, l, cfg) && k < |l.ready| && l.ready[k] == current && AllArmed(l.block, g.fds)
    modifies l.pool
    ensures Valid(g', l', cfg) && l.pool <= l'.pool && fresh(l'.pool - l.pool)
    ensures SameTail(l.ready, k, l'.ready, k') && At(l'.ready, k', next)
    ensures AllArmed(l'.block, g'.fds) && Placed(answer, current, l', l.block)
    ensures AllIn(l.block, l'.block) && forall x | x in l.block :: x.info == old(x.info)
  {
    hide *;
    var retval, g1;
    ghost var l1, added;
    retval, g1, l1, added := Serve(g, cfg, current, l, k);
    Shifted(l.ready, k, l1.ready, added);
    g', l', next, k' := Dispose(g1, cfg, retval, current, l1, k + |added|);
    TailShifted(l.ready, k, added, l'.ready, k');
    answer := retval;
  }

  /** Its handler runs, and a pending connection is accepted. */
  method Serve(g: Globals, cfg: Config, current: Request, ghost l: Shape, ghost k: nat)
    returns (retval: int, g': Globals, ghost l': Shape, ghost added: seq<Request>)
    requires Valid(g, l, cfg) && k < |l.ready| && l.ready[k] == current && AllArmed(l.block, g.fds)
    modifies l.pool
    ensures Valid(g', l', cfg) && l.pool <= l'.pool && fresh(l'.pool - l.pool)
    ensures AllArmed(l'.block, g'.fds) && l'.ready == added + l.ready && l'.block == l.block
    ensures forall x | x in l.block :: x.info == old(x.info)
    ensures retval == -1 ==> Calls(current.info, current.info.call)
  {
    assert current in l.pool;
    var now: int := *;  // time
    g' := g.(now := now);
    hide *;
    ghost var l1;
    retval, g', l1 := Handle(g', cfg, current, l, k);
    g', l', added := Poll(g', cfg, l1);
  }

  lemma TailShifted(s: seq<Request>, k: nat, added: seq<Request>, s': seq<Request>, k': nat)
    requires k < |s| && SameTail(added + s, k + |added|, s', k')
    ensures SameTail(s, k, s', k')
  {
    Shifted(s, k, added + s, added);
  }

  /** `get_request` when connections are pending. */
  method Poll(g: Globals, cfg: Config, ghost l: Shape)
    returns (g': Globals, ghost l': Shape, ghost added: seq<Request>)
    requires Valid(g, l, cfg) && AllArmed(l.block, g.fds)
    modifies l.pool
    ensures Valid(g', l', cfg) && AllArmed(l'.block, g'.fds)
    ensures l.pool <= l'.pool && fresh(l'.pool - l.pool)
    ensures l'.ready == added + l.ready && |added| <= (if g.pending then 1 else 0) && At(l'.ready, 0, g'.ready)
    ensures l'.block == l.block && forall i | 0 <= i < |l.block| :: l.block[i].info == old(l.block[i].info)
    ensures forall i | 0 <= i < |l.ready| :: l.ready[i].info == old(l.ready[i].info)
  {
    hide AllOwn, Armed, Counts, Within;
    g', l', added := g, l, [];
    if g.pending {
      var incoming := Accept(g.open);
      g', l', added := GetRequest(g, cfg, incoming, l);
    }
  }

  lemma Shifted(s: seq<Request>, k: nat, s': seq<Request>, added: seq<Request>)
    requires s' == added + s && k < |s|
    ensures s'[k + |added|] == s[k] && s'[k + |added| + 1..] == s[k + 1..]
  {}

  /** Where the request goes: to the blocked list, away, or nowhere. */
  method Dispose(g: Globals, cfg: Config, retval: int, current: Request, ghost l: Shape, ghost k: nat)
    returns (g': Globals, ghost l': Shape, next: Request?, ghost k': nat)
    requires Valid(g, l, cfg) && k < |l.ready| && l.ready[k] == current && AllArmed(l.block, g.fds)
    requires retval == -1 ==> Calls(current.info, current.info.call)
    modifies l.pool
    ensures Valid(g', l', cfg) && l.pool <= l'.pool && fresh(l'.pool - l.pool)
    ensures SameTail(l.ready, k, l'.ready, k') && At(l'.ready, k', next)
    ensures AllArmed(l'.block, g'.fds) && Placed(retval, current, l', l.block)
    ensures AllIn(l.block, l'.block) && forall x | x in l.block :: x.info == old(x.info)
  {
    next := current.next;
    assert At(l.ready, k + 1, next);
    hide Valid, AllArmed;
    if retval == -1 {
      g', l' := BlockOne(g, cfg, current, l, k);
      k' := k;
      AfterRemoval(l.ready, k);
    } else if retval == 0 {
      g', l', k' := FreeOne(g, cfg, current, l, k);
    } else {
      g', l', k' := g, l, k + 1;
    }
  }

  lemma AfterRemoval(s: seq<Request>, k: nat)
    requires k < |s|
    ensures SameTail(s, k, Without(s, k), k)
    ensures k + 1 < |s| ==> Without(s, k)[k] == s[k + 1]
  {}

  method BlockOne(g: Globals, cfg: Config, r: Request, ghost l: Shape, ghost k: nat)
    returns (g': Globals, ghost l': Shape)
    requires Valid(g, l, cfg) && k < |l.ready| && l.ready[k] == r && AllArmed(l.block, g.fds)
    requires Calls(r.info, r.info.call)
    modifies l.pool`next, l.pool`prev, l.pool`place
    ensures Valid(g', l', cfg) && l'.pool == l.pool && l'.ready == Without(l.ready, k) && l'.block == [r] + l.block
    ensures AllArmed(l'.block, g'.fds)
  {
    NowBlocked(l, k, g.fds);
    g', l' := BlockRequest(g, r, l, k);
  }

  lemma NowBlocked(l: Shape, k: nat, f: FdSets)
    requires k < |l.ready| && AllOwn(l.ready, l.owner) && AllOwn(l.block, l.owner) && AllArmed(l.block, f)
    requires AllAsking(l.block) && Calls(l.ready[k].info, l.ready[k].info.call)
    ensures AllOwn(Without(l.ready, k), l.owner) && AllOwn([l.ready[k]] + l.block, l.owner)
    ensures AllAsking([l.ready[k]] + l.block)
    ensures AllArmed([l.ready[k]] + l.block, FdSet(f, l.ready[k].info.call.fd, l.ready[k].info.call.writing))
  {}

  method FreeOne(g: Globals, cfg: Config, r: Request, ghost l: Shape, ghost k: nat)
    returns (g': Globals, ghost l': Shape, ghost k': nat)
    requires Valid(g, l, cfg) && k < |l.ready| && l.ready[k] == r && AllArmed(l.block, g.fds)
    modifies l.pool
    ensures Valid(g', l', cfg) && l.pool <= l'.pool && fresh(l'.pool - l.pool)
    ensures SameTail(l.ready, k, l'.ready, k')
    ensures AllArmed(l'.block, g'.fds) && Placed(0, r, l', l.block)
    ensures AllIn(l.block, l'.block) && forall x | x in l.block :: x.info == old(x.info)
  {
    assert Distinct(l.ready);
    hide Valid;
    ghost var stays := r.info.bufferEnd != 0 && r.info.status != Dead;
    ghost var added;
    g', l', added := FreeRequest(g, cfg, r, l, k);
    k' := if stays then k + 1 else k;
    AfterRemoval(l.ready, k);
    Removed(l.ready, k);
    StillArmed(l.block, added, g.fds);
    assert added == [] ==> added + l.block == l.block;
  }

  lemma Removed(s: seq<Request>, k: nat)
    requires k < |s| && Distinct(s)
    ensures s[k] !in Without(s, k)
  {}

  lemma StillArmed(s: seq<Request>, added: seq<Request>, f: FdSets)
    requires AllArmed(s, f) && |added| <= 1
    requires added != [] ==> added[0].info.call == Call(added[0].info.fd, false) && added[0].info.status != Dead
    ensures AllArmed(added + s, if added == [] then f else FdSet(f, added[0].info.fd, false))
  {}

  /** `process_requests`: the walk visits exactly the requests that were ready when it began,
      each once and in order, whatever happens to them and whoever joins meanwhile. */
  method ProcessRequests(g0: Globals, cfg: Config, ghost l0: Shape)
    returns (g: Globals, ghost l: Shape, ghost visited: seq<Request>)
    requires Valid(g0, l0, cfg) && AllArmed(l0.block, g0.fds)
    modifies l0.pool
    ensures Valid(g, l, cfg) && l0.pool <= l.pool && fresh(l.pool - l0.pool)
    ensures exists added: seq<Request> :: |added| <= 1 && visited == added + l0.ready
    ensures AllArmed(l.block, g.fds)
    ensures AllIn(l0.block, l.block) && forall x | x in l0.block :: x.info == old(x.info)
  {
    ghost var added;
    hide Valid, AllArmed;
    g, l, added := Poll(g0, cfg, l0);
    ghost var start := l.ready;
    visited := [];
    var current := g.ready;
    ghost var k: nat := 0;
    while current != null
      invariant Valid(g, l, cfg) && l0.pool <= l.pool && fresh(l.pool - l0.pool)
      invariant At(l.ready, k, current)
      invariant visited + l.ready[k..] == start
      invariant AllArmed(l.block, g.fds)
      invariant AllIn(l0.block, l.block) && forall x | x in l0.block :: x.info == old(x.info)
      decreases |l.ready| - k
    {
      VisitedOne(visited, l.ready, k);
      visited := visited + [l.ready[k]];
      ghost var answer;
      g, l, current, k, answer := VisitOne(g, cfg, current, l, k);
    }
    assert visited == start;
  }

  lemma VisitedOne(visited: seq<Request>, s: seq<Request>, k: nat)
    requires k < |s|
    ensures visited + s[k..] == (visited + [s[k]]) + s[k + 1..]
  {}

  // ---- select_loop

  /** One turn of `select_loop` up to the call of `select`: every blocked request is watched
      for, on the descriptor it waits for; and one that `select` did not report, and whose time is
      not up, stays as it is. */
  method Turn(g0: Globals, cfg: Config, terminating: bool, ghost l0: Shape)
    returns (g: Globals, ghost l: Shape, ghost visited: seq<Request>)
    requires Valid(g0, l0, cfg)
    modifies l0.pool
    ensures Valid(g, l, cfg) && l0.pool <= l.pool && fresh(l.pool - l0.pool)
    ensures AllArmed(l.block, g.fds)
    ensures !terminating && g.total < cfg.maxConnections - 10 ==>
      cfg.serverFd in g.fds.readSet && cfg.serverFd <= g.fds.maxFd
    ensures forall r | r in l0.block && old(Waits(r.info, g0.fds, g0.now, cfg)) :: r in l.block && r.info == old(r.info)
    ensures forall r | r in l0.block && old(InSet(r.info.call, g0.fds)) :: r in visited
  {
    hide Valid, AllArmed, Waits, InSet;
    g, l := Update(g0, cfg, l0);
    g, l, visited := ProcessRequests(g, cfg, l);
    if !terminating && g.total < cfg.maxConnections - 10 {
      MoreWatched(g, l, cfg);
      g := g.(fds := FdSet(g.fds, cfg.serverFd, false));
    }
  }

  lemma MoreWatched(g: Globals, l: Shape, cfg: Config)
    requires Valid(g, l, cfg) && AllArmed(l.block, g.fds)
    ensures
      var f := FdSet(g.fds, cfg.serverFd, false);
      Valid(g.(fds := f), l, cfg) && AllArmed(l.block, f)
  {
    hide Linked, AllOwn;
  }

  /** `fdset_update`, if anything is blocked. */
  method Update(g0: Globals, cfg: Config, ghost l0: Shape) returns (g: Globals, ghost l: Shape)
    requires Valid(g0, l0, cfg)
    modifies l0.pool
    ensures Valid(g, l, cfg) && l.pool == l0.pool && AllArmed(l.block, g.fds)
    ensures forall r | r in l0.block && old(Waits(r.info, g0.fds, g0.now, cfg)) :: r in l.block && r.info == old(r.info)
    ensures forall r | r in l0.block && old(InSet(r.info.call, g0.fds)) :: r in l.ready
  {
    hide Settled, Sifted, Waits, AllArmed, AllOwn, Linked, AllAsking;
    ghost var was := Infos(l0.block);
    NoneBlocked(g0, l0);
    g, l := g0.(fds := g0.fds.(maxFd := -1)), l0;
    if g.block != null {
      g, l := FdsetUpdate(g, cfg, l);
      SettledArmed(l.block, g.fds, g0.fds.(maxFd := -1), g0.now, cfg);
      Stayed(l0.block, was, l, g0.fds, g0.now, cfg);
    }
  }

  lemma NoneBlocked(g: Globals, l: Shape)
    requires Lists(g, l)
    ensures g.block == null ==> l.block == [] && forall f :: AllArmed(l.block, f)
  {}

  lemma SettledArmed(s: seq<Request>, f: FdSets, f0: FdSets, now: int, cfg: Config)
    requires Settled(s, |s|, f, f0, now, cfg)
    ensures AllArmed(s, f)
  {
    hide Armed;
  }

  lemma Stayed(s: seq<Request>, was: seq<Info>, l: Shape, f0: FdSets, now: int, cfg: Config)
    requires |was| == |s| && Sifted(s, was, |s|, l, f0.(maxFd := -1), now, cfg)
    requires Infos(s) == ExpiredInfos(was, |s|, now, cfg)
    ensures forall i | 0 <= i < |s| && Waits(was[i], f0, now, cfg) :: s[i] in l.block && s[i].info == was[i]
    ensures forall i | 0 <= i < |s| && InSet(was[i].call, f0) :: s[i] in l.ready
  {
    hide TimedOut;
    forall i | 0 <= i < |s| && Waits(was[i], f0, now, cfg)
      ensures s[i] in l.block && s[i].info == was[i]
    {
      assert Infos(s)[i] == s[i].info;
    }
  }

  /** Any number of turns: whatever `select` answers, no wake-up is lost. */
  method SelectLoop(g0: Globals, cfg: Config, turns: nat, ghost l0: Shape) returns (g: Globals, ghost l: Shape)
    requires Valid(g0, l0, cfg)
    modifies l0.pool
    ensures Valid(g, l, cfg) && (turns > 0 ==> AllArmed(l.block, g.fds))
  {
    g, l := g0, l0;
    for turn := 0 to turns
      invariant Valid(g, l, cfg) && l0.pool <= l.pool && fresh(l.pool - l0.pool)
      invariant turn > 0 ==> AllArmed(l.block, g.fds)
    {
      var readable: set<nat>, writable: set<nat>, terminating: bool, interrupted: bool, now: int := *, *, *, *, *;
      g := g.(fds := FdSets(readable, writable, g.fds.maxFd));
      if !interrupted {
        g := g.(now := now, pending := g.pending || cfg.serverFd in readable);
      }
      ghost var visited;
      g, l, visited := Turn(g, cfg, terminating, l);
    }
  }

  /** Nothing but `select` wakes a blocked request before its time is up: over any number of turns
      in which its descriptor is not reported it stays blocked, as it is. This is also so for the
      successor on a kept connection, whatever it holds of the client's bytes already. */
  method Unreported(g0: Globals, cfg: Config, turns: nat, r: Request, ghost l0: Shape)
    returns (g: Globals, ghost l: Shape, expired: bool)
    requires Valid(g0, l0, cfg) && r in l0.block && r.info.status != Dead
    modifies l0.pool
    ensures Valid(g, l, cfg) && r in l.block && r.info == old(r.info)
    ensures expired ==> TimedOut(r.info, g.now, cfg)
  {
    hide Valid, TimedOut;
    g, l, expired := g0, l0, false;
    for turn := 0 to turns
      invariant Valid(g, l, cfg) && l0.pool <= l.pool && fresh(l.pool - l0.pool)
      invariant r in l.block && r.info == old(r.info)
    {
      var readable: set<nat>, writable: set<nat>, terminating: bool, now: int := *, *, *, *;
      var fd := r.info.call.fd;
      NewAnswer(g, l, cfg, FdSets(readable - {fd}, writable - {fd}, g.fds.maxFd), now);
      g := g.(fds := FdSets(readable - {fd}, writable - {fd}, g.fds.maxFd), now := now,
              pending := g.pending || cfg.serverFd in readable - {fd});
      if TimedOut(r.info, g.now, cfg) {
        return g, l, true;
      }
      ghost var visited;
      g, l, visited := Turn(g, cfg, terminating, l);
    }
  }

  lemma NewAnswer(g: Globals, l: Shape, cfg: Config, f: FdSets, now: int)
    requires Valid(g, l, cfg)
    ensures forall pending: bool :: Valid(g.(fds := f, now := now, pending := pending), l, cfg)
  {
    hide Linked, AllOwn;
  }

  /** The successor waits for its client's next bytes, and dies when the keep-alive time is up. */
  lemma SuccessorWaits(i: Info, now: int, cfg: Config)
    ensures NextOn(i).call == Call(i.fd, false) && Calls(NextOn(i), NextOn(i).call)
    ensures TimedOut(NextOn(i), now, cfg) <==>
      (i.kacount <= cfg.kaMax && now - i.timeLast >= cfg.kaTimeout) || now - i.timeLast > REQUEST_TIMEOUT
  {}

  /** When the time is up: after 60 seconds, or earlier on a kept connection on which the next
      request has not begun. */
  lemma Deadline(i: Info, now: int, cfg: Config)
    ensures i.logline || cfg.kaMax <= i.kacount ==> (TimedOut(i, now, cfg) <==> i.timeLast + 60 < now)
    ensures !i.logline && i.kacount < cfg.kaMax && cfg.kaTimeout <= 60 ==>
      (TimedOut(i, now, cfg) <==> i.timeLast + cfg.kaTimeout <= now)
    ensures cfg.kaTimeout > 60 ==> (TimedOut(i, now, cfg) <==> i.timeLast + 60 < now)
  {}

  /** `infos` are the records of one connection, each as it was when it was freed, but for the
      first, which is new. The handlers do not touch the count of what is left. */
  ghost predicate OneConnection(infos: seq<Info>, i: Incoming, now: int, cfg: Config) {
    && infos != [] && i.Caller? && infos[0].kacount == NewConnection(i, now, cfg).kacount
    && forall k | 0 <= k < |infos| - 1 :: KeepsAlive(infos[k]) && infos[k + 1].kacount == NextOn(infos[k]).kacount
  }

  /** A connection serves at most as many requests as configured, and one more; and never another
      after a server error, or when the client did not ask for it. */
  lemma {:induction false} RequestsBounded(infos: seq<Info>, i: Incoming, now: int, cfg: Config)
    requires OneConnection(infos, i, now, cfg) && cfg.kaMax >= 0
    ensures infos[|infos| - 1].kacount == cfg.kaMax - (|infos| - 1) >= 0
    ensures |infos| <= cfg.kaMax + 1
    ensures forall k | 0 <= k < |infos| - 1 :: infos[k].responseStatus < 500 && infos[k].keepalive == Active
  {
    if |infos| > 1 {
      var before := infos[..|infos| - 1];
      assert forall k | 0 <= k < |before| :: before[k] == infos[k];
      RequestsBounded(before, i, now, cfg);
    }
  }

  /** And it serves another whenever these allow it. */
  lemma KeptWhenAllowed(i: Info)
    ensures KeepsAlive(i) <==> !(i.keepalive != Active || i.responseStatus >= 500 || i.kacount <= 0)
  {}
}
