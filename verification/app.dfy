/**
  The shared counter state: the hello count, the last accepted hello of every
  visiting address, the deduplication window, and the host facts shown on the
  status page; plus the text file the count is persisted in.
 */
module App {
  import opened Wrappers
  import Decimal
  import Net
  import Paths
  import Sys

  /** A reading of the monotonic clock, in nanoseconds. */
  type Instant = nat

  /** A span of time, in nanoseconds. */
  type Duration = nat

  const MILLISECOND: Duration := 1_000_000

  datatype Memory = Memory(total: nat, free: nat)

  datatype UtsName = UtsName(sysname: string, nodename: string, release: string, version: string, machine: string)

  /** Host facts sampled by collaborators and only ever displayed. */
  datatype Host = Host(
    ip: Option<Net.Ipv4Addr>,
    osName: string,
    uname: UtsName,
    memory: Option<Memory>,
    uptime: Sys.Uptime)

  datatype State = State(
    hiCount: nat,
    interface: string,
    host: Host,
    hellos: map<Net.IpAddr, Instant>,
    maxAge: Duration)

  /** `now - then` on instants; the difference saturates at zero. */
  function Elapsed(now: Instant, earlier: Instant): (d: Duration)
    ensures earlier <= now ==> earlier + d == now
    ensures now < earlier ==> d == 0
  {
    if earlier <= now then now - earlier else 0
  }

  /** `hi_count`: the number of hellos counted so far. */
  function HiCount(s: State): (n: nat)
    ensures n == s.hiCount
  {
    s.hiCount
  }

  /** Records `now` as the last hello from `from` and counts one more. */
  function IncHiCountImpl(s: State, from: Net.IpAddr, now: Instant): (t: State)
    ensures t.hiCount == s.hiCount + 1
    ensures from in t.hellos && t.hellos[from] == now
    ensures t.hellos.Keys == s.hellos.Keys + {from}
    ensures forall a :: a in s.hellos && a != from ==> t.hellos[a] == s.hellos[a]
    ensures t.maxAge == s.maxAge && t.host == s.host && t.interface == s.interface
  {
    s.(hellos := s.hellos[from := now], hiCount := s.hiCount + 1)
  }

  /**
    `inc_hi_count`: a hello is counted when its address has never been seen,
    or when its last accepted hello is strictly older than the window; an age
    equal to the window is not enough. A hello that is not counted changes nothing.
   */
  function IncHiCount(s: State, from: Net.IpAddr, now: Instant): (t: State)
    ensures from !in s.hellos ==>
      t == s.(hiCount := s.hiCount + 1, hellos := s.hellos[from := now])
    ensures from in s.hellos && Elapsed(now, s.hellos[from]) > s.maxAge ==>
      t == s.(hiCount := s.hiCount + 1, hellos := s.hellos[from := now])
    ensures from in s.hellos && Elapsed(now, s.hellos[from]) <= s.maxAge ==>
      t == s
  {
    var age := if from in s.hellos then Some(Elapsed(now, s.hellos[from])) else None;
    match age
    case Some(a) => if a > s.maxAge then IncHiCountImpl(s, from, now) else s
    case None => IncHiCountImpl(s, from, now)
  }

  /** The deduplication decision on its own. */
  predicate Accepts(s: State, from: Net.IpAddr, now: Instant): (b: bool)
    ensures b <==> IncHiCount(s, from, now) != s
    ensures b <==> IncHiCount(s, from, now).hiCount == s.hiCount + 1
    ensures b ==> IncHiCount(s, from, now).hellos == s.hellos[from := now]
  {
    from !in s.hellos || Elapsed(now, s.hellos[from]) > s.maxAge
  }

  /**
    What one hello can change: the count grows by one exactly when the hello is
    accepted and otherwise stays; only the entry of `from` can change, and only
    to `now`; the window and the host facts are never touched.
   */
  lemma IncHiCountFrame(s: State, from: Net.IpAddr, now: Instant)
    ensures var t := IncHiCount(s, from, now);
      && s.hiCount <= t.hiCount <= s.hiCount + 1
      && (t.hiCount == s.hiCount + 1 <==> Accepts(s, from, now))
      && (Accepts(s, from, now) <==> from in t.hellos && t.hellos[from] == now && t != s)
      && t.hellos.Keys - {from} == s.hellos.Keys - {from}
      && (forall a :: a in s.hellos && a != from ==> t.hellos[a] == s.hellos[a])
      && t.maxAge == s.maxAge && t.host == s.host && t.interface == s.interface
  {
  }

  /** Every remembered address has been counted at least once. */
  predicate SeenCounted(s: State) {
    |s.hellos| <= s.hiCount
  }

  lemma IncHiCountKeepsSeenCounted(s: State, from: Net.IpAddr, now: Instant)
    requires SeenCounted(s)
    ensures SeenCounted(IncHiCount(s, from, now))
  {
    var t := IncHiCount(s, from, now);
    if t != s {
      assert t.hellos.Keys == s.hellos.Keys + {from};
      assert |t.hellos.Keys| <= |s.hellos.Keys| + 1;
    }
  }

  /** No remembered hello lies in the future of `now`. */
  predicate ClockAfter(s: State, now: Instant) {
    forall a :: a in s.hellos ==> s.hellos[a] <= now
  }

  /** Under a monotonic clock the recorded instants stay behind every later reading. */
  lemma IncHiCountKeepsClockAfter(s: State, from: Net.IpAddr, now: Instant, later: Instant)
    requires ClockAfter(s, now) && now <= later
    ensures ClockAfter(IncHiCount(s, from, now), later)
  {
  }

  // ---------------------------------------------------------------------
  // Sequences of hellos

  datatype Hello = Hello(from: Net.IpAddr, at: Instant)

  /** The state after the hellos of `hs`, in order. */
  function Run(s: State, hs: seq<Hello>): State
    decreases |hs|
  {
    if hs == [] then s
    else Run(IncHiCount(s, hs[0].from, hs[0].at), hs[1..])
  }

  /** The count never decreases and grows by at most one per hello; nothing else but the record changes. */
  lemma {:induction false} RunBounds(s: State, hs: seq<Hello>)
    ensures var t := Run(s, hs);
      && s.hiCount <= t.hiCount <= s.hiCount + |hs|
      && t.maxAge == s.maxAge && t.host == s.host && t.interface == s.interface
    decreases |hs|
  {
    if hs != [] {
      RunBounds(IncHiCount(s, hs[0].from, hs[0].at), hs[1..]);
    }
  }

  /** The invariant of `SeenCounted` holds along any sequence of hellos. */
  lemma {:induction false} RunKeepsSeenCounted(s: State, hs: seq<Hello>)
    requires SeenCounted(s)
    ensures SeenCounted(Run(s, hs))
    decreases |hs|
  {
    if hs != [] {
      IncHiCountKeepsSeenCounted(s, hs[0].from, hs[0].at);
      RunKeepsSeenCounted(IncHiCount(s, hs[0].from, hs[0].at), hs[1..]);
    }
  }

  predicate DistinctNew(s: State, hs: seq<Hello>) {
    && (forall i :: 0 <= i < |hs| ==> hs[i].from !in s.hellos)
    && (forall i, j :: 0 <= i < j < |hs| ==> hs[i].from != hs[j].from)
  }

  /** Hellos from N addresses never seen before, each once, add exactly N, in whatever order they arrive. */
  lemma {:induction false} RunDistinctCountsAll(s: State, hs: seq<Hello>)
    requires DistinctNew(s, hs)
    ensures Run(s, hs).hiCount == s.hiCount + |hs|
    decreases |hs|
  {
    if hs != [] {
      var t := IncHiCount(s, hs[0].from, hs[0].at);
      assert t.hellos.Keys == s.hellos.Keys + {hs[0].from};
      assert forall i :: 1 <= i < |hs| ==> hs[i].from != hs[0].from;
      assert DistinctNew(t, hs[1..]);
      RunDistinctCountsAll(t, hs[1..]);
    }
  }

  /**
    Two hellos from one new address at `t1 <= t2` are counted once when the
    second comes within the window, and twice when it comes later.
   */
  lemma TwoHellos(s: State, a: Net.IpAddr, t1: Instant, t2: Instant)
    requires a !in s.hellos && t1 <= t2
    ensures var t := Run(s, [Hello(a, t1), Hello(a, t2)]);
      t.hiCount == if t2 - t1 <= s.maxAge then s.hiCount + 1 else s.hiCount + 2
  {
    var hs := [Hello(a, t1), Hello(a, t2)];
    var s1 := IncHiCount(s, a, t1);
    assert Run(s, hs) == Run(s1, hs[1..]);
    assert hs[1..] == [Hello(a, t2)];
    assert Run(s1, [Hello(a, t2)]) == IncHiCount(s1, a, t2);
  }

  /** A state as the unit tests build it: nothing counted, nothing seen, a 100 ms window. */
  function TestState(host: Host): (s: State)
    ensures s.hiCount == 0 && s.hellos == map[] && s.maxAge == 100 * MILLISECOND
  {
    State(0, "", host, map[], 100 * MILLISECOND)
  }

  /** Three hellos from one address within the window count once. */
  lemma IncHelloDedup(host: Host, a: Net.IpAddr, t0: Instant, t1: Instant, t2: Instant)
    requires t0 <= t1 <= t2 <= t0 + 100 * MILLISECOND
    ensures HiCount(Run(TestState(host), [Hello(a, t0), Hello(a, t1), Hello(a, t2)])) == 1
  {
    var hs := [Hello(a, t0), Hello(a, t1), Hello(a, t2)];
    var s0 := TestState(host);
    var s1 := IncHiCount(s0, a, t0);
    assert s1.hiCount == 1 && s1.hellos == map[a := t0];
    var s2 := IncHiCount(s1, a, t1);
    assert s2 == s1;
    var s3 := IncHiCount(s2, a, t2);
    assert s3 == s1;
    assert Run(s0, hs) == Run(s1, hs[1..]);
    assert Run(s1, hs[1..]) == Run(s2, hs[2..]);
    assert Run(s2, hs[2..]) == Run(s3, hs[3..]);
  }

  /**
    Two hellos, a pause longer than the window, two more hellos: counted twice.
    The pause is the 101 ms sleep of the expiration test.
   */
  lemma IncHelloExpiration(host: Host, a: Net.IpAddr, t0: Instant, t1: Instant, t2: Instant, t3: Instant)
    requires t0 <= t1 <= t0 + 100 * MILLISECOND
    requires t1 + 101 * MILLISECOND <= t2 <= t3 <= t2 + 100 * MILLISECOND
    ensures HiCount(Run(TestState(host),
      [Hello(a, t0), Hello(a, t1), Hello(a, t2), Hello(a, t3)])) == 2
  {
    var hs := [Hello(a, t0), Hello(a, t1), Hello(a, t2), Hello(a, t3)];
    var s0 := TestState(host);
    var s1 := IncHiCount(s0, a, t0);
    assert s1.hiCount == 1 && s1.hellos == map[a := t0];
    var s2 := IncHiCount(s1, a, t1);
    assert s2 == s1;
    var s3 := IncHiCount(s2, a, t2);
    assert s3.hiCount == 2 && s3.hellos == map[a := t2];
    var s4 := IncHiCount(s3, a, t3);
    assert s4 == s3;
    assert Run(s0, hs) == Run(s1, hs[1..]);
    assert Run(s1, hs[1..]) == Run(s2, hs[2..]);
    assert Run(s2, hs[2..]) == Run(s3, hs[3..]);
    assert Run(s3, hs[3..]) == Run(s4, hs[4..]);
  }

  // ---------------------------------------------------------------------
  // Persistence

  datatype ErrorKind = NotFound | PermissionDenied | InvalidData | Other

  datatype IoError = IoError(kind: ErrorKind, message: string)

  /**
    `load_hi_count`, given what reading the file gave: a read error is passed
    on; otherwise the trimmed text parsed as an unsigned decimal, and 0 when it
    does not parse. Bad content is never an error.
   */
  function LoadHiCount(read: Result<string, IoError>): (r: Result<nat, IoError>)
    ensures read.Err? ==> r == Err(read.error)
    ensures read.Ok? ==> r.Ok?
    ensures read.Ok? && Decimal.ParseUsize(Decimal.Trim(read.value)).None? ==> r == Ok(0)
    ensures read.Ok? && Decimal.ParseUsize(Decimal.Trim(read.value)).Some? ==>
      r == Ok(Decimal.ParseUsize(Decimal.Trim(read.value)).value)
  {
    match read
    case Err(e) => Err(e)
    case Ok(text) => Ok(Decimal.ParseUsize(Decimal.Trim(text)).GetOr(0))
  }

  /**
    `load`: a missing file starts the count at 0, any other read error aborts;
    the new state has seen nobody yet.
   */
  function Load(read: Result<string, IoError>, interface: string, maxAge: Duration, host: Host)
    : (r: Result<State, IoError>)
    ensures read.Err? && read.error.kind == NotFound ==> r.Ok? && r.value.hiCount == 0
    ensures read.Err? && read.error.kind != NotFound ==> r == Err(read.error)
    ensures read.Ok? ==> r.Ok? && Ok(r.value.hiCount) == LoadHiCount(read)
    ensures r.Ok? ==> r.value.hellos == map[] && r.value.maxAge == maxAge && r.value.interface == interface
    ensures r.Ok? ==> SeenCounted(r.value)
  {
    var count :=
      match LoadHiCount(read)
      case Ok(n) => Ok(n)
      case Err(e) => if e.kind == NotFound then Ok(0) else Err(e);
    match count
    case Err(e) => Err(e)
    case Ok(n) => Ok(State(n, interface, host, map[], maxAge))
  }

  /** The sibling path the count is first written to: the file name with ".tmp" appended. */
  function TmpPath(p: Paths.Path): (r: Option<Paths.Path>)
    ensures r.Some? <==> Paths.FileName(p).Some?
    ensures r.Some? ==> Paths.FileName(r.value) == Some(Paths.FileName(p).value + ".tmp")
    ensures r.Some? ==> Paths.Parent(r.value) == Paths.Parent(p)
    ensures r.Some? ==> r.value != p
  {
    match Paths.FileName(p)
    case None => None
    case Some(name) =>
      var tmp := Paths.WithFileName(p, name + ".tmp");
      assert Paths.FileName(tmp) != Paths.FileName(p);
      Some(tmp)
  }

  /** The two file operations of a save: write `text` to `tmp`, then rename `tmp` to `dest`. */
  datatype SavePlan = SavePlan(tmp: Paths.Path, text: string, dest: Paths.Path)

  /**
    `save_hi_count`, up to its file operations: a path without a file name
    fails before anything is written; otherwise the count's decimal text goes
    to the sibling temporary file, which then replaces `path`.
   */
  function SaveHiCount(s: State, path: Paths.Path): (r: Result<SavePlan, IoError>)
    ensures r.Err? <==> Paths.FileName(path).None?
    ensures r.Err? ==> r.error.kind == Other
    ensures r.Ok? ==> r.value.dest == path && Some(r.value.tmp) == TmpPath(path)
    ensures r.Ok? ==> r.value.text == Decimal.NatToString(HiCount(s))
    ensures r.Ok? ==> LoadHiCount(Ok(r.value.text)) == Ok(HiCount(s))
  {
    match TmpPath(path)
    case None => Err(IoError(Other, "file_name is None"))
    case Some(tmp) =>
      var text := Decimal.NatToString(HiCount(s));
      Decimal.DigitsAreNotWhitespace(text);
      Decimal.ParseNatToString(HiCount(s));
      Ok(SavePlan(tmp, text, path))
  }

  /** The file system as the contents of each existing file. */
  type Files = map<Paths.Path, string>

  /** `read_to_string`: the contents of an existing file, NotFound otherwise. */
  function ReadToString(fs: Files, p: Paths.Path): (r: Result<string, IoError>)
    ensures r.Ok? <==> p in fs
    ensures r.Ok? ==> r.value == fs[p]
    ensures r.Err? ==> r.error.kind == NotFound
  {
    if p in fs then Ok(fs[p]) else Err(IoError(NotFound, "not found"))
  }

  /** The files once the temporary file is written, before the rename. */
  function Written(fs: Files, plan: SavePlan): Files {
    fs[plan.tmp := plan.text]
  }

  /**
    The files once the rename has replaced the destination: the destination
    holds the written text, the temporary file is gone, and no other file changed.
   */
  function Committed(fs: Files, plan: SavePlan): (r: Files)
    ensures plan.dest in r && r[plan.dest] == plan.text
    ensures plan.tmp != plan.dest ==> plan.tmp !in r
    ensures forall q :: q != plan.tmp && q != plan.dest ==>
      (q in r <==> q in fs) && (q in fs ==> r[q] == fs[q])
  {
    var w := Written(fs, plan);
    (w - {plan.tmp})[plan.dest := w[plan.tmp]]
  }

  /** Loading after a completed save gives back the saved count. */
  lemma SaveLoadRoundTrip(s: State, path: Paths.Path, fs: Files)
    requires Paths.FileName(path).Some?
    ensures LoadHiCount(ReadToString(Committed(fs, SaveHiCount(s, path).value), path)) == Ok(HiCount(s))
  {
  }

  /**
    Between the write and the rename the destination still holds what it held
    before the save; after the rename it holds the whole new text.
   */
  lemma SaveReplacesAtomically(s: State, path: Paths.Path, fs: Files)
    requires Paths.FileName(path).Some?
    ensures var plan := SaveHiCount(s, path).value;
      && ReadToString(Written(fs, plan), path) == ReadToString(fs, path)
      && ReadToString(Committed(fs, plan), path) == Ok(plan.text)
      && plan.tmp !in Committed(fs, plan)
  {
  }
}
