/** A reader of the keeper among writers (src/include/xboot/seqlock.h with the reader of
    src/include/clocksource/clocksource.h and the writer of src/driver/clocksource/clocksource.c).
    Writers exclude one another by the spin lock, so one writer at a time is enough; loads and stores
    take effect one after the other. */
module Seqlock {
  import opened Arith
  import opened Clocksource

  /** Where the writer is: outside the lock; inside; after storing `nsec`; after storing `last`. */
  datatype Writer = Outside | Entered | StoredNsec(next: Snapshot) | StoredLast(next: Snapshot)

  /** Where the reader is.  `at` is how often the sequence had been incremented when it was read, of
      which `seen` are the low 32 bits; `read` is the true time at which the counter showed `now`. */
  datatype Reader =
    | Begin
    | Started(seen: nat, at: nat)
    | HasNow(seen: nat, at: nat, now: nat, read: nat)
    | HasLast(seen: nat, at: nat, now: nat, read: nat, last: nat)
    | Checked(at: nat, now: nat, read: nat, last: nat)

  /** A time that was returned, with the version that was stored when the reader started, the one whose
      `nsec` it loaded, and the true time at which it read the counter. */
  datatype Given = Given(version: nat, loaded: nat, read: nat, value: nat)

  /** `count` is how often the sequence has been incremented; `history` holds what each completed
      writer has stored, the first being the initial values; `time` is the true cycle count. */
  datatype State = State(
    time: nat, count: nat, last: nat, nsec: nat, writer: Writer, reader: Reader, history: seq<Snapshot>,
      given: seq<Given>)
  {
    function Sequence(): nat {
      count % U32
    }

    function Newest(): Snapshot
      requires history != []
    {
      history[|history| - 1]
    }

    predicate Storing() {
      writer.StoredNsec? || writer.StoredLast?
    }

    /** The version whose `nsec` is stored. */
    function Loaded(): nat {
      if Storing() || history == [] then |history| else |history| - 1
    }

    /** What has been stored as version `k`; the last one perhaps not all of it yet. */
    function Stored(k: nat): Snapshot
      requires history != [] && k <= Loaded()
    {
      if k < |history| then history[k] else writer.next
    }
  }

  // Steps

  predicate TimePasses(s: State, s': State) {
    s'.time >= s.time && s' == s.(time := s'.time)
  }

  /** The writer's next step; the counter is read on the way. */
  function WriterStep(c: Scale, s: State): State {
    match s.writer
    case Outside => s.(count := s.count + 1, writer := Entered)
    case Entered =>
      var next := Ticked(c, Snapshot(s.last, s.nsec, 0), s.time);
      s.(nsec := next.nsec, writer := StoredNsec(next))
    case StoredNsec(next) => s.(last := next.last, writer := StoredLast(next))
    case StoredLast(next) => s.(count := s.count + 1, writer := Outside, history := s.history + [next])
  }

  /** The version that was stored when the sequence had been incremented `at` times. */
  function Version(at: nat): nat {
    at / 2
  }

  /** What the reader returns: the `nsec` that it loads only now, and the nanoseconds since `last`. */
  function Returned(c: Scale, s: State): nat
    requires s.reader.Checked?
  {
    Wrap(s.nsec + c.DeltaToNs(c.Delta(s.reader.last, s.reader.now)))
  }

  /** The reader's next step. */
  function ReaderStep(c: Scale, s: State): State {
    match s.reader
    case Begin => if s.Sequence() % 2 == 1 then s else s.(reader := Started(s.Sequence(), s.count))
    case Started(seen, at) => s.(reader := HasNow(seen, at, c.Masked(s.time), s.time))
    case HasNow(seen, at, now, read) => s.(reader := HasLast(seen, at, now, read, s.last))
    case HasLast(seen, at, now, read, last) =>
      s.(reader := if s.Sequence() != seen then Begin else Checked(at, now, read, last))
    case Checked(at, now, read, last) =>
      s.(reader := Begin, given := s.given + [Given(Version(at), s.Loaded(), read, Returned(c, s))])
  }

  predicate Steps(c: Scale, s: State, s': State) {
    TimePasses(s, s') || s' == WriterStep(c, s) || s' == ReaderStep(c, s)
  }

  predicate Initial(c: Scale, s: State) {
    s == State(s.time, 0, c.Masked(s.time), 0, Outside, Begin, [Snapshot(c.Masked(s.time), 0, s.time)], [])
  }

  // What the runs are spared

  /** Fewer than 2^31 writers come while the reader tries once. */
  predicate NoWrap(s: State) {
    s.reader.HasLast? ==> s.count < s.reader.at + U32
  }

  /** The counter does not come round between two writers, and nothing overflows. */
  predicate InTime(c: Scale, s: State) {
    s.history != [] && InReach(c, s.Newest(), s.time)
  }

  // What every step keeps

  predicate WriterKeeps(c: Scale, s: State) {
    && s.history != []
    && s.count == 2 * (|s.history| - 1) + (if s.writer.Outside? then 0 else 1)
    && s.Newest().taken <= s.time
    && (!s.Storing() ==> s.last == s.Newest().last && s.nsec == s.Newest().nsec)
    && (s.Storing() ==>
      s.nsec == s.writer.next.nsec && Follows(c, s.Newest(), s.writer.next) && s.writer.next.taken <= s.time)
    && (s.writer.StoredNsec? ==> s.last == s.Newest().last)
    && (s.writer.StoredLast? ==> s.last == s.writer.next.last)
    && Chain(c, s.history)
  }

  /** Each writer but the first found what the one before it had stored. */
  predicate Chain(c: Scale, history: seq<Snapshot>) {
    forall k {:trigger history[k]} :: 0 < k < |history| ==> Follows(c, history[k - 1], history[k])
  }

  /** `b` is what a writer stores who finds `a`, in time. */
  predicate Follows(c: Scale, a: Snapshot, b: Snapshot) {
    InReach(c, a, b.taken) && b == Ticked(c, a, b.taken)
  }

  /** The counter was read while version `v` was the newest. */
  predicate ReadDuring(c: Scale, s: State, v: nat, read: nat) {
    && v < |s.history| && read <= s.time && InReach(c, s.history[v], read)
    && (v + 1 < |s.history| ==> read <= s.history[v + 1].taken)
    && (v + 1 == |s.history| && s.Storing() ==> read <= s.writer.next.taken)
  }

  predicate ReaderKeeps(c: Scale, s: State) {
    match s.reader
    case Begin => true
    case Started(seen, at) => StartedAt(s, seen, at)
    case HasNow(seen, at, now, read) => StartedAt(s, seen, at) && now == c.Masked(read) && (s.count == at ==>
      ReadDuring(c, s, Version(at), read))
    case HasLast(seen, at, now, read, last) =>
      && StartedAt(s, seen, at) && now == c.Masked(read)
      && (s.count == at ==> ReadDuring(c, s, Version(at), read) && last == s.history[Version(at)].last)
    case Checked(at, now, read, last) =>
      && at % 2 == 0 && at <= s.count && now == c.Masked(read)
      && ReadDuring(c, s, Version(at), read) && last == s.history[Version(at)].last
  }

  predicate StartedAt(s: State, seen: nat, at: nat) {
    at % 2 == 0 && at <= s.count && seen == at % U32
  }

  /** A time given out is made of the `last` of one completed writer, stored while the counter was read,
      and the `nsec` of that one or of a later one. */
  predicate GivenSound(c: Scale, s: State, g: Given) {
    && ReadDuring(c, s, g.version, g.read) && g.version <= g.loaded <= s.Loaded()
    && g.value == TimeAt(c, s.history[g.version].(nsec := s.Stored(g.loaded).nsec), g.read)
  }

  /** A time given out is the time that one completed writer's values yield. */
  predicate GivenRight(c: Scale, s: State, g: Given) {
    ReadDuring(c, s, g.version, g.read) && g.value == TimeAt(c, s.history[g.version], g.read)
  }

  /** None of the writers from version `v` to `w` has added a nanosecond. */
  predicate NothingAdded(s: State, v: nat, w: nat)
    requires s.history != [] && w <= s.Loaded()
  {
    forall k :: v < k <= w ==> AddedNothing(s, k)
  }

  predicate AddedNothing(s: State, k: nat)
    requires s.history != [] && 0 < k <= s.Loaded()
  {
    s.Stored(k).nsec == s.Stored(k - 1).nsec
  }

  predicate Before(a: Given, version: nat, read: nat) {
    a.version <= version && a.read <= read
  }

  /** Times are given out in the order in which the counter was read. */
  predicate GivenKeeps(c: Scale, s: State) {
    && AllSound(c, s) && InOrder(s.given)
    && (s.given != [] ==> Soon(s, s.given[|s.given| - 1]))
  }

  /** What the reader is about to give out comes after `g`. */
  predicate Soon(s: State, g: Given) {
    && 2 * g.version <= s.count && g.read <= s.time
    && match s.reader
       case Begin => true
       case Started(_, at) => g.version <= Version(at)
       case HasNow(_, at, _, read) => Before(g, Version(at), read)
       case HasLast(_, at, _, read, _) => Before(g, Version(at), read)
       case Checked(at, _, read, _) => Before(g, Version(at), read)
  }

  predicate Keeps(c: Scale, s: State) {
    WriterKeeps(c, s) && ReaderKeeps(c, s) && GivenKeeps(c, s)
  }

  lemma InitialKeeps(c: Scale, s: State)
    requires Initial(c, s)
    ensures Keeps(c, s)
  {
  }

  lemma TimeKeepsWriter(c: Scale, s: State, s': State)
    requires WriterKeeps(c, s) && TimePasses(s, s')
    ensures WriterKeeps(c, s')
  {
  }

  lemma ReaderKeepsWriter(c: Scale, s: State, s': State)
    requires WriterKeeps(c, s) && s' == s.(reader := s'.reader, given := s'.given)
    ensures WriterKeeps(c, s')
  {
  }

  lemma ReaderStepIsLocal(c: Scale, s: State)
    ensures var s' := ReaderStep(c, s); s' == s.(reader := s'.reader, given := s'.given)
  {
  }

  lemma EnterKept(c: Scale, s: State)
    requires WriterKeeps(c, s) && s.writer.Outside?
    ensures WriterKeeps(c, WriterStep(c, s))
  {
  }

  lemma StoreNsecKept(c: Scale, s: State)
    requires WriterKeeps(c, s) && InTime(c, s) && s.writer.Entered?
    ensures WriterKeeps(c, WriterStep(c, s))
  {
    assert Ticked(c, Snapshot(s.last, s.nsec, 0), s.time) == Ticked(c, s.Newest(), s.time);
  }

  lemma StoreLastKept(c: Scale, s: State)
    requires WriterKeeps(c, s) && s.writer.StoredNsec?
    ensures WriterKeeps(c, WriterStep(c, s))
  {
  }

  lemma LeaveKept(c: Scale, s: State)
    requires WriterKeeps(c, s) && s.writer.StoredLast?
    ensures WriterKeeps(c, WriterStep(c, s))
  {
    var h := WriterStep(c, s).history;
    assert forall k :: 0 <= k < |s.history| ==> h[k] == s.history[k];
  }

  lemma WriterKept(c: Scale, s: State, s': State)
    requires WriterKeeps(c, s) && InTime(c, s) && Steps(c, s, s')
    ensures WriterKeeps(c, s')
  {
    if TimePasses(s, s') { TimeKeepsWriter(c, s, s'); }
    else if s' == ReaderStep(c, s) {
      ReaderStepIsLocal(c, s);
      ReaderKeepsWriter(c, s, s');
    }
    else {
      match s.writer
      case Outside => EnterKept(c, s);
      case Entered => StoreNsecKept(c, s);
      case StoredNsec(next) => StoreLastKept(c, s);
      case StoredLast(next) => LeaveKept(c, s);
    }
  }

  /** A step leaves what is in the history, and a pending write, in place. */
  predicate Extends(s: State, s': State) {
    && s.time <= s'.time && s.count <= s'.count && s.history <= s'.history
    && (s'.Storing() ==> if s.Storing() then s'.writer.next == s.writer.next else s'.writer.next.taken == s.time)
    && (|s'.history| > |s.history| ==>
      |s'.history| == |s.history| + 1 && s.Storing() && s'.Newest() == s.writer.next && !s'.Storing())
    && (s'.count == s.count && s'.Storing() == s.Storing() ==> s'.nsec == s.nsec)
    && (|s'.history| > |s.history| ==> s'.count > s.count)
    && (s.Storing() && !s'.Storing() ==> |s'.history| > |s.history|)
  }

  lemma StepExtends(c: Scale, s: State, s': State)
    requires s.history != [] && Steps(c, s, s')
    ensures Extends(s, s')
  {
  }

  /** Whoever read the counter while a version was the newest keeps having done so. */
  lemma ReadDuringKept(c: Scale, s: State, s': State, v: nat, read: nat)
    requires Extends(s, s') && ReadDuring(c, s, v, read)
    ensures ReadDuring(c, s', v, read) && s'.history[v] == s.history[v]
  {
  }

  lemma OthersKeepReader(c: Scale, s: State, s': State)
    requires WriterKeeps(c, s) && WriterKeeps(c, s') && ReaderKeeps(c, s) && Extends(s, s') && s'.reader == s.reader
    ensures ReaderKeeps(c, s')
  {
    if s.reader.HasNow? || s.reader.HasLast? || s.reader.Checked? {
      var v := Version(s.reader.at);
      if ReadDuring(c, s, v, s.reader.read) { ReadDuringKept(c, s, s', v, s.reader.read); }
    }
  }

  /** While the sequence is even and unchanged, the newest version is what is stored. */
  lemma UndisturbedVersion(c: Scale, s: State, at: nat)
    requires WriterKeeps(c, s) && at % 2 == 0 && s.count == at
    ensures s.writer.Outside? && Version(at) == |s.history| - 1
  {
  }

  lemma ReadNowKept(c: Scale, s: State)
    requires WriterKeeps(c, s) && ReaderKeeps(c, s) && InTime(c, s) && s.reader.Started?
    ensures ReaderKeeps(c, ReaderStep(c, s))
  {
    if s.count == s.reader.at { UndisturbedVersion(c, s, s.reader.at); }
  }

  lemma ReadLastKept(c: Scale, s: State)
    requires WriterKeeps(c, s) && ReaderKeeps(c, s) && s.reader.HasNow?
    ensures ReaderKeeps(c, ReaderStep(c, s))
  {
    if s.count == s.reader.at { UndisturbedVersion(c, s, s.reader.at); }
  }

  /** The retry check lets a reader pass exactly if a multiple of 2^32 increments has come since it
      started; that is none at all unless 2^31 writers have come. */
  lemma CheckPasses(c: Scale, s: State)
    requires ReaderKeeps(c, s) && s.reader.HasLast?
    ensures ReaderStep(c, s).reader.Checked? <==> (s.count - s.reader.at) % U32 == 0
    ensures NoWrap(s) ==> (ReaderStep(c, s).reader.Checked? <==> s.count == s.reader.at)
  {
  }

  lemma CheckKept(c: Scale, s: State)
    requires WriterKeeps(c, s) && ReaderKeeps(c, s) && NoWrap(s) && s.reader.HasLast?
    ensures ReaderKeeps(c, ReaderStep(c, s))
  {
    CheckPasses(c, s);
    if s.count == s.reader.at { UndisturbedVersion(c, s, s.reader.at); }
  }

  lemma ReaderStepKept(c: Scale, s: State)
    requires WriterKeeps(c, s) && ReaderKeeps(c, s) && InTime(c, s) && NoWrap(s)
    ensures ReaderKeeps(c, ReaderStep(c, s))
  {
    match s.reader
    case Begin => BeginKept(c, s);
    case Started(_, _) => ReadNowKept(c, s);
    case HasNow(_, _, _, _) => ReadLastKept(c, s);
    case HasLast(_, _, _, _, _) => CheckKept(c, s);
    case Checked(_, _, _, _) => LoadKept(c, s);
  }

  lemma BeginKept(c: Scale, s: State)
    requires s.reader.Begin?
    ensures ReaderKeeps(c, ReaderStep(c, s))
  {
  }

  lemma LoadKept(c: Scale, s: State)
    requires s.reader.Checked?
    ensures ReaderKeeps(c, ReaderStep(c, s))
  {
  }

  lemma OthersAreLocal(c: Scale, s: State, s': State)
    requires TimePasses(s, s') || s' == WriterStep(c, s)
    ensures s'.reader == s.reader && s'.given == s.given
  {
  }

  lemma ReaderKept(c: Scale, s: State, s': State)
    requires WriterKeeps(c, s) && WriterKeeps(c, s') && ReaderKeeps(c, s) && InTime(c, s) && NoWrap(s) &&
      Steps(c, s, s')
    ensures ReaderKeeps(c, s')
  {
    if s' == ReaderStep(c, s) {
      ReaderStepKept(c, s);
    } else {
      OthersAreLocal(c, s, s');
      StepExtends(c, s, s');
      OthersKeepReader(c, s, s');
    }
  }

  /** What the reader is about to give out; it is right if and only if the `nsec` that is stored now is
      the one that was stored when the reader started. */
  lemma GivesSound(c: Scale, s: State)
    requires WriterKeeps(c, s) && ReaderKeeps(c, s) && s.reader.Checked?
    ensures var v, read := Version(s.reader.at), s.reader.read;
      && GivenSound(c, s, Given(v, s.Loaded(), read, Returned(c, s)))
      && (Returned(c, s) == TimeAt(c, s.history[v], read) <==> s.nsec == s.history[v].nsec)
  {
    hide Chain;
    var base := s.history[Version(s.reader.at)];
    LoadedNsec(c, s, Version(s.reader.at));
    ReturnedIs(c, s, base);
    TimesDiffer(c, base, s.nsec, s.reader.read);
  }

  lemma LoadedNsec(c: Scale, s: State, v: nat)
    requires WriterKeeps(c, s) && v < |s.history| && s.history[v].nsec < U64
    ensures s.Stored(s.Loaded()).nsec == s.nsec < U64
  {
    hide InReach;
    if !s.Storing() && |s.history| > 1 {
      assert Follows(c, s.history[|s.history| - 2], s.history[|s.history| - 1]);
    }
  }

  lemma ReturnedIs(c: Scale, s: State, base: Snapshot)
    requires s.reader.Checked? && s.reader.last == base.last && s.reader.now == c.Masked(s.reader.read)
    ensures Returned(c, s) == TimeAt(c, base.(nsec := s.nsec), s.reader.read)
  {
    hide Wrap, Scale.DeltaToNs, Scale.Delta;
  }

  /** Different nanoseconds make different times, even if they wrap around. */
  lemma SameNsec(a: nat, b: nat, delta: nat)
    requires a < U64 && b < U64
    ensures Wrap(a + delta) == Wrap(b + delta) <==> a == b
  {
    if Wrap(a + delta) == Wrap(b + delta) {
      var p, q := (a + delta) / U64, (b + delta) / U64;
      assert a - b == (p - q) * U64;
    }
  }

  lemma StoredKept(s: State, s': State, k: nat)
    requires s.history != [] && s'.history != [] && Extends(s, s') && k <= s.Loaded()
    ensures k <= s'.Loaded() && s'.Stored(k) == s.Stored(k)
  {
  }

  lemma TimesDiffer(c: Scale, a: Snapshot, nsec: nat, t: nat)
    requires a.nsec < U64 && nsec < U64
    ensures TimeAt(c, a.(nsec := nsec), t) == TimeAt(c, a, t) <==> nsec == a.nsec
  {
    SameNsec(nsec, a.nsec, c.DeltaToNs(c.Delta(a.last, c.Masked(t))));
  }

  lemma GivenSoundKept(c: Scale, s: State, s': State, g: Given)
    requires s.history != [] && WriterKeeps(c, s') && Extends(s, s') && GivenSound(c, s, g)
    ensures GivenSound(c, s', g)
  {
    ReadDuringKept(c, s, s', g.version, g.read);
    StoredKept(s, s', g.loaded);
    assert s'.history[g.version] == s.history[g.version];
  }

  lemma SoonKept(c: Scale, s: State, s': State, g: Given)
    requires WriterKeeps(c, s) && ReaderKeeps(c, s) && Soon(s, g) && Steps(c, s, s')
    ensures Soon(s', g)
  {
  }

  predicate AllSound(c: Scale, s: State) {
    s.history != [] && forall i :: 0 <= i < |s.given| ==> GivenSound(c, s, s.given[i])
  }

  predicate InOrder(given: seq<Given>) {
    forall i, j :: 0 <= i < j < |given| ==> Before(given[i], given[j].version, given[j].read)
  }

  lemma AllSoundKept(c: Scale, s: State, s': State)
    requires WriterKeeps(c, s') && Extends(s, s') && AllSound(c, s) && s'.given == s.given
    ensures AllSound(c, s')
  {
    forall i | 0 <= i < |s'.given| ensures GivenSound(c, s', s'.given[i]) {
      GivenSoundKept(c, s, s', s.given[i]);
    }
  }

  lemma GiveKept(c: Scale, s: State)
    requires WriterKeeps(c, s) && ReaderKeeps(c, s) && AllSound(c, s) && s.reader.Checked?
    ensures AllSound(c, ReaderStep(c, s))
  {
    var s' := ReaderStep(c, s);
    GivesSound(c, s);
    forall i | 0 <= i < |s'.given| ensures GivenSound(c, s', s'.given[i]) {
      if i < |s.given| { assert GivenSound(c, s, s.given[i]); }
    }
  }

  lemma InOrderNext(given: seq<Given>, g: Given)
    requires InOrder(given) && (given != [] ==> Before(given[|given| - 1], g.version, g.read))
    ensures InOrder(given + [g])
  {
    var n := |given|;
    forall i | 0 <= i < n ensures Before(given[i], g.version, g.read) {
      if i < n - 1 { assert Before(given[i], given[n - 1].version, given[n - 1].read); }
    }
  }

  lemma GiveKeepsOrder(c: Scale, s: State)
    requires GivenKeeps(c, s) && s.reader.Checked?
    ensures InOrder(ReaderStep(c, s).given)
  {
    InOrderNext(s.given, Given(Version(s.reader.at), s.Loaded(), s.reader.read, Returned(c, s)));
  }

  lemma GiveIsSoon(c: Scale, s: State)
    requires ReaderKeeps(c, s) && GivenKeeps(c, s) && s.reader.Checked?
    ensures var s' := ReaderStep(c, s); s'.given != [] ==> Soon(s', s'.given[|s'.given| - 1])
  {
  }

  lemma QuietReaderStep(c: Scale, s: State)
    requires !s.reader.Checked?
    ensures ReaderStep(c, s).given == s.given
  {
  }

  lemma GiveStepKept(c: Scale, s: State)
    requires WriterKeeps(c, s) && ReaderKeeps(c, s) && GivenKeeps(c, s) && s.reader.Checked?
    ensures GivenKeeps(c, ReaderStep(c, s))
  {
    GiveKept(c, s);
    GiveKeepsOrder(c, s);
    GiveIsSoon(c, s);
  }

  lemma QuietStepKept(c: Scale, s: State, s': State)
    requires WriterKeeps(c, s) && WriterKeeps(c, s') && ReaderKeeps(c, s) && GivenKeeps(c, s)
    requires Steps(c, s, s') && s'.given == s.given
    ensures GivenKeeps(c, s')
  {
    StepExtends(c, s, s');
    AllSoundKept(c, s, s');
    if s.given != [] { SoonKept(c, s, s', s.given[|s.given| - 1]); }
  }

  lemma GivenKept(c: Scale, s: State, s': State)
    requires WriterKeeps(c, s) && WriterKeeps(c, s') && ReaderKeeps(c, s) && GivenKeeps(c, s) && Steps(c, s, s')
    ensures GivenKeeps(c, s')
  {
    if s' != ReaderStep(c, s) {
      OthersAreLocal(c, s, s');
      QuietStepKept(c, s, s');
    } else if s.reader.Checked? {
      GiveStepKept(c, s);
    } else {
      QuietReaderStep(c, s);
      QuietStepKept(c, s, s');
    }
  }

  // Whole runs

  /** A run of the keeper's writers and one reader, interleaved in any way. */
  predicate IsRun(c: Scale, run: seq<State>) {
    && run != [] && Initial(c, run[0])
    && forall i :: 0 < i < |run| ==> Steps(c, run[i - 1], run[i])
  }

  predicate Undisturbed(c: Scale, run: seq<State>) {
    forall i :: 0 <= i < |run| ==> NoWrap(run[i]) && InTime(c, run[i])
  }

  lemma {:induction false} RunKeeps(c: Scale, run: seq<State>, n: nat)
    requires IsRun(c, run) && Undisturbed(c, run) && n < |run|
    ensures Keeps(c, run[n])
  {
    if n == 0 {
      InitialKeeps(c, run[0]);
    } else {
      RunKeeps(c, run, n - 1);
      var s, s' := run[n - 1], run[n];
      assert NoWrap(s) && InTime(c, s) && Steps(c, s, s');
      WriterKept(c, s, s');
      ReaderKept(c, s, s');
      GivenKept(c, s, s');
    }
  }

  /** Later versions at later times yield later times. */
  lemma {:induction false} VersionsAreMonotone(c: Scale, h: seq<Snapshot>, v: nat, t: nat, v': nat, t': nat)
    requires c.Valid() && Chain(c, h) && v <= v' < |h| && t <= t'
    requires InReach(c, h[v], t) && InReach(c, h[v'], t') && (v < v' ==> t <= h[v + 1].taken)
    ensures TimeAt(c, h[v], t) <= TimeAt(c, h[v'], t')
    decreases v' - v
  {
    if v == v' {
      TimeIsMonotone(c, h[v], t, t');
    } else {
      var u := h[v + 1].taken;
      assert Follows(c, h[v], h[v + 1]);
      TimeIsMonotone(c, h[v], t, u);
      TickKeepsTime(c, h[v], u);
      TakenAreMonotone(c, h, v + 1, v');
      if v + 1 < v' { assert Follows(c, h[v + 1], h[v + 2]); }
      VersionsAreMonotone(c, h, v + 1, u, v', t');
    }
  }

  lemma {:induction false} TakenAreMonotone(c: Scale, h: seq<Snapshot>, v: nat, v': nat)
    requires Chain(c, h) && v <= v' < |h|
    ensures h[v].taken <= h[v'].taken
  {
    if v < v' {
      TakenAreMonotone(c, h, v, v' - 1);
      assert Follows(c, h[v' - 1], h[v']);
    }
  }

  lemma StoredFollows(c: Scale, s: State, k: nat)
    requires c.Valid() && WriterKeeps(c, s) && 0 < k <= s.Loaded()
    ensures s.Stored(k - 1).nsec <= s.Stored(k).nsec < U64
  {
    var a, b := s.Stored(k - 1), s.Stored(k);
    assert Follows(c, a, b) by { if k < |s.history| { assert Follows(c, s.history[k - 1], s.history[k]); } }
    TimeIs(c, a, b.taken);
  }

  /** The nanoseconds stored never decrease, and stay the same just if no writer adds any. */
  lemma {:induction false} NsecGrows(c: Scale, s: State, v: nat, w: nat)
    requires c.Valid() && WriterKeeps(c, s) && v <= w <= s.Loaded()
    ensures s.Stored(v).nsec <= s.Stored(w).nsec
    ensures s.Stored(v).nsec == s.Stored(w).nsec <==> NothingAdded(s, v, w)
  {
    if v < w {
      NsecGrows(c, s, v, w - 1);
      StoredFollows(c, s, w);
      assert NothingAdded(s, v, w) <==> NothingAdded(s, v, w - 1) && AddedNothing(s, w);
    }
  }

  lemma StoredFits(c: Scale, s: State, k: nat)
    requires c.Valid() && WriterKeeps(c, s) && s.history[0].nsec < U64 && k <= s.Loaded()
    ensures s.Stored(k).nsec < U64
  {
    if k > 0 { StoredFollows(c, s, k); }
  }

  lemma {:induction false} StartStays(c: Scale, run: seq<State>, n: nat)
    requires IsRun(c, run) && Undisturbed(c, run) && n < |run|
    ensures run[n].history != [] && run[n].history[0].nsec == 0
  {
    RunKeeps(c, run, n);
    if n > 0 {
      StartStays(c, run, n - 1);
      StepExtends(c, run[n - 1], run[n]);
    }
  }

  lemma SoundIsRight(c: Scale, s: State, g: Given)
    requires c.Valid() && WriterKeeps(c, s) && s.history[0].nsec == 0 && GivenSound(c, s, g)
    ensures GivenRight(c, s, g) <==> NothingAdded(s, g.version, g.loaded)
  {
    NsecGrows(c, s, g.version, g.loaded);
    StoredFits(c, s, g.version);
    StoredFits(c, s, g.loaded);
    TimesDiffer(c, s.history[g.version], s.Stored(g.loaded).nsec, g.read);
    assert s.Stored(g.version) == s.history[g.version];
  }

  /** Under every interleaving each time that is returned is made of the `last` of one completed writer,
      the newest when the counter was read; and it is the time which that writer's values yield if and
      only if no writer from then on, up to the load of `nsec`, has added a nanosecond. */
  lemma ReadersSeeOneWriter(c: Scale, run: seq<State>, n: nat, i: nat)
    requires c.Valid() && IsRun(c, run) && Undisturbed(c, run) && n < |run| && i < |run[n].given|
    ensures var s, g := run[n], run[n].given[i];
      && s.history != [] && g.loaded <= s.Loaded() && GivenSound(c, s, g)
      && (GivenRight(c, s, g) <==> NothingAdded(s, g.version, g.loaded))
  {
    RunKeeps(c, run, n);
    StartStays(c, run, n);
    SoundIsRight(c, run[n], run[n].given[i]);
  }

  lemma RightInOrder(c: Scale, s: State, a: Given, b: Given)
    requires c.Valid() && Chain(c, s.history) && GivenRight(c, s, a) && GivenRight(c, s, b) &&
      Before(a, b.version, b.read)
    ensures a.value <= b.value
  {
    VersionsAreMonotone(c, s.history, a.version, a.read, b.version, b.read);
  }

  /** Among the times that are right, none is earlier than one that was returned before it. */
  lemma ReadersAreMonotone(c: Scale, run: seq<State>, n: nat, i: nat, j: nat)
    requires c.Valid() && IsRun(c, run) && Undisturbed(c, run) && n < |run| && i <= j < |run[n].given|
    requires GivenRight(c, run[n], run[n].given[i]) && GivenRight(c, run[n], run[n].given[j])
    ensures run[n].given[i].value <= run[n].given[j].value
  {
    RunKeeps(c, run, n);
    var a, b := run[n].given[i], run[n].given[j];
    if i < j {
      assert Before(a, b.version, b.read);
      RightInOrder(c, run[n], a, b);
    }
  }

  // A reader that is overtaken

  const TICKER := Scale(8, 1, 0)
  const FIRST := Snapshot(0, 0, 0)
  const SECOND := Snapshot(10, 10, 10)

  /** The reader passes its check ten cycles after the start; then a writer comes. */
  function OvertakenRun(): seq<State> {
    [State(0, 0, 0, 0, Outside, Begin, [FIRST], []),
     State(0, 0, 0, 0, Outside, Started(0, 0), [FIRST], []),
     State(10, 0, 0, 0, Outside, Started(0, 0), [FIRST], []),
     State(10, 0, 0, 0, Outside, HasNow(0, 0, 10, 10), [FIRST], []),
     State(10, 0, 0, 0, Outside, HasLast(0, 0, 10, 10, 0), [FIRST], []),
     State(10, 0, 0, 0, Outside, Checked(0, 10, 10, 0), [FIRST], []),
     State(10, 1, 0, 0, Entered, Checked(0, 10, 10, 0), [FIRST], []),
     State(10, 1, 0, 10, StoredNsec(SECOND), Checked(0, 10, 10, 0), [FIRST], []),
     State(10, 1, 10, 10, StoredLast(SECOND), Checked(0, 10, 10, 0), [FIRST], []),
     State(10, 2, 10, 10, Outside, Checked(0, 10, 10, 0), [FIRST, SECOND], [])]
  }

  lemma TickerIs()
    ensures TICKER.Valid() && TICKER.Masked(0) == 0 && TICKER.Masked(10) == 10
    ensures forall last, now :: 0 <= last <= now <= 10 ==> TICKER.DeltaToNs(TICKER.Delta(last, now)) == now - last
    ensures forall n :: 0 <= n <= 10 ==> TICKER.Ns(n) == n
  {
    assert TICKER.Modulus() == 256 && Arith.Pow2(0) == 1;
  }

  lemma OvertakenReads(i: nat)
    requires 0 < i < 6
    ensures Steps(TICKER, OvertakenRun()[i - 1], OvertakenRun()[i])
  {
    TickerIs();
  }

  lemma OvertakenWrites(i: nat)
    requires 6 <= i < 10
    ensures Steps(TICKER, OvertakenRun()[i - 1], OvertakenRun()[i])
  {
    TickerIs();
    assert TICKER.DeltaToNs(TICKER.Delta(0, TICKER.Masked(10))) == 10;
    assert OvertakenRun()[i] == WriterStep(TICKER, OvertakenRun()[i - 1]);
  }

  lemma OvertakenSteps(i: nat)
    requires 0 < i < 10
    ensures Steps(TICKER, OvertakenRun()[i - 1], OvertakenRun()[i])
  {
    if i < 6 { OvertakenReads(i); } else { OvertakenWrites(i); }
  }

  lemma OvertakenInTime(i: nat)
    requires i < 10
    ensures NoWrap(OvertakenRun()[i]) && InTime(TICKER, OvertakenRun()[i])
  {
    TickerIs();
    assert TICKER.Modulus() == 256;
  }

  /** The load of `nsec` is not covered by the check: a writer that comes between the two makes the
      reader return a time that is ahead of every right one, and the next reader goes back. */
  lemma OvertakenReaderIsWrong()
    ensures var run := OvertakenRun();
      && IsRun(TICKER, run) && Undisturbed(TICKER, run) && run[9].reader.Checked?
      && Returned(TICKER, run[9]) > TimeAt(TICKER, run[9].Newest(), run[9].time)
  {
    TickerIs();
    forall i | 0 < i < 10 ensures Steps(TICKER, OvertakenRun()[i - 1], OvertakenRun()[i]) { OvertakenSteps(i); }
    forall i | 0 <= i < 10
      ensures NoWrap(OvertakenRun()[i]) && InTime(TICKER, OvertakenRun()[i]) { OvertakenInTime(i); }
    assert TICKER.DeltaToNs(TICKER.Delta(0, 10)) == 10 && TICKER.DeltaToNs(TICKER.Delta(10, 10)) == 0;
  }
}
