/** The shared-data protocol as a state machine: a publisher that rewrites the region register, the watchdog thread
    that copies it and swaps the facade factory, and any number of readers. */
module DataWatchdog {

  datatype Region = Region(timestamp: nat, key: nat)
  datatype Pair = Pair(stat: Region, upd: Region)
  datatype Which = Static | Updatable

  function Get(p: Pair, which: Which): Region {
    if which == Static then p.stat else p.upd
  }

  function Put(p: Pair, which: Which, r: Region): Pair {
    if which == Static then p.(stat := r) else p.(upd := r)
  }

  datatype Holder = Nobody | Publisher | Watcher

  /** `Rewriting(which)`: the key of that region is new but its timestamp has not been raised yet. */
  datatype PublisherPc = Resting | Writing | Rewriting(which: Which) | MustNotify | Notifying

  /** The loop of the watchdog thread; in `Comparing` .. `Swapped` it holds the register's mutex. */
  datatype WatcherPc = Starting | Comparing | Asleep(posted: bool) | CopyingStatic | CopyingUpdatable | Copied
                     | SwappingFirst | SwappingSecond | Swapped

  datatype ReaderPc = Entered | ReadFirst(first: Region) | Done

  /** The last four fields are history: every register value that was visible outside the mutex, which of them the
      watcher's copies and the factory hold, and what each call of Get returned together with its version. */
  datatype State = State(
    register: Pair, mutex: Holder, publisher: PublisherPc,
    watcher: WatcherPc, copies: Pair, factory: Pair, readers: map<nat, ReaderPc>,
    published: seq<Pair>, version: nat, factoryVersion: nat, served: seq<(Pair, nat)>)

  datatype Step =
    | PublisherLock
    | WriteKey(which: Which, key: nat)
    | RaiseTimestamp
    | PublisherUnlock
    | NotifyLock
    | NotifyPost
    | WatcherLock
    | Compare
    | CopyStatic
    | CopyUpdatable
    | SwapLock
    | SwapFirst
    | SwapSecond
    | SwapUnlock
    | ReaderLock(r: nat)
    | ReaderFirst(r: nat)
    | ReaderSecond(r: nat)
    | ReaderUnlock(r: nat)

  predicate SameTimestamps(a: Pair, b: Pair) {
    a.stat.timestamp == b.stat.timestamp && a.upd.timestamp == b.upd.timestamp
  }

  /** The facade factory is locked for writing from `SwappingFirst` to `Swapped`. */
  predicate FactoryLocked(s: State) {
    s.watcher in {SwappingFirst, SwappingSecond, Swapped}
  }

  predicate Enabled(s: State, step: Step) {
    match step
    case PublisherLock => s.publisher == Resting && s.mutex == Nobody
    case WriteKey(_, _) => s.publisher == Writing
    case RaiseTimestamp => s.publisher.Rewriting?
    case PublisherUnlock => s.publisher == Writing
    case NotifyLock => s.publisher == MustNotify && s.mutex == Nobody
    case NotifyPost => s.publisher == Notifying
    case WatcherLock => (s.watcher == Starting || s.watcher == Asleep(true)) && s.mutex == Nobody
    case Compare => s.watcher == Comparing
    case CopyStatic => s.watcher == CopyingStatic
    case CopyUpdatable => s.watcher == CopyingUpdatable
    case SwapLock => s.watcher == Copied && s.readers.Keys == {}
    case SwapFirst => s.watcher == SwappingFirst
    case SwapSecond => s.watcher == SwappingSecond
    case SwapUnlock => s.watcher == Swapped
    case ReaderLock(r) => r !in s.readers && !FactoryLocked(s)
    case ReaderFirst(r) => r in s.readers && s.readers[r] == Entered
    case ReaderSecond(r) => r in s.readers && s.readers[r].ReadFirst?
    case ReaderUnlock(r) => r in s.readers && s.readers[r] == Done
  }

  function LastIndex(s: State): nat {
    if s.published == [] then 0 else |s.published| - 1
  }

  function Last(s: State): Pair
    requires s.published != []
  {
    s.published[|s.published| - 1]
  }

  function Apply(s: State, step: Step): State
    requires Enabled(s, step)
  {
    match step
    case PublisherLock => s.(publisher := Writing, mutex := Publisher)
    case WriteKey(which, key) =>
      s.(publisher := Rewriting(which), register := Put(s.register, which, Get(s.register, which).(key := key)))
    case RaiseTimestamp =>
      var which := s.publisher.which;
      var r := Get(s.register, which);
      s.(publisher := Writing, register := Put(s.register, which, r.(timestamp := r.timestamp + 1)))
    case PublisherUnlock => s.(publisher := MustNotify, mutex := Nobody, published := s.published + [s.register])
    case NotifyLock => s.(publisher := Notifying, mutex := Publisher)
    case NotifyPost => s.(publisher := Resting, mutex := Nobody, watcher := if s.watcher.Asleep? then Asleep(true)
                       else s.watcher)
    case WatcherLock => s.(watcher := Comparing, mutex := Watcher)
    case Compare =>
      if SameTimestamps(s.copies, s.register) then s.(watcher := Asleep(false), mutex := Nobody)
      else s.(watcher := CopyingStatic)
    case CopyStatic =>
      s.(watcher := CopyingUpdatable,
         copies := if s.copies.stat.timestamp != s.register.stat.timestamp then s.copies.(stat := s.register.stat)
             else s.copies)
    case CopyUpdatable =>
      s.(watcher := Copied, version := LastIndex(s),
         copies := if s.copies.upd.timestamp != s.register.upd.timestamp then s.copies.(upd := s.register.upd)
             else s.copies)
    case SwapLock => s.(watcher := SwappingFirst)
    case SwapFirst => s.(watcher := SwappingSecond, factory := s.factory.(stat := s.copies.stat))
    case SwapSecond => s.(watcher := Swapped, factory := s.factory.(upd := s.copies.upd), factoryVersion := s.version)
    case SwapUnlock => s.(watcher := Starting, mutex := Nobody)
    case ReaderLock(r) => s.(readers := s.readers[r := Entered])
    case ReaderFirst(r) => s.(readers := s.readers[r := ReadFirst(s.factory.stat)])
    case ReaderSecond(r) =>
      s.(readers := s.readers[r := Done],
          served := s.served + [(Pair(s.readers[r].first, s.factory.upd), s.factoryVersion)])
    case ReaderUnlock(r) => s.(readers := s.readers - {r})
  }

  /** The state in which the constructor leaves the object: copies and factory were made from one register value. */
  predicate Initial(s: State) {
    && s.mutex == Nobody && s.publisher == Resting && s.watcher == Starting && s.readers == map[]
    && s.copies == s.register && s.factory == s.register
    && s.published == [s.register] && s.version == 0 && s.factoryVersion == 0 && s.served == []
  }

  predicate NotNewer(a: Region, b: Region) {
    a == b || a.timestamp < b.timestamp
  }

  predicate NotNewerPair(a: Pair, b: Pair) {
    NotNewer(a.stat, b.stat) && NotNewer(a.upd, b.upd)
  }

  ghost predicate MutexInvariant(s: State) {
    && (s.mutex == Publisher <==> s.publisher in {Writing, Notifying} || s.publisher.Rewriting?)
    && (s.mutex == Watcher <==> !(s.watcher == Starting || s.watcher.Asleep?))
  }

  /** Published values never go back in time, and outside a rewrite the register is the last of them. */
  ghost predicate RegisterInvariant(s: State) {
    && s.published != []
    && (forall i, j :: 0 <= i <= j < |s.published| ==> NotNewerPair(s.published[i], s.published[j]))
    && match s.publisher
       case Writing => NotNewerPair(Last(s), s.register)
       case Rewriting(which) =>
         && Get(Last(s), which).timestamp <= Get(s.register, which).timestamp
         && (which == Static ==> NotNewer(Last(s).upd, s.register.upd))
         && (which == Updatable ==> NotNewer(Last(s).stat, s.register.stat))
       case _ => s.register == Last(s)
  }

  ghost predicate WatcherInvariant(s: State)
    requires s.published != []
  {
    && s.factoryVersion <= s.version < |s.published|
    && (match s.watcher
        case CopyingUpdatable => s.copies == Pair(Last(s).stat, s.published[s.version].upd)
        case _ => s.copies == s.published[s.version])
    && (s.watcher in {Copied, SwappingFirst, SwappingSecond} || s.factoryVersion == s.version)
    && (match s.watcher
        case SwappingSecond => s.factory.stat == s.copies.stat
        case _ => s.factory == s.published[s.factoryVersion])
    && (s.watcher == Asleep(false) ==> s.copies == Last(s) || s.publisher in {MustNotify, Notifying})
  }

  ghost predicate ReaderInvariant(s: State) {
    && (FactoryLocked(s) ==> s.readers.Keys == {})
    && (forall r :: r in s.readers && s.readers[r].ReadFirst? ==> s.readers[r].first == s.factory.stat)
  }

  ghost predicate ServedInvariant(s: State) {
    && (forall k :: 0 <= k < |s.served| ==>
          s.served[k].1 <= s.factoryVersion && s.served[k].1 < |s.published|
              && s.served[k].0 == s.published[s.served[k].1])
    && (forall i, j :: 0 <= i <= j < |s.served| ==> s.served[i].1 <= s.served[j].1)
  }

  ghost predicate Invariant(s: State) {
    MutexInvariant(s) && RegisterInvariant(s) && WatcherInvariant(s) && ReaderInvariant(s) && ServedInvariant(s)
  }

  lemma InitialInvariant(s: State)
    requires Initial(s)
    ensures Invariant(s)
  {
  }

  lemma StepKeepsMutex(s: State, step: Step)
    requires Invariant(s) && Enabled(s, step)
    ensures MutexInvariant(Apply(s, step))
  {
  }

  lemma StepKeepsRegister(s: State, step: Step)
    requires Invariant(s) && Enabled(s, step)
    ensures RegisterInvariant(Apply(s, step))
  {
    hide ReaderInvariant, WatcherInvariant, ServedInvariant;
  }

  /** A step of the watchdog thread. */
  predicate OfWatcher(step: Step) {
    step in {WatcherLock, Compare, CopyStatic, CopyUpdatable, SwapLock, SwapFirst, SwapSecond, SwapUnlock}
  }

  lemma OwnStepKeepsWatcher(s: State, step: Step)
    requires Invariant(s) && Enabled(s, step) && OfWatcher(step)
    ensures Apply(s, step).published != [] && WatcherInvariant(Apply(s, step))
  {
    hide ReaderInvariant, ServedInvariant;
  }

  lemma StepKeepsWatcher(s: State, step: Step)
    requires Invariant(s) && Enabled(s, step)
    ensures Apply(s, step).published != [] && WatcherInvariant(Apply(s, step))
  {
    hide ReaderInvariant, ServedInvariant, NotNewerPair;
    if OfWatcher(step) {
      OwnStepKeepsWatcher(s, step);
    }
  }

  lemma StepKeepsReaders(s: State, step: Step)
    requires Invariant(s) && Enabled(s, step)
    ensures ReaderInvariant(Apply(s, step))
  {
    hide MutexInvariant, RegisterInvariant, WatcherInvariant, ServedInvariant;
  }

  /** A reader that takes its second region takes both from one published value. */
  lemma ReadIsPublished(s: State, r: nat)
    requires Invariant(s) && Enabled(s, ReaderSecond(r))
    ensures s.factoryVersion < |s.published| && Pair(s.readers[r].first, s.factory.upd) == s.published[s.factoryVersion]
  {
    hide MutexInvariant, RegisterInvariant, ServedInvariant;
  }

  lemma VersionsGrow(s: State, step: Step)
    requires Invariant(s) && Enabled(s, step)
    ensures var t := Apply(s, step); s.factoryVersion <= t.factoryVersion && s.published <= t.published
  {
    hide MutexInvariant, RegisterInvariant, ServedInvariant, ReaderInvariant;
  }

  lemma StepKeepsServed(s: State, step: Step)
    requires Invariant(s) && Enabled(s, step)
    ensures ServedInvariant(Apply(s, step))
  {
    hide MutexInvariant, RegisterInvariant, WatcherInvariant, ReaderInvariant;
    VersionsGrow(s, step);
    if step.ReaderSecond? {
      ReadIsPublished(s, step.r);
    } else {
      assert Apply(s, step).served == s.served;
    }
  }

  lemma StepKeepsInvariant(s: State, step: Step)
    requires Invariant(s) && Enabled(s, step)
    ensures Invariant(Apply(s, step))
  {
    hide MutexInvariant, RegisterInvariant, WatcherInvariant, ReaderInvariant, ServedInvariant;
    StepKeepsMutex(s, step);
    StepKeepsRegister(s, step);
    StepKeepsWatcher(s, step);
    StepKeepsReaders(s, step);
    StepKeepsServed(s, step);
  }

  ghost predicate IsRun(run: seq<State>, steps: seq<Step>) {
    && |run| == |steps| + 1 && Initial(run[0])
    && forall i :: 0 <= i < |steps| ==> Enabled(run[i], steps[i]) && run[i + 1] == Apply(run[i], steps[i])
  }

  lemma {:induction false} RunKeepsInvariant(run: seq<State>, steps: seq<Step>, i: nat)
    requires IsRun(run, steps) && i < |run|
    ensures Invariant(run[i])
  {
    if i == 0 {
      InitialInvariant(run[0]);
    } else {
      RunKeepsInvariant(run, steps, i - 1);
      StepKeepsInvariant(run[i - 1], steps[i - 1]);
    }
  }

  /** The history is honest: each published value was the register's content at an instant when nobody held the
      mutex. */
  lemma {:induction false} PublishedWasRegister(run: seq<State>, steps: seq<Step>, i: nat, k: nat) returns (j: nat)
    requires IsRun(run, steps) && i < |run| && k < |run[i].published|
    ensures j <= i && run[j].register == run[i].published[k] && run[j].mutex == Nobody
  {
    if i == 0 {
      j := 0;
    } else if k < |run[i - 1].published| {
      assert run[i] == Apply(run[i - 1], steps[i - 1]);
      j := PublishedWasRegister(run, steps, i - 1, k);
    } else {
      assert run[i] == Apply(run[i - 1], steps[i - 1]);
      j := i;
    }
  }

  /** Every facade returned by Get was built from a static and an updatable region that stood in the register
      together, at one instant when nobody held the mutex. */
  lemma ServedPairsCoexisted(run: seq<State>, steps: seq<Step>, i: nat, k: nat) returns (j: nat)
    requires IsRun(run, steps) && i < |run| && k < |run[i].served|
    ensures j <= i && run[j].register == run[i].served[k].0 && run[j].mutex == Nobody
  {
    RunKeepsInvariant(run, steps, i);
    j := PublishedWasRegister(run, steps, i, run[i].served[k].1);
  }

  /** Later calls of Get never return older data. */
  lemma ServedTimestampsNeverDecrease(run: seq<State>, steps: seq<Step>, i: nat, k: nat, m: nat)
    requires IsRun(run, steps) && i < |run| && k <= m < |run[i].served|
    ensures NotNewerPair(run[i].served[k].0, run[i].served[m].0)
  {
    RunKeepsInvariant(run, steps, i);
  }

  lemma SleepsWhenCurrent(s: State, step: Step)
    requires Invariant(s) && Enabled(s, step) && Apply(s, step).watcher == Asleep(false) && !s.watcher.Asleep?
    ensures Apply(s, step).factory == Apply(s, step).register
  {
    hide ReaderInvariant, ServedInvariant, NotNewerPair;
    assert step == Compare && SameTimestamps(s.copies, s.register) && s.register == Last(s);
    assert NotNewerPair(s.published[s.version], Last(s));
    SameTimestampsSameValue(s.copies, s.register);
  }

  lemma SameTimestampsSameValue(a: Pair, b: Pair)
    requires NotNewerPair(a, b) && SameTimestamps(a, b)
    ensures a == b
  {
  }

  /** When the watchdog goes to wait, the facade it serves is exactly what the register holds. */
  lemma WaitsOnlyWhenCurrent(run: seq<State>, steps: seq<Step>, i: nat)
    requires IsRun(run, steps) && i < |steps| && run[i + 1].watcher == Asleep(false) && !run[i].watcher.Asleep?
    ensures run[i + 1].factory == run[i + 1].register
  {
    hide Invariant, Apply, Enabled;
    RunKeepsInvariant(run, steps, i);
    SleepsWhenCurrent(run[i], steps[i]);
  }

  /** No update is lost: a watchdog that sleeps without a pending wake-up serves the last published value, unless
      the publisher of a newer one is still on its way to notify. */
  lemma NoLostUpdate(run: seq<State>, steps: seq<Step>, i: nat)
    requires IsRun(run, steps) && i < |run| && run[i].watcher == Asleep(false)
    requires run[i].publisher !in {MustNotify, Notifying}
    ensures run[i].published != [] && run[i].factory == Last(run[i])
  {
    RunKeepsInvariant(run, steps, i);
  }

  /** The steps are enabled in turn and lead from one state to the other. */
  predicate Leads(s: State, steps: seq<Step>, t: State)
    decreases |steps|
  {
    if steps == [] then s == t
    else Enabled(s, steps[0]) && Leads(Apply(s, steps[0]), steps[1..], t)
  }

  lemma {:induction false} LeadsOn(s: State, first: seq<Step>, t: State, second: seq<Step>, u: State)
    requires Leads(s, first, t) && Leads(t, second, u)
    ensures Leads(s, first + second, u)
    decreases |first|
  {
    hide Enabled, Apply;
    if first == [] {
      assert first + second == second;
    } else {
      LeadsOn(Apply(s, first[0]), first[1..], t, second, u);
      assert (first + second)[1..] == first[1..] + second;
    }
  }

  lemma LeadsByTwo(s: State, a: Step, b: Step)
    requires Enabled(s, a) && Enabled(Apply(s, a), b)
    ensures Leads(s, [a, b], Apply(Apply(s, a), b))
  {
    hide Enabled, Apply;
    var t := Apply(s, a);
    assert [b][1..] == [] && Leads(Apply(t, b), [], Apply(t, b));
    assert [a, b][1..] == [b] && Leads(t, [b], Apply(t, b));
  }

  /** Copying takes over what differs in its timestamp, which is all that differs. */
  lemma Copies(s: State) returns (t: State)
    requires Invariant(s) && s.watcher == CopyingStatic
    ensures Leads(s, [CopyStatic, CopyUpdatable], t)
    ensures t == s.(watcher := Copied, copies := s.register, version := LastIndex(s))
  {
    hide ReaderInvariant, ServedInvariant, Leads;
    assert s.register == Last(s) && s.copies == s.published[s.version];
    assert NotNewerPair(s.published[s.version], Last(s));
    LeadsByTwo(s, CopyStatic, CopyUpdatable);
    t := Apply(Apply(s, CopyStatic), CopyUpdatable);
  }

  lemma Swaps(s: State) returns (t: State)
    requires s.watcher == Copied && s.readers.Keys == {}
    ensures Leads(s, [SwapLock, SwapFirst] + [SwapSecond, SwapUnlock], t)
    ensures t == s.(watcher := Starting, mutex := Nobody, factory := s.copies, factoryVersion := s.version)
  {
    hide Leads;
    LeadsByTwo(s, SwapLock, SwapFirst);
    var half := Apply(Apply(s, SwapLock), SwapFirst);
    LeadsByTwo(half, SwapSecond, SwapUnlock);
    t := Apply(Apply(half, SwapSecond), SwapUnlock);
    LeadsOn(s, [SwapLock, SwapFirst], half, [SwapSecond, SwapUnlock], t);
  }

  lemma Compares(s: State) returns (t: State)
    requires Invariant(s) && s.mutex == Nobody && (s.watcher == Starting || s.watcher == Asleep(true))
    ensures Leads(s, [WatcherLock, Compare], t) && Invariant(t)
    ensures t.register == s.register && t.readers == s.readers && t.served == s.served && t.publisher == s.publisher
    ensures t.watcher == CopyingStatic
            || (t.watcher == Asleep(false) && t.mutex == Nobody && t.factory == t.register)
  {
    hide Invariant, Leads;
    StepKeepsInvariant(s, WatcherLock);
    StepKeepsInvariant(Apply(s, WatcherLock), Compare);
    LeadsByTwo(s, WatcherLock, Compare);
    t := Apply(Apply(s, WatcherLock), Compare);
    if t.watcher == Asleep(false) {
      SleepsWhenCurrent(Apply(s, WatcherLock), Compare);
    }
  }

  lemma Notifies(s: State) returns (t: State)
    requires Invariant(s) && s.mutex == Nobody && s.publisher == MustNotify && s.watcher.Asleep?
    ensures Leads(s, [NotifyLock, NotifyPost], t) && Invariant(t)
    ensures t == s.(publisher := Resting, watcher := Asleep(true))
  {
    hide Invariant, Leads;
    StepKeepsInvariant(s, NotifyLock);
    StepKeepsInvariant(Apply(s, NotifyLock), NotifyPost);
    LeadsByTwo(s, NotifyLock, NotifyPost);
    t := Apply(Apply(s, NotifyLock), NotifyPost);
  }

  /** What the notification and the watchdog thread do on their own: no new update and no reader. */
  predicate OnTheirOwn(steps: seq<Step>) {
    forall step :: step in steps ==> step in {NotifyLock, NotifyPost, WatcherLock, Compare, CopyStatic, CopyUpdatable,
                                              SwapLock, SwapFirst, SwapSecond, SwapUnlock}
  }

  ghost predicate Current(s: State, register: Pair) {
    s.factory == s.register == register && s.mutex == Nobody && (s.watcher == Asleep(false) || s.watcher == Starting)
  }

  /** A watchdog that has been woken compares; it goes back to sleep when it is current, and copies and swaps
      otherwise. */
  lemma WokenWatcherCatchesUp(s: State) returns (steps: seq<Step>, t: State)
    requires Invariant(s) && s.mutex == Nobody && (s.watcher == Starting || s.watcher == Asleep(true))
    requires s.readers.Keys == {}
    ensures Leads(s, steps, t) && OnTheirOwn(steps)
    ensures Current(t, s.register) && t.readers == s.readers && t.served == s.served && t.publisher == s.publisher
  {
    hide Invariant, Leads;
    t := Compares(s);
    steps := [WatcherLock, Compare];
    if t.watcher == CopyingStatic {
      var copied := Copies(t);
      var swapped := Swaps(copied);
      LeadsOn(s, steps, t, [CopyStatic, CopyUpdatable], copied);
      steps := steps + [CopyStatic, CopyUpdatable];
      LeadsOn(s, steps, copied, [SwapLock, SwapFirst] + [SwapSecond, SwapUnlock], swapped);
      steps, t := steps + ([SwapLock, SwapFirst] + [SwapSecond, SwapUnlock]), swapped;
    }
  }

  lemma FreeMutex(s: State)
    requires Invariant(s) && s.mutex == Nobody
    ensures s.publisher == Resting || s.publisher == MustNotify
    ensures s.watcher == Starting || s.watcher.Asleep?
    ensures s.watcher == Asleep(false) && s.publisher == Resting ==> s.factory == s.register
  {
  }

  lemma CatchesUp(s: State) returns (steps: seq<Step>, t: State)
    requires Invariant(s) && s.mutex == Nobody && s.readers.Keys == {}
    ensures Leads(s, steps, t) && OnTheirOwn(steps)
    ensures Current(t, s.register) && t.readers == s.readers && t.served == s.served
  {
    hide Invariant, Apply, Enabled;
    FreeMutex(s);
    steps, t := [], s;
    if t.watcher == Asleep(false) && t.publisher == MustNotify {
      t := Notifies(s);
      steps := [NotifyLock, NotifyPost];
    }
    if t.watcher != Asleep(false) {
      var more, end := WokenWatcherCatchesUp(t);
      LeadsOn(s, steps, t, more, end);
      steps, t := steps + more, end;
    }
  }

  /** Progress: from every reachable state in which the mutex is free and nobody reads, the pending notification and
      the watchdog's own steps are enabled in turn and end with the factory serving what the register holds. */
  lemma UpdateIsServed(run: seq<State>, steps: seq<Step>, i: nat) returns (taken: seq<Step>, t: State)
    requires IsRun(run, steps) && i < |run| && run[i].mutex == Nobody && run[i].readers.Keys == {}
    ensures Leads(run[i], taken, t) && OnTheirOwn(taken) && Current(t, run[i].register)
  {
    hide Invariant, Apply, Enabled, Leads;
    RunKeepsInvariant(run, steps, i);
    taken, t := CatchesUp(run[i]);
  }

  /** The publisher's four steps. */
  function Publishing(which: Which, key: nat): seq<Step> {
    [PublisherLock, WriteKey(which, key)] + [RaiseTimestamp, PublisherUnlock]
  }

  lemma Publishes(s: State, which: Which, key: nat) returns (t: State)
    requires Invariant(s) && s.mutex == Nobody && s.publisher == Resting
    ensures Leads(s, Publishing(which, key), t) && Invariant(t)
    ensures t.mutex == Nobody && t.readers == s.readers && t.served == s.served
    ensures t.register == Put(s.register, which, Region(Get(s.register, which).timestamp + 1, key))
  {
    hide Invariant, Leads;
    var s1 := Apply(s, PublisherLock);
    var s2 := Apply(s1, WriteKey(which, key));
    var s3 := Apply(s2, RaiseTimestamp);
    t := Apply(s3, PublisherUnlock);
    StepKeepsInvariant(s, PublisherLock);
    StepKeepsInvariant(s1, WriteKey(which, key));
    StepKeepsInvariant(s2, RaiseTimestamp);
    StepKeepsInvariant(s3, PublisherUnlock);
    LeadsByTwo(s, PublisherLock, WriteKey(which, key));
    LeadsByTwo(s2, RaiseTimestamp, PublisherUnlock);
    LeadsOn(s, [PublisherLock, WriteKey(which, key)], s2, [RaiseTimestamp, PublisherUnlock], t);
  }

  /** One call of Get. */
  function Reading(r: nat): seq<Step> {
    [ReaderLock(r), ReaderFirst(r)] + [ReaderSecond(r), ReaderUnlock(r)]
  }

  lemma Reads(s: State, r: nat) returns (t: State)
    requires r !in s.readers && !FactoryLocked(s)
    ensures Leads(s, Reading(r), t) && t == s.(served := s.served + [(s.factory, s.factoryVersion)])
  {
    hide Leads;
    LeadsByTwo(s, ReaderLock(r), ReaderFirst(r));
    var half := Apply(Apply(s, ReaderLock(r)), ReaderFirst(r));
    LeadsByTwo(half, ReaderSecond(r), ReaderUnlock(r));
    t := Apply(Apply(half, ReaderSecond(r)), ReaderUnlock(r));
    LeadsOn(s, [ReaderLock(r), ReaderFirst(r)], half, [ReaderSecond(r), ReaderUnlock(r)], t);
    assert t.readers == s.readers;
  }

  /** From a publication to a reader: after the publisher has rewritten a region, the notification and the watchdog
      can run until the next call of Get returns the new region, together with the other one as it was. */
  lemma UpdateReachesReaders(run: seq<State>, steps: seq<Step>, i: nat, which: Which, key: nat, r: nat)
    returns (taken: seq<Step>, t: State)
    requires IsRun(run, steps) && i < |run| && run[i].mutex == Nobody && run[i].publisher == Resting
    requires run[i].readers.Keys == {}
    ensures Leads(run[i], Publishing(which, key) + taken + Reading(r), t) && OnTheirOwn(taken)
    ensures |t.served| == |run[i].served| + 1
    ensures var before, after := run[i].register, t.served[|t.served| - 1].0;
            if which == Static then after == Pair(Region(before.stat.timestamp + 1, key), before.upd)
            else after == Pair(before.stat, Region(before.upd.timestamp + 1, key))
  {
    hide Invariant, Apply, Enabled, Leads, Publishing, Reading, OnTheirOwn;
    RunKeepsInvariant(run, steps, i);
    var published := Publishes(run[i], which, key);
    var current: State;
    taken, current := CatchesUp(published);
    LeadsOn(run[i], Publishing(which, key), published, taken, current);
    t := Reads(current, r);
    LeadsOn(run[i], Publishing(which, key) + taken, current, Reading(r), t);
  }
}
