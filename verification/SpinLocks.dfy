/** The locks of server/include/concurrent/SpinLock.h as step machines: any number of threads, one
    sequentially consistent atomic action a step. */
module SpinLocks {

  /** How many elements of a sequence of thread states a lock counts. */
  ghost function Count<T(!new)>(s: seq<T>, weigh: T -> nat): (n: nat) {
    if s == [] then 0 else weigh(s[0]) + Count(s[1..], weigh)
  }

  /** One thread moves, and the count changes by what that thread counts for. */
  lemma {:induction false} CountUpdate<T(!new)>(s: seq<T>, t: nat, x: T, weigh: T -> nat)
    requires t < |s|
    ensures Count(s[t := x], weigh) == Count(s, weigh) - weigh(s[t]) + weigh(x)
  {
    if t == 0 {
      assert s[0 := x][1..] == s[1..];
    } else {
      assert s[t := x][1..] == s[1..][t - 1 := x];
      CountUpdate(s[1..], t - 1, x, weigh);
    }
  }

  lemma {:induction false} CountAtLeast<T(!new)>(s: seq<T>, t: nat, weigh: T -> nat)
    requires t < |s|
    ensures weigh(s[t]) <= Count(s, weigh)
  {
    if t > 0 {
      CountAtLeast(s[1..], t - 1, weigh);
    }
  }

  lemma {:induction false} CountBounded<T(!new)>(s: seq<T>, weigh: T -> nat, most: nat)
    requires forall x :: weigh(x) <= most
    ensures Count(s, weigh) <= most * |s|
  {
    if s != [] {
      CountBounded(s[1..], weigh, most);
      assert most * |s| == most + most * |s[1..]|;
    }
  }

  // ---------- the reader/writer lock ----------

  /** A write-locked operation on shared data: its single writes, in order. */
  type Operation<!D> = seq<D -> D>

  /** Where a thread stands. Reading remembers how many operations had been admitted when it entered;
      Writing holds the writes still to do. */
  datatype Pc<!D> =
    | Idle
    | ReadSpin                   // about to load writer_ in the inner loop of readLock
    | ReadAdd                    // about to increment readers_
    | ReadCheck                  // about to load writer_ again
    | ReadBack                   // about to take the increment back
    | Reading(entered: nat)
    | WriteSwap(op: Operation<D>) // about to exchange writer_
    | WriteWait(op: Operation<D>) // about to load readers_
    | Writing(todo: Operation<D>)

  datatype Act<!D> =
    | BeginRead
    | BeginWrite(op: Operation<D>)
    | Look                       // a reader reads the data
    | Go                         // the next atomic action of the code

  /** Fields of the lock, the threads, the data it protects, and a record of what was written and seen. */
  datatype Shared<!D> = Shared(writer: bool, readers: int, pcs: seq<Pc<D>>,
                               data: D, log: seq<Operation<D>>, seen: seq<Observation<D>>)

  /** A reader saw this data when this many operations had been admitted. */
  datatype Observation<D> = Observation(data: D, admitted: nat)

  ghost function Step<D>(s: Shared<D>, t: nat, a: Act<D>): Shared<D>
    requires t < |s.pcs|
  {
    var pc := s.pcs[t];
    if pc.Idle? && a.BeginRead? then s.(pcs := s.pcs[t := ReadSpin])
    else if pc.Idle? && a.BeginWrite? then s.(pcs := s.pcs[t := WriteSwap(a.op)])
    else if pc.Reading? && a.Look? then s.(seen := s.seen + [Observation(s.data, pc.entered)])
    else if !a.Go? then s
    else match pc
      case Idle => s
      case ReadSpin => if s.writer then s else s.(pcs := s.pcs[t := ReadAdd])
      case ReadAdd => s.(readers := s.readers + 1, pcs := s.pcs[t := ReadCheck])
      case ReadCheck => s.(pcs := s.pcs[t := if s.writer then ReadBack else Reading(|s.log|)])
      case ReadBack => s.(readers := s.readers - 1, pcs := s.pcs[t := ReadSpin])
      case Reading(_) => s.(readers := s.readers - 1, pcs := s.pcs[t := Idle])
      case WriteSwap(op) => if s.writer then s else s.(writer := true, pcs := s.pcs[t := WriteWait(op)])
      case WriteWait(op) => if s.readers > 0 then s else s.(pcs := s.pcs[t := Writing(op)], log := s.log + [op])
      case Writing(todo) =>
        if todo == [] then s.(writer := false, pcs := s.pcs[t := Idle])
        else s.(data := todo[0](s.data), pcs := s.pcs[t := Writing(todo[1..])])
  }

  /** Threads between the increment and the decrement of readers_. */
  ghost function Inside<D>(pc: Pc<D>): nat {
    if pc.ReadCheck? || pc.ReadBack? || pc.Reading? then 1 else 0
  }

  /** Threads that own the writer flag. */
  ghost function Owner<D>(pc: Pc<D>): nat {
    if pc.WriteWait? || pc.Writing? then 1 else 0
  }

  ghost function Perform<D>(d: D, op: Operation<D>): D
    decreases |op|
  {
    if op == [] then d else Perform(op[0](d), op[1..])
  }

  /** The data after whole operations, in the order the lock admitted them. */
  ghost function Replay<D>(d: D, log: seq<Operation<D>>): D {
    if log == [] then d else Perform(Replay(d, log[..|log| - 1]), log[|log| - 1])
  }

  ghost predicate Start<D(!new)>(s: Shared<D>) {
    !s.writer && s.readers == 0 && s.log == [] && s.seen == [] && forall t :: 0 <= t < |s.pcs| ==> s.pcs[t] == Idle
  }

  ghost predicate Inv<D(!new)>(init: D, s: Shared<D>) {
    && s.readers == Count(s.pcs, Inside)
    && Count(s.pcs, Owner) == (if s.writer then 1 else 0)
    && (forall r, w :: 0 <= r < |s.pcs| && 0 <= w < |s.pcs| && s.pcs[r].Reading? ==> !s.pcs[w].Writing?)
    && (forall r :: 0 <= r < |s.pcs| && s.pcs[r].Reading? ==> s.pcs[r].entered == |s.log|)
    && (forall w :: 0 <= w < |s.pcs| && s.pcs[w].Writing? ==> Perform(s.data, s.pcs[w].todo) == Replay(init, s.log))
    && ((forall w :: 0 <= w < |s.pcs| ==> !s.pcs[w].Writing?) ==> s.data == Replay(init, s.log))
    && (forall o :: o in s.seen ==> o.admitted <= |s.log| && o.data == Replay(init, s.log[..o.admitted]))
  }

  lemma {:induction false} NoneCounted<T(!new)>(s: seq<T>, weigh: T -> nat)
    requires forall t :: 0 <= t < |s| ==> weigh(s[t]) == 0
    ensures Count(s, weigh) == 0
  {
    if s != [] {
      NoneCounted(s[1..], weigh);
    }
  }

  lemma StartInv<D(!new)>(s: Shared<D>)
    requires Start(s)
    ensures Inv(s.data, s)
  {
    NoneCounted(s.pcs, Inside);
    NoneCounted(s.pcs, Owner);
  }

  lemma {:induction false} CountTwo<T(!new)>(s: seq<T>, i: nat, j: nat, weigh: T -> nat)
    requires i < j < |s|
    ensures weigh(s[i]) + weigh(s[j]) <= Count(s, weigh)
  {
    if i == 0 {
      CountAtLeast(s[1..], j - 1, weigh);
    } else {
      CountTwo(s[1..], i - 1, j - 1, weigh);
    }
  }

  /** What the counters say about any two threads. */
  lemma Exclusion<D(!new)>(init: D, s: Shared<D>, i: nat, j: nat)
    requires Inv(init, s) && i < |s.pcs| && j < |s.pcs| && i != j
    ensures !(s.pcs[i].Writing? && (s.pcs[j].Writing? || s.pcs[j].Reading?))
    ensures s.pcs[i].Writing? || s.pcs[i].WriteWait? ==> s.writer && !s.pcs[j].WriteWait?
    ensures s.pcs[i].Reading? ==> 0 < s.readers
  {
    if i < j {
      CountTwo(s.pcs, i, j, Owner);
    } else {
      CountTwo(s.pcs, j, i, Owner);
    }
    CountAtLeast(s.pcs, i, Owner);
    CountAtLeast(s.pcs, i, Inside);
  }

  /** What a move does to the thread that makes it, and to the two fields of the lock. */
  lemma StepShape<D>(s: Shared<D>, t: nat, a: Act<D>)
    requires t < |s.pcs|
    ensures var s' := Step(s, t, a);
      && |s'.pcs| == |s.pcs| && s'.pcs == s.pcs[t := s'.pcs[t]]
      && s'.readers - s.readers == Inside(s'.pcs[t]) - Inside(s.pcs[t])
      && ((s'.writer == s.writer && Owner(s'.pcs[t]) == Owner(s.pcs[t]))
          || (!s.writer && s'.writer && Owner(s'.pcs[t]) == 1 && Owner(s.pcs[t]) == 0)
          || (!s'.writer && Owner(s'.pcs[t]) == 0 && Owner(s.pcs[t]) == 1))
  {
  }

  /** One thread's move changes the two counts by what that thread counts for. */
  lemma StepCounts<D(!new)>(init: D, s: Shared<D>, t: nat, a: Act<D>)
    requires Inv(init, s) && t < |s.pcs|
    ensures var s' := Step(s, t, a);
      && s'.readers == Count(s'.pcs, Inside) && Count(s'.pcs, Owner) == (if s'.writer then 1 else 0)
  {
    assert s.readers == Count(s.pcs, Inside) && Count(s.pcs, Owner) == (if s.writer then 1 else 0);
    hide Inv, Step, Inside, Owner;
    var s' := Step(s, t, a);
    StepShape(s, t, a);
    CountUpdate(s.pcs, t, s'.pcs[t], Inside);
    CountUpdate(s.pcs, t, s'.pcs[t], Owner);
    CountAtLeast(s.pcs, t, Owner);
  }

  lemma ReplayMore<D>(init: D, log: seq<Operation<D>>, op: Operation<D>)
    ensures Replay(init, log + [op]) == Perform(Replay(init, log), op)
  {
    assert (log + [op])[..|log|] == log;
  }

  /** The other threads, seen from the one that moves. */
  lemma Bystanders<D(!new)>(init: D, s: Shared<D>, t: nat, a: Act<D>)
    requires Inv(init, s) && t < |s.pcs|
    ensures |Step(s, t, a).pcs| == |s.pcs|
    ensures forall i :: 0 <= i < |s.pcs| && i != t ==>
      && Step(s, t, a).pcs[i] == s.pcs[i]
      && !(s.pcs[t].Writing? && (s.pcs[i].Writing? || s.pcs[i].Reading?))
      && (s.pcs[i].Reading? ==> 0 < s.readers) && (s.pcs[i].Writing? ==> s.writer && !s.pcs[t].WriteWait?)
  {
    hide Inv;
    forall i | 0 <= i < |s.pcs| && i != t
      ensures !(s.pcs[t].Writing? && (s.pcs[i].Writing? || s.pcs[i].Reading?))
      ensures (s.pcs[i].Reading? ==> 0 < s.readers) && (s.pcs[i].Writing? ==> s.writer && !s.pcs[t].WriteWait?)
    {
      Exclusion(init, s, t, i);
      Exclusion(init, s, i, t);
    }
  }

  /** A move keeps the data what the admitted operations make of it. */
  lemma StepKeepsData<D(!new)>(init: D, s: Shared<D>, t: nat, a: Act<D>)
    requires Inv(init, s) && t < |s.pcs|
    ensures var s' := Step(s, t, a);
      && (forall w :: 0 <= w < |s'.pcs| && s'.pcs[w].Writing? ==> Perform(s'.data, s'.pcs[w].todo) == Replay(init, s'.log))
      && ((forall w :: 0 <= w < |s'.pcs| ==> !s'.pcs[w].Writing?) ==> s'.data == Replay(init, s'.log))
  {
    var s', pc := Step(s, t, a), s.pcs[t];
    Bystanders(init, s, t, a);
    if a.Go? && pc.WriteWait? && s.readers <= 0 {
      ReplayMore(init, s.log, pc.op);
      forall w | 0 <= w < |s.pcs| ensures !s.pcs[w].Writing? {}
      assert s'.pcs[t].Writing?;
    } else if pc.Writing? {
      assert s'.log == s.log && Perform(s.data, pc.todo) == Replay(init, s.log);
      assert !s'.pcs[t].Writing? ==> pc.todo == [] && s'.data == s.data;
    } else {
      assert s'.log == s.log && s'.data == s.data && !s'.pcs[t].Writing?;
      if forall w :: 0 <= w < |s'.pcs| ==> !s'.pcs[w].Writing? {
        forall w | 0 <= w < |s.pcs| ensures !s.pcs[w].Writing? {
          assert !s'.pcs[w].Writing?;
        }
      }
    }
  }

  /** What was seen stays a prefix, and so does what is being seen. */
  lemma StepKeepsSeen<D(!new)>(init: D, s: Shared<D>, t: nat, a: Act<D>)
    requires Inv(init, s) && t < |s.pcs|
    ensures var s' := Step(s, t, a);
      && (forall r :: 0 <= r < |s'.pcs| && s'.pcs[r].Reading? ==> s'.pcs[r].entered == |s'.log|)
      && (forall o :: o in s'.seen ==> o.admitted <= |s'.log| && o.data == Replay(init, s'.log[..o.admitted]))
  {
    var s', pc := Step(s, t, a), s.pcs[t];
    Bystanders(init, s, t, a);
    if a.Go? && pc.WriteWait? && s.readers <= 0 {
      assert s'.seen == s.seen;
      forall o | o in s.seen ensures o.admitted <= |s.log| && s'.log[..o.admitted] == s.log[..o.admitted] {}
    } else if pc.Reading? && a.Look? {
      assert s.log[..|s.log|] == s.log;
      assert forall w :: 0 <= w < |s.pcs| ==> !s.pcs[w].Writing?;
    }
  }

  /** Each atomic action of each thread keeps the invariant. */
  lemma StepKeepsInv<D(!new)>(init: D, s: Shared<D>, t: nat, a: Act<D>)
    requires Inv(init, s) && t < |s.pcs|
    ensures Inv(init, Step(s, t, a))
  {
    StepCounts(init, s, t, a);
    StepKeepsData(init, s, t, a);
    StepKeepsSeen(init, s, t, a);
    Bystanders(init, s, t, a);
    CountAtLeast(s.pcs, t, Inside);
    CountAtLeast(s.pcs, t, Owner);
  }

  // ---------- whole runs ----------

  ghost function Run<D>(s: Shared<D>, schedule: seq<(nat, Act<D>)>): Shared<D>
    requires forall m :: m in schedule ==> m.0 < |s.pcs|
    decreases |schedule|
  {
    if schedule == [] then s else Run(Step(s, schedule[0].0, schedule[0].1), schedule[1..])
  }

  lemma {:induction false} RunKeepsInv<D(!new)>(init: D, s: Shared<D>, schedule: seq<(nat, Act<D>)>)
    requires Inv(init, s) && forall m :: m in schedule ==> m.0 < |s.pcs|
    ensures Inv(init, Run(s, schedule))
    decreases |schedule|
  {
    if schedule != [] {
      StepKeepsInv(init, s, schedule[0].0, schedule[0].1);
      RunKeepsInv(init, Step(s, schedule[0].0, schedule[0].1), schedule[1..]);
    }
  }

  /** In every reachable state: never two writers, never a reader beside a writer, and readers_ counts the
      threads between its increment and its decrement, so it never exceeds their number. */
  lemma MutualExclusion<D(!new)>(s: Shared<D>, schedule: seq<(nat, Act<D>)>, i: nat, j: nat)
    requires Start(s) && (forall m :: m in schedule ==> m.0 < |s.pcs|) && i < |s.pcs| && j < |s.pcs| && i != j
    ensures var r := Run(s, schedule);
      && |r.pcs| == |s.pcs| && (r.pcs[i].Writing? ==> !r.pcs[j].Writing? && !r.pcs[j].Reading?)
      && 0 <= r.readers == Count(r.pcs, Inside) <= |s.pcs|
  {
    StartInv(s);
    RunKeepsInv(s.data, s, schedule);
    RunThreads(s, schedule);
    var r := Run(s, schedule);
    Exclusion(s.data, r, i, j);
    CountBounded(r.pcs, Inside, 1);
  }

  lemma {:induction false} RunThreads<D>(s: Shared<D>, schedule: seq<(nat, Act<D>)>)
    requires forall m :: m in schedule ==> m.0 < |s.pcs|
    ensures |Run(s, schedule).pcs| == |s.pcs|
    decreases |schedule|
  {
    if schedule != [] {
      RunThreads(Step(s, schedule[0].0, schedule[0].1), schedule[1..]);
    }
  }

  /** Everything a read-locked section sees is the data after a prefix of the whole write-locked operations,
      in the order the lock admitted them; no half-done operation is ever seen. */
  lemma ReadersSeePrefixes<D(!new)>(s: Shared<D>, schedule: seq<(nat, Act<D>)>, o: Observation<D>)
    requires Start(s) && (forall m :: m in schedule ==> m.0 < |s.pcs|) && o in Run(s, schedule).seen
    ensures var log := Run(s, schedule).log; o.admitted <= |log| && o.data == Replay(s.data, log[..o.admitted])
  {
    StartInv(s);
    RunKeepsInv(s.data, s, schedule);
  }

  lemma {:induction false} ReplayKeeps<D(!new)>(init: D, log: seq<Operation<D>>, P: D -> bool)
    requires P(init) && forall op, d :: op in log && P(d) ==> P(Perform(d, op))
    ensures P(Replay(init, log))
  {
    if log != [] {
      ReplayKeeps(init, log[..|log| - 1], P);
      assert log[|log| - 1] in log;
    }
  }

  /** So whatever each whole operation keeps, each reader sees. */
  lemma ReadersSeeInvariants<D(!new)>(s: Shared<D>, schedule: seq<(nat, Act<D>)>, o: Observation<D>, P: D -> bool)
    requires Start(s) && (forall m :: m in schedule ==> m.0 < |s.pcs|) && o in Run(s, schedule).seen
    requires P(s.data) && forall op, d :: op in Run(s, schedule).log && P(d) ==> P(Perform(d, op))
    ensures P(o.data)
  {
    ReadersSeePrefixes(s, schedule, o);
    var log := Run(s, schedule).log[..o.admitted];
    assert forall op :: op in log ==> op in Run(s, schedule).log;
    ReplayKeeps(s.data, log, P);
  }

  // ---------- getting in and out ----------

  /** How many moves of its own a reader still needs to get in while the writer flag is clear. */
  ghost function Stage<D>(pc: Pc<D>): nat {
    match pc
    case ReadBack => 4
    case ReadSpin => 3
    case ReadAdd => 2
    case ReadCheck => 1
    case _ => 0
  }

  ghost function Goes<D(!new)>(t: nat, schedule: seq<(nat, Act<D>)>): nat {
    if schedule == [] then 0 else (if schedule[0].0 == t && schedule[0].1.Go? then 1 else 0) + Goes(t, schedule[1..])
  }

  /** No thread holds the writer flag all along. */
  ghost predicate Calm<D>(s: Shared<D>, schedule: seq<(nat, Act<D>)>)
    requires forall m :: m in schedule ==> m.0 < |s.pcs|
    decreases |schedule|
  {
    !s.writer && (schedule == [] || Calm(Step(s, schedule[0].0, schedule[0].1), schedule[1..]))
  }

  /** A reader on its way in, or in after all that was admitted. */
  ghost predicate Enters<D>(s: Shared<D>, t: nat) {
    t < |s.pcs| && (0 < Stage(s.pcs[t]) || s.pcs[t] == Reading(|s.log|))
  }

  lemma CalmStep<D(!new)>(init: D, s: Shared<D>, t: nat, m: nat, a: Act<D>)
    requires Inv(init, s) && m < |s.pcs| && !s.writer && Enters(s, t)
    requires m == t && a.Go? ==> 0 < Stage(s.pcs[t])
    ensures var r := Step(s, m, a);
      && |r.pcs| == |s.pcs| && Enters(r, t) && r.log == s.log && r.data == s.data
      && Stage(r.pcs[t]) == Stage(s.pcs[t]) - if m == t && a.Go? then 1 else 0
  {
    CountAtLeast(s.pcs, m, Owner);
  }

  /** While no writer holds the flag, each move of a reader takes it one stage on, whatever the other threads do
      between its moves, and the last one lets it in. */
  lemma {:induction false} ReaderEnters<D(!new)>(init: D, s: Shared<D>, t: nat, schedule: seq<(nat, Act<D>)>)
    requires Inv(init, s) && (forall m :: m in schedule ==> m.0 < |s.pcs|) && Calm(s, schedule)
    requires Enters(s, t) && Goes(t, schedule) <= Stage(s.pcs[t])
    ensures var r := Run(s, schedule);
      && |r.pcs| == |s.pcs| && r.log == s.log && r.data == s.data
      && Stage(r.pcs[t]) == Stage(s.pcs[t]) - Goes(t, schedule)
      && (Goes(t, schedule) == Stage(s.pcs[t]) ==> r.pcs[t] == Reading(|s.log|))
    decreases |schedule|
  {
    hide Inv, Step;
    if schedule != [] {
      var (m, a) := schedule[0];
      CalmStep(init, s, t, m, a);
      StepKeepsInv(init, s, m, a);
      ReaderEnters(init, Step(s, m, a), t, schedule[1..]);
    }
  }

  lemma {:induction false} RunConcat<D>(s: Shared<D>, a: seq<(nat, Act<D>)>, b: seq<(nat, Act<D>)>)
    requires forall m :: m in a + b ==> m.0 < |s.pcs|
    ensures (forall m :: m in a ==> m.0 < |s.pcs|) && forall m :: m in b ==> m.0 < |Run(s, a).pcs|
    ensures Run(s, a + b) == Run(Run(s, a), b)
    decreases |a|
  {
    assert forall m :: m in a ==> m in a + b;
    assert forall m :: m in b ==> m in a + b;
    RunThreads(s, a);
    if a == [] {
      assert a + b == b;
    } else {
      assert (a + b)[1..] == a[1..] + b;
      RunConcat(Step(s, a[0].0, a[0].1), a[1..], b);
    }
  }

  /** A thread's moves from where it is idle, to read the data once and to perform an operation. */
  ghost function ToRead<D(!new)>(t: nat): seq<(nat, Act<D>)> {
    [(t, BeginRead), (t, Go), (t, Go), (t, Go), (t, Look), (t, Go)]
  }

  ghost function ToWrite<D(!new)>(t: nat, op: Operation<D>): seq<(nat, Act<D>)> {
    [(t, BeginWrite(op)), (t, Go), (t, Go)] + seq(|op| + 1, _ => (t, Go))
  }

  /** Alone, with the flag clear, a reader gets in. */
  lemma EntersAlone<D(!new)>(s: Shared<D>, t: nat)
    requires t < |s.pcs| && s.pcs[t].Idle? && !s.writer
    ensures Run(s, [(t, BeginRead), (t, Go), (t, Go)]) == s.(readers := s.readers + 1, pcs := s.pcs[t := ReadCheck])
  {
    var spin, add := s.(pcs := s.pcs[t := ReadSpin]), s.(pcs := s.pcs[t := ReadAdd]);
    assert Step(s, t, BeginRead) == spin && Step(spin, t, Go) == add;
    RunThree(s, [(t, BeginRead), (t, Go), (t, Go)]);
  }

  lemma LooksAlone<D(!new)>(s: Shared<D>, t: nat)
    requires t < |s.pcs| && s.pcs[t].ReadCheck? && !s.writer
    ensures Run(s, [(t, Go), (t, Look), (t, Go)])
         == s.(readers := s.readers - 1, pcs := s.pcs[t := Idle], seen := s.seen + [Observation(s.data, |s.log|)])
  {
    var within := s.(pcs := s.pcs[t := Reading(|s.log|)]);
    var looked := within.(seen := s.seen + [Observation(s.data, |s.log|)]);
    assert Step(s, t, Go) == within && Step(within, t, Look) == looked;
    RunThree(s, [(t, Go), (t, Look), (t, Go)]);
  }

  /** Alone, with the flag clear, a reader gets in, sees the data as it is, and leaves the lock as it was. */
  lemma ReadsAlone<D(!new)>(s: Shared<D>, t: nat)
    requires t < |s.pcs| && s.pcs[t].Idle? && !s.writer
    ensures Run(s, ToRead(t)) == s.(seen := s.seen + [Observation(s.data, |s.log|)])
  {
    hide Step, Run;
    var enter: seq<(nat, Act<D>)>, leave: seq<(nat, Act<D>)> := [(t, BeginRead), (t, Go), (t, Go)], [(t, Go), (t, Look), (t, Go)];
    assert ToRead<D>(t) == enter + leave;
    EntersAlone(s, t);
    RunConcat(s, enter, leave);
    LooksAlone(Run(s, enter), t);
    assert s.pcs[t := ReadCheck][t := Idle] == s.pcs;
  }

  lemma RunThree<D>(s: Shared<D>, m: seq<(nat, Act<D>)>)
    requires |m| == 3 && forall i :: 0 <= i < 3 ==> m[i].0 < |s.pcs|
    ensures forall x :: x in m ==> x.0 < |s.pcs|
    ensures |Step(s, m[0].0, m[0].1).pcs| == |s.pcs| == |Step(Step(s, m[0].0, m[0].1), m[1].0, m[1].1).pcs|
    ensures Run(s, m) == Step(Step(Step(s, m[0].0, m[0].1), m[1].0, m[1].1), m[2].0, m[2].1)
  {
    hide Step;
    StepShape(s, m[0].0, m[0].1);
    var one := Step(s, m[0].0, m[0].1);
    StepShape(one, m[1].0, m[1].1);
    var two := Step(one, m[1].0, m[1].1);
    StepShape(two, m[2].0, m[2].1);
    assert m[1..][1..] == m[2..] && m[2..][1..] == [];
    assert Run(two, m[2..]) == Run(Step(two, m[2].0, m[2].1), []);
    assert Run(one, m[1..]) == Run(two, m[2..]);
  }

  lemma {:induction false} PerformsAlone<D(!new)>(s: Shared<D>, t: nat, todo: Operation<D>, moves: seq<(nat, Act<D>)>)
    requires t < |s.pcs| && s.pcs[t] == Writing(todo) && |moves| == |todo| + 1
    requires forall i :: 0 <= i < |moves| ==> moves[i].0 == t && moves[i].1.Go?
    ensures Run(s, moves) == s.(writer := false, pcs := s.pcs[t := Idle], data := Perform(s.data, todo))
    decreases |todo|
  {
    assert Step(s, t, Go).pcs[t := Idle] == s.pcs[t := Idle];
    if todo != [] {
      PerformsAlone(Step(s, t, Go), t, todo[1..], moves[1..]);
    }
  }

  /** Alone, with the flag clear and no reader counted, a writer gets in, performs its operation whole, and leaves
      the lock as it was. */
  lemma WritesAlone<D(!new)>(s: Shared<D>, t: nat, op: Operation<D>)
    requires t < |s.pcs| && s.pcs[t].Idle? && !s.writer && s.readers == 0
    ensures Run(s, ToWrite(t, op)) == s.(data := Perform(s.data, op), log := s.log + [op])
  {
    var swap := s.(pcs := s.pcs[t := WriteSwap(op)]);
    var wait := s.(writer := true, pcs := s.pcs[t := WriteWait(op)]);
    var within := s.(writer := true, pcs := s.pcs[t := Writing(op)], log := s.log + [op]);
    assert Step(s, t, BeginWrite(op)) == swap && Step(swap, t, Go) == wait && Step(wait, t, Go) == within;
    var m, todo := [(t, BeginWrite(op)), (t, Go), (t, Go)], seq(|op| + 1, _ => (t, Go));
    RunThree(s, m);
    RunConcat(s, m, todo);
    PerformsAlone(within, t, op, todo);
    assert s.pcs[t := Writing(op)][t := Idle] == s.pcs;
  }

  /** From a fresh lock, one thread writes and another then sees what it wrote. */
  lemma ReaderSeesWritten<D(!new)>(s: Shared<D>, w: nat, r: nat, op: Operation<D>)
    requires Start(s) && w < |s.pcs| && r < |s.pcs|
    ensures Run(s, ToWrite(w, op) + ToRead(r)).seen == [Observation(Perform(s.data, op), 1)]
  {
    WritesAlone(s, w, op);
    RunConcat(s, ToWrite(w, op), ToRead(r));
    ReadsAlone(Run(s, ToWrite(w, op)), r);
  }

  /** Under a writer's flag nobody else gets in: a reader that has counted itself takes itself off the count again
      and spins, and so does a second writer. */
  lemma FlagKeepsOut<D(!new)>(s: Shared<D>, t: nat)
    requires t < |s.pcs| && s.writer
    ensures s.pcs[t].ReadSpin? || s.pcs[t].WriteSwap? ==> Step(s, t, Go) == s
    ensures s.pcs[t].ReadCheck? ==> Run(s, [(t, Go), (t, Go)]) == s.(readers := s.readers - 1, pcs := s.pcs[t := ReadSpin])
    ensures s.pcs[t].WriteWait? && 0 < s.readers ==> Step(s, t, Go) == s
  {
    if s.pcs[t].ReadCheck? {
      var m: seq<(nat, Act<D>)> := [(t, Go), (t, Go)];
      var back := s.(pcs := s.pcs[t := ReadBack]);
      assert Step(s, t, Go) == back && m[1..] == [(t, Go)] && m[1..][1..] == [];
      assert Run(back, m[1..]) == Run(Step(back, t, Go), []);
    }
  }

  // ---------- a waiting writer ----------

  /** How many more moves a thread can make on readers_ once the writer flag is set. */
  ghost function Moves<D>(pc: Pc<D>): nat {
    match pc
    case ReadAdd => 3
    case ReadCheck => 2
    case ReadBack => 1
    case Reading(_) => 1
    case _ => 0
  }

  /** A thread takes one of those moves. */
  ghost predicate Counted<D>(s: Shared<D>, t: nat, a: Act<D>)
    requires t < |s.pcs|
  {
    a.Go? && 0 < Moves(s.pcs[t])
  }

  /** A writer that waits owns the flag, so no thread gets past the first load of it. */
  lemma WaitingMove<D(!new)>(s: Shared<D>, w: nat, t: nat, a: Act<D>)
    requires s.writer && w < |s.pcs| && t < |s.pcs| && s.pcs[w].WriteWait?
    ensures Moves(Step(s, t, a).pcs[t]) == Moves(s.pcs[t]) - if Counted(s, t, a) then 1 else 0
    ensures Step(s, t, a).pcs[w].WriteWait? || (t == w && a.Go? && s.readers <= 0 && Step(s, t, a).pcs[w].Writing?)
    ensures s.readers <= 0 ==> Step(s, w, Go).pcs[w].Writing?
  {
  }

  /** While a writer waits, every such move uses one up, and no move adds any. */
  lemma WaitingStep<D(!new)>(init: D, s: Shared<D>, w: nat, t: nat, a: Act<D>)
    requires Inv(init, s) && w < |s.pcs| && t < |s.pcs| && s.pcs[w].WriteWait?
    ensures Count(Step(s, t, a).pcs, Moves) == Count(s.pcs, Moves) - if Counted(s, t, a) then 1 else 0
    ensures Step(s, t, a).pcs[w].WriteWait? || (t == w && a.Go? && s.readers <= 0 && Step(s, t, a).pcs[w].Writing?)
    ensures Count(s.pcs, Moves) == 0 ==> Step(s, w, Go).pcs[w].Writing?
  {
    CountAtLeast(s.pcs, w, Owner);
    assert s.writer && s.readers == Count(s.pcs, Inside);
    hide Inv, Step, Counted;
    var s' := Step(s, t, a);
    StepShape(s, t, a);
    WaitingMove(s, w, t, a);
    CountUpdate(s.pcs, t, s'.pcs[t], Moves);
    if Count(s.pcs, Moves) == 0 {
      forall i | 0 <= i < |s.pcs| ensures Inside(s.pcs[i]) == 0 {
        CountAtLeast(s.pcs, i, Moves);
      }
      NoneCounted(s.pcs, Inside);
    }
  }

  ghost predicate Waits<D>(s: Shared<D>, w: nat, schedule: seq<(nat, Act<D>)>)
    requires w < |s.pcs| && forall m :: m in schedule ==> m.0 < |s.pcs|
    decreases |schedule|
  {
    s.pcs[w].WriteWait? && (schedule == [] || Waits(Step(s, schedule[0].0, schedule[0].1), w, schedule[1..]))
  }

  ghost function Backoffs<D>(s: Shared<D>, schedule: seq<(nat, Act<D>)>): nat
    requires forall m :: m in schedule ==> m.0 < |s.pcs|
    decreases |schedule|
  {
    if schedule == [] then 0
    else (if Counted(s, schedule[0].0, schedule[0].1) then 1 else 0) + Backoffs(Step(s, schedule[0].0, schedule[0].1), schedule[1..])
  }

  /** For as long as a writer that has set its flag waits, all other threads together make at most three moves
      each on readers_: the rest they only spin, and when none is left the writer's next load lets it in. */
  lemma {:induction false} WriterBackoffBounded<D(!new)>(init: D, s: Shared<D>, w: nat, schedule: seq<(nat, Act<D>)>)
    requires Inv(init, s) && w < |s.pcs| && forall m :: m in schedule ==> m.0 < |s.pcs|
    requires Waits(s, w, schedule)
    ensures var r := Run(s, schedule);
      && Backoffs(s, schedule) + Count(r.pcs, Moves) == Count(s.pcs, Moves) <= 3 * |s.pcs|
      && |r.pcs| == |s.pcs| && (Count(r.pcs, Moves) == 0 ==> Step(r, w, Go).pcs[w].Writing?)
    decreases |schedule|
  {
    hide Inv, Step, Counted;
    CountBounded(s.pcs, Moves, 3);
    if schedule == [] {
      WaitingStep(init, s, w, w, Go);
    } else {
      var (t, a) := schedule[0];
      WaitingStep(init, s, w, t, a);
      StepShape(s, t, a);
      StepKeepsInv(init, s, t, a);
      WriterBackoffBounded(init, Step(s, t, a), w, schedule[1..]);
    }
  }

  // ---------- the plain spin lock ----------

  datatype SpinPc = Outside | Swap | Spin | Holding

  datatype Spinner = Spinner(flag: bool, pcs: seq<SpinPc>)

  /** The next atomic action of a thread: lock, the inner loop of lock, unlock. */
  ghost function SpinStep(s: Spinner, t: nat): Spinner
    requires t < |s.pcs|
  {
    match s.pcs[t]
    case Outside => s.(pcs := s.pcs[t := Swap])
    case Swap => Spinner(true, s.pcs[t := if s.flag then Spin else Holding])
    case Spin => s.(pcs := s.pcs[t := if s.flag then Spin else Swap])
    case Holding => Spinner(false, s.pcs[t := Outside])
  }

  ghost function Holds(pc: SpinPc): nat {
    if pc.Holding? then 1 else 0
  }

  ghost function SpinRun(s: Spinner, schedule: seq<nat>): Spinner
    requires forall k :: 0 <= k < |schedule| ==> schedule[k] < |s.pcs|
    decreases |schedule|
  {
    if schedule == [] then s else SpinRun(SpinStep(s, schedule[0]), schedule[1..])
  }

  lemma {:induction false} SpinRunHolds(s: Spinner, schedule: seq<nat>)
    requires Count(s.pcs, Holds) == (if s.flag then 1 else 0) && forall k :: 0 <= k < |schedule| ==> schedule[k] < |s.pcs|
    ensures var r := SpinRun(s, schedule); Count(r.pcs, Holds) == (if r.flag then 1 else 0) && |r.pcs| == |s.pcs|
    decreases |schedule|
  {
    if schedule != [] {
      var t, s' := schedule[0], SpinStep(s, schedule[0]);
      CountUpdate(s.pcs, t, s'.pcs[t], Holds);
      assert s'.pcs == s.pcs[t := s'.pcs[t]];
      CountAtLeast(s.pcs, t, Holds);
      SpinRunHolds(s', schedule[1..]);
    }
  }

  /** At no time do two threads hold the spin lock. */
  lemma SpinExclusion(n: nat, schedule: seq<nat>, i: nat, j: nat)
    requires (forall k :: 0 <= k < |schedule| ==> schedule[k] < n) && i < j < n
    ensures var r := SpinRun(Spinner(false, seq(n, _ => Outside)), schedule);
      |r.pcs| == n && !(r.pcs[i].Holding? && r.pcs[j].Holding?)
  {
    var s := Spinner(false, seq(n, _ => Outside));
    NoneCounted(s.pcs, Holds);
    SpinRunHolds(s, schedule);
    CountTwo(SpinRun(s, schedule).pcs, i, j, Holds);
  }

  /** With the flag clear a thread that asks for the lock, or spins for it, takes it within two moves, and giving it
      back clears the flag; while it is set such a thread spins, and nothing but its own place changes. */
  lemma SpinTakes(s: Spinner, t: nat)
    requires t < |s.pcs|
    ensures !s.flag && (s.pcs[t].Outside? || s.pcs[t].Spin?) ==>
      && SpinRun(s, [t, t]) == Spinner(true, s.pcs[t := Holding])
      && SpinRun(s, [t, t, t]) == Spinner(false, s.pcs[t := Outside])
    ensures s.flag && (s.pcs[t].Swap? || s.pcs[t].Spin?) ==> SpinStep(s, t) == s.(pcs := s.pcs[t := Spin])
    ensures s.pcs[t].Holding? ==> SpinStep(s, t) == Spinner(false, s.pcs[t := Outside])
  {
    if !s.flag && (s.pcs[t].Outside? || s.pcs[t].Spin?) {
      var asks, holds := s.(pcs := s.pcs[t := Swap]), Spinner(true, s.pcs[t := Holding]);
      assert SpinStep(s, t) == asks && SpinStep(asks, t) == holds && SpinStep(holds, t) == Spinner(false, s.pcs[t := Outside]);
      assert [t, t, t][1..] == [t, t] && [t, t][1..] == [t] && [t][1..] == [];
      assert SpinRun(asks, [t]) == SpinRun(holds, []) && SpinRun(asks, [t, t]) == SpinRun(holds, [t]) == SpinRun(SpinStep(holds, t), []);
    }
  }
}
