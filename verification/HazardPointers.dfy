/** Deferred reclamation (server/include/concurrent/HazardPointer.h) as a step machine: any number of slots,
    retiring threads and concurrent scanners, one sequentially consistent atomic action a step. */
module HazardPointers {

  /** A hazard slot; `since` is when it came to hold what it holds. Null is 0, and so is no owner. */
  datatype Slot = Slot(owner: nat, pointer: nat, since: nat)

  /** A retired node, and when it was retired. */
  datatype Retired = Retired(pointer: nat, when: nat)

  /** A call of scanAndReclaim: how many slots it has read and what it found there, whether it took the shared
      list (and when), and of what it took the nodes still to look at and the nodes to give back. */
  datatype Scan =
    | Resting
    | Scanning(begun: nat, read: nat, found: seq<nat>, taken: bool, took: nat, todo: seq<Retired>, keep: seq<Retired>)

  datatype Pool = Pool(clock: nat, slots: seq<Slot>, list: seq<Retired>, scans: seq<Scan>,
                       deleted: seq<Retired>, ever: seq<Retired>)

  /** The code reads the slots and then takes the list; the repaired code takes the list first. */
  datatype Variant = AsWritten | ListFirst

  datatype Act =
    | Acquire(slot: nat, owner: nat)   // the compare-exchange of acquireHazardPointer
    | Own(slot: nat, owner: nat)       // the first store of publish
    | Publish(slot: nat, pointer: nat) // the second
    | Wipe(slot: nat)                  // clear, also the first store of unregisterThread
    | Release(slot: nat)               // the second store of unregisterThread
    | Retire(pointer: nat)
    | Advance(scan: nat)               // the next action of a scanner

  ghost predicate Enabled(s: Pool, a: Act) {
    match a
    case Acquire(i, owner) => i < |s.slots|
    case Own(i, owner) => i < |s.slots|
    case Publish(i, p) => i < |s.slots|
    case Wipe(i) => i < |s.slots|
    case Release(i) => i < |s.slots|
    case Retire(p) => p != 0
    case Advance(k) => k < |s.scans|
  }

  ghost function Hold(s: Slot, p: nat, now: nat): Slot {
    if s.pointer == p then s else s.(pointer := p, since := now)
  }

  ghost function AdvanceScan(v: Variant, s: Pool, k: nat): Pool
    requires k < |s.scans|
  {
    var c := s.scans[k];
    if c.Resting? then s.(scans := s.scans[k := Scanning(s.clock, 0, [], false, 0, [], [])])
    else if c.read < |s.slots| && (v.AsWritten? || c.taken) then
      var p := s.slots[c.read].pointer;
      s.(scans := s.scans[k := c.(read := c.read + 1, found := if p == 0 then c.found else c.found + [p])])
    else if !c.taken then
      s.(list := [], scans := s.scans[k := c.(taken := true, took := s.clock, todo := s.list)])
    else if c.todo != [] then
      if c.todo[0].pointer in c.found then
        s.(scans := s.scans[k := c.(todo := c.todo[1..], keep := c.keep + [c.todo[0]])])
      else
        s.(scans := s.scans[k := c.(todo := c.todo[1..])], deleted := s.deleted + [c.todo[0]])
    else
      s.(list := s.list + c.keep, scans := s.scans[k := Resting])
  }

  ghost function Step(v: Variant, s: Pool, a: Act): Pool
    requires Enabled(s, a)
  {
    var r := match a
      case Acquire(i, owner) => if s.slots[i].owner != 0 then s else s.(slots := s.slots[i := s.slots[i].(owner := owner)])
      case Own(i, owner) => s.(slots := s.slots[i := s.slots[i].(owner := owner)])
      case Publish(i, p) => s.(slots := s.slots[i := Hold(s.slots[i], p, s.clock)])
      case Wipe(i) => s.(slots := s.slots[i := Hold(s.slots[i], 0, s.clock)])
      case Release(i) => s.(slots := s.slots[i := s.slots[i].(owner := 0)])
      case Retire(p) => s.(list := s.list + [Retired(p, s.clock)], ever := s.ever + [Retired(p, s.clock)])
      case Advance(k) => AdvanceScan(v, s, k);
    r.(clock := s.clock + 1)
  }

  ghost predicate Schedulable(v: Variant, s: Pool, schedule: seq<Act>)
    decreases |schedule|
  {
    schedule == [] || (Enabled(s, schedule[0]) && Schedulable(v, Step(v, s, schedule[0]), schedule[1..]))
  }

  ghost function Run(v: Variant, s: Pool, schedule: seq<Act>): Pool
    requires Schedulable(v, s, schedule)
    decreases |schedule|
  {
    if schedule == [] then s else Run(v, Step(v, s, schedule[0]), schedule[1..])
  }

  ghost predicate Start(s: Pool) {
    && s.clock == 1 && s.list == [] && s.deleted == [] && s.ever == []
    && (forall i :: 0 <= i < |s.slots| ==> s.slots[i] == Slot(0, 0, 0))
    && (forall k :: 0 <= k < |s.scans| ==> s.scans[k] == Resting)
  }

  // ---------- conservation ----------

  /** How often a retired node is in a list. */
  ghost function Copies(list: seq<Retired>, r: Retired): nat {
    if list == [] then 0 else (if list[0] == r then 1 else 0) + Copies(list[1..], r)
  }

  lemma {:induction false} CopiesConcat(a: seq<Retired>, b: seq<Retired>, r: Retired)
    ensures Copies(a + b, r) == Copies(a, r) + Copies(b, r)
  {
    if a == [] {
      assert a + b == b;
    } else {
      assert (a + b)[1..] == a[1..] + b;
      CopiesConcat(a[1..], b, r);
    }
  }

  lemma {:induction false} CopiesMember(list: seq<Retired>, r: Retired)
    ensures 0 < Copies(list, r) <==> r in list
  {
    if list != [] {
      CopiesMember(list[1..], r);
    }
  }

  /** How often it is in a scanner's own two lists, and in those of all scanners. */
  ghost function Local(c: Scan, r: Retired): nat {
    if c.Resting? then 0 else Copies(c.todo, r) + Copies(c.keep, r)
  }

  ghost function Locals(scans: seq<Scan>, r: Retired): nat {
    if scans == [] then 0 else Local(scans[0], r) + Locals(scans[1..], r)
  }

  lemma {:induction false} LocalsUpdate(scans: seq<Scan>, k: nat, c: Scan, r: Retired)
    requires k < |scans|
    ensures Locals(scans[k := c], r) == Locals(scans, r) - Local(scans[k], r) + Local(c, r)
  {
    if k == 0 {
      assert scans[0 := c][1..] == scans[1..];
    } else {
      assert scans[k := c][1..] == scans[1..][k - 1 := c];
      LocalsUpdate(scans[1..], k - 1, c, r);
    }
  }

  // ---------- what every step keeps ----------

  /** From when on a scanner is sure to have seen what a slot holds. */
  ghost function Mark(v: Variant, c: Scan): nat
    requires c.Scanning?
  {
    if v.AsWritten? then c.begun else c.took
  }

  ghost predicate ScanOK(v: Variant, s: Pool, c: Scan) {
    c.Scanning? ==>
      && c.begun < s.clock && c.took < s.clock && c.read <= |s.slots|
      && (!c.taken ==> c.todo == [] && c.keep == [])
      && (v.ListFirst? && 0 < c.read ==> c.taken)
      && (forall r :: r in c.todo ==> r.when < c.took && r.pointer != 0)
      && (forall r :: r in c.keep ==> r.when < s.clock && r.pointer != 0)
      && forall i :: 0 <= i < c.read && s.slots[i].pointer != 0 && s.slots[i].since <= Mark(v, c) ==> s.slots[i].pointer in c.found
  }

  ghost predicate Inv(v: Variant, s: Pool) {
    && 0 < s.clock
    && (forall r :: r in s.list ==> r.pointer != 0 && r.when < s.clock)
    && (forall r :: r in s.deleted ==> r.when < s.clock)
    && (forall i :: 0 <= i < |s.slots| ==> s.slots[i].since < s.clock)
    && (forall k :: 0 <= k < |s.scans| ==> ScanOK(v, s, s.scans[k]))
  }

  lemma StepKeepsInv(v: Variant, s: Pool, a: Act)
    requires Inv(v, s) && Enabled(s, a)
    ensures Inv(v, Step(v, s, a))
  {
    var s' := Step(v, s, a);
    forall k | 0 <= k < |s'.scans| ensures ScanOK(v, s', s'.scans[k]) {
      assert ScanOK(v, s, s.scans[k]);
      if a.Advance? && a.scan == k {
        AdvanceKeepsScan(v, s, k);
      } else {
        assert s'.scans[k] == s.scans[k];
      }
    }
  }

  lemma AdvanceKeepsScan(v: Variant, s: Pool, k: nat)
    requires Inv(v, s) && k < |s.scans|
    ensures var s' := Step(v, s, Advance(k)); ScanOK(v, s', s'.scans[k])
  {
    assert ScanOK(v, s, s.scans[k]);
  }

  lemma {:induction false} RunKeepsInv(v: Variant, s: Pool, schedule: seq<Act>)
    requires Inv(v, s) && Schedulable(v, s, schedule)
    ensures Inv(v, Run(v, s, schedule))
    decreases |schedule|
  {
    if schedule != [] {
      StepKeepsInv(v, s, schedule[0]);
      RunKeepsInv(v, Step(v, s, schedule[0]), schedule[1..]);
    }
  }

  /** Every node ever retired is in exactly one place, as often as it was retired: in the shared list, in one
      scanner's lists, or deleted. */
  ghost predicate Conserved(s: Pool, r: Retired) {
    Copies(s.ever, r) == Copies(s.list, r) + Locals(s.scans, r) + Copies(s.deleted, r)
  }

  lemma AdvanceConserves(v: Variant, s: Pool, k: nat, r: Retired)
    requires k < |s.scans| && ScanOK(v, s, s.scans[k])
    ensures var s' := AdvanceScan(v, s, k);
      && s'.ever == s.ever && s'.scans == s.scans[k := s'.scans[k]]
      && Copies(s'.list, r) + Local(s'.scans[k], r) + Copies(s'.deleted, r)
           == Copies(s.list, r) + Local(s.scans[k], r) + Copies(s.deleted, r)
  {
    var c := s.scans[k];
    if c.Scanning? {
      CopiesConcat(s.list, c.keep, r);
      if c.todo != [] {
        CopiesConcat(c.keep, [c.todo[0]], r);
        CopiesConcat(s.deleted, [c.todo[0]], r);
      }
    }
  }

  lemma StepConserves(v: Variant, s: Pool, a: Act, r: Retired)
    requires Inv(v, s) && Conserved(s, r) && Enabled(s, a)
    ensures Conserved(Step(v, s, a), r)
  {
    hide AdvanceScan, ScanOK, Copies, Locals, Local;
    if a.Retire? {
      CopiesConcat(s.list, [Retired(a.pointer, s.clock)], r);
      CopiesConcat(s.ever, [Retired(a.pointer, s.clock)], r);
    } else if a.Advance? {
      AdvanceConserves(v, s, a.scan, r);
      LocalsUpdate(s.scans, a.scan, AdvanceScan(v, s, a.scan).scans[a.scan], r);
    }
  }

  lemma {:induction false} RunConserves(v: Variant, s: Pool, schedule: seq<Act>, r: Retired)
    requires Inv(v, s) && Conserved(s, r) && Schedulable(v, s, schedule)
    ensures Conserved(Run(v, s, schedule), r)
    decreases |schedule|
  {
    if schedule != [] {
      StepConserves(v, s, schedule[0], r);
      StepKeepsInv(v, s, schedule[0]);
      RunConserves(v, Step(v, s, schedule[0]), schedule[1..], r);
    }
  }

  lemma {:induction false} NoLocals(scans: seq<Scan>, r: Retired)
    requires forall k :: 0 <= k < |scans| ==> scans[k] == Resting
    ensures Locals(scans, r) == 0
  {
    if scans != [] {
      NoLocals(scans[1..], r);
    }
  }

  /** Over every run of retirers and scanners: each retirement is accounted for exactly once, so a node retired
      once is deleted at most once, and then no list holds it any more. */
  lemma DeletedAtMostOnce(v: Variant, s: Pool, schedule: seq<Act>, r: Retired)
    requires Start(s) && Schedulable(v, s, schedule)
    ensures var t := Run(v, s, schedule);
      && Copies(t.list, r) + Locals(t.scans, r) + Copies(t.deleted, r) == Copies(t.ever, r)
      && (Copies(t.ever, r) == 1 && r in t.deleted ==> Copies(t.deleted, r) == 1 && r !in t.list && Locals(t.scans, r) == 0)
  {
    NoLocals(s.scans, r);
    RunConserves(v, s, schedule, r);
    var t := Run(v, s, schedule);
    CopiesMember(t.deleted, r);
    CopiesMember(t.list, r);
  }

  // ---------- protection ----------

  /** The next action of scanner k deletes r. */
  ghost predicate Deletes(v: Variant, s: Pool, k: nat, r: Retired) {
    k < |s.scans| && s.scans[k].Scanning? && Step(v, s, Advance(k)).deleted == s.deleted + [r]
  }

  /** No scan deletes a node that some slot held throughout that scan: any slot that holds it at the time came to
      hold it after the scan began. With the list taken first, any such slot came to hold it only after the node
      was retired: whoever published it before it was retired is safe. */
  lemma DeletionSpares(v: Variant, s: Pool, schedule: seq<Act>, k: nat, r: Retired, i: nat)
    requires Start(s) && Schedulable(v, s, schedule)
    requires var t := Run(v, s, schedule); Deletes(v, t, k, r) && i < |t.slots| && t.slots[i].pointer == r.pointer
    ensures var t := Run(v, s, schedule);
      && Mark(v, t.scans[k]) < t.slots[i].since
      && (v.ListFirst? || r.when <= t.scans[k].begun ==> r.when < t.slots[i].since)
  {
    assert Inv(v, s);
    RunKeepsInv(v, s, schedule);
    var t := Run(v, s, schedule);
    var c := t.scans[k];
    assert ScanOK(v, t, c);
    DeletesFirst(v, t, k, r);
    assert r in c.todo;
  }

  lemma DeletesFirst(v: Variant, s: Pool, k: nat, r: Retired)
    requires Deletes(v, s, k, r)
    ensures var c := s.scans[k];
      && c.taken && c.todo != [] && c.todo[0] == r && r.pointer !in c.found
      && |s.slots| <= c.read
  {
    var s', c := Step(v, s, Advance(k)), s.scans[k];
    assert |s'.deleted| == |s.deleted| + 1;
    assert s'.deleted[|s.deleted|] == r;
  }

  /** The code as written, with a slot that is published after the scan read it and before the node is retired:
      the node is deleted while the slot holds it. */
  lemma PublishedFirstYetDeleted(p: nat) returns (s: Pool, schedule: seq<Act>, r: Retired)
    requires p != 0
    ensures Start(s) && Schedulable(AsWritten, s, schedule)
    ensures var t := Run(AsWritten, s, schedule);
      Deletes(AsWritten, t, 0, r) && r.pointer == p && |t.slots| == 1 && t.slots[0].pointer == p && t.slots[0].since < r.when
  {
    s := Pool(1, [Slot(0, 0, 0)], [], [Resting], [], []);
    r := Retired(p, 5);
    var s1 := Pool(2, [Slot(1, 0, 0)], [], [Resting], [], []);
    var s2 := Pool(3, [Slot(1, 0, 0)], [], [Scanning(2, 0, [], false, 0, [], [])], [], []);
    var s3 := Pool(4, [Slot(1, 0, 0)], [], [Scanning(2, 1, [], false, 0, [], [])], [], []);
    var s4 := Pool(5, [Slot(1, p, 4)], [], [Scanning(2, 1, [], false, 0, [], [])], [], []);
    var s5 := Pool(6, [Slot(1, p, 4)], [r], [Scanning(2, 1, [], false, 0, [], [])], [], [r]);
    var s6 := Pool(7, [Slot(1, p, 4)], [], [Scanning(2, 1, [], true, 6, [r], [])], [], [r]);
    schedule := [Advance(0)];
    assert Step(AsWritten, s5, Advance(0)) == s6;
    RunFirst(AsWritten, s5, Advance(0), []);
    schedule := RunBefore(AsWritten, s4, Retire(p), s5, schedule);
    schedule := RunBefore(AsWritten, s3, Publish(0, p), s4, schedule);
    schedule := RunBefore(AsWritten, s2, Advance(0), s3, schedule);
    schedule := RunBefore(AsWritten, s1, Advance(0), s2, schedule);
    schedule := RunBefore(AsWritten, s, Acquire(0, 1), s1, schedule);
    assert Step(AsWritten, s6, Advance(0)).deleted == [r];
  }

  lemma RunFirst(v: Variant, s: Pool, a: Act, rest: seq<Act>)
    requires Enabled(s, a) && Schedulable(v, Step(v, s, a), rest)
    ensures Schedulable(v, s, [a] + rest) && Run(v, s, [a] + rest) == Run(v, Step(v, s, a), rest)
  {
    assert ([a] + rest)[1..] == rest;
  }

  lemma RunBefore(v: Variant, s: Pool, a: Act, t: Pool, rest: seq<Act>) returns (schedule: seq<Act>)
    requires Enabled(s, a) && Step(v, s, a) == t && Schedulable(v, t, rest)
    ensures Schedulable(v, s, schedule) && Run(v, s, schedule) == Run(v, t, rest)
  {
    schedule := [a] + rest;
    RunFirst(v, s, a, rest);
  }

  // ---------- protection, exactly ----------

  /** Nobody changes what slot i holds. */
  ghost predicate LeavesAlone(schedule: seq<Act>, i: nat) {
    forall a :: a in schedule ==> a != Wipe(i) && (a.Publish? ==> a.slot != i)
  }

  /** While slot i goes on holding what it holds, r may yet be deleted. */
  ghost predicate MayDelete(v: Variant, s: Pool, i: nat, r: Retired) {
    exists schedule :: Schedulable(v, s, schedule) && LeavesAlone(schedule, i) && r in Run(v, s, schedule).deleted
  }

  /** Scanner k has read slot i, did not find p there or before, and has not taken the list yet. */
  ghost predicate Missed(s: Pool, k: nat, i: nat, p: nat) {
    k < |s.scans| && s.scans[k].Scanning? && !s.scans[k].taken && i < s.scans[k].read && p !in s.scans[k].found
  }

  /** Slot i holds the node of r, and whoever is past slot i knows or does not have r at hand. */
  ghost predicate Guarded(s: Pool, i: nat, r: Retired) {
    && i < |s.slots| && s.slots[i].pointer == r.pointer != 0 && r !in s.deleted
    && forall c :: c in s.scans && c.Scanning? && i < c.read && (c.taken ==> r in c.todo) ==> r.pointer in c.found
  }

  lemma StepGuards(v: Variant, s: Pool, a: Act, i: nat, r: Retired)
    requires Inv(v, s) && Guarded(s, i, r) && Enabled(s, a) && LeavesAlone([a], i)
    ensures Guarded(Step(v, s, a), i, r)
  {
    var s' := Step(v, s, a);
    assert a in [a];
    if a.Advance? {
      var c := s.scans[a.scan];
      assert c in s.scans && ScanOK(v, s, c);
      if c.Scanning? && c.taken && c.todo != [] {
        assert c.todo[0] in c.todo;
      }
    }
  }

  lemma {:induction false} RunGuards(v: Variant, s: Pool, schedule: seq<Act>, i: nat, r: Retired)
    requires Inv(v, s) && Guarded(s, i, r) && Schedulable(v, s, schedule) && LeavesAlone(schedule, i)
    ensures r !in Run(v, s, schedule).deleted
    decreases |schedule|
  {
    if schedule != [] {
      hide Guarded, Step, Inv;
      assert schedule[0] in schedule;
      forall a | a in schedule[1..] ensures a in schedule {}
      StepGuards(v, s, schedule[0], i, r);
      StepKeepsInv(v, s, schedule[0]);
      RunGuards(v, Step(v, s, schedule[0]), schedule[1..], i, r);
    } else {
      GuardedLives(s, i, r);
    }
  }

  lemma GuardedLives(s: Pool, i: nat, r: Retired)
    requires Guarded(s, i, r)
    ensures r !in s.deleted
  {
  }

  /** A scanner that has r at hand and did not find its node deletes it. */
  lemma {:induction false} SortsOut(s: Pool, k: nat, i: nat, r: Retired) returns (schedule: seq<Act>)
    requires k < |s.scans| && s.scans[k].Scanning? && s.scans[k].taken && |s.slots| <= s.scans[k].read
    requires r in s.scans[k].todo && r.pointer !in s.scans[k].found
    ensures Schedulable(AsWritten, s, schedule) && LeavesAlone(schedule, i) && r in Run(AsWritten, s, schedule).deleted
    decreases |s.scans[k].todo|
  {
    var s' := Step(AsWritten, s, Advance(k));
    if s.scans[k].todo[0] == r {
      schedule := [];
      assert s'.deleted[|s.deleted|] == r;
    } else {
      schedule := SortsOut(s', k, i, r);
    }
    RunFirst(AsWritten, s, Advance(k), schedule);
    schedule := [Advance(k)] + schedule;
  }

  /** A scanner that missed a node on the list may go on to delete it: the other slots are wiped before it reads them. */
  lemma {:induction false} ReadsOn(s: Pool, k: nat, i: nat, r: Retired) returns (schedule: seq<Act>)
    requires Missed(s, k, i, r.pointer) && r in s.list
    ensures Schedulable(AsWritten, s, schedule) && LeavesAlone(schedule, i) && r in Run(AsWritten, s, schedule).deleted
    decreases |s.slots| - s.scans[k].read
  {
    var j := s.scans[k].read;
    if j < |s.slots| {
      var s1 := Step(AsWritten, s, Wipe(j));
      var s2 := Step(AsWritten, s1, Advance(k));
      schedule := ReadsOn(s2, k, i, r);
      RunFirst(AsWritten, s1, Advance(k), schedule);
      RunFirst(AsWritten, s, Wipe(j), [Advance(k)] + schedule);
      schedule := [Wipe(j)] + ([Advance(k)] + schedule);
    } else {
      schedule := SortsOut(Step(AsWritten, s, Advance(k)), k, i, r);
      RunFirst(AsWritten, s, Advance(k), schedule);
      schedule := [Advance(k)] + schedule;
    }
  }

  /** A retired node under slot i, with no scanner having taken it: it may be deleted while the slot goes on
      holding it if and only if the code is as written and some scanner has passed the slot without finding the
      node but has yet to take the list. */
  lemma ProtectionExact(v: Variant, s: Pool, i: nat, r: Retired)
    requires Inv(v, s) && i < |s.slots| && s.slots[i].pointer == r.pointer != 0
    requires r in s.list && Locals(s.scans, r) == 0 && r !in s.deleted
    ensures MayDelete(v, s, i, r) <==> v.AsWritten? && exists k :: Missed(s, k, i, r.pointer)
  {
    if k :| v.AsWritten? && Missed(s, k, i, r.pointer) {
      var schedule := ReadsOn(s, k, i, r);
    } else {
      forall c | c in s.scans && c.Scanning? && i < c.read && (c.taken ==> r in c.todo) ensures r.pointer in c.found {
        var k :| 0 <= k < |s.scans| && s.scans[k] == c;
        assert ScanOK(v, s, c) && !Missed(s, k, i, r.pointer);
        NotLocal(s.scans, k, r);
      }
      if MayDelete(v, s, i, r) {
        var schedule :| Schedulable(v, s, schedule) && LeavesAlone(schedule, i) && r in Run(v, s, schedule).deleted;
        RunGuards(v, s, schedule, i, r);
      }
    }
  }

  lemma {:induction false} NotLocal(scans: seq<Scan>, k: nat, r: Retired)
    requires k < |scans| && scans[k].Scanning? && Locals(scans, r) == 0
    ensures r !in scans[k].todo && r !in scans[k].keep
  {
    if k == 0 {
      CopiesMember(scans[0].todo, r);
      CopiesMember(scans[0].keep, r);
    } else {
      NotLocal(scans[1..], k - 1, r);
    }
  }

  /** A retirement as old as the clock is in no scanner's lists. */
  lemma {:induction false} NotYetLocal(v: Variant, s: Pool, scans: seq<Scan>, r: Retired)
    requires s.clock <= r.when && forall c :: c in scans ==> ScanOK(v, s, c)
    ensures Locals(scans, r) == 0
  {
    if scans != [] {
      var c := scans[0];
      assert ScanOK(v, s, c);
      if c.Scanning? {
        CopiesMember(c.todo, r);
        CopiesMember(c.keep, r);
      }
      NotYetLocal(v, s, scans[1..], r);
    }
  }

  /** In every reachable pool: a node retired while slot i holds it may be deleted with the slot still holding it
      if and only if, at that moment, some scan of the code as written is between slot i and the list and did not
      find the node. With the list taken first, never. */
  lemma RetiredUnderSlot(v: Variant, s: Pool, schedule: seq<Act>, i: nat, p: nat)
    requires Start(s) && Schedulable(v, s, schedule) && p != 0
    requires var t := Run(v, s, schedule); i < |t.slots| && t.slots[i].pointer == p
    ensures var t := Run(v, s, schedule);
      MayDelete(v, Step(v, t, Retire(p)), i, Retired(p, t.clock)) <==> v.AsWritten? && exists k :: Missed(t, k, i, p)
  {
    assert Inv(v, s);
    RunKeepsInv(v, s, schedule);
    var t := Run(v, s, schedule);
    var t', r := Step(v, t, Retire(p)), Retired(p, t.clock);
    StepKeepsInv(v, t, Retire(p));
    NotYetLocal(v, t, t.scans, r);
    assert t'.list[|t.list|] == r;
    ProtectionExact(v, t', i, r);
    assert forall k :: Missed(t', k, i, p) <==> Missed(t, k, i, p);
  }

  // ---------- slots have one owner ----------

  /** The slot is released, or published by a thread that does not own it. */
  ghost predicate Disowns(schedule: seq<Act>, i: nat, owner: nat) {
    exists a :: a in schedule && (a == Release(i) || (a.Own? && a.slot == i && a.owner != owner))
  }

  /** Once a thread has acquired a slot, nobody else gets it before it is released. */
  lemma {:induction false} OwnerStays(v: Variant, s: Pool, schedule: seq<Act>, i: nat)
    requires Schedulable(v, s, schedule) && i < |s.slots| && s.slots[i].owner != 0
    requires !Disowns(schedule, i, s.slots[i].owner)
    ensures var t := Run(v, s, schedule); i < |t.slots| && t.slots[i].owner == s.slots[i].owner
    decreases |schedule|
  {
    if schedule != [] {
      assert schedule[0] in schedule;
      forall a | a in schedule[1..] ensures a in schedule {}
      OwnerStays(v, Step(v, s, schedule[0]), schedule[1..], i);
    }
  }

  /** The life of a slot in a thread's hands: a free slot is acquired, published in and, once the thread unregisters,
      free and empty again; one that is owned is not acquired, whoever tries. Nothing else changes. */
  lemma SlotLife(v: Variant, s: Pool, i: nat, owner: nat, p: nat)
    requires i < |s.slots| && owner != 0
    ensures var t := Step(v, s, Acquire(i, owner));
      t == if s.slots[i].owner == 0 then s.(clock := s.clock + 1, slots := s.slots[i := s.slots[i].(owner := owner)])
           else s.(clock := s.clock + 1)
    ensures var publish := [Own(i, owner), Publish(i, p)];
      Schedulable(v, s, publish) &&
      Run(v, s, publish) == s.(clock := s.clock + 2, slots := s.slots[i :=
        Slot(owner, p, if s.slots[i].pointer == p then s.slots[i].since else s.clock + 1)])
    ensures var unregister := [Wipe(i), Release(i)];
      Schedulable(v, s, unregister) &&
      Run(v, s, unregister) == s.(clock := s.clock + 2, slots := s.slots[i :=
        Slot(0, 0, if s.slots[i].pointer == 0 then s.slots[i].since else s.clock)])
  {
    RunTwo(v, s, Own(i, owner), Publish(i, p));
    RunTwo(v, s, Wipe(i), Release(i));
  }

  lemma RunTwo(v: Variant, s: Pool, a: Act, b: Act)
    requires Enabled(s, a) && Enabled(Step(v, s, a), b)
    ensures Schedulable(v, s, [a, b]) && Run(v, s, [a, b]) == Step(v, Step(v, s, a), b)
  {
    hide Step, Enabled;
    assert [a, b] == [a] + [b] && [b] == [b] + [];
    RunFirst(v, Step(v, s, a), b, []);
    RunFirst(v, s, a, [b]);
  }

  // ---------- one undisturbed scan ----------

  ghost function NonNull(slots: seq<Slot>): seq<nat> {
    if slots == [] then []
    else (if slots[0].pointer == 0 then [] else [slots[0].pointer]) + NonNull(slots[1..])
  }

  /** The elements of a list whose node is among those found in slots, or is not. */
  ghost function Sift<T(!new)>(list: seq<T>, pointer: T -> nat, found: seq<nat>, held: bool): seq<T> {
    if list == [] then []
    else (if pointer(list[0]) in found <==> held then [list[0]] else []) + Sift(list[1..], pointer, found, held)
  }

  ghost function PointerOf(r: Retired): nat {
    r.pointer
  }

  ghost function Kept(list: seq<Retired>, found: seq<nat>): seq<Retired> {
    Sift(list, PointerOf, found, true)
  }

  ghost function Dropped(list: seq<Retired>, found: seq<nat>): seq<Retired> {
    Sift(list, PointerOf, found, false)
  }

  lemma {:induction false} RunConcat(v: Variant, s: Pool, a: seq<Act>, b: seq<Act>)
    requires Schedulable(v, s, a) && Schedulable(v, Run(v, s, a), b)
    ensures Schedulable(v, s, a + b) && Run(v, s, a + b) == Run(v, Run(v, s, a), b)
    decreases |a|
  {
    if a == [] {
      assert a + b == b;
    } else {
      assert (a + b)[1..] == a[1..] + b;
      RunConcat(v, Step(v, s, a[0]), a[1..], b);
    }
  }

  /** A scan whose scanner has read all the slots as they stand. */
  ghost function AllRead(s: Pool, k: nat): Pool
    requires k < |s.scans| && s.scans[k].Scanning? && s.scans[k].read <= |s.slots|
  {
    var c := s.scans[k];
    s.(scans := s.scans[k := c.(read := |s.slots|, found := c.found + NonNull(s.slots[c.read..]))])
  }

  /** A scanner that may read reads the next slot. */
  lemma ReadOne(v: Variant, s: Pool, k: nat)
    requires k < |s.scans| && s.scans[k].Scanning? && s.scans[k].read < |s.slots| && (v.AsWritten? || s.scans[k].taken)
    ensures var s' := Step(v, s, Advance(k));
      && s'.slots == s.slots && |s'.scans| == |s.scans| && s'.scans[k].Scanning?
      && s'.scans[k].read == s.scans[k].read + 1 && s'.scans[k].taken == s.scans[k].taken
      && AllRead(s', k) == AllRead(s, k).(clock := s.clock + 1)
  {
    var c := s.scans[k];
    var p, rest := s.slots[c.read].pointer, NonNull(s.slots[c.read + 1..]);
    assert s.slots[c.read..][1..] == s.slots[c.read + 1..];
    assert c.found + ((if p == 0 then [] else [p]) + rest) == (if p == 0 then c.found else c.found + [p]) + rest;
  }

  lemma NoneLeftToRead(s: Pool, k: nat)
    requires k < |s.scans| && s.scans[k].Scanning? && s.scans[k].read == |s.slots|
    ensures AllRead(s, k) == s
  {
    var c := s.scans[k];
    assert c.found + [] == c.found && s.scans[k := c] == s.scans;
  }

  lemma {:induction false} FinishReading(v: Variant, s: Pool, k: nat) returns (schedule: seq<Act>)
    requires k < |s.scans| && s.scans[k].Scanning? && s.scans[k].read <= |s.slots| && (v.AsWritten? || s.scans[k].taken)
    ensures Schedulable(v, s, schedule)
    ensures var t := Run(v, s, schedule); t == AllRead(s, k).(clock := t.clock)
    decreases |s.slots| - s.scans[k].read
  {
    if s.scans[k].read == |s.slots| {
      schedule := [];
      NoneLeftToRead(s, k);
    } else {
      hide Step, AllRead, Schedulable, Run;
      ReadOne(v, s, k);
      var s' := Step(v, s, Advance(k));
      schedule := FinishReading(v, s', k);
      RunFirst(v, s, Advance(k), schedule);
      schedule := [Advance(k)] + schedule;
    }
  }

  lemma {:induction false} FinishSorting(v: Variant, s: Pool, k: nat) returns (schedule: seq<Act>)
    requires k < |s.scans| && s.scans[k].Scanning? && s.scans[k].read == |s.slots| && s.scans[k].taken
    ensures Schedulable(v, s, schedule)
    ensures var c, t := s.scans[k], Run(v, s, schedule);
      t == s.(clock := t.clock, scans := s.scans[k := Resting], list := s.list + (c.keep + Kept(c.todo, c.found)),
              deleted := s.deleted + Dropped(c.todo, c.found))
    decreases |s.scans[k].todo|
  {
    var c := s.scans[k];
    var s' := Step(v, s, Advance(k));
    if c.todo == [] {
      schedule := [];
      RunFirst(v, s, Advance(k), schedule);
      schedule := [Advance(k)] + schedule;
      assert c.keep + [] == c.keep && s.deleted + [] == s.deleted;
    } else {
      schedule := FinishSorting(v, s', k);
      RunFirst(v, s, Advance(k), schedule);
      schedule := [Advance(k)] + schedule;
      assert c.keep + Kept(c.todo, c.found) == s'.scans[k].keep + Kept(c.todo[1..], c.found);
      assert s.deleted + Dropped(c.todo, c.found) == s'.deleted + Dropped(c.todo[1..], c.found);
    }
  }

  /** A scan that nobody disturbs, in either variant: what some slot holds goes back to the list in its order,
      the rest is deleted. */
  lemma SoloScan(v: Variant, s: Pool, k: nat) returns (schedule: seq<Act>)
    requires k < |s.scans| && s.scans[k].Resting?
    ensures Schedulable(v, s, schedule)
    ensures var t, found := Run(v, s, schedule), NonNull(s.slots);
      t == s.(clock := t.clock, list := Kept(s.list, found), deleted := s.deleted + Dropped(s.list, found))
  {
    var begin := [Advance(k)];
    var s1 := Step(v, s, Advance(k));
    RunFirst(v, s, Advance(k), []);
    assert begin + [] == begin && s.slots[0..] == s.slots && [] + NonNull(s.slots) == NonNull(s.slots);
    var reading: seq<Act>;
    var s3: Pool;
    if v.AsWritten? {
      reading := FinishReading(v, s1, k);
      var s2 := Run(v, s1, reading);
      s3 := Step(v, s2, Advance(k));
      RunFirst(v, s2, Advance(k), []);
      RunConcat(v, s1, reading, begin);
      reading := reading + begin;
    } else {
      var s2 := Step(v, s1, Advance(k));
      reading := FinishReading(v, s2, k);
      s3 := Run(v, s2, reading);
      RunFirst(v, s1, Advance(k), reading);
      reading := begin + reading;
    }
    var sorting := FinishSorting(v, s3, k);
    RunConcat(v, s1, reading, sorting);
    RunFirst(v, s, Advance(k), reading + sorting);
    schedule := begin + (reading + sorting);
    assert s.scans[k := Resting] == s.scans;
    assert [] + Kept(s.list, NonNull(s.slots)) == Kept(s.list, NonNull(s.slots));
  }

  // ---------- the manager, without interference ----------

  ghost function Self(p: nat): nat {
    p
  }

  /** The pointers that are not null. */
  function Present(pointers: seq<nat>): (r: seq<nat>)
    ensures forall p :: p in r <==> p in pointers && p != 0
  {
    if pointers == [] then []
    else (if pointers[0] == 0 then [] else [pointers[0]]) + Present(pointers[1..])
  }

  lemma {:induction false} PresentNext(pointers: seq<nat>, i: nat)
    requires i < |pointers|
    ensures Present(pointers[..i + 1]) == Present(pointers[..i]) + if pointers[i] == 0 then [] else [pointers[i]]
  {
    if i == 0 {
      assert pointers[..1] == [pointers[0]] && pointers[..0] == [];
    } else {
      assert pointers[..i + 1][1..] == pointers[1..][..i] && pointers[..i][1..] == pointers[1..][..i - 1];
      PresentNext(pointers[1..], i - 1);
    }
  }

  lemma {:induction false} SiftNext<T(!new)>(list: seq<T>, pointer: T -> nat, found: seq<nat>, held: bool, i: nat)
    requires i < |list|
    ensures Sift(list[..i + 1], pointer, found, held)
         == Sift(list[..i], pointer, found, held) + if pointer(list[i]) in found <==> held then [list[i]] else []
  {
    if i == 0 {
      assert list[..1] == [list[0]] && list[..0] == [];
    } else {
      assert list[..i + 1][1..] == list[1..][..i] && list[..i][1..] == list[1..][..i - 1];
      SiftNext(list[1..], pointer, found, held, i - 1);
    }
  }

  class HazardPointerManager {
    const pointers: array<nat>
    const owners: array<nat>
    var retiredList: seq<nat>
    var threadCounter: nat
    ghost var deleted: seq<nat>

    ghost predicate Valid() {
      pointers != owners && pointers.Length == owners.Length
    }

    constructor (slots: nat)
      ensures Valid() && pointers.Length == slots && fresh(pointers) && fresh(owners)
      ensures (forall i :: 0 <= i < slots ==> pointers[i] == owners[i] == 0)
      ensures retiredList == [] && deleted == [] && threadCounter == 0
    {
      pointers := new nat[slots](_ => 0);
      owners := new nat[slots](_ => 0);
      retiredList, threadCounter, deleted := [], 0, [];
    }

    /** Gives a thread the first free slot, or none when all are owned. */
    method AcquireHazardPointer(ownerId: nat) returns (slot: int)
      requires Valid()
      modifies owners
      ensures slot == -1 <==> 0 !in old(owners[..])
      ensures slot == -1 ==> owners[..] == old(owners[..])
      ensures slot != -1 ==> 0 <= slot < owners.Length && old(owners[slot]) == 0 && 0 !in old(owners[..slot])
      ensures slot != -1 ==> owners[..] == old(owners[..])[slot := ownerId]
    {
      for i := 0 to owners.Length
        invariant owners[..] == old(owners[..]) && 0 !in owners[..i]
      {
        if owners[i] == 0 {
          owners[i] := ownerId;
          return i;
        }
      }
      assert owners[..owners.Length] == owners[..];
      return -1;
    }

    /** Takes every slot of a thread back, and whatever it held with it. */
    method UnregisterThread(ownerId: nat)
      requires Valid()
      modifies pointers, owners
      ensures forall i :: 0 <= i < owners.Length ==>
        && owners[i] == (if old(owners[i]) == ownerId then 0 else old(owners[i]))
        && pointers[i] == (if old(owners[i]) == ownerId then 0 else old(pointers[i]))
    {
      for i := 0 to owners.Length
        invariant forall j :: 0 <= j < owners.Length ==>
          && owners[j] == (if j < i && old(owners[j]) == ownerId then 0 else old(owners[j]))
          && pointers[j] == (if j < i && old(owners[j]) == ownerId then 0 else old(pointers[j]))
      {
        if owners[i] == ownerId {
          pointers[i] := 0;
          owners[i] := 0;
        }
      }
    }

    method IsHazardous(p: nat) returns (held: bool)
      requires Valid()
      ensures held <==> p in pointers[..]
    {
      for i := 0 to pointers.Length
        invariant p !in pointers[..i]
      {
        if pointers[i] == p {
          return true;
        }
      }
      assert pointers[..pointers.Length] == pointers[..];
      return false;
    }

    method RetireNode(p: nat)
      modifies this`retiredList
      ensures retiredList == old(retiredList) + [p]
    {
      retiredList := retiredList + [p];
    }

    /** One scan: what a slot holds stays on the list, in its order; everything else is deleted, once. */
    method ScanAndReclaim()
      requires Valid()
      modifies this`retiredList, this`deleted
      ensures retiredList == Sift(old(retiredList), Self, Present(pointers[..]), true)
      ensures deleted == old(deleted) + Sift(old(retiredList), Self, Present(pointers[..]), false)
    {
      var found: seq<nat> := [];
      for i := 0 to pointers.Length
        invariant found == Present(pointers[..i]) && deleted == old(deleted) && retiredList == old(retiredList)
      {
        PresentNext(pointers[..], i);
        assert pointers[..][..i + 1] == pointers[..i + 1] && pointers[..][..i] == pointers[..i];
        if pointers[i] != 0 {
          found := found + [pointers[i]];
        }
      }
      assert pointers[..pointers.Length] == pointers[..];
      var toDelete := retiredList;
      retiredList := [];
      var stillRetired: seq<nat> := [];
      assert toDelete[..0] == [] && deleted + [] == deleted;
      for i := 0 to |toDelete|
        invariant retiredList == [] && stillRetired == Sift(toDelete[..i], Self, found, true)
        invariant deleted == old(deleted) + Sift(toDelete[..i], Self, found, false)
      {
        SiftNext(toDelete, Self, found, true, i);
        SiftNext(toDelete, Self, found, false, i);
        if toDelete[i] in found {
          stillRetired := stillRetired + [toDelete[i]];
        } else {
          deleted := deleted + [toDelete[i]];
        }
      }
      assert toDelete[..|toDelete|] == toDelete;
      if stillRetired != [] {
        retiredList := retiredList + stillRetired;
      }
    }
  }
}
