/** What a thread that holds the book's read lock can see (getSnapshot, findOrder and the best-price queries of
    server/src/core/OrderBook.cpp under the lock of server/include/concurrent/SpinLock.h). */
module BookReaders {
  import opened SpinLocks
  import Books

  /** Each write-locked section that was admitted performed the book operation given for it, one that was allowed
      when it was admitted. */
  ghost predicate Performs(start: Books.History, log: seq<Operation<Books.History>>, ops: seq<Books.Op>) {
    |ops| == |log| && forall k :: 0 <= k < |log| ==>
      var h := Replay(start, log[..k]);
      Books.Allowed(h, ops[k]) && Perform(h, log[k]) == Books.Apply(h, ops[k])
  }

  lemma PerformsAt(start: Books.History, log: seq<Operation<Books.History>>, ops: seq<Books.Op>, k: nat)
    requires Performs(start, log, ops) && k < |log|
    ensures |ops| == |log|
    ensures var h := Replay(start, log[..k]); Books.Allowed(h, ops[k]) && Replay(start, log[..k + 1]) == Books.Apply(h, ops[k])
    ensures log[..k + 1] == log[..k] + [log[k]] && ops[..k + 1] == ops[..k] + [ops[k]]
  {
    hide Books.Allowed, Books.Apply, Perform;
    assert log[..k + 1][..k] == log[..k];
  }

  lemma NothingYet(start: Books.History, log: seq<Operation<Books.History>>, ops: seq<Books.Op>)
    ensures Books.AllowedRun(start, ops[..0]) && Books.Run(start, ops[..0]) == start == Replay(start, log[..0])
  {
  }

  /** Replaying admitted sections is running their operations. */
  lemma {:induction false} ReplayIsRun(start: Books.History, log: seq<Operation<Books.History>>, ops: seq<Books.Op>, k: nat)
    requires Performs(start, log, ops) && k <= |log| && |ops| == |log|
    ensures Books.AllowedRun(start, ops[..k]) && Books.Run(start, ops[..k]) == Replay(start, log[..k])
    decreases k
  {
    hide *;
    if k == 0 {
      NothingYet(start, log, ops);
    } else {
      ReplayIsRun(start, log, ops, k - 1);
      PerformsAt(start, log, ops, k - 1);
      RunOneMore(start, ops[..k - 1], ops[k - 1]);
    }
  }

  lemma {:induction false} RunOneMore(h: Books.History, ops: seq<Books.Op>, op: Books.Op)
    requires Books.AllowedRun(h, ops) && Books.Allowed(Books.Run(h, ops), op)
    ensures Books.AllowedRun(h, ops + [op]) && Books.Run(h, ops + [op]) == Books.Apply(Books.Run(h, ops), op)
    decreases |ops|
  {
    hide Books.Allowed, Books.Apply;
    if ops == [] {
      assert ([op])[1..] == [] && [] + [op] == [op];
    } else {
      assert (ops + [op])[1..] == ops[1..] + [op];
      RunOneMore(Books.Apply(h, ops[0]), ops[1..], op);
    }
  }

  /** Whatever threads do and however they are scheduled: what a reader sees is the book after some prefix of the
      submissions and cancellations in the order the lock admitted them, so it is a sound and uncrossed book. */
  lemma ReadersSeeSoundBooks(s: Shared<Books.History>, schedule: seq<(nat, Act<Books.History>)>,
                             ops: seq<Books.Op>, o: Observation<Books.History>)
    requires Start(s) && s.data.Sound() && (forall m :: m in schedule ==> m.0 < |s.pcs|)
    requires Performs(s.data, Run(s, schedule).log, ops) && o in Run(s, schedule).seen
    ensures o.admitted <= |ops| && Books.AllowedRun(s.data, ops[..o.admitted])
    ensures o.data == Books.Run(s.data, ops[..o.admitted]) && o.data.Sound()
  {
    hide Books.Allowed, Books.Apply, Books.History.Sound, Step, Performs;
    ReadersSeePrefixes(s, schedule, o);
    SameLength(s.data, Run(s, schedule).log, ops);
    ReplayIsRun(s.data, Run(s, schedule).log, ops, o.admitted);
    Books.RunKeepsSound(s.data, ops[..o.admitted]);
  }

  lemma SameLength(start: Books.History, log: seq<Operation<Books.History>>, ops: seq<Books.Op>)
    requires Performs(start, log, ops)
    ensures |ops| == |log|
  {
  }
}
