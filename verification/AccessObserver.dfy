/** Which blocks are handed to the compactor: those full and untouched for long enough, where time is
    counted in garbage collector runs. */
module AccessObservers {
  import opened Options

  const COLD_DATA_EPOCH_THRESHOLD: nat := 10

  type Block = nat

  datatype Event = Collect | Write(block: Block, full: bool)

  datatype State = State(epoch: nat, touched: map<Block, nat>, queued: multiset<Block>)

  function ColdBlocks(touched: map<Block, nat>, epoch: nat): set<Block> {
    set b | b in touched && touched[b] + COLD_DATA_EPOCH_THRESHOLD < epoch
  }

  function Next(s: State, e: Event): State {
    match e
    case Collect => Swept(s.(epoch := s.epoch + 1), ColdBlocks(s.touched, s.epoch + 1))
    case Write(b, full) =>
      if full then s.(touched := s.touched[b := s.epoch]) else s
  }

  function Run(events: seq<Event>): State {
    if events == [] then State(0, map[], multiset{}) else Next(Run(events[..|events| - 1]), events[|events| - 1])
  }

  /** The state with some blocks moved to the queue. */
  function Swept(s: State, gone: set<Block>): State {
    s.(touched := s.touched - gone, queued := s.queued + multiset(gone))
  }

  /** The state after the entries still to be visited. */
  function Finish(s: State, todo: set<Block>): State {
    Swept(s, ColdBlocks(s.touched, s.epoch) * todo)
  }

  function Visit(s: State, b: Block): State {
    if b in ColdBlocks(s.touched, s.epoch) then Swept(s, {b}) else s
  }

  lemma FinishStep(s: State, todo: set<Block>, b: Block)
    requires b in todo && todo <= s.touched.Keys
    ensures todo - {b} <= Visit(s, b).touched.Keys
    ensures Finish(Visit(s, b), todo - {b}) == Finish(s, todo)
  {
    var cold := ColdBlocks(s.touched, s.epoch);
    if b in cold {
      assert ColdBlocks((s.touched - {b}), s.epoch) == cold - {b};
      assert (cold - {b}) * (todo - {b}) + {b} == cold * todo;
    } else {
      assert cold * (todo - {b}) == cold * todo;
    }
  }

  lemma FinishEnds(s: State)
    ensures Finish(s, {}) == s
    ensures Finish(s, s.touched.Keys) == Swept(s, ColdBlocks(s.touched, s.epoch))
  {
    var cold := ColdBlocks(s.touched, s.epoch);
    assert cold * {} == {} && cold * s.touched.Keys == cold;
    assert s.touched - {} == s.touched;
  }

  class AccessObserver {
    var epoch: nat
    var lastTouched: map<Block, nat>
    /** The compactor's queue. */
    var queue: seq<Block>

    ghost function View(): State
      reads this
    {
      State(epoch, lastTouched, multiset(queue))
    }

    constructor ()
      ensures View() == Run([])
    {
      epoch, lastTouched, queue := 0, map[], [];
    }

    /** Goes through the table once, in whatever order, removing what it queues. */
    method ObserveGCInvocation()
      modifies this
      ensures View() == Next(old(View()), Collect)
    {
      ghost var goal := Next(View(), Collect);
      epoch := epoch + 1;
      FinishEnds(View());
      var todo := lastTouched.Keys;
      while todo != {}
        invariant todo <= View().touched.Keys && Finish(View(), todo) == goal
        decreases todo
      {
        var b :| b in todo;
        ghost var s := View();
        FinishStep(s, todo, b);
        SweepOne(b);
        assert View() == Visit(s, b);
        todo := todo - {b};
      }
      FinishEnds(View());
    }

    method SweepOne(b: Block)
      requires b in lastTouched
      modifies this`lastTouched, this`queue
      ensures View() == Visit(old(View()), b)
    {
      if lastTouched[b] + COLD_DATA_EPOCH_THRESHOLD < epoch {
        queue := queue + [b];
        lastTouched := lastTouched - {b};
      }
    }

    method ObserveWrite(block: Block, full: bool)
      modifies this
      ensures View() == Next(old(View()), Write(block, full))
    {
      if full {
        lastTouched := lastTouched[block := epoch];
      }
    }
  }

  // ---------------------------------------------------------------------------
  // Whole runs
  // ---------------------------------------------------------------------------

  function Collections(events: seq<Event>): nat {
    if events == [] then 0
    else Collections(events[..|events| - 1]) + if events[|events| - 1].Collect? then 1 else 0
  }

  /** How many collections there have been since the block was last written while full. */
  function Since(events: seq<Event>, b: Block): Option<nat> {
    if events == [] then None
    else
      var before := Since(events[..|events| - 1], b);
      match events[|events| - 1]
      case Collect => if before.Some? then Some(before.value + 1) else None
      case Write(c, full) => if c == b && full then Some(0) else before
  }

  /** The last event is the collection that finds the block cold: one more than the threshold since
      its last full write. */
  predicate GoesCold(events: seq<Event>, b: Block) {
    events != [] && events[|events| - 1].Collect? && Since(events, b) == Some(COLD_DATA_EPOCH_THRESHOLD + 1)
  }

  /** How often the block has gone cold. */
  function ColdCount(events: seq<Event>, b: Block): nat {
    if events == [] then 0
    else ColdCount(events[..|events| - 1], b) + if GoesCold(events, b) then 1 else 0
  }

  /** In any run a block is watched exactly while no more than the threshold of collections have gone
      by since its last full write, and it has been queued exactly as often as it has gone cold. */
  lemma {:induction false} QueuedExactlyWhenCold(events: seq<Event>, b: Block)
    ensures
      var s, since := Run(events), Since(events, b);
      && s.epoch == Collections(events)
      && (b in s.touched <==> since.Some? && since.value <= COLD_DATA_EPOCH_THRESHOLD)
      && (b in s.touched ==> s.touched[b] + since.value == s.epoch)
      && s.queued[b] == ColdCount(events, b)
  {
    if events != [] {
      QueuedExactlyWhenCold(events[..|events| - 1], b);
    }
  }

  /** How often the block has been written while full. */
  function FullWrites(events: seq<Event>, b: Block): nat {
    if events == [] then 0
    else FullWrites(events[..|events| - 1], b) + if events[|events| - 1] == Write(b, true) then 1 else 0
  }

  /** A block is queued at most once for every full write, counting one that is still watched. */
  lemma {:induction false} QueuedAtMostOncePerWrite(events: seq<Event>, b: Block)
    ensures Run(events).queued[b] + (if b in Run(events).touched then 1 else 0) <= FullWrites(events, b)
  {
    QueuedExactlyWhenCold(events, b);
    if events != [] {
      var before := events[..|events| - 1];
      QueuedExactlyWhenCold(before, b);
      QueuedAtMostOncePerWrite(before, b);
    }
  }
}
