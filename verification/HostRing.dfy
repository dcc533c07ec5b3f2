/**
 The ring of words between the network thread and the display thread, as interleaved atomic
 steps. Erase aborts (word 2) are counted before they are stored; while more have been counted
 than consumed, the display discards what it takes from the ring.
 */
module HostRing {
  import opened HostCodes
  import opened Rings

  const RINGSIZE := 5000
  const ABORT := 2

  /** The network thread: assembling; a word in hand; counted if it is an abort; room found; the
      word in its slot but not yet published. */
  datatype Producer = Idle | Have(word: int) | Counted(word: int) | Room(word: int) | Written(word: int)

  /** The display thread: about to look; the ring is not empty; the word read; its slot given
      back; an abort about to be counted off. */
  datatype Consumer = Looking | NonEmpty | Loaded(word: int) | Taken(word: int) | Aborting

  /**
   The shared cells and both threads. The last four fields are history: the words published so
   far, how many have been taken, which of them were delivered, and how many aborts were counted
   but found the ring full.
   */
  datatype State = State(
    ring: seq<int>, displayIn: int, displayOut: int, abortIn: int, abortOut: int,
    producer: Producer, consumer: Consumer,
    stored: seq<int>, taken: nat, delivered: seq<nat>, lostAborts: nat)

  datatype Action =
    | Receive(word: int) | Count | FindRoom | Write | Publish
    | Look | Load | GiveBack | Decide | CountOff

  predicate Enabled(s: State, act: Action) {
    match act
    case Receive(_) => s.producer.Idle?
    case Count => s.producer.Have?
    case FindRoom => s.producer.Counted?
    case Write => s.producer.Room? && 0 <= s.displayIn < |s.ring|
    case Publish => s.producer.Written?
    case Look => s.consumer.Looking?
    case Load => s.consumer.NonEmpty? && 0 <= s.displayOut < |s.ring|
    case GiveBack => s.consumer.Loaded?
    case Decide => s.consumer.Taken?
    case CountOff => s.consumer.Aborting?
  }

  function Next(s: State, act: Action): State
    requires Enabled(s, act)
  {
    match act
    case Receive(word) => s.(producer := Have(word))
    case Count =>
      var w := s.producer.word;
      s.(producer := Counted(w), abortIn := if w == ABORT then s.abortIn + 1 else s.abortIn)
    case FindRoom =>
      var w := s.producer.word;
      if NextIndex(s.displayIn, RINGSIZE) == s.displayOut then
        s.(producer := Idle, lostAborts := if w == ABORT then s.lostAborts + 1 else s.lostAborts)
      else s.(producer := Room(w))
    case Write => s.(producer := Written(s.producer.word), ring := s.ring[s.displayIn := s.producer.word])
    case Publish =>
      s.(producer := Idle, displayIn := NextIndex(s.displayIn, RINGSIZE), stored := s.stored + [s.producer.word])
    case Look => if s.displayIn == s.displayOut then s else s.(consumer := NonEmpty)
    case Load => s.(consumer := Loaded(s.ring[s.displayOut]))
    case GiveBack =>
      s.(consumer := Taken(s.consumer.word), displayOut := NextIndex(s.displayOut, RINGSIZE), taken := s.taken + 1)
    case Decide =>
      if s.abortIn > s.abortOut then
        s.(consumer := if s.consumer.word == ABORT then Aborting else Looking)
      else
        s.(consumer := Looking, delivered := s.delivered + [if s.taken > 0 then s.taken - 1 else 0])
    case CountOff => s.(consumer := Looking, abortOut := s.abortOut + 1)
  }

  ghost predicate Leads(s: State, acts: seq<Action>, t: State)
    decreases |acts|
  {
    if acts == [] then s == t
    else Enabled(s, acts[0]) && Leads(Next(s, acts[0]), acts[1..], t)
  }

  predicate Initial(s: State) {
    && |s.ring| == RINGSIZE && s.displayIn == 0 && s.displayOut == 0 && s.abortIn == 0 && s.abortOut == 0
    && s.producer.Idle? && s.consumer.Looking?
    && s.stored == [] && s.taken == 0 && s.delivered == [] && s.lostAborts == 0
  }

  /** How many aborts a stretch of words holds. */
  function Aborts(words: seq<int>): nat {
    if words == [] then 0 else Aborts(words[1..]) + if words[0] == ABORT then 1 else 0
  }

  /** 1 while the network thread is between counting an abort and storing it. */
  function InFlight(p: Producer): nat {
    if (p.Counted? || p.Room? || p.Written?) && p.word == ABORT then 1 else 0
  }

  /** 1 while the display thread holds an abort it has not counted off. */
  function InHand(c: Consumer): nat {
    if c.Aborting? || (c.Taken? && c.word == ABORT) then 1 else 0
  }

  /** How many words the display thread has done with. */
  function Settled(s: State): int {
    if s.consumer.Taken? || s.consumer.Aborting? then s.taken - 1 else s.taken
  }

  /** The ring holds exactly the published words not yet taken, in order. */
  ghost predicate RingInv(s: State) {
    && |s.ring| == RINGSIZE
    && s.taken <= |s.stored| < s.taken + RINGSIZE
    && s.displayIn == |s.stored| % RINGSIZE && s.displayOut == s.taken % RINGSIZE
    && (forall k | s.taken <= k < |s.stored| :: s.ring[k % RINGSIZE] == s.stored[k])
    && (s.producer.Room? || s.producer.Written? ==> |s.stored| < s.taken + RINGSIZE - 1)
    && (s.producer.Written? ==> s.ring[s.displayIn] == s.producer.word)
    && (s.consumer.NonEmpty? || s.consumer.Loaded? ==> s.taken < |s.stored|)
    && (s.consumer.Loaded? ==> s.consumer.word == s.stored[s.taken])
    && (s.consumer.Taken? || s.consumer.Aborting? ==> s.taken > 0)
    && (s.consumer.Taken? ==> s.consumer.word == s.stored[s.taken - 1])
    && (s.consumer.Aborting? ==> s.stored[s.taken - 1] == ABORT)
  }

  /** The two counters differ by the aborts on their way, including those that were lost. */
  ghost predicate CountInv(s: State)
    requires s.taken <= |s.stored|
  {
    s.abortIn - s.abortOut
    == Aborts(s.stored[s.taken..]) + InHand(s.consumer) + InFlight(s.producer) + s.lostAborts
  }

  /** Something received so far justifies discarding word k. */
  ghost predicate Stale(s: State, k: nat) {
    || (exists j :: k < j < |s.stored| && s.stored[j] == ABORT)
    || InFlight(s.producer) > 0
    || s.lostAborts > 0
  }

  /** Words are delivered in order, never an abort, and only stale ones are missing. */
  ghost predicate DeliveryInv(s: State)
    requires s.taken <= |s.stored|
  {
    && 0 <= Settled(s)
    && (forall i | 0 <= i < |s.delivered| :: s.delivered[i] < Settled(s) && s.stored[s.delivered[i]] != ABORT)
    && (forall i, j | 0 <= i < j < |s.delivered| :: s.delivered[i] < s.delivered[j])
    && (forall k | 0 <= k < Settled(s) :: k in s.delivered || s.stored[k] == ABORT || Stale(s, k))
  }

  ghost predicate Inv(s: State) {
    RingInv(s) && CountInv(s) && DeliveryInv(s)
  }

  lemma {:induction false} AbortsAppend(a: seq<int>, w: int)
    ensures Aborts(a + [w]) == Aborts(a) + if w == ABORT then 1 else 0
  {
    if a != [] {
      assert (a + [w])[1..] == a[1..] + [w];
      AbortsAppend(a[1..], w);
    }
  }

  lemma {:induction false} NoAborts(a: seq<int>)
    ensures Aborts(a) == 0 <==> ABORT !in a
  {
    if a != [] {
      NoAborts(a[1..]);
    }
  }

  lemma WriteKeepsRing(s: State)
    requires RingInv(s) && Enabled(s, Write)
    ensures RingInv(Next(s, Write))
  {
    forall k | s.taken <= k < |s.stored|
      ensures k % RINGSIZE != s.displayIn
    {
    }
  }

  lemma PublishKeepsRing(s: State)
    requires RingInv(s) && Enabled(s, Publish)
    ensures RingInv(Next(s, Publish))
  {
    hide NextIndex;
    var t := Next(s, Publish);
    var n := |s.stored|;
    NextIndexIs(n, RINGSIZE);
    forall k | t.taken <= k < |t.stored|
      ensures t.ring[k % RINGSIZE] == t.stored[k]
    {
      assert k < n ==> t.stored[k] == s.stored[k];
    }
  }

  lemma GiveBackKeepsRing(s: State)
    requires RingInv(s) && Enabled(s, GiveBack)
    ensures RingInv(Next(s, GiveBack))
  {
  }

  lemma FindRoomKeepsRing(s: State)
    requires RingInv(s) && Enabled(s, FindRoom)
    ensures RingInv(Next(s, FindRoom))
  {
  }

  lemma LookKeepsRing(s: State)
    requires RingInv(s) && Enabled(s, Look)
    ensures RingInv(Next(s, Look))
  {
  }

  lemma RingKept(s: State, act: Action)
    requires RingInv(s) && Enabled(s, act)
    ensures RingInv(Next(s, act))
  {
    match act
    case Receive(_) =>
    case Count =>
    case FindRoom => FindRoomKeepsRing(s);
    case Write => WriteKeepsRing(s);
    case Publish => PublishKeepsRing(s);
    case Look => LookKeepsRing(s);
    case Load =>
    case GiveBack => GiveBackKeepsRing(s);
    case Decide =>
    case CountOff =>
  }

  lemma PublishKeepsCount(s: State)
    requires s.taken <= |s.stored| && CountInv(s) && Enabled(s, Publish)
    ensures CountInv(Next(s, Publish))
  {
    var w := s.producer.word;
    var left := s.stored[s.taken..];
    assert (s.stored + [w])[s.taken..] == left + [w];
    AbortsAppend(left, w);
    hide Aborts;
  }

  lemma GiveBackKeepsCount(s: State)
    requires s.taken < |s.stored| && CountInv(s) && Enabled(s, GiveBack) && s.consumer.word == s.stored[s.taken]
    ensures CountInv(Next(s, GiveBack))
  {
    assert s.stored[s.taken..][1..] == s.stored[s.taken + 1..];
  }

  lemma CountKept(s: State, act: Action)
    requires RingInv(s) && CountInv(s) && Enabled(s, act)
    ensures Next(s, act).taken <= |Next(s, act).stored| && CountInv(Next(s, act))
  {
    match act
    case Publish => PublishKeepsCount(s);
    case GiveBack => GiveBackKeepsCount(s);
    case _ =>
  }

  /** Once something justifies discarding a word, something always will. */
  lemma StaleKept(s: State, act: Action, k: nat)
    requires Enabled(s, act) && Stale(s, k) && k < |s.stored|
    ensures Stale(Next(s, act), k)
  {
    var t := Next(s, act);
    if j :| k < j < |s.stored| && s.stored[j] == ABORT {
      assert t.stored[j] == ABORT;
    } else if act.Publish? && InFlight(s.producer) > 0 {
      assert t.stored[|s.stored|] == ABORT;
    }
  }

  /** When the counters agree nothing on its way, or lost, is an abort. */
  lemma CountersAgree(s: State)
    requires s.taken <= |s.stored| && CountInv(s) && s.abortIn <= s.abortOut
    ensures ABORT !in s.stored[s.taken..]
    ensures InHand(s.consumer) == 0 && InFlight(s.producer) == 0 && s.lostAborts == 0
  {
    NoAborts(s.stored[s.taken..]);
  }

  /** When they differ, something justifies discarding the word just taken. */
  lemma CountersDiffer(s: State)
    requires RingInv(s) && CountInv(s) && s.abortIn > s.abortOut
    requires s.consumer.Taken? && s.consumer.word != ABORT
    ensures Stale(s, s.taken - 1)
  {
    NoAborts(s.stored[s.taken..]);
    if i :| 0 <= i < |s.stored[s.taken..]| && s.stored[s.taken..][i] == ABORT {
      assert s.stored[s.taken + i] == ABORT;
    }
  }

  lemma DeliveryKept(s: State, act: Action)
    requires Inv(s) && Enabled(s, act)
    ensures Next(s, act).taken <= |Next(s, act).stored| && DeliveryInv(Next(s, act))
  {
    hide Stale, Aborts;
    var t := Next(s, act);
    forall k | 0 <= k < Settled(s) && Stale(s, k)
      ensures Stale(t, k)
    {
      StaleKept(s, act, k);
    }
    if act.Decide? {
      if s.abortIn > s.abortOut {
        if s.consumer.word != ABORT {
          CountersDiffer(s);
          StaleKept(s, act, s.taken - 1);
        }
      } else {
        CountersAgree(s);
        assert t.delivered[|s.delivered|] == s.taken - 1;
      }
    }
  }

  lemma StepKeeps(s: State, act: Action)
    requires Inv(s) && Enabled(s, act)
    ensures Inv(Next(s, act))
  {
    RingKept(s, act);
    CountKept(s, act);
    DeliveryKept(s, act);
  }

  /** The words stored and delivered so far only grow. */
  ghost predicate Grown(s: State, t: State) {
    s.stored <= t.stored && s.delivered <= t.delivered && s.taken <= t.taken && s.lostAborts <= t.lostAborts
  }

  lemma StepGrows(s: State, act: Action)
    requires Enabled(s, act)
    ensures Grown(s, Next(s, act))
  {
  }

  /** In every interleaving the ring is FIFO, the counters tell the aborts on their way, delivery
      respects them, and nothing stored or delivered is taken back. */
  lemma {:induction false} EveryInterleaving(s: State, acts: seq<Action>, t: State)
    requires Inv(s) && Leads(s, acts, t)
    ensures Inv(t) && Grown(s, t)
    decreases |acts|
  {
    hide Inv;
    if acts != [] {
      var s1 := Next(s, acts[0]);
      StepKeeps(s, acts[0]);
      StepGrows(s, acts[0]);
      EveryInterleaving(s1, acts[1..], t);
    }
  }

  lemma InitiallyInv(s: State)
    requires Initial(s)
    ensures Inv(s)
  {
  }

  /**
   The decision about a word: it is delivered if and only if no abort received so far is that
   word, lies after it, is still to be stored, or was lost.
   */
  lemma DeliveredIff(s: State)
    requires Inv(s) && s.consumer.Taken?
    ensures var t := Next(s, Decide);
            t.delivered == s.delivered + [s.taken - 1] <==> s.consumer.word != ABORT && !Stale(s, s.taken - 1)
    ensures Next(s, Decide).delivered == s.delivered || Next(s, Decide).delivered == s.delivered + [s.taken - 1]
  {
    if s.abortIn > s.abortOut {
      if s.consumer.word != ABORT {
        CountersDiffer(s);
      }
    } else {
      CountersAgree(s);
      assert forall j | s.taken <= j < |s.stored| :: s.stored[s.taken..][j - s.taken] == s.stored[j];
    }
  }

  /** The last word that erases what came before it: the words from here on are to be shown. */
  ghost predicate FreshFrom(words: seq<int>, from: nat) {
    && from <= |words|
    && (from > 0 ==> words[from - 1] == ABORT)
    && ABORT !in words[from..]
  }

  function Range(from: int, to: int): (r: seq<int>)
    requires from <= to
    ensures |r| == to - from
  {
    seq(to - from, i requires 0 <= i => from + i)
  }

  lemma LargestIsLast(d: seq<int>, n: int)
    requires forall i | 0 <= i < |d| :: d[i] < n
    requires forall i, j | 0 <= i < j < |d| :: d[i] < d[j]
    requires n - 1 in d
    ensures d[|d| - 1] == n - 1
    ensures forall i | 0 <= i < |d| - 1 :: d[i] < n - 1
  {
    var j :| 0 <= j < |d| && d[j] == n - 1;
  }

  /** An increasing list of numbers below n that holds from..n ends with them. */
  lemma {:induction false} EndsWithRange(d: seq<int>, from: int, n: int)
    requires from <= n
    requires forall i | 0 <= i < |d| :: d[i] < n
    requires forall i, j | 0 <= i < j < |d| :: d[i] < d[j]
    requires forall k | from <= k < n :: k in d
    ensures |d| >= n - from && d[|d| - (n - from)..] == Range(from, n)
    decreases n - from
  {
    if from < n {
      assert n - 1 in d;
      var last := |d| - 1;
      LargestIsLast(d, n);
      var rest := d[..last];
      forall k | from <= k < n - 1
        ensures k in rest
      {
        assert k in d;
        var i :| 0 <= i < |d| && d[i] == k;
        assert rest[i] == k;
      }
      EndsWithRange(rest, from, n - 1);
      assert d[|d| - (n - from)..] == rest[|rest| - (n - 1 - from)..] + [n - 1];
    }
  }

  /** Every run starts from an empty ring. */
  ghost predicate Reachable(s: State) {
    exists s0, acts :: Initial(s0) && Leads(s0, acts, s)
  }

  lemma ReachableInv(s: State)
    requires Reachable(s)
    ensures Inv(s)
  {
    var s0, acts :| Initial(s0) && Leads(s0, acts, s);
    InitiallyInv(s0);
    EveryInterleaving(s0, acts, s);
  }

  /**
   When the display has caught up and no abort was lost, the last things delivered are exactly
   the words after the last abort, each once and in order.
   */
  lemma CaughtUp(s: State, from: nat)
    requires Reachable(s)
    requires s.taken == |s.stored| && s.consumer.Looking? && s.producer.Idle? && s.lostAborts == 0
    requires FreshFrom(s.stored, from)
    ensures s.abortIn == s.abortOut
    ensures |s.delivered| >= |s.stored| - from
    ensures s.delivered[|s.delivered| - (|s.stored| - from)..] == Range(from, |s.stored|)
  {
    ReachableInv(s);
    forall k | from <= k < |s.stored|
      ensures k in s.delivered
    {
      assert forall j | from <= j < |s.stored| :: s.stored[j] == s.stored[from..][j - from];
    }
    EndsWithRange(s.delivered, from, |s.stored|);
  }

  /** The words received in a run. */
  function Received(acts: seq<Action>): seq<int> {
    if acts == [] then []
    else ReceivedBy(acts[0]) + Received(acts[1..])
  }

  /** The word that the network thread has received and not yet stored. */
  function InHandOf(p: Producer): seq<int> {
    if p.Idle? then [] else [p.word]
  }

  /** The words received so far that were not dropped. */
  function Kept(s: State): seq<int> {
    s.stored + InHandOf(s.producer)
  }

  function ReceivedBy(act: Action): seq<int> {
    if act.Receive? then [act.word] else []
  }

  /** A step keeps what it receives, unless it drops the word in hand. */
  lemma StepKeepsReceived(s: State, act: Action)
    requires Enabled(s, act)
    ensures Kept(Next(s, act)) == Kept(s) + ReceivedBy(act) || |Kept(Next(s, act))| < |Kept(s)|
    ensures ABORT !in InHandOf(s.producer) && ABORT !in ReceivedBy(act) ==>
              Next(s, act).lostAborts == s.lostAborts && ABORT !in InHandOf(Next(s, act).producer)
  {
  }

  lemma Regroup(a: seq<int>, b: seq<int>, c: seq<int>)
    ensures a + (b + c) == (a + b) + c
  {
  }

  /** A run stores what it receives, in order, but for what finds the ring full; an abort is lost
      only if one is received. */
  lemma {:induction false} StoresReceived(s: State, acts: seq<Action>, t: State)
    requires Leads(s, acts, t)
    ensures |Kept(t)| <= |Kept(s)| + |Received(acts)|
    ensures |Kept(t)| == |Kept(s)| + |Received(acts)| ==> Kept(t) == Kept(s) + Received(acts)
    ensures ABORT !in Received(acts) && ABORT !in InHandOf(s.producer) ==> t.lostAborts == s.lostAborts
    decreases |acts|
  {
    if acts != [] {
      var s1 := Next(s, acts[0]);
      StepKeepsReceived(s, acts[0]);
      hide Next, Kept, Enabled, InHandOf;
      StoresReceived(s1, acts[1..], t);
      Regroup(Kept(s), ReceivedBy(acts[0]), Received(acts[1..]));
      hide ReceivedBy;
    }
  }

  /** The words that were delivered. */
  function Delivered(t: State): seq<int>
    requires forall i | 0 <= i < |t.delivered| :: t.delivered[i] < |t.stored|
  {
    seq(|t.delivered|, i requires 0 <= i < |t.delivered| => t.stored[t.delivered[i]])
  }

  /** When no abort is received, no word finds the ring full, and the display has caught up, it has
      been given exactly the words received. */
  lemma DeliversReceived(s: State, acts: seq<Action>, t: State)
    requires Initial(s) && Leads(s, acts, t) && ABORT !in Received(acts)
    requires t.producer.Idle? && |t.stored| == |Received(acts)|
    requires t.consumer.Looking? && t.taken == |t.stored|
    ensures forall i | 0 <= i < |t.delivered| :: t.delivered[i] < |t.stored|
    ensures Delivered(t) == Received(acts)
  {
    StoresReceived(s, acts, t);
    InitiallyInv(s);
    EveryInterleaving(s, acts, t);
    assert Kept(t) == t.stored && Kept(s) == [];
    assert t.stored == Received(acts);
    hide Leads, Received, Initial;
    AllDelivered(t);
  }

  lemma AllDelivered(t: State)
    requires Inv(t) && ABORT !in t.stored && t.lostAborts == 0
    requires t.producer.Idle? && t.consumer.Looking? && t.taken == |t.stored|
    ensures forall i | 0 <= i < |t.delivered| :: t.delivered[i] < |t.stored|
    ensures Delivered(t) == t.stored
  {
    hide RingInv, CountInv;
    var n := |t.stored|;
    forall k | 0 <= k < n
      ensures k in t.delivered
    {
      assert t.stored[k] in t.stored;
    }
    WholeRange(t.delivered, n);
    hide DeliveryInv, Stale;
    assert |Delivered(t)| == n;
    forall i | 0 <= i < n
      ensures Delivered(t)[i] == t.stored[i]
    {
      assert t.delivered[i] == Range(0, n)[i];
    }
  }

  lemma WholeRange(d: seq<nat>, n: nat)
    requires forall i | 0 <= i < |d| :: d[i] < n
    requires forall i, j | 0 <= i < j < |d| :: d[i] < d[j]
    requires forall k | 0 <= k < n :: k in d
    ensures d == Range(0, n)
  {
    EndsWithRange(d, 0, n);
    IncreasingFits(d, n);
    assert d[0..] == d;
  }

  /** Increasing numbers below n are at most n. */
  lemma {:induction false} IncreasingFits(d: seq<nat>, n: int)
    requires forall i | 0 <= i < |d| :: d[i] < n
    requires forall i, j | 0 <= i < j < |d| :: d[i] < d[j]
    requires n >= 0
    ensures |d| <= n
    decreases |d|
  {
    if d != [] {
      IncreasingFits(d[..|d| - 1], d[|d| - 1]);
    }
  }

  /** A lost abort is never made up for: nothing is delivered any more. */
  lemma {:induction false} LostForEver(s: State, acts: seq<Action>, t: State)
    requires Inv(s) && s.lostAborts > 0 && Leads(s, acts, t)
    ensures t.delivered == s.delivered
    decreases |acts|
  {
    if acts != [] {
      StepKeeps(s, acts[0]);
      LostForEver(Next(s, acts[0]), acts[1..], t);
    }
  }

  /** n words stored while the display thread is still. */
  lemma FillUp(s: State, n: nat) returns (acts: seq<Action>, t: State)
    requires Inv(s) && s.producer.Idle? && |s.stored| + n < s.taken + RINGSIZE
    ensures Leads(s, acts, t) && Inv(t) && t.producer.Idle? && t.taken == s.taken && |t.stored| == |s.stored| + n
    decreases n
  {
    hide CountInv, DeliveryInv;
    if n == 0 {
      acts, t := [], s;
    } else {
      var s1 := Next(s, Receive(0));
      StepKeeps(s, Receive(0));
      var s2 := Next(s1, Count);
      StepKeeps(s1, Count);
      FullOnlyAt(s2);
      var a3, s3 := StoreOne(s2);
      var rest;
      rest, t := FillUp(s3, n - 1);
      hide RingInv;
      assert Leads(s1, [Count], s2);
      LeadsOn(s1, [Count], s2, a3, s3);
      LeadsOn(s1, [Count] + a3, s3, rest, t);
      acts := [Receive(0)] + ([Count] + a3 + rest);
      assert acts[1..] == [Count] + a3 + rest;
    }
  }

  lemma FullOnlyAt(s: State)
    requires RingInv(s)
    ensures NextIndex(s.displayIn, RINGSIZE) == s.displayOut <==> |s.stored| == s.taken + RINGSIZE - 1
  {
    NextIndexIs(|s.stored|, RINGSIZE);
  }

  /** Losing an abort happens: while the display is still the ring fills, and then an abort comes. */
  lemma LossReachable(s: State) returns (acts: seq<Action>, t: State)
    requires Initial(s)
    ensures Leads(s, acts, t) && t.lostAborts > 0
  {
    InitiallyInv(s);
    var a1, s1 := FillUp(s, RINGSIZE - 1);
    var s2 := Next(s1, Receive(ABORT));
    StepKeeps(s1, Receive(ABORT));
    var s3 := Next(s2, Count);
    StepKeeps(s2, Count);
    FullOnlyAt(s3);
    var a4;
    a4, t := StoreOne(s3);
    assert t.lostAborts == s3.lostAborts + 1;
    assert Leads(s2, [Count], s3) && Leads(s1, [Receive(ABORT)], s2);
    LeadsOn(s1, [Receive(ABORT)], s2, [Count], s3);
    LeadsOn(s, a1, s1, [Receive(ABORT)] + [Count], s3);
    LeadsOn(s, a1 + ([Receive(ABORT)] + [Count]), s3, a4, t);
    acts := a1 + ([Receive(ABORT)] + [Count]) + a4;
  }

  /** A run after which the display has been given a word that arrived during the run. */
  ghost predicate Shows(s: State, acts: seq<Action>, t: State) {
    Leads(s, acts, t) && exists k :: k in t.delivered && k >= |s.stored|
  }

  /** The display can show anything that is still to come if and only if no abort has been lost
      to a full ring. */
  lemma ShowsIff(s: State)
    requires Inv(s)
    ensures s.lostAborts == 0 <==> exists acts, t :: Shows(s, acts, t)
  {
    if s.lostAborts > 0 {
      forall acts, t | Shows(s, acts, t)
        ensures false
      {
        LostForEver(s, acts, t);
      }
    } else {
      var acts, t := WayToShow(s);
      assert Shows(s, acts, t);
    }
  }

  /** The words in the ring's cells, from the one to be read next up to the one to be written next. */
  function Queued(s: State): seq<int>
    requires |s.ring| == RINGSIZE
  {
    seq((s.displayIn - s.displayOut) % RINGSIZE, i requires 0 <= i => s.ring[(s.displayOut + i) % RINGSIZE])
  }

  lemma QueuedIs(s: State)
    requires RingInv(s)
    ensures Queued(s) == s.stored[s.taken..]
  {
    var n := |s.stored| - s.taken;
    Distance(s.taken, |s.stored|);
    assert |Queued(s)| == n;
    forall i | 0 <= i < n
      ensures Queued(s)[i] == s.stored[s.taken..][i]
    {
      IndexOn(s.taken, i);
      assert s.ring[(s.taken + i) % RINGSIZE] == s.stored[s.taken + i];
    }
  }

  lemma Distance(a: nat, b: nat)
    requires a <= b < a + RINGSIZE
    ensures (b % RINGSIZE - a % RINGSIZE) % RINGSIZE == b - a
  {
    var i, j := a / RINGSIZE, b / RINGSIZE;
    assert b % RINGSIZE - a % RINGSIZE == b - a - RINGSIZE * (j - i);
  }

  lemma IndexOn(a: nat, i: nat)
    ensures (a % RINGSIZE + i) % RINGSIZE == (a + i) % RINGSIZE
  {
    var q := a / RINGSIZE;
    assert a % RINGSIZE + i == a + i - RINGSIZE * q;
  }

  /** The same told from the cells: anything can still be shown if and only if the counters differ by
      just the aborts that are queued, being stored or being counted off. */
  lemma ShowsByCellsIff(s: State)
    requires Inv(s)
    ensures s.abortIn - s.abortOut == Aborts(Queued(s)) + InHand(s.consumer) + InFlight(s.producer)
            <==> exists acts, t :: Shows(s, acts, t)
  {
    hide Leads, Shows;
    QueuedIs(s);
    ShowsIff(s);
  }

  lemma {:induction false} LeadsOn(s: State, a: seq<Action>, t: State, b: seq<Action>, u: State)
    requires Leads(s, a, t) && Leads(t, b, u)
    ensures Leads(s, a + b, u)
    decreases |a|
  {
    if a == [] {
      assert a + b == b;
    } else {
      assert (a + b)[1..] == a[1..] + b;
      LeadsOn(Next(s, a[0]), a[1..], t, b, u);
    }
  }

  function ConsumerStage(c: Consumer): nat {
    match c
    case Taken(_) => 5
    case Aborting => 4
    case Looking => 3
    case NonEmpty => 2
    case Loaded(_) => 1
  }

  /** The display thread alone empties the ring. */
  lemma Drain(s: State) returns (acts: seq<Action>, t: State)
    requires Inv(s)
    ensures Leads(s, acts, t) && Inv(t)
    ensures t.consumer.Looking? && t.taken == |t.stored|
    ensures t.producer == s.producer && t.stored == s.stored && t.lostAborts == s.lostAborts
    decreases |s.stored| - s.taken, ConsumerStage(s.consumer)
  {
    hide CountInv, DeliveryInv;
    if s.consumer.Looking? && s.displayIn == s.displayOut {
      acts, t := [], s;
    } else {
      var act := match s.consumer
        case Looking => Look
        case NonEmpty => Load
        case Loaded(_) => GiveBack
        case Taken(_) => Decide
        case Aborting => CountOff;
      StepKeeps(s, act);
      var rest;
      rest, t := Drain(Next(s, act));
      acts := [act] + rest;
      assert acts[1..] == rest;
    }
  }

  function ProducerStage(p: Producer): nat {
    match p
    case Have(_) => 4
    case Counted(_) => 3
    case Room(_) => 2
    case Written(_) => 1
    case Idle => 0
  }

  /** The network thread alone stores the word it has in an empty ring. */
  lemma Finish(s: State) returns (acts: seq<Action>, t: State)
    requires Inv(s) && s.displayIn == s.displayOut
    ensures Leads(s, acts, t) && Inv(t) && t.producer.Idle? && t.lostAborts == s.lostAborts
    ensures t.stored == if s.producer.Idle? then s.stored else s.stored + [s.producer.word]
    decreases ProducerStage(s.producer)
  {
    if s.producer.Idle? {
      acts, t := [], s;
    } else if s.producer.Written? {
      StepKeeps(s, Publish);
      acts, t := [Publish], Next(s, Publish);
    } else {
      var act := if s.producer.Have? then Count else if s.producer.Counted? then FindRoom else Write;
      StepKeeps(s, act);
      var rest;
      rest, t := Finish(Next(s, act));
      acts := [act] + rest;
      assert acts[1..] == rest;
    }
  }

  /** Both threads finish what they are at, and the ring is empty. */
  lemma ComeToRest(s: State) returns (acts: seq<Action>, t: State)
    requires Inv(s)
    ensures Leads(s, acts, t) && Inv(t) && t.lostAborts == s.lostAborts && |t.stored| >= |s.stored|
    ensures t.consumer.Looking? && t.producer.Idle? && t.taken == |t.stored|
  {
    var a1, s1 := Drain(s);
    EmptyWhen(s1);
    var a2, s2 := Finish(s1);
    var a3;
    a3, t := Drain(s2);
    hide Inv, Leads;
    LeadsOn(s, a1, s1, a2, s2);
    LeadsOn(s, a1 + a2, s2, a3, t);
    acts := a1 + a2 + a3;
  }

  lemma WayToShow(s: State) returns (acts: seq<Action>, t: State)
    requires Inv(s) && s.lostAborts == 0
    ensures Shows(s, acts, t)
  {
    hide Inv;
    var a1, s1 := ComeToRest(s);
    EmptyWhen(s1);
    var s2 := Next(s1, Receive(0));
    StepKeeps(s1, Receive(0));
    assert Leads(s1, [Receive(0)], s2);
    var a3, s3 := Finish(s2);
    var a4;
    a4, t := Drain(s3);
    hide Leads, Next;
    LeadsOn(s, a1, s1, [Receive(0)], s2);
    LeadsOn(s, a1 + [Receive(0)], s2, a3, s3);
    LeadsOn(s, a1 + [Receive(0)] + a3, s3, a4, t);
    acts := a1 + [Receive(0)] + a3 + a4;
    LastShown(t);
  }

  /** A word that nothing overtakes is shown. */
  lemma LastShown(t: State)
    requires Inv(t) && t.consumer.Looking? && t.producer.Idle? && t.taken == |t.stored| > 0 && t.lostAborts == 0
    requires t.stored[|t.stored| - 1] != ABORT
    ensures |t.stored| - 1 in t.delivered
  {
    hide RingInv, CountInv;
    var k := |t.stored| - 1;
    assert k < Settled(t) && !Stale(t, k);
  }

  /** The connection's cells, as each thread's routines use them while the other one is still. */
  class HostConnection {
    const displayRing: array<int>
    var displayIn: int
    var displayOut: int
    var abortIn: int
    var abortOut: int
    ghost var stored: seq<int>
    ghost var taken: nat
    ghost var delivered: seq<nat>
    ghost var lostAborts: nat

    ghost function View(producer: Producer, consumer: Consumer): State
      reads this, displayRing
    {
      State(displayRing[..], displayIn, displayOut, abortIn, abortOut, producer, consumer,
            stored, taken, delivered, lostAborts)
    }

    constructor ()
      ensures Initial(View(Idle, Looking)) && Inv(View(Idle, Looking)) && fresh(displayRing)
    {
      displayRing := new int[RINGSIZE](i => 0);
      displayIn, displayOut, abortIn, abortOut := 0, 0, 0, 0;
      stored, taken, delivered, lostAborts := [], 0, [], 0;
    }

    /** What the network thread does with a word it has counted. */
    method StoreWord(word: int, ghost consumer: Consumer)
      requires Inv(View(Counted(word), consumer))
      modifies this`displayIn, this`stored, this`lostAborts, displayRing
      ensures Inv(View(Idle, consumer))
      ensures exists acts :: Leads(old(View(Counted(word), consumer)), acts, View(Idle, consumer))
      ensures stored == if NextIndex(old(displayIn), RINGSIZE) == displayOut then old(stored) else old(stored) + [word]
    {
      hide Inv, Leads, Next;
      ghost var acts, t := StoreOne(View(Counted(word), consumer));
      var next := displayIn + 1;
      if next == RINGSIZE {
        next := 0;
      }
      if next == displayOut {
        lostAborts := if word == ABORT then lostAborts + 1 else lostAborts;
        assert View(Idle, consumer) == t;
        return;
      }
      displayRing[displayIn] := word;
      displayIn := next;
      stored := stored + [word];
      assert View(Idle, consumer) == t;
    }

    /** The next word for the display, or NODATA; whatever an abort has made stale is dropped. */
    method NextRingWord(ghost producer: Producer) returns (word: int)
      requires Inv(View(producer, Looking))
      modifies this`displayOut, this`abortOut, this`taken, this`delivered
      ensures Inv(View(producer, Looking))
      ensures exists acts :: Leads(old(View(producer, Looking)), acts, View(producer, Looking))
      ensures || (word == NODATA && delivered == old(delivered) && taken == |stored|)
              || (taken > old(taken) && delivered == old(delivered) + [taken - 1] && word == stored[taken - 1])
    {
      hide Inv, Leads, Next;
      ghost var s := View(producer, Looking);
      LeadsNowhere(s);
      ghost var acts: seq<Action> := [];
      ghost var now := s;
      while true
        invariant now == View(producer, Looking) && Inv(now) && Leads(s, acts, now)
        invariant taken >= old(taken) && delivered == old(delivered)
        decreases |stored| - taken
      {
        if displayIn == displayOut {
          EmptyWhen(now);
          return NODATA;
        }
        ghost var more, dropped, t := TakeOne(now);
        LeadsOn(s, acts, now, more, t);
        acts := acts + more;
        word := displayRing[displayOut];
        var next := displayOut + 1;
        if next == RINGSIZE {
          next := 0;
        }
        displayOut := next;
        taken := taken + 1;
        if abortIn > abortOut {
          if word == ABORT {
            abortOut := abortOut + 1;
          }
          now := t;
          assert View(producer, Looking) == now;
          continue;
        }
        delivered := delivered + [taken - 1];
        assert View(producer, Looking) == t;
        return;
      }
    }
  }

  lemma EmptyWhen(s: State)
    requires Inv(s)
    ensures s.displayIn == s.displayOut <==> s.taken == |s.stored|
  {
  }

  lemma LeadsNowhere(s: State)
    ensures Leads(s, [], s)
  {
  }

  /** Storing a word while the display thread is still. */
  lemma StoreOne(s: State) returns (acts: seq<Action>, t: State)
    requires Inv(s) && s.producer.Counted?
    ensures Leads(s, acts, t) && Inv(t) && 0 <= s.displayIn < |s.ring|
    ensures var w := s.producer.word;
            t == if NextIndex(s.displayIn, RINGSIZE) == s.displayOut then
                   s.(producer := Idle, lostAborts := if w == ABORT then s.lostAborts + 1 else s.lostAborts)
                 else
                   s.(producer := Idle, ring := s.ring[s.displayIn := w], displayIn := NextIndex(s.displayIn, RINGSIZE),
                      stored := s.stored + [w])
  {
    var s1 := Next(s, FindRoom);
    StepKeeps(s, FindRoom);
    assert Leads(s, [FindRoom], s1);
    acts, t := [FindRoom], s1;
    if s1.producer.Room? {
      var s2 := Next(s1, Write);
      StepKeeps(s1, Write);
      var s3 := Next(s2, Publish);
      StepKeeps(s2, Publish);
      assert Leads(s2, [Publish], s3);
      LeadsOn(s1, [Write], s2, [Publish], s3);
      LeadsOn(s, [FindRoom], s1, [Write] + [Publish], s3);
      acts, t := [FindRoom] + ([Write] + [Publish]), s3;
    }
  }

  /** The display thread takes a word off a ring that is not empty. */
  lemma TakeOff(s: State) returns (acts: seq<Action>, t: State)
    requires Inv(s) && s.consumer.Looking? && s.displayIn != s.displayOut
    ensures Leads(s, acts, t) && Inv(t) && s.taken < |s.stored|
    ensures 0 <= s.displayOut < |s.ring| && s.ring[s.displayOut] == s.stored[s.taken]
    ensures t == s.(displayOut := NextIndex(s.displayOut, RINGSIZE), taken := s.taken + 1,
                    consumer := Taken(s.stored[s.taken]))
  {
    hide CountInv, DeliveryInv, Aborts;
    var s1 := Next(s, Look);
    StepKeeps(s, Look);
    var s2 := Next(s1, Load);
    StepKeeps(s1, Load);
    t := Next(s2, GiveBack);
    StepKeeps(s2, GiveBack);
    assert Leads(s2, [GiveBack], t);
    LeadsOn(s1, [Load], s2, [GiveBack], t);
    LeadsOn(s, [Look], s1, [Load] + [GiveBack], t);
    acts := [Look] + ([Load] + [GiveBack]);
  }

  /** One turn of the display thread on a ring that is not empty. */
  lemma TakeOne(s: State) returns (acts: seq<Action>, dropped: bool, t: State)
    requires Inv(s) && s.consumer.Looking? && s.displayIn != s.displayOut
    ensures Leads(s, acts, t) && Inv(t) && s.taken < |s.stored|
    ensures 0 <= s.displayOut < |s.ring| && s.ring[s.displayOut] == s.stored[s.taken]
    ensures dropped <==> s.abortIn > s.abortOut
    ensures t == s.(displayOut := NextIndex(s.displayOut, RINGSIZE), taken := s.taken + 1,
                    abortOut := if dropped && s.stored[s.taken] == ABORT then s.abortOut + 1 else s.abortOut,
                    delivered := if dropped then s.delivered else s.delivered + [s.taken])
  {
    hide Inv;
    dropped := s.abortIn > s.abortOut;
    var a3, s3 := TakeOff(s);
    t := Next(s3, Decide);
    StepKeeps(s3, Decide);
    LeadsOn(s, a3, s3, [Decide], t);
    acts := a3 + [Decide];
    if t.consumer.Aborting? {
      StepKeeps(t, CountOff);
      var u := Next(t, CountOff);
      LeadsOn(s, acts, t, [CountOff], u);
      acts, t := acts + [CountOff], u;
    }
  }
}
