/** Who may exchange: one pending request, and at most one processor in monitor mode. */
module Arbitration {

  const NONE := -1

  /** The shared cells of the arbitration. */
  datatype Arbiter = Arbiter(monitorCpu: int, exchangeCpu: int, exchangeTo: int)

  /** What a caller asks for: leave monitor mode, leave the mode alone, or enter it at a given
      address or at the monitor address. */
  datatype Mode = Leave | Same | Enter | EnterAtMa {
    predicate Entering() { Enter? || EnterAtMa? }
  }

  /** 0 accepts; 1 means that an exchange is pending, 2 that a processor is in monitor mode. */
  function Verdict(a: Arbiter, mode: Mode): int {
    if mode.Entering() && a.monitorCpu != NONE then 2
    else if a.exchangeCpu != NONE then 1
    else 0
  }

  function Accept(a: Arbiter, cp: int, addr: int, mode: Mode, ma: int): Arbiter {
    Arbiter(if mode.Entering() then cp else if mode.Leave? then NONE else a.monitorCpu,
            cp,
            if mode.EnterAtMa? then ma else addr)
  }

  class ExchangeControl {
    var monitorCpu: int
    var exchangeCpu: int
    var exchangeTo: int
    var regMa: seq<int>

    function State(): Arbiter
      reads this
    {
      Arbiter(monitorCpu, exchangeCpu, exchangeTo)
    }

    /** Tell a processor to exchange, if that is possible now. */
    method IssueExchange(cpnum: nat, addr: int, mode: Mode) returns (ret: int)
      requires |regMa| > 0
      modifies this`monitorCpu, this`exchangeCpu, this`exchangeTo
      ensures ret == Verdict(old(State()), mode)
      ensures var cp := if cpnum >= |regMa| then 0 else cpnum;
              State() == if ret == 0 then Accept(old(State()), cp, addr, mode, regMa[cp]) else old(State())
    {
      var cp := cpnum;
      if cp >= |regMa| {
        cp := 0;
      }
      if mode.Entering() && monitorCpu != NONE {
        return 2;
      }
      if exchangeCpu != NONE {
        return 1;
      }
      if mode.EnterAtMa? {
        exchangeTo := regMa[cp];
      } else {
        exchangeTo := addr;
      }
      if mode.Entering() {
        monitorCpu := cp;
      } else if mode.Leave? {
        monitorCpu := NONE;
      }
      exchangeCpu := cp;
      return 0;
    }
  }

  datatype Request = NoRequest | Request(addr: int, mode: Mode, oldOffset: int)

  /**
   A processor as arbitration sees it: where it is in its instruction word, whether it has
   stopped, its monitor address, whether its next instruction is an XJ, and the request that an
   XJ has decided on but not yet issued.
   */
  datatype Processor = Processor(offset: int, stopped: bool, ma: int, atXj: bool, request: Request)
  {
    /** Between two words, or stopped. */
    predicate Resting() {
      request.NoRequest? && (offset == 60 || stopped)
    }

    /** At an XJ that is not in the first parcel, or with its request decided on. */
    predicate InsideXj() {
      !stopped && atXj && (if request.Request? then request.oldOffset else offset) != 60
    }
  }

  datatype Event =
    | Accepted(cp: int, addr: int, mode: Mode)
    | CarriedOut(cp: int, addr: int, atBoundary: bool)

  /**
   The main thread runs the PPs and processor 0, one after the other; the other processors have
   threads of their own, or are run by the main thread too. A PP that has asked a processor with a
   thread for an exchange waits for it, and the main thread with it.
   */
  datatype System = System(arbiter: Arbiter, cpus: seq<Processor>, log: seq<Event>, threaded: bool, waiting: bool)
  {
    predicate Main(c: int) { c == 0 || !threaded }

    /** No processor of the main thread but c is in the middle of a word. */
    predicate MainFree(c: int) {
      forall k | 0 <= k < |cpus| && Main(k) && k != c :: cpus[k].Resting()
    }

    /** Processor c may act: its own thread is free to, and a word is begun only after looking for an
        exchange, which on the main thread nobody can ask for in between. */
    predicate MayAct(c: int)
      requires 0 <= c < |cpus|
    {
      Main(c) ==> !waiting && MainFree(c) && (cpus[c].Resting() ==> arbiter.exchangeCpu != c)
    }
  }

  /** What can happen next. PPs never ask to leave monitor mode. */
  datatype Action =
    | PpIssue(cpnum: nat, paddr: int, pmode: Mode)
    | Notice
    | Exchange(c: nat, loaded: Processor)
    | Execute(c: nat, result: Processor)
    | XjDecide(c: nat, xaddr: int)
    | XjIssue(c: nat)

  predicate Enabled(s: System, act: Action) {
    match act
    case PpIssue(_, _, mode) => !mode.Leave? && |s.cpus| > 0 && !s.waiting && s.MainFree(NONE)
    case Notice => s.waiting && s.arbiter.exchangeCpu == NONE
    case Exchange(c, loaded) =>
      // the step loop looks for an exchange only at a word boundary or when stopped
      && c < |s.cpus| && s.arbiter.exchangeCpu == c && s.cpus[c].Resting()
      && loaded.offset == 60 && loaded.request.NoRequest?
      && (s.Main(c) ==> !s.waiting && s.MainFree(c))
    case Execute(c, result) =>
      && c < |s.cpus| && !s.cpus[c].stopped && !s.cpus[c].atXj && s.cpus[c].request.NoRequest?
      && result.ma == s.cpus[c].ma && result.request.NoRequest?
      && s.MayAct(c)
    case XjDecide(c, _) =>
      && c < |s.cpus| && !s.cpus[c].stopped && s.cpus[c].atXj && s.cpus[c].request.NoRequest?
      && s.MayAct(c)
    case XjIssue(c) => c < |s.cpus| && s.cpus[c].request.Request? && s.MayAct(c)
  }

  function Issue(s: System, cpnum: nat, addr: int, mode: Mode): System
    requires |s.cpus| > 0
  {
    var cp := if cpnum >= |s.cpus| then 0 else cpnum;
    if Verdict(s.arbiter, mode) == 0 then
      var a := Accept(s.arbiter, cp, addr, mode, s.cpus[cp].ma);
      s.(arbiter := a, log := s.log + [Accepted(cp, a.exchangeTo, mode)])
    else s
  }

  function Next(s: System, act: Action): System
    requires Enabled(s, act)
  {
    match act
    case PpIssue(cpnum, addr, mode) =>
      Issue(s, cpnum, addr, mode).(waiting := s.threaded && 0 < cpnum < |s.cpus| && Verdict(s.arbiter, mode) == 0)
    case Notice => s.(waiting := false)
    case Exchange(c, loaded) =>
      s.(arbiter := s.arbiter.(exchangeCpu := NONE), cpus := s.cpus[c := loaded],
         log := s.log + [CarriedOut(c, s.arbiter.exchangeTo, s.cpus[c].offset == 60 || s.cpus[c].stopped)])
    case Execute(c, result) => s.(cpus := s.cpus[c := result])
    case XjDecide(c, addr) =>
      // the continuation point is set up before the request is issued
      var mode := if s.arbiter.monitorCpu == c then Leave else EnterAtMa;
      var p := s.cpus[c];
      s.(cpus := s.cpus[c := p.(offset := 60, request := Request(addr, mode, p.offset))])
    case XjIssue(c) =>
      var p := s.cpus[c];
      var r := p.request;
      var t := Issue(s, c, r.addr, r.mode);
      if Verdict(s.arbiter, r.mode) == 0 then
        t.(cpus := t.cpus[c := p.(request := NoRequest, atXj := false)])
      else
        t.(cpus := t.cpus[c := p.(request := NoRequest, offset := r.oldOffset)])
  }

  /** The states that the actions lead to. */
  ghost predicate Leads(s: System, acts: seq<Action>, t: System)
    decreases |acts|
  {
    if acts == [] then s == t
    else Enabled(s, acts[0]) && Leads(Next(s, acts[0]), acts[1..], t)
  }

  predicate Initial(s: System) {
    && s.arbiter.monitorCpu == NONE && s.arbiter.exchangeCpu == NONE
    && s.log == [] && |s.cpus| > 0 && !s.waiting
    && forall c | 0 <= c < |s.cpus| :: s.cpus[c].stopped && s.cpus[c].request.NoRequest?
  }

  /** The processor in monitor mode after the events of a log. */
  function MonitorAfter(log: seq<Event>): int {
    if log == [] then NONE
    else
      var last := log[|log| - 1];
      if last.Accepted? && last.mode.Entering() then last.cp
      else if last.Accepted? && last.mode.Leave? then NONE
      else MonitorAfter(log[..|log| - 1])
  }

  /** Event i is in order: acceptances and exchanges alternate, each exchange is the accepted one
      carried out by the processor it names at a word boundary or when stopped, and monitor
      mode is entered only when nobody is in it and left only by the one who is. */
  ghost predicate InOrder(log: seq<Event>, i: nat)
    requires i < |log|
  {
    match log[i]
    case Accepted(cp, _, mode) =>
      && i % 2 == 0 && cp != NONE
      && (mode.Entering() ==> MonitorAfter(log[..i]) == NONE)
      && (mode.Leave? ==> MonitorAfter(log[..i]) == cp)
    case CarriedOut(cp, addr, atBoundary) =>
      && i % 2 == 1 && log[i - 1].Accepted?
      && log[i - 1].cp == cp && log[i - 1].addr == addr && atBoundary
  }

  /** The arbiter's cells agree with the log, whose events are all in order. */
  ghost predicate LogInv(s: System) {
    && |s.cpus| > 0
    && (forall i | 0 <= i < |s.log| :: InOrder(s.log, i))
    && (s.arbiter.exchangeCpu == NONE <==> |s.log| % 2 == 0)
    && (|s.log| % 2 == 1 ==>
          var last := s.log[|s.log| - 1];
          && last.Accepted? && last.cp == s.arbiter.exchangeCpu && last.addr == s.arbiter.exchangeTo
          && 0 <= last.cp < |s.cpus|)
    && s.arbiter.monitorCpu == MonitorAfter(s.log)
  }

  /** Only the processor in monitor mode is about to ask to leave it, and only at an XJ. */
  ghost predicate RequestInv(s: System) {
    && (s.arbiter.monitorCpu == NONE || 0 <= s.arbiter.monitorCpu < |s.cpus|)
    && forall c | 0 <= c < |s.cpus| && s.cpus[c].request.Request? ::
         && s.cpus[c].atXj && !s.cpus[c].stopped && s.cpus[c].offset == 60
         && (s.cpus[c].request.mode.Leave? ==> s.arbiter.monitorCpu == c)
  }

  /** The main thread's processors look for an exchange before they begin a word, and none is asked
      for in between; in the middle of one, at most one of them is. */
  ghost predicate MainInv(s: System) {
    && (s.waiting ==> s.threaded && s.arbiter.exchangeCpu != 0)
    && (forall c | 0 <= c < |s.cpus| && s.Main(c) && !s.cpus[c].Resting() ::
          s.arbiter.exchangeCpu != c && s.MainFree(c))
    && (forall c | 0 <= c < |s.cpus| && s.Main(c) && s.cpus[c].request.Request? ::
          s.cpus[c].request.mode == if s.arbiter.monitorCpu == c then Leave else EnterAtMa)
  }

  ghost predicate Inv(s: System) {
    LogInv(s) && RequestInv(s) && MainInv(s)
  }

  lemma AppendInOrder(log: seq<Event>, e: Event)
    requires forall i | 0 <= i < |log| :: InOrder(log, i)
    requires InOrder(log + [e], |log|)
    ensures forall i | 0 <= i < |log + [e]| :: InOrder(log + [e], i)
  {
    forall i | 0 <= i < |log|
      ensures InOrder(log + [e], i)
    {
      assert InOrder(log, i);
      assert (log + [e])[..i] == log[..i];
    }
  }

  lemma MonitorAfterAppend(log: seq<Event>, e: Event)
    ensures MonitorAfter(log + [e]) ==
            if e.Accepted? && e.mode.Entering() then e.cp
            else if e.Accepted? && e.mode.Leave? then NONE
            else MonitorAfter(log)
  {
    assert (log + [e])[..|log|] == log;
  }

  lemma IssueKeeps(s: System, cpnum: nat, addr: int, mode: Mode)
    requires LogInv(s)
    requires mode.Leave? ==> cpnum < |s.cpus| && s.arbiter.monitorCpu == cpnum
    ensures LogInv(Issue(s, cpnum, addr, mode))
  {
    var t := Issue(s, cpnum, addr, mode);
    if Verdict(s.arbiter, mode) == 0 {
      var e := t.log[|s.log|];
      assert t.log[..|s.log|] == s.log;
      AppendInOrder(s.log, e);
      MonitorAfterAppend(s.log, e);
    }
  }

  lemma ExchangeKeeps(s: System, c: nat, loaded: Processor)
    requires LogInv(s) && Enabled(s, Exchange(c, loaded))
    ensures LogInv(Next(s, Exchange(c, loaded)))
  {
    var t := Next(s, Exchange(c, loaded));
    var e := t.log[|s.log|];
    AppendInOrder(s.log, e);
    MonitorAfterAppend(s.log, e);
  }

  lemma StepKeepsLog(s: System, act: Action)
    requires LogInv(s) && RequestInv(s) && Enabled(s, act)
    ensures LogInv(Next(s, act))
  {
    hide InOrder, MonitorAfter;
    match act
    case PpIssue(cpnum, addr, mode) => IssueKeeps(s, cpnum, addr, mode);
    case Notice =>
    case Exchange(c, loaded) => ExchangeKeeps(s, c, loaded);
    case Execute(c, result) =>
    case XjDecide(c, addr) =>
    case XjIssue(c) => IssueKeeps(s, c, s.cpus[c].request.addr, s.cpus[c].request.mode);
  }

  lemma StepKeepsRequests(s: System, act: Action)
    requires RequestInv(s) && Enabled(s, act)
    ensures RequestInv(Next(s, act))
  {
  }

  lemma XjIssueKeepsMain(s: System, c: nat)
    requires RequestInv(s) && MainInv(s) && Enabled(s, XjIssue(c))
    ensures MainInv(Next(s, XjIssue(c)))
  {
  }

  lemma PpIssueKeepsMain(s: System, cpnum: nat, addr: int, mode: Mode)
    requires MainInv(s) && Enabled(s, PpIssue(cpnum, addr, mode))
    ensures MainInv(Next(s, PpIssue(cpnum, addr, mode)))
  {
  }

  lemma StepKeepsMain(s: System, act: Action)
    requires RequestInv(s) && MainInv(s) && Enabled(s, act)
    ensures MainInv(Next(s, act))
  {
    match act
    case PpIssue(cpnum, addr, mode) => PpIssueKeepsMain(s, cpnum, addr, mode);
    case Notice =>
    case Exchange(_, _) =>
    case Execute(_, _) =>
    case XjDecide(_, _) =>
    case XjIssue(c) => XjIssueKeepsMain(s, c);
  }

  /** Every action keeps the invariant. */
  lemma StepKeeps(s: System, act: Action)
    requires Inv(s) && Enabled(s, act)
    ensures Inv(Next(s, act))
  {
    hide LogInv, RequestInv, MainInv;
    StepKeepsLog(s, act);
    StepKeepsRequests(s, act);
    StepKeepsMain(s, act);
  }

  lemma {:induction false} RunsKeep(s: System, acts: seq<Action>, t: System)
    requires Inv(s) && Leads(s, acts, t)
    ensures Inv(t)
    decreases |acts|
  {
    if acts != [] {
      StepKeeps(s, acts[0]);
      RunsKeep(Next(s, acts[0]), acts[1..], t);
    }
  }

  /**
   Safety over every run of any number of processors and PPs: an accepted request is never
   overwritten, is carried out exactly once and by the processor it names, at a word boundary or
   when stopped; and monitor mode is entered only when nobody is in it and left only by the one
   who is.
   */
  lemma RunsAreSafe(s: System, acts: seq<Action>, t: System)
    requires Initial(s) && Leads(s, acts, t)
    ensures forall i | 0 <= i < |t.log| :: InOrder(t.log, i)
    ensures t.arbiter.exchangeCpu != NONE <==> |t.log| % 2 == 1
    ensures t.arbiter.exchangeCpu != NONE ==>
              var last := t.log[|t.log| - 1];
              last.Accepted? && last.cp == t.arbiter.exchangeCpu && last.addr == t.arbiter.exchangeTo
    ensures t.arbiter.monitorCpu == MonitorAfter(t.log)
  {
    RunsKeep(s, acts, t);
  }

  /** A pending request stays exactly as accepted until its exchange. */
  lemma PendingKept(s: System, act: Action)
    requires Inv(s) && Enabled(s, act) && s.arbiter.exchangeCpu != NONE && !act.Exchange?
    ensures var t := Next(s, act).arbiter;
            t.exchangeCpu == s.arbiter.exchangeCpu && t.exchangeTo == s.arbiter.exchangeTo
    ensures Next(s, act).log == s.log
  {
  }

  /** Where an accepted request sends its processor: to MA if that was asked for, and otherwise to the
      address given. */
  function AskedFor(addr: int, mode: Mode, ma: int): int {
    match mode
    case EnterAtMa => ma
    case _ => addr
  }

  /** The log only grows. */
  lemma {:induction false} LogGrows(s: System, acts: seq<Action>, t: System)
    requires Leads(s, acts, t)
    ensures s.log <= t.log
    decreases |acts|
  {
    if acts != [] {
      LogGrows(Next(s, acts[0]), acts[1..], t);
    }
  }

  /** An accepted request of a PP is the next to be carried out, on the processor it named, or processor 0
      if there is no such one, at the address it gave or that processor's MA. */
  lemma PpGetsWhatItAsks(s: System, cpnum: nat, addr: int, mode: Mode, acts: seq<Action>, t: System)
    requires Inv(s) && Enabled(s, PpIssue(cpnum, addr, mode)) && Verdict(s.arbiter, mode) == 0
    requires Leads(Next(s, PpIssue(cpnum, addr, mode)), acts, t) && |t.log| > |s.log| + 1
    ensures var cp := if cpnum >= |s.cpus| then 0 else cpnum;
            t.log[|s.log| + 1] == CarriedOut(cp, AskedFor(addr, mode, s.cpus[cp].ma), true)
  {
    var s1 := Next(s, PpIssue(cpnum, addr, mode));
    StepKeeps(s, PpIssue(cpnum, addr, mode));
    RunsKeep(s1, acts, t);
    LogGrows(s1, acts, t);
    assert InOrder(t.log, |s.log| + 1);
  }

  /** So is an accepted XJ: to the address K + Bj if its processor was in monitor mode, which it leaves, and
      otherwise to its MA, and it enters monitor mode. */
  lemma XjGetsWhatItAsks(s: System, c: nat, addr: int, acts: seq<Action>, t: System)
    requires Inv(s) && Enabled(s, XjDecide(c, addr))
    requires var s1 := Next(s, XjDecide(c, addr));
             && Enabled(s1, XjIssue(c)) && Verdict(s.arbiter, s1.cpus[c].request.mode) == 0
             && Leads(Next(s1, XjIssue(c)), acts, t) && |t.log| > |s.log| + 1
    ensures t.log[|s.log| + 1]
            == CarriedOut(c, if s.arbiter.monitorCpu == c then addr else s.cpus[c].ma, true)
    ensures MonitorAfter(t.log[..|s.log| + 1]) == if s.arbiter.monitorCpu == c then NONE else c
  {
    var s1 := Next(s, XjDecide(c, addr));
    var s2 := Next(s1, XjIssue(c));
    StepKeeps(s, XjDecide(c, addr));
    StepKeeps(s1, XjIssue(c));
    RunsKeep(s2, acts, t);
    LogGrows(s2, acts, t);
    assert InOrder(t.log, |s.log| + 1);
    assert t.log[..|s.log| + 1] == s2.log;
  }

  /** Between two monitor-mode entries of a log there is an exit. */
  lemma {:induction false} EntriesAlternate(log: seq<Event>, i: nat, j: nat)
    requires forall k | 0 <= k < |log| :: InOrder(log, k)
    requires i < j < |log| && log[i].Accepted? && log[i].mode.Entering()
    requires log[j].Accepted? && log[j].mode.Entering()
    ensures exists k | i < k < j :: log[k].Accepted? && log[k].mode.Leave? && log[k].cp == log[i].cp
  {
    assert InOrder(log, i) && InOrder(log, j);
    FirstExit(log, i, j);
  }

  /** Monitor mode lasts until an exit by the processor that entered. */
  lemma {:induction false} FirstExit(log: seq<Event>, i: nat, j: nat)
    requires forall k | 0 <= k < |log| :: InOrder(log, k)
    requires i < j <= |log| && log[i].Accepted? && log[i].mode.Entering() && log[i].cp != NONE
    ensures || MonitorAfter(log[..j]) == log[i].cp
            || exists k | i < k < j :: log[k].Accepted? && log[k].mode.Leave? && log[k].cp == log[i].cp
    decreases j
  {
    assert log[..j][..j - 1] == log[..j - 1];
    if j > i + 1 {
      FirstExit(log, i, j - 1);
      assert InOrder(log, j - 1);
    }
  }

  /** Two processors that one thread runs. */
  predicate SameThread(s: System, k: int, c: int) {
    k == c || (s.Main(k) && s.Main(c))
  }

  /** An exchange waits for processor c, whose thread is at an XJ inside a word, of that processor or
      of another one. */
  ghost predicate Blocked(s: System, c: nat) {
    && c < |s.cpus| && s.arbiter.exchangeCpu == c
    && exists k | 0 <= k < |s.cpus| :: SameThread(s, k, c) && s.cpus[k].InsideXj()
  }

  lemma BlockedStep(s: System, c: nat, act: Action)
    requires Inv(s) && Blocked(s, c) && Enabled(s, act)
    ensures Blocked(Next(s, act), c) && Next(s, act).log == s.log && (s.waiting ==> Next(s, act).waiting)
  {
    hide LogInv;
    var k :| 0 <= k < |s.cpus| && SameThread(s, k, c) && s.cpus[k].InsideXj();
    var t := Next(s, act);
    assert SameThread(t, k, c);
    match act
    case PpIssue(_, _, _) => assert t.cpus[k].InsideXj();
    case Notice =>
    case Exchange(_, _) =>
    case Execute(_, _) => assert t.cpus[k].InsideXj();
    case XjDecide(_, _) => assert t.cpus[k].InsideXj();
    case XjIssue(_) => assert t.cpus[k].InsideXj();
  }

  /** Such an XJ is refused for ever, and the request waits for ever; so does the PP that made it, if
      it waits, and the main thread with it. */
  lemma {:induction false} BlockedForEver(s: System, c: nat, acts: seq<Action>, t: System)
    requires Inv(s) && Blocked(s, c) && Leads(s, acts, t)
    ensures Blocked(t, c) && t.log == s.log && (s.waiting ==> t.waiting)
    decreases |acts|
  {
    if acts != [] {
      StepKeeps(s, acts[0]);
      BlockedStep(s, c, acts[0]);
      hide Inv, Blocked;
      BlockedForEver(Next(s, acts[0]), c, acts[1..], t);
    }
  }

  /** A run in which the next event is an exchange. */
  ghost predicate CarriesOut(s: System, acts: seq<Action>, t: System) {
    Leads(s, acts, t) && |t.log| == |s.log| + 1 && t.log[|s.log|].CarriedOut?
  }

  /** A pending request can still be carried out if and only if the thread of its processor is not
      at an XJ inside a word. */
  lemma CarriedOutIff(s: System, c: nat)
    requires Inv(s) && s.arbiter.exchangeCpu == c && c < |s.cpus|
    ensures !Blocked(s, c) <==> exists acts, t :: CarriesOut(s, acts, t)
  {
    hide Inv, Blocked;
    if Blocked(s, c) {
      forall acts, t | CarriesOut(s, acts, t)
        ensures false
      {
        BlockedForEver(s, c, acts, t);
      }
    } else {
      var acts, t := WayOut(s, c);
      assert CarriesOut(s, acts, t);
    }
  }

  lemma WayOut(s: System, c: nat) returns (acts: seq<Action>, t: System)
    requires Inv(s) && s.arbiter.exchangeCpu == c && c < |s.cpus| && !Blocked(s, c)
    ensures CarriesOut(s, acts, t)
  {
    if s.Main(c) && s.MainFree(c) {
      t := Next(s, Exchange(c, Idle(s, c)));
      acts := [Exchange(c, Idle(s, c))];
    } else {
      var k := c;
      if s.Main(c) {
        k :| 0 <= k < |s.cpus| && s.Main(k) && k != c && !s.cpus[k].Resting();
      }
      acts, t := WayOutOf(s, c, k);
    }
  }

  function Idle(s: System, c: nat): Processor
    requires c < |s.cpus|
  {
    Processor(60, false, s.cpus[c].ma, false, NoRequest)
  }

  /** Processor k, which holds up the exchange of c, comes to the end of its word. */
  lemma WayOutOf(s: System, c: nat, k: nat) returns (acts: seq<Action>, t: System)
    requires Inv(s) && s.arbiter.exchangeCpu == c && c < |s.cpus| && !Blocked(s, c)
    requires k < |s.cpus| && (if s.Main(c) then s.Main(k) && k != c && !s.cpus[k].Resting() else k == c)
    ensures CarriesOut(s, acts, t)
  {
    hide LogInv;
    assert SameThread(s, k, c) && !s.cpus[k].InsideXj();
    var s1, a1 := s, [];
    if !s.cpus[k].Resting() {
      var act := if s.cpus[k].request.Request? then XjIssue(k) else Execute(k, Idle(s, k));
      s1, a1 := Next(s, act), [act];
      assert a1[1..] == [];
      assert s1.cpus[k].Resting() && s1.log == s.log;
    }
    assert s1.cpus[c].Resting();
    t := Next(s1, Exchange(c, Idle(s1, c)));
    acts := a1 + [Exchange(c, Idle(s1, c))];
    assert acts[|a1|..] == [Exchange(c, Idle(s1, c))];
    assert Leads(s1, acts[|a1|..], t);
  }

  /** Without threads, a processor at an XJ inside a word whose request is refused, for whatever reason. */
  ghost predicate Refused(s: System, k: nat) {
    && !s.threaded && k < |s.cpus| && s.cpus[k].InsideXj()
    && Verdict(s.arbiter, if s.arbiter.monitorCpu == k then Leave else EnterAtMa) != 0
  }

  /** Nothing else ever happens. */
  lemma {:induction false} RefusedForEver(s: System, k: nat, acts: seq<Action>, t: System)
    requires Inv(s) && Refused(s, k) && Leads(s, acts, t)
    ensures Refused(t, k) && t.log == s.log && |t.cpus| == |s.cpus|
    ensures forall c | 0 <= c < |s.cpus| && c != k :: t.cpus[c] == s.cpus[c]
    decreases |acts|
  {
    if acts != [] {
      StepKeeps(s, acts[0]);
      RefusedStep(s, k, acts[0]);
      hide Inv, Refused;
      RefusedForEver(Next(s, acts[0]), k, acts[1..], t);
    }
  }

  lemma RefusedStep(s: System, k: nat, act: Action)
    requires Inv(s) && Refused(s, k) && Enabled(s, act)
    ensures var t := Next(s, act);
            && Refused(t, k) && t.log == s.log && |t.cpus| == |s.cpus|
            && forall c | 0 <= c < |s.cpus| && c != k :: t.cpus[c] == s.cpus[c]
  {
    hide LogInv;
    assert !s.cpus[k].Resting();
  }

  /** Processor 0 of a system with threads, and the only processor of any system, is never blocked. */
  lemma ZeroNeverBlocked(s: System, acts: seq<Action>, t: System)
    requires Initial(s) && Leads(s, acts, t) && (s.threaded || |s.cpus| == 1)
    ensures !Blocked(t, 0)
  {
    RunsKeep(s, acts, t);
    SameBuild(s, acts, t);
  }

  lemma {:induction false} SameBuild(s: System, acts: seq<Action>, t: System)
    requires Leads(s, acts, t)
    ensures t.threaded == s.threaded && |t.cpus| == |s.cpus|
    decreases |acts|
  {
    if acts != [] {
      SameBuild(Next(s, acts[0]), acts[1..], t);
    }
  }

  /** The XJ of the only processor is never refused. */
  lemma LoneXjAccepted(s: System, acts: seq<Action>, t: System)
    requires Initial(s) && Leads(s, acts, t) && |s.cpus| == 1 && t.cpus != [] && t.cpus[0].request.Request?
    ensures Verdict(t.arbiter, t.cpus[0].request.mode) == 0
  {
    RunsKeep(s, acts, t);
    SameBuild(s, acts, t);
  }

  /** With a thread of its own processor 1 can be blocked: a PP starts it, it comes to an XJ inside a
      word, and then a PP asks for another exchange on it. */
  lemma BlockedWithThreads(s: System) returns (acts: seq<Action>, t: System)
    requires Initial(s) && s.threaded && |s.cpus| > 1
    ensures Leads(s, acts, t) && Blocked(t, 1) && t.waiting
  {
    var atXj := Idle(s, 1).(offset := 45, atXj := true);
    var s1 := Next(s, PpIssue(1, 0, Same));
    var s2 := Next(s1, Exchange(1, Idle(s, 1)));
    var s3 := Next(s2, Notice);
    var s4 := Next(s3, Execute(1, atXj));
    t := Next(s4, PpIssue(1, 0, Same));
    var a5 := [PpIssue(1, 0, Same)];
    var a4 := [Execute(1, atXj)] + a5;
    var a3 := [Notice] + a4;
    var a2 := [Exchange(1, Idle(s, 1))] + a3;
    acts := [PpIssue(1, 0, Same)] + a2;
    assert acts[1..] == a2 && a2[1..] == a3 && a3[1..] == a4 && a4[1..] == a5 && a5[1..] == [];
    assert Leads(s4, a5, t);
    assert Leads(s3, a4, t);
    assert Leads(s2, a3, t);
    assert Leads(s1, a2, t);
    assert SameThread(t, 1, 1) && t.cpus[1].InsideXj();
  }

  /** Without threads processor 0 can block processor 1: a PP starts processor 0, which executes a
      word; a PP asks for an exchange on processor 1, and processor 0, whose turn is first, comes to
      an XJ inside its next word. */
  lemma BlockedWithoutThreads(s: System) returns (acts: seq<Action>, t: System)
    requires Initial(s) && !s.threaded && |s.cpus| > 1
    ensures Leads(s, acts, t) && Blocked(t, 1) && t.cpus[0].InsideXj()
  {
    var s1, a1 := StartZero(s);
    var s2 := Next(s1, PpIssue(1, 0, Same));
    var atXj := Idle(s, 0).(offset := 45, atXj := true);
    t := Next(s2, Execute(0, atXj));
    var a2 := [PpIssue(1, 0, Same), Execute(0, atXj)];
    assert a2[1..] == [Execute(0, atXj)] && a2[1..][1..] == [];
    assert Leads(s2, a2[1..], t);
    LeadsOn(s, a1, s1, a2, t);
    acts := a1 + a2;
    assert SameThread(t, 0, 1) && t.cpus[0].InsideXj();
  }

  lemma StartZero(s: System) returns (t: System, acts: seq<Action>)
    requires Initial(s) && !s.threaded
    ensures Leads(s, acts, t)
    ensures t.arbiter.exchangeCpu == NONE && t.cpus == s.cpus[0 := Idle(s, 0)] && !t.waiting && !t.threaded
  {
    var s1 := Next(s, PpIssue(0, 0, Same));
    var s2 := Next(s1, Exchange(0, Idle(s, 0)));
    t := Next(s2, Execute(0, Idle(s, 0)));
    var a3 := [Execute(0, Idle(s, 0))];
    var a2 := [Exchange(0, Idle(s, 0))] + a3;
    acts := [PpIssue(0, 0, Same)] + a2;
    assert acts[1..] == a2 && a2[1..] == a3 && a3[1..] == [];
    assert Leads(s2, a3, t);
    assert Leads(s1, a2, t);
  }

  lemma {:induction false} LeadsOn(s: System, a: seq<Action>, t: System, b: seq<Action>, u: System)
    requires Leads(s, a, t) && Leads(t, b, u)
    ensures Leads(s, a + b, u)
    decreases |a|
  {
    if a == [] {
      assert a + b == b;
    } else {
      assert (a + b)[1..] == a[1..] + b;
      LeadsOn(Next(s, a[0]), a[1..], t, b, u);
    }
  }

  /** What the arbiter would tell an XJ of processor c now. */
  predicate Answers(s: System, c: nat, inMonitor: bool, accepted: bool) {
    && (inMonitor <==> s.arbiter.monitorCpu == c)
    && (accepted <==> Verdict(s.arbiter, if inMonitor then Leave else EnterAtMa) == 0)
  }

  /** In every system that has p as a processor that may act, an instruction other than XJ is an Execute
      to q; an XJ that gets this answer is an XjDecide and an XjIssue that lead to q, but for which
      instruction is next, which after an exchange is another program's. */
  ghost predicate TurnOf(p: Processor, inMonitor: bool, accepted: bool, addr: int, q: Processor) {
    forall s: System, c: nat | c < |s.cpus| && s.cpus[c] == p && s.MayAct(c) ::
      if !p.atXj then Enabled(s, Execute(c, q)) && Next(s, Execute(c, q)).cpus[c] == q
      else
        && Enabled(s, XjDecide(c, addr))
        && var s1 := Next(s, XjDecide(c, addr));
           && Enabled(s1, XjIssue(c))
           && (Answers(s, c, inMonitor, accepted) ==> Next(s1, XjIssue(c)).cpus[c].(atXj := q.atXj) == q)
  }

  lemma ExecuteIsTurn(p: Processor, inMonitor: bool, accepted: bool, addr: int, q: Processor)
    requires !p.stopped && p.request.NoRequest? && q.request.NoRequest? && q.ma == p.ma && !p.atXj
    ensures TurnOf(p, inMonitor, accepted, addr, q)
  {
  }

  lemma XjIsTurn(p: Processor, inMonitor: bool, accepted: bool, addr: int, q: Processor)
    requires !p.stopped && p.request.NoRequest? && p.atXj
    requires q == p.(offset := if accepted then 60 else p.offset, atXj := q.atXj)
    ensures TurnOf(p, inMonitor, accepted, addr, q)
  {
    forall s: System, c: nat | c < |s.cpus| && s.cpus[c] == p && s.MayAct(c)
      ensures Enabled(s, XjDecide(c, addr))
      ensures var s1 := Next(s, XjDecide(c, addr));
              && Enabled(s1, XjIssue(c))
              && (Answers(s, c, inMonitor, accepted) ==> Next(s1, XjIssue(c)).cpus[c].(atXj := q.atXj) == q)
    {
      XjTurn(s, c, addr);
    }
  }

  lemma XjTurn(s: System, c: nat, addr: int)
    requires c < |s.cpus| && s.MayAct(c)
    requires s.cpus[c].atXj && !s.cpus[c].stopped && s.cpus[c].request.NoRequest?
    ensures Enabled(s, XjDecide(c, addr))
    ensures var s1 := Next(s, XjDecide(c, addr));
            var mode := if s.arbiter.monitorCpu == c then Leave else EnterAtMa;
            var p := s.cpus[c];
            && Enabled(s1, XjIssue(c))
            && Next(s1, XjIssue(c)).cpus[c]
               == if Verdict(s.arbiter, mode) == 0 then p.(offset := 60, atXj := false) else p
  {
  }
}
