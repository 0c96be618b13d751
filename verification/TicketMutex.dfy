/** The ticket mutex as a transition system: any number of agents, one step for every atomic
    operation on its two counters. The counters are counted without bound here and compared as the
    64-bit words that the lock compares. */
module TicketMutex {
  import opened Prelude

  const TWO_64: nat := 0x1_0000_0000_0000_0000

  datatype Phase =
    | Idle
    | Waiting(ticket: nat)  // `lock` has drawn a ticket
    | Holding(ticket: nat)  // a guard
    | Loaded(seen: nat)     // `try_lock` has loaded the next ticket
    | Checked(seen: nat)    // and has seen that ticket being served
  {
    predicate HasTicket() {
      Waiting? || Holding?
    }
  }

  /** `served` is the history of the tickets that got the guard, in order. */
  datatype State = State(nextTicket: nat, nextServing: nat, agents: seq<Phase>, served: seq<nat>)

  datatype Step =
    | Draw          // lock: fetch-and-add on the next ticket
    | Poll          // lock: load the serving counter and compare
    | LoadTicket    // try_lock: load the next ticket
    | CheckServing  // try_lock: load the serving counter and compare
    | Swap          // try_lock: compare-exchange on the next ticket
    | WeakFailure   // the same, failing although the words match
    | Unlock        // guard drop: store the ticket plus one

  /** Two counters look the same to the lock. */
  predicate SameWord(a: nat, b: nat) {
    a % 0x1_0000_0000_0000_0000 == b % 0x1_0000_0000_0000_0000
  }

  lemma SameWordNear(a: nat, b: nat)
    requires a <= b < a + TWO_64
    ensures SameWord(a, b) <==> a == b
  {
    var qa, qb := a / 0x1_0000_0000_0000_0000, b / 0x1_0000_0000_0000_0000;
  }

  function Put(s: State, t: nat, p: Phase): State
    requires t < |s.agents|
  {
    s.(agents := s.agents[t := p])
  }

  /** One step of agent `t`; a step that its phase does not offer changes nothing. */
  function Next(s: State, t: nat, step: Step): State
    requires t < |s.agents|
  {
    match (s.agents[t], step)
    case (Idle, Draw) => Put(s, t, Waiting(s.nextTicket)).(nextTicket := s.nextTicket + 1)
    case (Waiting(n), Poll) =>
      if SameWord(s.nextServing, n) then Put(s, t, Holding(n)).(served := s.served + [n]) else s
    case (Idle, LoadTicket) => Put(s, t, Loaded(s.nextTicket))
    case (Loaded(n), CheckServing) => Put(s, t, if SameWord(s.nextServing, n) then Checked(n) else Idle)
    case (Checked(n), Swap) =>
      if SameWord(s.nextTicket, n) then
        // the guard has the word that was compared, which the counter still has
        Put(s, t, Holding(s.nextTicket)).(nextTicket := s.nextTicket + 1, served := s.served + [s.nextTicket])
      else Put(s, t, Loaded(s.nextTicket))
    case (Checked(n), WeakFailure) => Put(s, t, Loaded(s.nextTicket))
    case (Holding(n), Unlock) => Put(s, t, Idle).(nextServing := n + 1)
    case _ => s
  }

  // ---------- the invariant ----------

  ghost function Tickets(agents: seq<Phase>): set<nat> {
    set i | 0 <= i < |agents| && agents[i].HasTicket() :: agents[i].ticket
  }

  ghost function Range(a: nat, b: nat): (r: set<nat>)
    ensures forall k: nat :: k in r <==> a <= k < b
    ensures a <= b ==> |r| == b - a
  {
    if a >= b then {} else Range(a, b - 1) + {b - 1}
  }

  lemma RangeGrows(a: nat, b: nat)
    requires a <= b
    ensures Range(a, b) + {b} == Range(a, b + 1)
  {
  }

  lemma RangeShrinks(a: nat, b: nat)
    requires a < b
    ensures Range(a, b) - {a} == Range(a + 1, b)
  {
  }

  predicate Held(agents: seq<Phase>) {
    exists i :: 0 <= i < |agents| && agents[i].Holding?
  }

  predicate Clash(agents: seq<Phase>, i: nat, j: nat)
    requires i < |agents| && j < |agents|
  {
    agents[i].HasTicket() && agents[j].HasTicket() && agents[i].ticket == agents[j].ticket
  }

  /** No ticket is held twice. */
  ghost predicate Unshared(agents: seq<Phase>) {
    forall i, j {:trigger Clash(agents, i, j)} ::
      0 <= i < |agents| && 0 <= j < |agents| && i != j ==> !Clash(agents, i, j)
  }

  /** A guard has the ticket being served, and what `try_lock` has seen is no newer than now. */
  predicate InOrder(p: Phase, nextServing: nat, nextTicket: nat) {
    match p
    case Holding(n) => n == nextServing
    case Loaded(n) => n <= nextTicket
    case Checked(n) => n <= nextServing
    case _ => true
  }

  ghost predicate AllInOrder(agents: seq<Phase>, nextServing: nat, nextTicket: nat) {
    forall i :: 0 <= i < |agents| ==> InOrder(agents[i], nextServing, nextTicket)
  }

  /** The guards were given to the tickets 0, 1, 2, ... up to the one being served. */
  ghost predicate ServedInOrder(s: State) {
    && |s.served| == s.nextServing + (if Held(s.agents) then 1 else 0)
    && (forall k :: 0 <= k < |s.served| ==> s.served[k] == k)
  }

  ghost predicate Inv(s: State) {
    && |s.agents| < TWO_64
    && s.nextServing <= s.nextTicket
    && Tickets(s.agents) == Range(s.nextServing, s.nextTicket)
    && Unshared(s.agents)
    && AllInOrder(s.agents, s.nextServing, s.nextTicket)
    && ServedInOrder(s)
  }

  lemma {:induction false} FewTickets(agents: seq<Phase>)
    ensures |Tickets(agents)| <= |agents|
  {
    if agents == [] {
      assert Tickets(agents) == {};
    } else {
      var n := |agents| - 1;
      FewTickets(agents[..n]);
      var rest := Tickets(agents[..n]);
      if agents[n].HasTicket() {
        assert Tickets(agents) == rest + {agents[n].ticket};
      } else {
        assert Tickets(agents) == rest;
      }
    }
  }

  /** There are never more outstanding tickets than agents. */
  lemma FewOutstanding(s: State)
    requires Inv(s)
    ensures s.nextTicket <= s.nextServing + |s.agents|
  {
    FewTickets(s.agents);
  }

  /** A ticket that agent `t` holds lies in the served range. */
  lemma TicketInRange(s: State, t: nat)
    requires Inv(s) && t < |s.agents| && s.agents[t].HasTicket()
    ensures s.nextServing <= s.agents[t].ticket < s.nextTicket
  {
    assert s.agents[t].ticket in Tickets(s.agents);
  }

  ghost function Init(n: nat): State {
    State(0, 0, seq(n, _ => Idle), [])
  }

  lemma InitHolds(n: nat)
    requires n < TWO_64
    ensures Inv(Init(n))
  {
    assert Tickets(Init(n).agents) == {};
    assert Range(0, 0) == {};
  }

  /** The tickets after agent `t` has moved to phase `p`. */
  lemma TicketsAfter(agents: seq<Phase>, t: nat, p: Phase)
    requires t < |agents| && Unshared(agents)
    ensures Tickets(agents[t := p]) ==
      Tickets(agents) - (if agents[t].HasTicket() then {agents[t].ticket} else {})
                      + (if p.HasTicket() then {p.ticket} else {})
  {
    var after := agents[t := p];
    forall k | k in Tickets(agents) && !(agents[t].HasTicket() && k == agents[t].ticket)
      ensures k in Tickets(after)
    {
      var i :| 0 <= i < |agents| && agents[i].HasTicket() && agents[i].ticket == k;
      assert after[i] == agents[i];
    }
    if p.HasTicket() { assert after[t].ticket in Tickets(after); }
    forall i | 0 <= i < |agents| && i != t && agents[i].HasTicket() && agents[t].HasTicket()
      ensures agents[i].ticket != agents[t].ticket
    {
      assert !Clash(agents, i, t);
    }
  }

  /** A ticket that nobody else holds keeps the tickets unshared. */
  lemma UnsharedAfter(agents: seq<Phase>, t: nat, p: Phase)
    requires t < |agents| && Unshared(agents)
    requires p.HasTicket() ==>
      p.ticket !in Tickets(agents) || (agents[t].HasTicket() && agents[t].ticket == p.ticket)
    ensures Unshared(agents[t := p])
  {
    var after := agents[t := p];
    forall i: nat, j: nat | i < |after| && j < |after| && i != j ensures !Clash(after, i, j) {
      assert !Clash(agents, i, j);
      if i == t && agents[j].HasTicket() { assert agents[j].ticket in Tickets(agents); }
      if j == t && agents[i].HasTicket() { assert agents[i].ticket in Tickets(agents); }
    }
  }

  lemma DrawnTickets(agents: seq<Phase>, t: nat, a: nat, b: nat)
    requires t < |agents| && agents[t].Idle? && a <= b
    requires Tickets(agents) == Range(a, b) && Unshared(agents)
    ensures Tickets(agents[t := Waiting(b)]) == Range(a, b + 1) && Unshared(agents[t := Waiting(b)])
  {
    TicketsAfter(agents, t, Waiting(b));
    UnsharedAfter(agents, t, Waiting(b));
    RangeGrows(a, b);
  }

  lemma DrawKeepsInv(s: State, t: nat)
    requires Inv(s) && t < |s.agents| && s.agents[t].Idle?
    ensures Inv(Next(s, t, Draw))
  {
    DrawnTickets(s.agents, t, s.nextServing, s.nextTicket);
    SameHolders(s, Next(s, t, Draw), t);
  }

  /** Agents other than `t` hold the guard as before. */
  lemma SameHolders(s: State, s': State, t: nat)
    requires t < |s.agents| == |s'.agents| && s'.agents == s.agents[t := s'.agents[t]]
    ensures s.agents[t].Holding? == s'.agents[t].Holding? ==> Held(s.agents) == Held(s'.agents)
    ensures s'.agents[t].Holding? ==> Held(s'.agents)
    ensures s.agents[t].Holding? ==> Held(s.agents)
    ensures s'.agents[t].Holding? || Held(s.agents) || !Held(s'.agents)
  {
    if Held(s.agents) {
      var i :| 0 <= i < |s.agents| && s.agents[i].Holding?;
      assert s'.agents[i] == if i == t then s'.agents[t] else s.agents[i];
    }
    if Held(s'.agents) {
      var i :| 0 <= i < |s'.agents| && s'.agents[i].Holding?;
      assert s'.agents[i] == if i == t then s'.agents[t] else s.agents[i];
    }
  }

  lemma PollKeepsInv(s: State, t: nat)
    requires Inv(s) && t < |s.agents| && s.agents[t].Waiting?
    ensures Inv(Next(s, t, Poll))
  {
    hide SameWord, Range, Unshared;
    var n := s.agents[t].ticket;
    TicketInRange(s, t);
    FewOutstanding(s);
    SameWordNear(s.nextServing, n);
    if s.nextServing == n {
      TicketsAfter(s.agents, t, Holding(n));
      UnsharedAfter(s.agents, t, Holding(n));
      var s' := Next(s, t, Poll);
      assert n in Tickets(s.agents);
      assert Tickets(s'.agents) == Tickets(s.agents);
      SameHolders(s, s', t);
      NobodyElse(s, t);
    }
  }

  /** Nobody holds the guard while the served ticket still waits. */
  lemma NobodyElse(s: State, t: nat)
    requires Inv(s) && t < |s.agents| && s.agents[t].Waiting? && s.agents[t].ticket == s.nextServing
    ensures !Held(s.agents)
  {
    forall i: nat | i < |s.agents| ensures !s.agents[i].Holding? {
      assert i != t ==> !Clash(s.agents, i, t);
    }
  }

  /** A step that draws no ticket and gives up none. */
  lemma QuietStep(s: State, t: nat, p: Phase)
    requires Inv(s) && t < |s.agents| && !s.agents[t].HasTicket() && !p.HasTicket()
    requires p.Loaded? ==> p.seen <= s.nextTicket
    requires p.Checked? ==> p.seen <= s.nextServing
    ensures Inv(Put(s, t, p))
  {
    TicketsAfter(s.agents, t, p);
    UnsharedAfter(s.agents, t, p);
    SameHolders(s, Put(s, t, p), t);
  }

  lemma CheckKeepsInv(s: State, t: nat)
    requires Inv(s) && t < |s.agents| && s.agents[t].Loaded?
    ensures Inv(Next(s, t, CheckServing))
  {
    var n := s.agents[t].seen;
    FewOutstanding(s);
    if s.nextServing <= n { SameWordNear(s.nextServing, n); }
    QuietStep(s, t, if SameWord(s.nextServing, n) then Checked(n) else Idle);
  }

  lemma NoTicket(agents: seq<Phase>, i: nat)
    requires i < |agents|
    ensures agents[i].HasTicket() ==> agents[i].ticket in Tickets(agents)
  {
  }

  /** `try_lock` compares 64-bit words; fewer than 2^64 tickets drawn between its load and its
      compare-exchange make equal words equal tickets. */
  predicate Fresh(s: State, t: nat, step: Step)
    requires t < |s.agents|
  {
    step.Swap? && s.agents[t].Checked? ==> s.nextTicket < s.agents[t].seen + TWO_64
  }

  lemma SwapKeepsInv(s: State, t: nat)
    requires Inv(s) && t < |s.agents| && s.agents[t].Checked? && Fresh(s, t, Swap)
    ensures Inv(Next(s, t, Swap))
    ensures Next(s, t, Swap).agents[t].Holding? ==>
      s.agents[t].seen == s.nextServing == s.nextTicket && !Held(s.agents)
  {
    var n := s.agents[t].seen;
    SameWordNear(n, s.nextTicket);
    if SameWord(s.nextTicket, n) {
      SwapUnwaited(s, t);
    } else {
      QuietStep(s, t, Loaded(s.nextTicket));
    }
  }

  lemma ReturnedTicket(agents: seq<Phase>, t: nat, b: nat)
    requires t < |agents| && agents[t].Holding? && agents[t].ticket < b
    requires Tickets(agents) == Range(agents[t].ticket, b) && Unshared(agents)
    ensures Tickets(agents[t := Idle]) == Range(agents[t].ticket + 1, b) && Unshared(agents[t := Idle])
  {
    TicketsAfter(agents, t, Idle);
    UnsharedAfter(agents, t, Idle);
    RangeShrinks(agents[t].ticket, b);
  }

  lemma UnlockKeepsInv(s: State, t: nat)
    requires Inv(s) && t < |s.agents| && s.agents[t].Holding?
    ensures Inv(Next(s, t, Unlock)) && !Held(Next(s, t, Unlock).agents)
  {
    TicketInRange(s, t);
    OnlyHolder(s, t);
    ReturnedTicket(s.agents, t, s.nextTicket);
  }

  lemma OnlyHolder(s: State, t: nat)
    requires Inv(s) && t < |s.agents| && s.agents[t].Holding?
    ensures Held(s.agents) && !Held(s.agents[t := Idle])
    ensures s.agents[t].ticket == s.nextServing && |s.served| == s.nextServing + 1
    ensures AllInOrder(s.agents[t := Idle], s.nextServing + 1, s.nextTicket)
  {
    var after := s.agents[t := Idle];
    forall i: nat | i < |after| ensures !after[i].Holding? && InOrder(after[i], s.nextServing + 1, s.nextTicket) {
      assert i != t ==> !Clash(s.agents, i, t);
      assert InOrder(s.agents[i], s.nextServing, s.nextTicket);
    }
  }

  /** Every fresh atomic step of every agent keeps the invariant. */
  lemma StepKeepsInv(s: State, t: nat, step: Step)
    requires Inv(s) && t < |s.agents| && Fresh(s, t, step)
    ensures Inv(Next(s, t, step)) && |Next(s, t, step).agents| == |s.agents|
  {
    hide Inv, SameWord;
    match (s.agents[t], step)
    case (Idle, Draw) => DrawKeepsInv(s, t);
    case (Waiting(n), Poll) => PollKeepsInv(s, t);
    case (Idle, LoadTicket) => QuietStep(s, t, Loaded(s.nextTicket));
    case (Loaded(n), CheckServing) => CheckKeepsInv(s, t);
    case (Checked(n), Swap) => SwapKeepsInv(s, t);
    case (Checked(n), WeakFailure) => QuietStep(s, t, Loaded(s.nextTicket));
    case (Holding(n), Unlock) => UnlockKeepsInv(s, t);
    case _ =>
  }

  /** Without freshness the word comparison can be fooled; the invariant then survives exactly when
      nobody waits for the guard or holds it. */
  lemma SwapExact(s: State, t: nat)
    requires Inv(s) && t < |s.agents| && s.agents[t].Checked? && SameWord(s.nextTicket, s.agents[t].seen)
    ensures Inv(Next(s, t, Swap)) <==> s.nextServing == s.nextTicket
  {
    var s' := Next(s, t, Swap);
    if s.nextServing == s.nextTicket {
      SwapUnwaited(s, t);
    } else {
      assert s'.agents[t] == Holding(s.nextTicket) && s'.nextServing != s.nextTicket;
    }
  }

  lemma SwapUnwaited(s: State, t: nat)
    requires Inv(s) && t < |s.agents| && s.agents[t].Checked? && SameWord(s.nextTicket, s.agents[t].seen)
    requires s.nextServing == s.nextTicket
    ensures Inv(Next(s, t, Swap)) && !Held(s.agents)
  {
    var n := s.nextTicket;
    var s' := Next(s, t, Swap);
    assert Tickets(s.agents) == {};
    TicketsAfter(s.agents, t, Holding(n));
    UnsharedAfter(s.agents, t, Holding(n));
    forall i: nat | i < |s.agents| ensures !s.agents[i].HasTicket() {
      NoTicket(s.agents, i);
    }
    RangeGrows(n, n);
    SameHolders(s, s', t);
  }

  // ---------- what each step does ----------

  /** `lock` draws the next ticket and gets its guard exactly when that ticket is served; dropping a guard
      serves the ticket after it. */
  lemma LockExact(s: State, t: nat)
    requires Inv(s) && t < |s.agents|
    ensures match s.agents[t]
      case Idle =>
        Next(s, t, Draw) == s.(nextTicket := s.nextTicket + 1, agents := s.agents[t := Waiting(s.nextTicket)])
      case Waiting(n) =>
        Next(s, t, Poll) ==
          if n == s.nextServing then s.(agents := s.agents[t := Holding(n)], served := s.served + [n]) else s
      case Holding(n) => Next(s, t, Unlock) == s.(nextServing := s.nextServing + 1, agents := s.agents[t := Idle])
      case _ => true
  {
    if s.agents[t].Waiting? {
      TicketInRange(s, t);
      FewOutstanding(s);
      SameWordNear(s.nextServing, s.agents[t].ticket);
    }
  }

  /** `try_lock` goes on exactly when the ticket it has loaded is being served, gives up where it is not, and
      draws that ticket exactly when nobody else has, as long as its words cannot be confused. */
  lemma TryLockExact(s: State, t: nat)
    requires Inv(s) && t < |s.agents|
    ensures s.agents[t].Idle? ==> Next(s, t, LoadTicket) == s.(agents := s.agents[t := Loaded(s.nextTicket)])
    ensures s.agents[t].Loaded? && s.nextTicket < s.agents[t].seen + TWO_64 ==> var n := s.agents[t].seen;
      Next(s, t, CheckServing) == s.(agents := s.agents[t := if n == s.nextServing then Checked(n) else Idle])
    ensures s.agents[t].Checked? && Fresh(s, t, Swap) ==> var n := s.agents[t].seen;
      Next(s, t, Swap) ==
        if n == s.nextTicket then
          s.(nextTicket := n + 1, agents := s.agents[t := Holding(n)], served := s.served + [n])
        else s.(agents := s.agents[t := Loaded(s.nextTicket)])
    ensures s.agents[t].Checked? ==> Next(s, t, WeakFailure) == s.(agents := s.agents[t := Loaded(s.nextTicket)])
  {
    FewOutstanding(s);
    if s.agents[t].Loaded? || s.agents[t].Checked? {
      assert InOrder(s.agents[t], s.nextServing, s.nextTicket);
      var n := s.agents[t].seen;
      if s.nextServing <= n { SameWordNear(s.nextServing, n); }
      if s.nextTicket < n + TWO_64 {
        SameWordNear(n, s.nextTicket);
        if n < s.nextServing { SameWordNear(n, s.nextServing); }
      }
    }
  }

  /** Nobody is forgotten: while tickets are outstanding, the one being served belongs to an agent that holds
      the guard, or gets it when it polls next. */
  lemma NextInLine(s: State) returns (t: nat)
    requires Inv(s) && s.nextServing < s.nextTicket
    ensures t < |s.agents| && s.agents[t].HasTicket() && s.agents[t].ticket == s.nextServing
    ensures s.agents[t].Waiting? ==> Next(s, t, Poll).agents[t] == Holding(s.nextServing)
  {
    assert s.nextServing in Tickets(s.agents);
    t :| t < |s.agents| && s.agents[t].HasTicket() && s.agents[t].ticket == s.nextServing;
  }

  /** The steps that the phases offer; all others change nothing. */
  predicate Offers(p: Phase, step: Step) {
    match p
    case Idle => step.Draw? || step.LoadTicket?
    case Waiting(_) => step.Poll?
    case Holding(_) => step.Unlock?
    case Loaded(_) => step.CheckServing?
    case Checked(_) => step.Swap? || step.WeakFailure?
  }

  lemma OnlyOfferedSteps(s: State, t: nat, step: Step)
    requires t < |s.agents| && !Offers(s.agents[t], step)
    ensures Next(s, t, step) == s
  {
  }

  // ---------- runs ----------

  ghost function Act(s: State, move: (nat, Step)): State {
    if move.0 < |s.agents| then Next(s, move.0, move.1) else s
  }

  ghost function Run(s: State, schedule: seq<(nat, Step)>): State
    decreases |schedule|
  {
    if schedule == [] then s else Run(Act(s, schedule[0]), schedule[1..])
  }

  ghost predicate FreshRun(s: State, schedule: seq<(nat, Step)>)
    decreases |schedule|
  {
    schedule != [] ==>
      && (schedule[0].0 < |s.agents| ==> Fresh(s, schedule[0].0, schedule[0].1))
      && FreshRun(Act(s, schedule[0]), schedule[1..])
  }

  lemma {:induction false} RunKeepsInv(s: State, schedule: seq<(nat, Step)>)
    requires Inv(s) && FreshRun(s, schedule)
    ensures Inv(Run(s, schedule))
    decreases |schedule|
  {
    if schedule != [] {
      var (t, step) := schedule[0];
      if t < |s.agents| { StepKeepsInv(s, t, step); }
      RunKeepsInv(Act(s, schedule[0]), schedule[1..]);
    }
  }

  /** Fewer than 2^64 steps are always fresh. */
  lemma {:induction false} ShortRunIsFresh(s: State, schedule: seq<(nat, Step)>)
    requires s.nextTicket + |schedule| < TWO_64
    ensures FreshRun(s, schedule)
    decreases |schedule|
  {
    if schedule != [] {
      assert Act(s, schedule[0]).nextTicket <= s.nextTicket + 1;
      ShortRunIsFresh(Act(s, schedule[0]), schedule[1..]);
    }
  }

  // ---------- a run that is not fresh ----------

  lemma RunOne(s: State, move: (nat, Step), rest: seq<(nat, Step)>)
    ensures Run(s, [move] + rest) == Run(Act(s, move), rest)
  {
    assert ([move] + rest)[1..] == rest;
  }

  /** Agent 1 locks and unlocks `k` times. */
  ghost function Cycles(k: nat): seq<(nat, Step)> {
    if k == 0 then [] else [(1, Draw)] + ([(1, Poll)] + ([(1, Unlock)] + Cycles(k - 1)))
  }

  /** Agent 0 stands before its compare-exchange, and `b` tickets have come and gone. */
  ghost function Paused(b: nat): State {
    State(b, b, [Checked(0), Idle], seq(b, i => i))
  }

  lemma {:induction false} CyclesPass(b: nat, k: nat, rest: seq<(nat, Step)>)
    ensures Run(Paused(b), Cycles(k) + rest) == Run(Paused(b + k), rest)
    decreases k
  {
    hide Run;
    if k == 0 {
      assert Cycles(0) + rest == rest;
    } else {
      var more := Cycles(k - 1) + rest;
      assert Cycles(k) + rest == [(1, Draw)] + ([(1, Poll)] + ([(1, Unlock)] + more));
      var s1 := State(b + 1, b, [Checked(0), Waiting(b)], seq(b, i => i));
      var s2 := State(b + 1, b, [Checked(0), Holding(b)], seq(b + 1, i => i));
      RunOne(Paused(b), (1, Draw), [(1, Poll)] + ([(1, Unlock)] + more));
      RunOne(s1, (1, Poll), [(1, Unlock)] + more);
      RunOne(s2, (1, Unlock), more);
      assert Act(Paused(b), (1, Draw)) == s1;
      assert Act(s1, (1, Poll)) == s2;
      assert Act(s2, (1, Unlock)) == Paused(b + 1);
      CyclesPass(b + 1, k - 1, rest);
    }
  }

  /** Agent 1 locks once more, and then agent 0 goes on. */
  ghost function Awakening(): seq<(nat, Step)> {
    [(1, Draw)] + ([(1, Poll)] + ([(0, Swap)] + []))
  }

  lemma AwakeningFools(b: nat)
    requires b == TWO_64 - 1
    ensures Run(Paused(b), Awakening()).agents == [Holding(b + 1), Holding(b)]
  {
    var s1 := State(b + 1, b, [Checked(0), Waiting(b)], seq(b, i => i));
    var s2 := State(b + 1, b, [Checked(0), Holding(b)], seq(b, i => i) + [b]);
    RunOne(Paused(b), (1, Draw), [(1, Poll)] + ([(0, Swap)] + []));
    RunOne(s1, (1, Poll), [(0, Swap)] + []);
    RunOne(s2, (0, Swap), []);
    assert Act(Paused(b), (1, Draw)) == s1;
    assert Act(s1, (1, Poll)) == s2;
  }

  /** `try_lock` of agent 0 sleeps between its load and its compare-exchange while agent 1 draws 2^64
      tickets, the last of which still holds the guard. */
  ghost function FoolingRun(): seq<(nat, Step)> {
    [(0, LoadTicket)] + ([(0, CheckServing)] + (Cycles(TWO_64 - 1) + Awakening()))
  }

  lemma FoolingRunHasTwoGuards()
    ensures Run(Init(2), FoolingRun()).agents == [Holding(TWO_64), Holding(TWO_64 - 1)]
  {
    hide Cycles, Awakening, Run;
    var s0 := State(0, 0, [Loaded(0), Idle], []);
    var rest := Cycles(TWO_64 - 1) + Awakening();
    RunOne(Init(2), (0, LoadTicket), [(0, CheckServing)] + rest);
    RunOne(s0, (0, CheckServing), rest);
    assert Act(Init(2), (0, LoadTicket)) == s0;
    assert Act(s0, (0, CheckServing)) == Paused(0);
    CyclesPass(0, TWO_64 - 1, Awakening());
    AwakeningFools(TWO_64 - 1);
  }

  // ---------- safety ----------

  /** What the lock promises of a state. */
  ghost predicate Safe(s: State) {
    // at most one guard, and it has the ticket being served
    && (forall i, j :: 0 <= i < j < |s.agents| ==> !(s.agents[i].Holding? && s.agents[j].Holding?))
    && (forall i :: 0 <= i < |s.agents| && s.agents[i].Holding? ==> s.agents[i].ticket == s.nextServing)
    // the outstanding tickets are exactly the numbers from the one being served on, each held once
    && Tickets(s.agents) == Range(s.nextServing, s.nextTicket)
    && Unshared(s.agents)
    // guards have been given out in ticket order
    && (forall k :: 0 <= k < |s.served| ==> s.served[k] == k)
  }

  lemma InvIsSafe(s: State)
    requires Inv(s)
    ensures Safe(s)
  {
    forall i: nat, j: nat | i < j < |s.agents| ensures !(s.agents[i].Holding? && s.agents[j].Holding?) {
      assert !Clash(s.agents, i, j);
    }
  }

  /** Every fresh run of any number of agents, in any interleaving, is safe. */
  lemma RunsAreSafe(n: nat, schedule: seq<(nat, Step)>)
    requires n < TWO_64 && FreshRun(Init(n), schedule)
    ensures Safe(Run(Init(n), schedule))
  {
    InitHolds(n);
    RunKeepsInv(Init(n), schedule);
    InvIsSafe(Run(Init(n), schedule));
  }
}
