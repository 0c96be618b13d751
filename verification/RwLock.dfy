/** The spinning reader-writer lock as a transition system: any number of agents, one step for every
    atomic operation on the lock word. An agent is one use of the lock, so a thread that holds
    several guards is several agents. */
module RwLock {
  import opened Prelude

  const TWO_64: nat := 0x1_0000_0000_0000_0000

  /** What an agent holds, or owes, between two atomic steps. */
  datatype Phase =
    | Idle
    | Undoing        // a failed read attempt that has not taken its increment back yet
    | Reading        // a read guard
    | Writing        // a write guard
    | Upgradable     // an upgradeable guard
    | WriteToRead    // a write guard being downgraded: it has added its reader share
    | UpgradeToRead  // an upgradeable guard being downgraded: it has added its reader share

  datatype State = State(word: nat, agents: seq<Phase>)

  datatype Step =
    | TryRead | UndoRead | DropRead
    | TryWrite | DropWrite
    | TryUpgradeable | DropUpgradable | TryUpgrade
    | DowngradeWrite | FinishDowngradeWrite
    | DowngradeUpgradable | FinishDowngradeUpgradable
    | WeakFailure    // a compare-exchange that fails although the word matches

  // ---------- the atomic operations on the word ----------

  function FetchAdd(word: nat, n: nat): nat {
    if word + n < TWO_64 then word + n else (word + n) % TWO_64
  }

  function FetchSub(word: nat, n: nat): nat
    requires n < TWO_64
  {
    if word >= n then word - n else (word + TWO_64 - n) % TWO_64
  }

  // A reader counts 4 in the word, the UPGRADED flag is bit 1 and the WRITER flag is bit 0.

  predicate HasWriter(word: nat) {
    word % 2 == 1
  }

  predicate HasUpgraded(word: nat) {
    word / 2 % 2 == 1
  }

  function SetUpgraded(word: nat): nat {
    if HasUpgraded(word) then word else word + 2
  }

  function ClearFlags(word: nat): nat {
    word - word % 4
  }

  /** One step of agent `t`; a step that its phase does not offer changes nothing. */
  function Next(s: State, t: nat, step: Step): State
    requires t < |s.agents|
  {
    var w := s.word;
    match (s.agents[t], step)
    case (Idle, TryRead) =>
      To(s, t, FetchAdd(w, 4), if HasWriter(w) || HasUpgraded(w) then Undoing else Reading)
    case (Undoing, UndoRead) => To(s, t, FetchSub(w, 4), Idle)
    case (Reading, DropRead) => To(s, t, FetchSub(w, 4), Idle)
    case (Idle, TryWrite) => if w == 0 then To(s, t, 1, Writing) else s
    case (Writing, DropWrite) => To(s, t, ClearFlags(w), Idle)
    case (Idle, TryUpgradeable) =>
      To(s, t, SetUpgraded(w), if HasWriter(w) || HasUpgraded(w) then Idle else Upgradable)
    case (Upgradable, DropUpgradable) => To(s, t, FetchSub(w, 2), Idle)
    case (Upgradable, TryUpgrade) => if w == 2 then To(s, t, 1, Writing) else s
    case (Writing, DowngradeWrite) => To(s, t, FetchAdd(w, 4), WriteToRead)
    case (WriteToRead, FinishDowngradeWrite) => To(s, t, ClearFlags(w), Reading)
    case (Upgradable, DowngradeUpgradable) => To(s, t, FetchAdd(w, 4), UpgradeToRead)
    case (UpgradeToRead, FinishDowngradeUpgradable) => To(s, t, FetchSub(w, 2), Reading)
    case _ => s
  }

  function To(s: State, t: nat, word: nat, p: Phase): State
    requires t < |s.agents|
  {
    State(word, s.agents[t := p])
  }

  /** The flags of a word made of `r` reader shares and two flag bits, and the word without them. */
  lemma WordParts(r: nat, u: bool, w: nat)
    requires w <= 1
    ensures var word := 4 * r + (if u then 2 else 0) + w;
      && (HasWriter(word) <==> w == 1)
      && (HasUpgraded(word) <==> u)
      && ClearFlags(word) == 4 * r
  {
  }

  // ---------- counting agents ----------

  ghost function Count(agents: seq<Phase>, ps: set<Phase>): nat {
    if agents == [] then 0
    else Count(agents[..|agents| - 1], ps) + if agents[|agents| - 1] in ps then 1 else 0
  }

  lemma {:induction false} CountUpdate(agents: seq<Phase>, t: nat, p: Phase, ps: set<Phase>)
    requires t < |agents|
    ensures Count(agents[t := p], ps) + (if agents[t] in ps then 1 else 0)
         == Count(agents, ps) + if p in ps then 1 else 0
  {
    var n := |agents| - 1;
    if t == n {
      assert agents[t := p][..n] == agents[..n];
    } else {
      assert agents[t := p][..n] == agents[..n][t := p];
      CountUpdate(agents[..n], t, p, ps);
    }
  }

  lemma {:induction false} CountBounds(agents: seq<Phase>, ps: set<Phase>)
    ensures Count(agents, ps) <= |agents|
  {
    if agents != [] { CountBounds(agents[..|agents| - 1], ps); }
  }

  lemma {:induction false} CountNone(agents: seq<Phase>, ps: set<Phase>)
    ensures Count(agents, ps) == 0 <==> forall t :: 0 <= t < |agents| ==> agents[t] !in ps
  {
    if agents != [] {
      var n := |agents| - 1;
      CountNone(agents[..n], ps);
      assert forall t :: 0 <= t < n ==> agents[..n][t] == agents[t];
    }
  }

  lemma {:induction false} CountMono(agents: seq<Phase>, ps: set<Phase>, qs: set<Phase>)
    requires ps <= qs
    ensures Count(agents, ps) <= Count(agents, qs)
  {
    if agents != [] { CountMono(agents[..|agents| - 1], ps, qs); }
  }

  /** At most one counted agent: no two different agents are counted. */
  lemma CountOne(agents: seq<Phase>, ps: set<Phase>, t: nat, u: nat)
    requires t < |agents| && u < |agents| && t != u && agents[t] in ps && agents[u] in ps && Idle !in ps
    ensures Count(agents, ps) >= 2
  {
    CountUpdate(agents, t, Idle, ps);
    CountNone(agents[t := Idle], ps);
    assert agents[t := Idle][u] in ps;
  }

  // ---------- the invariant ----------

  ghost function Writers(): set<Phase> { {Writing, WriteToRead} }
  ghost function Upgraders(): set<Phase> { {Upgradable, UpgradeToRead} }
  /** The phases that hold one reader increment of the word. */
  ghost function Sharers(): set<Phase> { {Reading, Undoing, WriteToRead, UpgradeToRead} }

  ghost predicate Inv(s: State) {
    var readers := Count(s.agents, Sharers());
    var writers := Count(s.agents, Writers());
    var upgraders := Count(s.agents, Upgraders());
    && 4 * |s.agents| + 4 <= TWO_64
    && s.word == 4 * readers + (if HasUpgraded(s.word) then 2 else 0) + writers
    && writers <= 1 && upgraders <= 1
    && (upgraders == 1 ==> HasUpgraded(s.word) && writers == 0)
    && (HasUpgraded(s.word) && upgraders == 0 ==> writers == 1)
    && (writers == 1 ==> Count(s.agents, {Reading}) == 0)
  }

  ghost function Init(n: nat): State {
    State(0, seq(n, _ => Idle))
  }

  lemma InitHolds(n: nat)
    requires 4 * n + 4 <= TWO_64
    ensures Inv(Init(n))
  {
    var a := Init(n).agents;
    CountNone(a, Sharers());
    CountNone(a, Writers());
    CountNone(a, Upgraders());
    CountNone(a, {Reading});
  }

  /** How the counts move when agent `t` goes to phase `p`. */
  lemma Moves(s: State, t: nat, p: Phase)
    requires t < |s.agents|
    ensures Moved(s, t, p, Sharers()) && Moved(s, t, p, Writers())
    ensures Moved(s, t, p, Upgraders()) && Moved(s, t, p, {Reading})
    ensures Count(s.agents, {Reading}) <= Count(s.agents, Sharers())
    ensures Count(s.agents[t := p], Sharers()) <= |s.agents|
  {
    CountUpdate(s.agents, t, p, Sharers());
    CountUpdate(s.agents, t, p, Writers());
    CountUpdate(s.agents, t, p, Upgraders());
    CountUpdate(s.agents, t, p, {Reading});
    CountBounds(s.agents[t := p], Sharers());
    CountMono(s.agents, {Reading}, Sharers());
  }

  ghost predicate Moved(s: State, t: nat, p: Phase, ps: set<Phase>)
    requires t < |s.agents|
  {
    Count(s.agents[t := p], ps) ==
      Count(s.agents, ps) - (if s.agents[t] in ps then 1 else 0) + if p in ps then 1 else 0
  }

  lemma ReadStepKeepsInv(s: State, t: nat, step: Step)
    requires Inv(s) && t < |s.agents| && (step.TryRead? || step.UndoRead? || step.DropRead?)
    ensures Inv(Next(s, t, step))
  {
    hide Count;
    var s' := Next(s, t, step);
    Moves(s, t, s'.agents[t]);
    WordParts(Count(s.agents, Sharers()), HasUpgraded(s.word), Count(s.agents, Writers()));
    WordParts(Count(s'.agents, Sharers()), HasUpgraded(s.word), Count(s.agents, Writers()));
  }

  lemma WriteStepKeepsInv(s: State, t: nat, step: Step)
    requires Inv(s) && t < |s.agents| && (step.TryWrite? || step.DropWrite?)
    ensures Inv(Next(s, t, step))
  {
    hide Count;
    var s' := Next(s, t, step);
    Moves(s, t, s'.agents[t]);
    WordParts(Count(s.agents, Sharers()), HasUpgraded(s.word), Count(s.agents, Writers()));
    WordParts(Count(s'.agents, Sharers()), false, 0);
  }

  lemma DowngradeWriteKeepsInv(s: State, t: nat, step: Step)
    requires Inv(s) && t < |s.agents| && (step.DowngradeWrite? || step.FinishDowngradeWrite?)
    ensures Inv(Next(s, t, step))
  {
    hide Count;
    var s' := Next(s, t, step);
    Moves(s, t, s'.agents[t]);
    WordParts(Count(s.agents, Sharers()), HasUpgraded(s.word), Count(s.agents, Writers()));
    WordParts(Count(s'.agents, Sharers()), HasUpgraded(s.word), Count(s.agents, Writers()));
    WordParts(Count(s'.agents, Sharers()), false, 0);
  }

  lemma UpgradeStepKeepsInv(s: State, t: nat, step: Step)
    requires Inv(s) && t < |s.agents| && (step.TryUpgradeable? || step.TryUpgrade?)
    ensures Inv(Next(s, t, step))
  {
    hide Count;
    var s' := Next(s, t, step);
    Moves(s, t, s'.agents[t]);
    WordParts(Count(s.agents, Sharers()), HasUpgraded(s.word), Count(s.agents, Writers()));
    WordParts(Count(s'.agents, Sharers()), true, Count(s.agents, Writers()));
  }

  lemma ReleaseUpgradableKeepsInv(s: State, t: nat, step: Step)
    requires Inv(s) && t < |s.agents|
    requires step.DropUpgradable? || step.DowngradeUpgradable? || step.FinishDowngradeUpgradable?
    ensures Inv(Next(s, t, step))
  {
    hide Count;
    var s' := Next(s, t, step);
    Moves(s, t, s'.agents[t]);
    WordParts(Count(s.agents, Sharers()), HasUpgraded(s.word), Count(s.agents, Writers()));
    WordParts(Count(s'.agents, Sharers()), true, 0);
    WordParts(Count(s'.agents, Sharers()), false, 0);
  }

  /** Every atomic step of every agent keeps the invariant. */
  lemma StepKeepsInv(s: State, t: nat, step: Step)
    requires Inv(s) && t < |s.agents|
    ensures Inv(Next(s, t, step)) && |Next(s, t, step).agents| == |s.agents|
  {
    match step
    case TryRead | UndoRead | DropRead => ReadStepKeepsInv(s, t, step);
    case TryWrite | DropWrite => WriteStepKeepsInv(s, t, step);
    case DowngradeWrite | FinishDowngradeWrite => DowngradeWriteKeepsInv(s, t, step);
    case TryUpgradeable | TryUpgrade => UpgradeStepKeepsInv(s, t, step);
    case WeakFailure =>
    case _ => ReleaseUpgradableKeepsInv(s, t, step);
  }

  // ---------- runs ----------

  /** A schedule names an agent and the step it takes, in order. */
  ghost function Run(s: State, schedule: seq<(nat, Step)>): State
    decreases |schedule|
  {
    if schedule == [] then s
    else
      var (t, step) := schedule[0];
      Run(if t < |s.agents| then Next(s, t, step) else s, schedule[1..])
  }

  lemma {:induction false} RunKeepsInv(s: State, schedule: seq<(nat, Step)>)
    requires Inv(s)
    ensures Inv(Run(s, schedule))
    decreases |schedule|
  {
    if schedule != [] {
      var (t, step) := schedule[0];
      if t < |s.agents| { StepKeepsInv(s, t, step); }
      RunKeepsInv(if t < |s.agents| then Next(s, t, step) else s, schedule[1..]);
    }
  }

  predicate HoldsGuard(p: Phase) {
    p != Idle && p != Undoing
  }

  /** What the lock promises of a state. */
  ghost predicate Safe(s: State) {
    // a write guard excludes every other guard
    && (forall t, u :: 0 <= t < |s.agents| && 0 <= u < |s.agents| && t != u && s.agents[t] in Writers() ==>
          !HoldsGuard(s.agents[u]))
    // at most one upgradeable guard
    && (forall t, u :: 0 <= t < |s.agents| && 0 <= u < |s.agents| && t != u && s.agents[t] in Upgraders() ==>
          s.agents[u] !in Upgraders())
    // the word is four times the reader shares plus the two flags
    && s.word == 4 * Count(s.agents, Sharers()) + (if HasUpgraded(s.word) then 2 else 0)
                 + (if HasWriter(s.word) then 1 else 0)
    && (HasWriter(s.word) <==> exists t :: 0 <= t < |s.agents| && s.agents[t] in Writers())
    // the UPGRADED flag without its guard is left over from a failed attempt under a writer
    && (HasUpgraded(s.word) ==> exists t :: 0 <= t < |s.agents| && s.agents[t] in Writers() + Upgraders())
    // and nothing is left over when nobody holds or owes anything
    && ((forall t :: 0 <= t < |s.agents| ==> s.agents[t] == Idle) ==> s.word == 0)
  }

  lemma CountSome(agents: seq<Phase>, ps: set<Phase>) returns (t: nat)
    requires Count(agents, ps) > 0
    ensures t < |agents| && agents[t] in ps
  {
    CountNone(agents, ps);
    t :| t < |agents| && agents[t] in ps;
  }

  lemma WriterExcludes(s: State, t: nat, u: nat)
    requires Inv(s) && t < |s.agents| && u < |s.agents| && t != u && s.agents[t] in Writers()
    ensures !HoldsGuard(s.agents[u])
  {
    CountNone(s.agents, Writers());
    CountNone(s.agents, {Reading});
    CountNone(s.agents, Upgraders());
    if s.agents[u] in Writers() { CountOne(s.agents, Writers(), t, u); }
  }

  lemma InvIsSafe(s: State)
    requires Inv(s)
    ensures Safe(s)
  {
    forall t: nat, u: nat | t < |s.agents| && u < |s.agents| && t != u && s.agents[t] in Writers()
      ensures !HoldsGuard(s.agents[u])
    {
      WriterExcludes(s, t, u);
    }
    forall t: nat, u: nat | t < |s.agents| && u < |s.agents| && t != u && s.agents[t] in Upgraders()
      ensures s.agents[u] !in Upgraders()
    {
      if s.agents[u] in Upgraders() { CountOne(s.agents, Upgraders(), t, u); }
    }
    WordParts(Count(s.agents, Sharers()), HasUpgraded(s.word), Count(s.agents, Writers()));
    CountNone(s.agents, Writers());
    CountNone(s.agents, Sharers());
    CountNone(s.agents, Upgraders());
    if HasUpgraded(s.word) {
      if Count(s.agents, Upgraders()) == 0 {
        var t := CountSome(s.agents, Writers());
        assert s.agents[t] in Writers() + Upgraders();
      } else {
        var t := CountSome(s.agents, Upgraders());
        assert s.agents[t] in Writers() + Upgraders();
      }
    }
  }

  /** Every run of any number of agents, in any interleaving of their atomic steps, is safe. */
  lemma RunsAreSafe(n: nat, schedule: seq<(nat, Step)>)
    requires 4 * n + 4 <= TWO_64
    ensures Safe(Run(Init(n), schedule))
  {
    InitHolds(n);
    RunKeepsInv(Init(n), schedule);
    InvIsSafe(Run(Init(n), schedule));
  }

  // ---------- when attempts succeed ----------

  /** A read attempt gets its guard exactly when no write and no upgradeable guard is held. */
  lemma TryReadExact(s: State, t: nat)
    requires Inv(s) && t < |s.agents| && s.agents[t] == Idle
    ensures Next(s, t, TryRead).agents[t] == Reading <==>
      forall u :: 0 <= u < |s.agents| ==> s.agents[u] !in Writers() && s.agents[u] !in Upgraders()
  {
    InvIsSafe(s);
    CountNone(s.agents, Writers());
    CountNone(s.agents, Upgraders());
  }

  /** A write attempt gets its guard exactly when nobody holds a guard or has a read attempt in
      flight. */
  lemma TryWriteExact(s: State, t: nat)
    requires Inv(s) && t < |s.agents| && s.agents[t] == Idle
    ensures Next(s, t, TryWrite).agents[t] == Writing <==>
      forall u :: 0 <= u < |s.agents| ==> s.agents[u] == Idle
  {
    CountNone(s.agents, Writers());
    CountNone(s.agents, Upgraders());
    CountNone(s.agents, Sharers());
  }

  /** An upgrade succeeds exactly when its agent is the only one that is not idle. */
  lemma TryUpgradeExact(s: State, t: nat)
    requires Inv(s) && t < |s.agents| && s.agents[t] == Upgradable
    ensures Next(s, t, TryUpgrade).agents[t] == Writing <==>
      forall u :: 0 <= u < |s.agents| && u != t ==> s.agents[u] == Idle
  {
    InvIsSafe(s);
    CountNone(s.agents, Upgraders());
    CountNone(s.agents, Writers());
    CountNone(s.agents, Sharers());
  }

  lemma UpgradersAreSeen(s: State)
    requires Inv(s)
    ensures (exists u :: 0 <= u < |s.agents| && s.agents[u] in Upgraders()) ==> HasUpgraded(s.word)
  {
    CountNone(s.agents, Upgraders());
  }

  lemma FlagsSet(w: nat)
    ensures SetUpgraded(w) / 4 == w / 4 && SetUpgraded(w) % 2 == w % 2 && SetUpgraded(w) / 2 % 2 == 1
  {
    var q, r := w / 4, w % 4;
    assert w == 4 * q + r && w / 2 == 2 * q + r / 2;
  }

  /** An upgradeable attempt gets its guard exactly when no write and no other upgradeable guard is held,
      however many readers there are; it sets bit 1 of the word in any case. */
  lemma TryUpgradeableExact(s: State, t: nat)
    requires Inv(s) && t < |s.agents| && s.agents[t] == Idle
    ensures var s' := Next(s, t, TryUpgradeable);
      && s'.agents == s.agents[t := s'.agents[t]]
      && (s'.agents[t] == Upgradable <==>
            forall u :: 0 <= u < |s.agents| ==> s.agents[u] !in Writers() && s.agents[u] !in Upgraders())
      && (s'.agents[t] == Upgradable || s'.agents[t] == Idle)
      && s'.word / 4 == s.word / 4 && s'.word % 2 == s.word % 2 && s'.word / 2 % 2 == 1
  {
    hide Count, Inv, SetUpgraded;
    InvIsSafe(s);
    FlagsSet(s.word);
    assert HasWriter(s.word) || HasUpgraded(s.word) <==> exists u ::
      0 <= u < |s.agents| && (s.agents[u] in Writers() || s.agents[u] in Upgraders()) by {
      UpgradersAreSeen(s);
    }
  }

  /** What the other attempts do to the word, and what a failed one leaves. */
  lemma AttemptsExact(s: State, t: nat)
    requires Inv(s) && t < |s.agents|
    ensures s.agents[t] == Idle ==> var s' := Next(s, t, TryRead);
      s'.word == s.word + 4 && (s' == State(s.word + 4, s.agents[t := Reading])
                                || s' == State(s.word + 4, s.agents[t := Undoing]))
    ensures s.agents[t] == Idle ==>
      Next(s, t, TryWrite) == s || (s.word == 0 && Next(s, t, TryWrite) == State(1, s.agents[t := Writing]))
    ensures s.agents[t] == Upgradable ==>
      Next(s, t, TryUpgrade) == s || (s.word == 2 && Next(s, t, TryUpgrade) == State(1, s.agents[t := Writing]))
    ensures Next(s, t, WeakFailure) == s
  {
    CountBounds(s.agents, Sharers());
    CountUpdate(s.agents, t, Reading, Sharers());
    CountBounds(s.agents[t := Reading], Sharers());
  }

  /** What every release and downgrade ends in: it takes back just what its agent has added, and a writer
      clears both flags. */
  lemma ReleasesExact(s: State, t: nat)
    requires Inv(s) && t < |s.agents|
    ensures match s.agents[t]
      case Idle => true
      case Undoing => s.word >= 4 && Next(s, t, UndoRead) == State(s.word - 4, s.agents[t := Idle])
      case Reading => s.word >= 4 && Next(s, t, DropRead) == State(s.word - 4, s.agents[t := Idle])
      case Writing =>
        && Next(s, t, DropWrite) == State(4 * (s.word / 4), s.agents[t := Idle])
        && Next(s, t, DowngradeWrite) == State(s.word + 4, s.agents[t := WriteToRead])
      case WriteToRead => Next(s, t, FinishDowngradeWrite) == State(4 * (s.word / 4), s.agents[t := Reading])
      case Upgradable =>
        && s.word >= 2 && Next(s, t, DropUpgradable) == State(s.word - 2, s.agents[t := Idle])
        && Next(s, t, DowngradeUpgradable) == State(s.word + 4, s.agents[t := UpgradeToRead])
      case UpgradeToRead =>
        s.word >= 2 && Next(s, t, FinishDowngradeUpgradable) == State(s.word - 2, s.agents[t := Reading])
  {
    CountNone(s.agents, Sharers());
    CountNone(s.agents, Upgraders());
    CountBounds(s.agents, Sharers());
    if s.agents[t] !in Sharers() {
      CountUpdate(s.agents, t, Reading, Sharers());
      CountBounds(s.agents[t := Reading], Sharers());
    }
  }

  /** The steps that the phases offer; all others change nothing. */
  predicate Offers(p: Phase, step: Step) {
    match p
    case Idle => step.TryRead? || step.TryWrite? || step.TryUpgradeable?
    case Undoing => step.UndoRead?
    case Reading => step.DropRead?
    case Writing => step.DropWrite? || step.DowngradeWrite?
    case Upgradable => step.DropUpgradable? || step.TryUpgrade? || step.DowngradeUpgradable?
    case WriteToRead => step.FinishDowngradeWrite?
    case UpgradeToRead => step.FinishDowngradeUpgradable?
  }

  lemma OnlyOfferedSteps(s: State, t: nat, step: Step)
    requires t < |s.agents| && !Offers(s.agents[t], step)
    ensures Next(s, t, step) == s
  {
  }

  // ---------- downgrading a writer to an upgradeable guard ----------

  /** The downgrade stores the word instead of changing it: what other agents added is lost. */
  function StoreUpgraded(s: State, t: nat): State
    requires t < |s.agents|
  {
    To(s, t, 2, Upgradable)
  }

  /** That downgrade keeps the invariant exactly when no failed read attempt is in flight. */
  lemma StoreUpgradedExact(s: State, t: nat)
    requires Inv(s) && t < |s.agents| && s.agents[t] == Writing
    ensures Inv(StoreUpgraded(s, t)) <==> forall u :: 0 <= u < |s.agents| ==> s.agents[u] != Undoing
  {
    Moves(s, t, Upgradable);
    CountNone(s.agents, Sharers());
    forall u: nat | u < |s.agents| && u != t ensures !HoldsGuard(s.agents[u]) {
      WriterExcludes(s, t, u);
    }
    WordParts(Count(s.agents, Sharers()), true, 0);
    WordParts(0, true, 0);
  }

  /** Otherwise the lost increment is taken back anyway, and when all is released the word is left
      at 2^64 - 4, so that no write attempt can succeed any more. */
  lemma StoreUpgradedLosesIncrement()
    ensures var s := Run(Init(2), [(0, TryWrite), (1, TryRead)]);
      && s.agents == [Writing, Undoing]
      && Run(StoreUpgraded(s, 0), [(1, UndoRead), (0, DropUpgradable)]) == State(TWO_64 - 4, [Idle, Idle])
  {
    var s0 := Init(2);
    var s1 := Next(s0, 0, TryWrite);
    var s2 := Next(s1, 1, TryRead);
    assert [(0, TryWrite), (1, TryRead)][1..] == [(1, TryRead)];
    assert Run(s2, []) == s2;
    assert Run(s1, [(1, TryRead)]) == s2;
    assert Run(s0, [(0, TryWrite), (1, TryRead)]) == s2;
    assert s2.agents == [Writing, Undoing];
    var s3 := StoreUpgraded(s2, 0);
    var s4 := Next(s3, 1, UndoRead);
    var s5 := Next(s4, 0, DropUpgradable);
    assert [(1, UndoRead), (0, DropUpgradable)][1..] == [(0, DropUpgradable)];
    assert Run(s5, []) == s5;
    assert Run(s4, [(0, DropUpgradable)]) == s5;
    assert s5.agents == [Idle, Idle];
  }
}
