/** The reference-count macros of `refCountObject.h` as a state machine: every section under the
    class-wide lock is one step, and threads interleave freely between sections. */
module RefCounts {

  type Handle = nat
  type Counter = nat
  type Thread = nat

  /** `m_referenceCounter` of a handle. */
  datatype Pointer = Null | To(counter: Counter)

  /** A thread between the two locked sections of `operator=`. */
  datatype Gap = Gap(target: Handle, source: Handle)

  /** What became of the object of a deleted counter: a destructor deletes it, `operator=`
      ignores what `free` returns. */
  datatype Fate = Deleted | Leaked

  /** `pointers`: the constructed handles, but for those whose assignment is in its gap and
      whose pointer is stale. `counts`: the live counters. `fates`: the deleted ones. */
  datatype State = State(
    pointers: map<Handle, Pointer>,
    counts: map<Counter, int>,
    fates: map<Counter, Fate>,
    gaps: map<Thread, Gap>)

  ghost const START := State(map[], map[], map[], map[])

  datatype Action =
    | Construct(h: Handle)
    | Init(h: Handle, c: Counter)
    | Copy(h: Handle, source: Handle)
    | AssignFree(h: Handle, source: Handle)
    | AssignAttach
    | Destroy(h: Handle)

  ghost predicate IsTarget(s: State, h: Handle) {
    exists t :: t in s.gaps && s.gaps[t].target == h
  }

  ghost predicate IsSource(s: State, h: Handle) {
    exists t :: t in s.gaps && s.gaps[t].source == h
  }

  ghost predicate Unused(s: State, h: Handle) {
    h !in s.pointers && !IsTarget(s, h)
  }

  /** Nobody else is reading the handle. */
  ghost predicate Writable(s: State, h: Handle) {
    h in s.pointers && !IsSource(s, h)
  }

  ghost predicate Attached(s: State, h: Handle) {
    h in s.pointers && s.pointers[h].To?
  }

  type Pointers = map<Handle, Pointer>

  ghost function Holders(p: Pointers, c: Counter): set<Handle> {
    set h | h in p && p[h] == To(c)
  }

  /** What the macros ask of their users: a copied handle is attached, and a handle is written
      by one thread at a time. Any number of threads may copy the same handle at once. */
  ghost predicate Enabled(s: State, t: Thread, a: Action) {
    match a
    case Construct(h) => t !in s.gaps && Unused(s, h)
    case Init(h, c) =>
      t !in s.gaps && Writable(s, h) && s.pointers[h].Null? && c !in s.counts && c !in s.fates
    case Copy(h, source) => t !in s.gaps && Unused(s, h) && Attached(s, source)
    case AssignFree(h, source) => t !in s.gaps && h != source && Writable(s, h) && Attached(s, source)
    case AssignAttach => t in s.gaps
    case Destroy(h) => t !in s.gaps && Writable(s, h)
  }

  ghost predicate Live(p: Pointers, counts: map<Counter, int>) {
    forall h :: h in p && p[h].To? ==> p[h].counter in counts
  }

  ghost predicate Counted(p: Pointers, counts: map<Counter, int>) {
    forall c :: c in counts ==> counts[c] == |Holders(p, c)| >= 1
  }

  ghost predicate Open(p: Pointers, gaps: map<Thread, Gap>) {
    && (forall t :: t in gaps ==>
          gaps[t].target !in p && gaps[t].source in p && p[gaps[t].source].To?)
    && (forall t, u :: t in gaps && u in gaps && t != u ==> gaps[t].target != gaps[u].target)
  }

  /** Every attached handle has a live counter, every live counter counts its holders, and an
      assignment in its gap still has a source to attach to. */
  ghost predicate Safe(s: State) {
    && Live(s.pointers, s.counts)
    && Counted(s.pointers, s.counts)
    && s.counts.Keys !! s.fates.Keys
    && Open(s.pointers, s.gaps)
  }

  /** `free` under the lock: count down, delete the counter at zero. */
  ghost function Free(s: State, h: Handle, fate: Fate): State
    requires Safe(s) && h in s.pointers
  {
    var pointers := s.pointers - {h};
    if s.pointers[h].Null? then s.(pointers := pointers)
    else
      var c := s.pointers[h].counter;
      if s.counts[c] - 1 == 0 then
        State(pointers, s.counts - {c}, s.fates[c := fate], s.gaps)
      else
        State(pointers, s.counts[c := s.counts[c] - 1], s.fates, s.gaps)
  }

  /** Copying the pointer and counting up, under the lock. */
  ghost function Attach(s: State, h: Handle, source: Handle): State
    requires Safe(s) && Attached(s, source)
  {
    var c := s.pointers[source].counter;
    s.(pointers := s.pointers[h := To(c)], counts := s.counts[c := s.counts[c] + 1])
  }

  ghost function Step(s: State, t: Thread, a: Action): State
    requires Safe(s) && Enabled(s, t, a)
  {
    match a
    case Construct(h) => s.(pointers := s.pointers[h := Null])
    case Init(h, c) => s.(pointers := s.pointers[h := To(c)], counts := s.counts[c := 1])
    case Copy(h, source) => Attach(s, h, source)
    case AssignFree(h, source) =>
      var freed := Free(s, h, Leaked);
      freed.(gaps := freed.gaps[t := Gap(h, source)])
    case AssignAttach =>
      var gap := s.gaps[t];
      Attach(s.(gaps := s.gaps - {t}), gap.target, gap.source)
    case Destroy(h) => Free(s, h, Deleted)
  }

  lemma HoldersPlus(p: Pointers, h: Handle, c: Counter, d: Counter)
    requires h in p ==> p[h].Null?
    ensures Holders(p[h := To(c)], d) == if d == c then Holders(p, c) + {h} else Holders(p, d)
  {
  }

  lemma HoldersMinus(p: Pointers, h: Handle, d: Counter)
    ensures Holders(p - {h}, d) == Holders(p, d) - {h}
  {
  }

  lemma FreeCounted(s: State, h: Handle, fate: Fate)
    requires Safe(s) && h in s.pointers
    ensures Counted(Free(s, h, fate).pointers, Free(s, h, fate).counts)
  {
    hide Open, Holders;
    var n := Free(s, h, fate);
    forall d | d in n.counts
      ensures n.counts[d] == |Holders(n.pointers, d)| >= 1
    {
      HoldersMinus(s.pointers, h, d);
      HolderIn(s.pointers, h, d);
      var before := Holders(s.pointers, d);
      if h in before {
        assert |before - {h}| == |before| - 1;
      } else {
        assert before - {h} == before;
      }
    }
  }

  lemma HolderIn(p: Pointers, h: Handle, d: Counter)
    ensures h in Holders(p, d) <==> h in p && p[h] == To(d)
  {
  }

  lemma FreeLive(s: State, h: Handle, fate: Fate)
    requires Safe(s) && h in s.pointers
    ensures Live(Free(s, h, fate).pointers, Free(s, h, fate).counts)
  {
    hide Open, Holders;
    var n := Free(s, h, fate);
    forall g | g in n.pointers && n.pointers[g].To?
      ensures n.pointers[g].counter in n.counts
    {
      var d := n.pointers[g].counter;
      HolderIn(s.pointers, g, d);
      HolderIn(s.pointers, h, d);
      if d !in n.counts {
        OnlyOne(Holders(s.pointers, d), g, h);
      }
    }
  }

  lemma OnlyOne(s: set<Handle>, g: Handle, h: Handle)
    requires |s| == 1 && g in s && h in s
    ensures g == h
  {
    assert |s - {g}| == 0;
  }

  lemma FreeSafe(s: State, h: Handle, fate: Fate)
    requires Safe(s) && Writable(s, h)
    ensures Safe(Free(s, h, fate))
  {
    FreeCounted(s, h, fate);
    FreeLive(s, h, fate);
    hide Live, Counted;
  }

  lemma JoinCounted(p: Pointers, counts: map<Counter, int>, h: Handle, c: Counter)
    requires Live(p, counts) && Counted(p, counts) && (h in p ==> p[h].Null?)
    ensures Counted(p[h := To(c)], counts[c := if c in counts then counts[c] + 1 else 1])
    ensures Live(p[h := To(c)], counts[c := if c in counts then counts[c] + 1 else 1])
  {
    var counts2 := counts[c := if c in counts then counts[c] + 1 else 1];
    forall d | d in counts2
      ensures counts2[d] == |Holders(p[h := To(c)], d)| >= 1
    {
      HoldersPlus(p, h, c, d);
      HolderIn(p, h, c);
      if c !in counts {
        NoHolder(p, counts, c);
      }
    }
  }

  lemma NoHolder(p: Pointers, counts: map<Counter, int>, c: Counter)
    requires Live(p, counts) && c !in counts
    ensures Holders(p, c) == {}
  {
  }

  lemma AttachSafe(s: State, h: Handle, source: Handle)
    requires Safe(s) && Attached(s, source) && Unused(s, h)
    ensures Safe(Attach(s, h, source))
  {
    JoinCounted(s.pointers, s.counts, h, s.pointers[source].counter);
    hide Counted;
  }

  /** Leaving the gap frees the target for use. */
  lemma CloseGap(s: State, t: Thread)
    requires Safe(s) && t in s.gaps
    ensures var closed := s.(gaps := s.gaps - {t});
            Safe(closed) && Attached(closed, s.gaps[t].source) && Unused(closed, s.gaps[t].target)
  {
    hide Live, Counted;
  }

  lemma OpenGap(s: State, t: Thread, h: Handle, source: Handle)
    requires Safe(s) && Unused(s, h) && Attached(s, source)
    ensures Safe(s.(gaps := s.gaps[t := Gap(h, source)]))
  {
    hide Live, Counted;
  }

  lemma FreedUnused(s: State, h: Handle, source: Handle)
    requires Safe(s) && h in s.pointers && h != source && Attached(s, source)
    ensures var n := Free(s, h, Leaked); n.gaps == s.gaps && Unused(n, h) && Attached(n, source)
  {
    hide Live, Counted;
  }

  lemma NullSafe(s: State, h: Handle)
    requires Safe(s) && Unused(s, h)
    ensures Safe(s.(pointers := s.pointers[h := Null]))
  {
    var p := s.pointers[h := Null];
    forall d | d in s.counts
      ensures s.counts[d] == |Holders(p, d)| >= 1
    {
      assert Holders(p, d) == Holders(s.pointers, d);
    }
  }

  lemma InitSafe(s: State, h: Handle, c: Counter)
    requires Safe(s) && Writable(s, h) && s.pointers[h].Null? && c !in s.counts && c !in s.fates
    ensures Safe(s.(pointers := s.pointers[h := To(c)], counts := s.counts[c := 1]))
  {
    JoinCounted(s.pointers, s.counts, h, c);
    hide Counted;
  }

  /** Every step of every thread keeps the counters right. */
  lemma StepSafe(s: State, t: Thread, a: Action)
    requires Safe(s) && Enabled(s, t, a)
    ensures Safe(Step(s, t, a))
  {
    hide Safe, Free, Unused, Attached;
    match a
    case Construct(h) => NullSafe(s, h);
    case Init(h, c) => InitSafe(s, h, c);
    case Copy(h, source) => AttachSafe(s, h, source);
    case AssignFree(h, source) =>
      FreeSafe(s, h, Leaked);
      FreedUnused(s, h, source);
      OpenGap(Free(s, h, Leaked), t, h, source);
    case AssignAttach =>
      CloseGap(s, t);
      AttachSafe(s.(gaps := s.gaps - {t}), s.gaps[t].target, s.gaps[t].source);
    case Destroy(h) => FreeSafe(s, h, Deleted);
  }

  // ----- what a step changes -----

  /** All handles but `h` are as before. */
  ghost predicate SameHandlesBut(s: State, n: State, h: Handle) {
    n.pointers - {h} == s.pointers - {h}
  }

  /** All counters but `c` are as before, live or deleted. */
  ghost predicate SameCountersBut(s: State, n: State, c: Counter) {
    n.counts - {c} == s.counts - {c} && n.fates - {c} == s.fates - {c}
  }

  ghost predicate SameCounters(s: State, n: State) {
    n.counts == s.counts && n.fates == s.fates
  }

  /** `h` has come to share the live counter of `source`: one more holder, and nothing else. */
  ghost predicate Shares(s: State, n: State, h: Handle, source: Handle) {
    && Attached(s, source)
    && var c := s.pointers[source].counter;
       && c in s.counts && c in n.counts && n.counts[c] == s.counts[c] + 1
       && h in n.pointers && source in n.pointers && n.pointers[h] == n.pointers[source] == To(c)
       && Holders(n.pointers, c) == Holders(s.pointers, c) + {h} && h !in Holders(s.pointers, c)
       && SameHandlesBut(s, n, h) && SameCountersBut(s, n, c) && n.fates == s.fates
  }

  /** `h` is gone and its counter, if it had one, has one holder less; without a holder the
      counter is deleted and its object meets its fate. */
  ghost predicate Detached(s: State, n: State, h: Handle, fate: Fate) {
    && h in s.pointers && h !in n.pointers && SameHandlesBut(s, n, h)
    && match s.pointers[h]
       case Null => SameCounters(s, n)
       case To(c) =>
         && c in s.counts && SameCountersBut(s, n, c)
         && Holders(n.pointers, c) == Holders(s.pointers, c) - {h}
         && if Holders(n.pointers, c) == {} then c !in n.counts && c in n.fates && n.fates[c] == fate
            else c in n.counts && n.counts[c] == s.counts[c] - 1 && n.fates == s.fates
  }

  lemma AttachShares(s: State, h: Handle, source: Handle)
    requires Safe(s) && Attached(s, source) && Unused(s, h)
    ensures Shares(s, Attach(s, h, source), h, source)
  {
    hide Open, Counted;
    HoldersPlus(s.pointers, h, s.pointers[source].counter, s.pointers[source].counter);
    HolderIn(s.pointers, h, s.pointers[source].counter);
  }

  lemma FreeDetaches(s: State, h: Handle, fate: Fate)
    requires Safe(s) && h in s.pointers
    ensures Detached(s, Free(s, h, fate), h, fate) && Free(s, h, fate).gaps == s.gaps
  {
    hide Open, Holders;
    if s.pointers[h].To? {
      var c := s.pointers[h].counter;
      HoldersMinus(s.pointers, h, c);
      HolderIn(s.pointers, h, c);
      var before := Holders(s.pointers, c);
      assert |before - {h}| == |before| - 1;
    }
  }

  /** What each step does to handles, holders and counters, and that it touches nothing else:
      a copy and the second section of an assignment share the source's counter. */
  lemma StepEffect(s: State, t: Thread, a: Action)
    requires Safe(s) && Enabled(s, t, a)
    ensures var n := Step(s, t, a);
            match a
            case Construct(h) =>
              && h in n.pointers && n.pointers[h].Null? && SameHandlesBut(s, n, h)
              && SameCounters(s, n) && n.gaps == s.gaps
            case Init(h, c) =>
              && h in n.pointers && n.pointers[h] == To(c) && SameHandlesBut(s, n, h)
              && c in n.counts && n.counts[c] == 1 && Holders(n.pointers, c) == {h}
              && SameCountersBut(s, n, c) && n.gaps == s.gaps
            case Copy(h, source) => Shares(s, n, h, source) && n.gaps == s.gaps
            case AssignFree(h, source) => Detached(s, n, h, Leaked) && n.gaps == s.gaps[t := Gap(h, source)]
            case AssignAttach => Shares(s, n, s.gaps[t].target, s.gaps[t].source) && n.gaps == s.gaps - {t}
            case Destroy(h) => Detached(s, n, h, Deleted) && n.gaps == s.gaps
  {
    hide Counted, Holders, Shares, Detached, Free;
    match a
    case Construct(h) =>
    case Init(h, c) =>
      HoldersPlus(s.pointers, h, c, c);
      NoHolder(s.pointers, s.counts, c);
    case Copy(h, source) => AttachShares(s, h, source);
    case AssignFree(h, source) =>
      FreeDetaches(s, h, Leaked);
      DetachedGap(s, Free(s, h, Leaked), h, s.gaps[t := Gap(h, source)]);
    case AssignAttach =>
      CloseGap(s, t);
      var closed := s.(gaps := s.gaps - {t});
      AttachShares(closed, s.gaps[t].target, s.gaps[t].source);
      SharesGap(s, closed, Attach(closed, s.gaps[t].target, s.gaps[t].source), s.gaps[t].target, s.gaps[t].source);
    case Destroy(h) => FreeDetaches(s, h, Deleted);
  }

  lemma DetachedGap(s: State, n: State, h: Handle, gaps: map<Thread, Gap>)
    requires Detached(s, n, h, Leaked)
    ensures Detached(s, n.(gaps := gaps), h, Leaked)
  {
    hide Holders;
  }

  lemma SharesGap(s: State, closed: State, n: State, h: Handle, source: Handle)
    requires Shares(closed, n, h, source) && closed == s.(gaps := closed.gaps)
    ensures Shares(s, n, h, source)
  {
    hide Holders;
  }

  // ----- runs -----

  datatype Turn = Turn(thread: Thread, action: Action)

  /** Any interleaving in which each action is enabled when its turn comes. */
  ghost predicate Legal(turns: seq<Turn>)
    decreases |turns|, 0
  {
    turns == [] ||
    (Legal(turns[..|turns| - 1])
     && Enabled(After(turns[..|turns| - 1]), turns[|turns| - 1].thread, turns[|turns| - 1].action))
  }

  /** The state after a run; it is always safe. */
  ghost function After(turns: seq<Turn>): (s: State)
    requires Legal(turns)
    ensures Safe(s)
    decreases |turns|, 1
  {
    if turns == [] then START
    else
      var before := After(turns[..|turns| - 1]);
      var last := turns[|turns| - 1];
      StepSafe(before, last.thread, last.action);
      Step(before, last.thread, last.action)
  }

  /** The step detaches the last handle of the counter. */
  ghost predicate DetachesLast(s: State, a: Action, c: Counter) {
    (a.AssignFree? || a.Destroy?) && Holders(s.pointers, c) == {a.h}
  }

  lemma FreeEffect(s: State, h: Handle, fate: Fate, c: Counter)
    requires Safe(s) && h in s.pointers && c in s.counts
    ensures var n := Free(s, h, fate);
            if Holders(s.pointers, c) == {h} then c !in n.counts && n.fates == s.fates[c := fate]
            else c in n.counts && c !in n.fates
  {
    hide Live, Open, Holders;
    HolderIn(s.pointers, h, c);
    if s.pointers[h] == To(c) && |Holders(s.pointers, c)| == 1 {
      assert |Holders(s.pointers, c) - {h}| == 0;
      assert Holders(s.pointers, c) == {h};
    }
  }

  /** A counter is deleted by a step exactly when the step detaches its last handle. Its
      object is then deleted with it, unless the step was an assignment: that one leaks. */
  lemma DeletedExactly(s: State, t: Thread, a: Action, c: Counter)
    requires Safe(s) && Enabled(s, t, a) && c in s.counts
    ensures c !in Step(s, t, a).counts <==> DetachesLast(s, a, c)
    ensures DetachesLast(s, a, c) ==>
              Step(s, t, a).fates == s.fates[c := if a.AssignFree? then Leaked else Deleted]
    ensures !DetachesLast(s, a, c) ==> c !in Step(s, t, a).fates
  {
    if a.AssignFree? {
      FreeEffect(s, a.h, Leaked, c);
    } else if a.Destroy? {
      FreeEffect(s, a.h, Deleted, c);
    }
    hide Counted, Live, Open, Free, Holders;
  }

  /** The first section of an assignment never deletes the counter it is about to share, not
      even when both handles share it already. */
  lemma SourceSurvives(s: State, t: Thread, h: Handle, source: Handle)
    requires Safe(s) && Enabled(s, t, AssignFree(h, source))
    ensures s.pointers[source].counter in Step(s, t, AssignFree(h, source)).counts
  {
    var c := s.pointers[source].counter;
    HolderIn(s.pointers, source, c);
    DeletedExactly(s, t, AssignFree(h, source), c);
  }

  lemma FatesGrow(s: State, t: Thread, a: Action, c: Counter)
    requires Safe(s) && Enabled(s, t, a) && c in s.fates
    ensures c in Step(s, t, a).fates && Step(s, t, a).fates[c] == s.fates[c]
  {
    hide Counted, Open, Holders;
  }

  /** A deleted counter stays deleted, its object keeps its fate, and nothing points to it. */
  lemma {:induction false} GoneForGood(turns: seq<Turn>, i: nat, c: Counter)
    requires Legal(turns) && i <= |turns| && Legal(turns[..i]) && c in After(turns[..i]).fates
    ensures c in After(turns).fates && After(turns).fates[c] == After(turns[..i]).fates[c]
    ensures c !in After(turns).counts && Holders(After(turns).pointers, c) == {}
    decreases |turns|
  {
    hide Step, Enabled, Live, Counted, Open, Holders;
    if i == |turns| {
      assert turns[..i] == turns;
    } else {
      var n := |turns| - 1;
      assert turns[..n][..i] == turns[..i];
      GoneForGood(turns[..n], i, c);
      FatesGrow(After(turns[..n]), turns[n].thread, turns[n].action, c);
    }
    NoHolder(After(turns).pointers, After(turns).counts, c);
  }

  lemma Extend(turns: seq<Turn>, t: Thread, a: Action)
    requires Legal(turns) && Enabled(After(turns), t, a)
    ensures Legal(turns + [Turn(t, a)]) && After(turns + [Turn(t, a)]) == Step(After(turns), t, a)
  {
    assert (turns + [Turn(t, a)])[..|turns|] == turns;
  }

  /** A run that loses an object: the only handle to it is assigned over. */
  lemma LeakExample(t: Thread, c: Counter, d: Counter) returns (turns: seq<Turn>)
    requires c != d
    ensures Legal(turns) && After(turns).fates == map[c := Leaked] && After(turns).gaps == map[]
  {
    hide Safe, Holders;
    turns := [];
    Extend(turns, t, Construct(0));
    turns := turns + [Turn(t, Construct(0))];
    Extend(turns, t, Init(0, c));
    turns := turns + [Turn(t, Init(0, c))];
    Extend(turns, t, Construct(1));
    turns := turns + [Turn(t, Construct(1))];
    Extend(turns, t, Init(1, d));
    turns := turns + [Turn(t, Init(1, d))];
    assert After(turns).counts[c] == 1;
    Extend(turns, t, AssignFree(0, 1));
    turns := turns + [Turn(t, AssignFree(0, 1))];
    Extend(turns, t, AssignAttach);
    turns := turns + [Turn(t, AssignAttach)];
  }

  // ----- sharing over a run -----

  /** Thread `t` is between the two sections of `h = source`, and `source` holds `c`. */
  ghost predicate Assigning(s: State, t: Thread, h: Handle, source: Handle, c: Counter) {
    t in s.gaps && s.gaps[t] == Gap(h, source) && source in s.pointers && s.pointers[source] == To(c)
  }

  /** Nothing another thread does moves the source of an open assignment to another counter. */
  lemma AssigningKept(s: State, u: Thread, a: Action, t: Thread, h: Handle, source: Handle, c: Counter)
    requires Safe(s) && Enabled(s, u, a) && u != t && Assigning(s, t, h, source, c)
    ensures Assigning(Step(s, u, a), t, h, source, c)
  {
    hide Counted, Live, Holders;
    assert IsSource(s, source);
  }

  /** An assignment, however other threads come between its sections: at its end target and
      source share one live counter, the one the source had when it began. */
  lemma {:induction false} AssignmentShares(
    turns: seq<Turn>, i: nat, t: Thread, h: Handle, source: Handle, c: Counter)
    requires Legal(turns) && i + 1 < |turns| && Legal(turns[..i])
    requires turns[i] == Turn(t, AssignFree(h, source)) && turns[|turns| - 1] == Turn(t, AssignAttach)
    requires forall k :: i < k < |turns| - 1 ==> turns[k].thread != t
    requires source in After(turns[..i]).pointers && After(turns[..i]).pointers[source] == To(c)
    ensures var n := After(turns);
            && h in n.pointers && source in n.pointers && n.pointers[h] == n.pointers[source] == To(c)
            && c in n.counts && n.counts[c] == |Holders(n.pointers, c)| >= 2
  {
    hide Step, Enabled, Live, Open, Holders, Shares;
    var before := turns[..|turns| - 1];
    assert before[..i] == turns[..i];
    AssigningUntil(before, i, t, h, source, c);
    StepEffect(After(before), t, AssignAttach);
    assert After(turns) == Step(After(before), t, AssignAttach);
    SharedPair(After(before), After(turns), h, source, c);
  }

  lemma SharedPair(s: State, n: State, h: Handle, source: Handle, c: Counter)
    requires Shares(s, n, h, source) && source in s.pointers && s.pointers[source] == To(c) && Safe(n)
    ensures h in n.pointers && source in n.pointers && n.pointers[h] == n.pointers[source] == To(c)
    ensures c in n.counts
    ensures n.counts[c] == |Holders(n.pointers, c)| >= 2
  {
    hide Live, Open;
    HolderIn(n.pointers, h, c);
    HolderIn(n.pointers, source, c);
    HolderIn(s.pointers, source, c);
    if |Holders(n.pointers, c)| == 1 {
      OnlyOne(Holders(n.pointers, c), h, source);
    }
  }

  lemma {:induction false} AssigningUntil(
    turns: seq<Turn>, i: nat, t: Thread, h: Handle, source: Handle, c: Counter)
    requires Legal(turns) && i < |turns| && Legal(turns[..i])
    requires turns[i] == Turn(t, AssignFree(h, source))
    requires forall k :: i < k < |turns| ==> turns[k].thread != t
    requires source in After(turns[..i]).pointers && After(turns[..i]).pointers[source] == To(c)
    ensures Assigning(After(turns), t, h, source, c)
    decreases |turns|
  {
    hide Step, Enabled, Safe, Holders;
    var n := |turns| - 1;
    if i == n {
      GapOpens(After(turns[..n]), t, h, source, c);
    } else {
      assert turns[..n][..i] == turns[..i];
      AssigningUntil(turns[..n], i, t, h, source, c);
      AssigningKept(After(turns[..n]), turns[n].thread, turns[n].action, t, h, source, c);
    }
  }

  lemma GapOpens(s: State, t: Thread, h: Handle, source: Handle, c: Counter)
    requires Safe(s) && Enabled(s, t, AssignFree(h, source)) && source in s.pointers && s.pointers[source] == To(c)
    ensures Assigning(Step(s, t, AssignFree(h, source)), t, h, source, c)
  {
    hide Counted, Live, Open, Holders;
  }

  /** A run that shares an object: copied, it outlives its first handle and goes with its last. */
  lemma ShareExample(t: Thread, c: Counter) returns (turns: seq<Turn>)
    ensures Legal(turns) && |turns| == 5
    ensures Legal(turns[..3]) && After(turns[..3]).pointers == map[0 := To(c), 1 := To(c)]
    ensures After(turns[..3]).counts == map[c := 2]
    ensures Legal(turns[..4]) && After(turns[..4]).pointers == map[1 := To(c)]
    ensures After(turns[..4]).counts == map[c := 1] && After(turns[..4]).fates == map[]
    ensures After(turns) == State(map[], map[], map[c := Deleted], map[])
  {
    hide Safe, Holders;
    turns := [];
    Extend(turns, t, Construct(0));
    turns := turns + [Turn(t, Construct(0))];
    Extend(turns, t, Init(0, c));
    turns := turns + [Turn(t, Init(0, c))];
    Extend(turns, t, Copy(1, 0));
    turns := turns + [Turn(t, Copy(1, 0))];
    var three := turns;
    assert After(three).pointers == map[0 := To(c), 1 := To(c)] && After(three).counts == map[c := 2];
    Extend(turns, t, Destroy(0));
    turns := turns + [Turn(t, Destroy(0))];
    var four := turns;
    assert After(four).pointers == map[1 := To(c)];
    Extend(turns, t, Destroy(1));
    turns := turns + [Turn(t, Destroy(1))];
    assert turns[..3] == three && turns[..4] == four;
  }
}
