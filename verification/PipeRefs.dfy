/** End-of-pipe detection by reference counts: lib/pipe.c, and the order in which
    dup, close, fork and spawn map and unmap a descriptor's two pages, preempted
    between any two system calls on one CPU. */
module PipeRefs {
  import opened Counting

  /** Physical pages: the read end's Fd, the write end's Fd, the pipe's data page, and all others. */
  datatype Obj = ReadEnd | WriteEnd | PipePage | Other(id: nat)

  /** Descriptor i of environment env: one address for its Fd page and one for its data page. */
  datatype At = At(env: nat, i: nat)

  /** What follows the close of a descriptor: nothing, or the rest of dup(o, .). */
  datatype Next = Finish | ThenDup(o: nat)

  /** Where an environment's library code stands; each position names the system call or load to come. */
  datatype Phase =
    | Free                                        // no such environment
    | Unborn(parent: nat)                         // not runnable: its address space is being filled, or was left half filled
    | Idle
    | Close1(i: nat, k: Next)                     // devpipe_close: unmap Fd page
    | Close2(i: nat, k: Next)                     // devpipe_close: unmap data page
    | Close3(i: nat, k: Next)                     // fd_close: unmap Fd page again
    | CloseFile(i: nat, k: Next)                  // another device: fd_close unmaps the Fd page
    | Dup1(o: nat, n: nat)                        // map data page of o at n, if there is one
    | Dup2(o: nat, n: nat)                        // map Fd page of o at n
    | Fail1(n: nat)                               // dup's error exit: unmap Fd page
    | Fail2(n: nat)                               // and data page
    | Check1(i: nat)                              // _pipeisclosed: load env_runs
    | Check2(i: nat, runs: nat)                   // load pageref(fd)
    | Check3(i: nat, runs: nat, a: nat)           // load pageref(p)
    | Check4(i: nat, runs: nat, a: nat, b: nat)   // load env_runs and decide
    | Answer(closed: bool)
    | ForkFd(child: nat, i: nat)                  // share Fd page i with the child
    | ForkData(child: nat, i: nat)                // share data page i with the child

  /** slots descriptors per environment; cur is running, and runs counts how often
      each environment has been resumed. */
  datatype Sys = Sys(slots: nat, fd: map<At, Obj>, data: map<At, Obj>, phase: seq<Phase>, cur: nat, runs: seq<nat>)

  /** Go takes the step the running environment stands at; the others start a
      library call, or resume another environment. */
  datatype Choice = Go | StartClose(i: nat) | StartDup(o: nat, n: nat) | StartCheck(i: nat) | NoMem
    | OpenFile(i: nat, id: nat) | MakePipe(i: nat, j: nat) | StartFork(child: nat) | Abort | Exit(to: nat) | Kill(victim: nat) | Switch(to: nat)

  predicate IsEnd(m: map<At, Obj>, a: At) {
    a in m && (m[a] == ReadEnd || m[a] == WriteEnd)
  }

  predicate HasPipe(m: map<At, Obj>, a: At) {
    a in m && m[a] == PipePage
  }

  function Goto(s: Sys, e: nat, p: Phase): Sys
    requires e < |s.phase|
  {
    s.(phase := s.phase[e := p])
  }

  function AfterClose(n: nat, k: Next): Phase {
    if k.Finish? then Idle else Dup1(k.o, n)
  }

  /** close(i): fails quietly unless i is open; the Fd's device decides how. */
  function CloseFrom(s: Sys, e: nat, i: nat, k: Next): Phase {
    if At(e, i) !in s.fd then AfterClose(i, k)
    else if IsEnd(s.fd, At(e, i)) then Close1(i, k)
    else CloseFile(i, k)
  }

  /** What is mapped at from is also mapped at to; nothing to do if nothing is. */
  function Share(m: map<At, Obj>, from: At, to: At): map<At, Obj> {
    if from in m then m[to := m[from]] else m
  }

  function Without(m: map<At, Obj>, e: nat): map<At, Obj> {
    m - set a | a in m && a.env == e
  }

  predicate Between(p: Phase) {
    p.Idle? || p.Answer?
  }

  predicate Alive(p: Phase) {
    !p.Free? && !p.Unborn?
  }

  /** Nothing of the pipe is mapped anywhere. */
  predicate NoPipe(m: map<At, Obj>) {
    forall a :: a in m ==> m[a] != ReadEnd && m[a] != WriteEnd && m[a] != PipePage
  }

  /** Can the running environment take this step? exit and destroying another
      environment are one kernel call each; open and pipe are taken as one step. */
  predicate Enabled(s: Sys, ch: Choice)
    requires s.cur < |s.phase|
  {
    var e, p := s.cur, s.phase[s.cur];
    match ch
    case Go => Alive(p) && !Between(p)
    case NoMem => p.Dup1? || p.Dup2?
    case Switch(to) => to < |s.phase| && Alive(s.phase[to])
    case StartClose(i) => Between(p) && i < s.slots
    case StartCheck(i) => Between(p) && IsEnd(s.fd, At(e, i))
    case StartDup(o, n) => Between(p) && At(e, o) in s.fd && n < s.slots
    case OpenFile(i, _) => Between(p) && At(e, i) !in s.fd && i < s.slots
    case MakePipe(i, j) =>
      && Between(p) && i != j && i < s.slots && j < s.slots && At(e, i) !in s.fd && At(e, j) !in s.fd
      && NoPipe(s.fd) && NoPipe(s.data)
    case StartFork(c) => Between(p) && c < |s.phase| && s.phase[c].Free?
    case Abort => p.ForkFd? || p.ForkData?
    case Exit(to) => to != e && to < |s.phase| && Alive(s.phase[to])
    case Kill(x) => Between(p) && x != e && x < |s.phase| && Alive(s.phase[x])
  }

  /** The system call or load that a position stands for. */
  ghost function Call(s: Sys): (t: Sys)
    requires s.cur < |s.phase| == |s.runs|
    ensures t.cur == s.cur && |t.phase| == |s.phase| && t.runs == s.runs
  {
    var e := s.cur;
    match s.phase[e]
    case Close1(i, k) => Goto(s, e, Close2(i, k)).(fd := s.fd - {At(e, i)})
    case Close2(i, k) => Goto(s, e, Close3(i, k)).(data := s.data - {At(e, i)})
    case Close3(i, k) => Goto(s, e, AfterClose(i, k)).(fd := s.fd - {At(e, i)})
    case CloseFile(i, k) => Goto(s, e, AfterClose(i, k)).(fd := s.fd - {At(e, i)})
    case Dup1(o, n) => Goto(s, e, Dup2(o, n)).(data := Share(s.data, At(e, o), At(e, n)))
    case Dup2(o, n) =>
      if At(e, o) in s.fd then Goto(s, e, Idle).(fd := Share(s.fd, At(e, o), At(e, n))) else Goto(s, e, Fail1(n))
    case Fail1(n) => Goto(s, e, Fail2(n)).(fd := s.fd - {At(e, n)})
    case Fail2(n) => Goto(s, e, Idle).(data := s.data - {At(e, n)})
    case Check1(i) => Goto(s, e, Check2(i, s.runs[e]))
    case Check2(i, r) => Goto(s, e, Check3(i, r, PageRef(s.fd, At(e, i))))
    case Check3(i, r, a) => Goto(s, e, Check4(i, r, a, PageRef(s.data, At(e, i))))
    case Check4(i, r, a, b) => Goto(s, e, if r == s.runs[e] then Answer(a == b) else Check1(i))
    case ForkFd(c, i) =>
      if i < s.slots then Goto(s, e, ForkFd(c, i + 1)).(fd := Share(s.fd, At(e, i), At(c, i)))
      else Goto(s, e, ForkData(c, 0))
    case ForkData(c, i) =>
      if i < s.slots then Goto(s, e, ForkData(c, i + 1)).(data := Share(s.data, At(e, i), At(c, i)))
      else if c < |s.phase| then Goto(Goto(s, e, Idle), c, Idle)
      else s
    case _ => s
  }

  /** pageref(v): how many mappings the page mapped at v has, or 0 if none is. */
  ghost function PageRef(m: map<At, Obj>, a: At): nat {
    if a in m then Count(m, m[a]) else 0
  }

  ghost function Resume(s: Sys, to: nat): Sys
    requires to < |s.runs|
  {
    s.(cur := to, runs := s.runs[to := s.runs[to] + 1])
  }

  /** env_free: every mapping goes. */
  ghost function Destroyed(s: Sys, x: nat): Sys
    requires x < |s.phase|
  {
    Goto(s, x, Free).(fd := Without(s.fd, x), data := Without(s.data, x))
  }

  ghost function Step(s: Sys, ch: Choice): Sys
    requires s.cur < |s.phase| == |s.runs| && Enabled(s, ch)
  {
    var e := s.cur;
    match ch
    case Go => Call(s)
    case StartClose(i) => Goto(s, e, CloseFrom(s, e, i, Finish))
    case StartDup(o, n) => Goto(s, e, CloseFrom(s, e, n, ThenDup(o)))
    case StartCheck(i) => Goto(s, e, Check1(i))
    case NoMem => Goto(s, e, Fail1(s.phase[e].n))
    case OpenFile(i, id) => Goto(s, e, Idle).(fd := s.fd[At(e, i) := Other(id)])
    case MakePipe(i, j) =>
      Goto(s, e, Idle).(fd := s.fd[At(e, i) := ReadEnd][At(e, j) := WriteEnd],
                        data := s.data[At(e, i) := PipePage][At(e, j) := PipePage])
    case StartFork(c) => Goto(Goto(s, e, ForkFd(c, 0)), c, Unborn(e))
    case Abort => if s.phase[e].child < |s.phase| then Goto(Destroyed(s, s.phase[e].child), e, Idle) else s
    case Exit(to) => Resume(Destroyed(s, e), to)
    case Kill(x) => Destroyed(s, x)
    case Switch(to) => Resume(s, to)
  }

  // ----- the invariant -----

  /** Between two system calls of close, or of dup, descriptor i may have its pipe page alone. */
  predicate HalfDone(p: Phase, i: nat) {
    match p
    case Close2(n, _) => i == n
    case Dup2(_, n) => i == n
    case Fail1(n) => i == n
    case Fail2(n) => i == n
    case _ => false
  }

  /** Mappings belong to an environment; outside a child still being filled, an end's Fd page is
      never mapped without the pipe page beside it; and outside a half-done close or dup
      the pipe page is never mapped without an end's Fd page. */
  predicate SlotOk(s: Sys, a: At) {
    && (a in s.fd || a in s.data ==> a.env < |s.phase| && a.i < s.slots && !s.phase[a.env].Free?)
    && (IsEnd(s.fd, a) && a.env < |s.phase| && !s.phase[a.env].Unborn? ==> HasPipe(s.data, a))
    && (HasPipe(s.data, a) && a.env < |s.phase| && !HalfDone(s.phase[a.env], a.i) ==> IsEnd(s.fd, a))
  }

  predicate Same(m: map<At, Obj>, a: At, b: At) {
    (a in m <==> b in m) && (a in m ==> m[a] == m[b])
  }

  /** A fork in progress: e has shared its first f Fd pages and first d data pages with c. */
  ghost predicate CopiedTo(s: Sys, e: nat, c: nat, f: nat, d: nat) {
    && f <= s.slots && d <= s.slots
    && c < |s.phase| && s.phase[c] == Unborn(e)
    && (forall j: nat {:trigger At(c, j)} ::
          && (if j < f then Same(s.fd, At(e, j), At(c, j)) else At(c, j) !in s.fd)
          && (if j < d then Same(s.data, At(e, j), At(c, j)) else At(c, j) !in s.data))
  }

  ghost predicate PhaseOk(s: Sys, e: nat)
    requires e < |s.phase|
  {
    match s.phase[e]
    case Close1(i, _) => i < s.slots
    case Close2(i, _) => i < s.slots && !IsEnd(s.fd, At(e, i))
    case Close3(i, _) => i < s.slots && !IsEnd(s.fd, At(e, i))
    case CloseFile(i, _) => i < s.slots && !IsEnd(s.fd, At(e, i))
    case Dup1(_, n) => n < s.slots && At(e, n) !in s.fd
    case Dup2(o, n) => n < s.slots && At(e, n) !in s.fd && (IsEnd(s.fd, At(e, o)) <==> HasPipe(s.data, At(e, n)))
    case Fail1(n) => At(e, n) !in s.fd
    case Fail2(n) => At(e, n) !in s.fd
    case Check1(i) => IsEnd(s.fd, At(e, i))
    case Check2(i, _) => IsEnd(s.fd, At(e, i))
    case Check3(i, _, _) => IsEnd(s.fd, At(e, i))
    case Check4(i, _, _, _) => IsEnd(s.fd, At(e, i))
    case ForkFd(c, i) => CopiedTo(s, e, c, i, 0)
    case ForkData(c, i) => CopiedTo(s, e, c, s.slots, i)
    case _ => true
  }

  /** No remembered run count is from the future. */
  predicate RunsOk(p: Phase, runs: nat) {
    match p
    case Check2(_, r) => r <= runs
    case Check3(_, r, _) => r <= runs
    case Check4(_, r, _, _) => r <= runs
    case _ => true
  }

  /** Counts loaded since the environment was last resumed are still current. */
  ghost predicate Fresh(s: Sys)
    requires s.cur < |s.phase| == |s.runs|
  {
    match s.phase[s.cur]
    case Check3(i, r, a) => r == s.runs[s.cur] ==> a == PageRef(s.fd, At(s.cur, i))
    case Check4(i, r, a, b) =>
      r == s.runs[s.cur] ==> a == PageRef(s.fd, At(s.cur, i)) && b == PageRef(s.data, At(s.cur, i))
    case _ => true
  }

  ghost predicate Inv(s: Sys) {
    && s.cur < |s.phase| == |s.runs|
    && Alive(s.phase[s.cur])
    && (forall a: At {:trigger SlotOk(s, a)} :: SlotOk(s, a))
    && (forall e: nat {:trigger PhaseOk(s, e)} :: e < |s.phase| ==> PhaseOk(s, e))
    && (forall e: nat {:trigger s.runs[e]} :: e < |s.phase| ==> RunsOk(s.phase[e], s.runs[e]))
    && Fresh(s)
  }

  // ----- preservation -----

  /** s' differs from s only in what e and c own. */
  ghost predicate OnlyOwn(s: Sys, s': Sys, e: nat, c: nat) {
    && s'.slots == s.slots
    && |s'.phase| == |s.phase|
    && (forall x: nat {:trigger s'.phase[x]} :: x < |s.phase| && x != e && x != c ==> s'.phase[x] == s.phase[x])
    && (forall a: At {:trigger a in s'.fd} {:trigger a in s'.data} :: a.env != e && a.env != c ==>
          && (a in s'.fd <==> a in s.fd) && (a in s'.data <==> a in s.data)
          && (a in s.fd ==> s'.fd[a] == s.fd[a]) && (a in s.data ==> s'.data[a] == s.data[a]))
  }

  /** Another environment's position stays good: its descriptors, and those of a
      child it is filling, are its own. */
  lemma OthersKeepPhase(s: Sys, s': Sys, e: nat, c: nat, x: nat)
    requires OnlyOwn(s, s', e, c)
    requires x < |s.phase| && x != e && x != c && PhaseOk(s, x)
    requires e < |s.phase| && !s.phase[e].Unborn?
    requires c == e || (c < |s.phase| && (s.phase[c] == Unborn(e) || s.phase[c].Free?))
    ensures PhaseOk(s', x)
  {
    match s.phase[x]
    case ForkFd(d, i) => OthersKeepCopy(s, s', e, c, x, d, i, 0);
    case ForkData(d, i) => OthersKeepCopy(s, s', e, c, x, d, s.slots, i);
    case Dup2(o, n) => assert At(x, o) in s'.fd <==> At(x, o) in s.fd; assert At(x, n) in s'.data <==> At(x, n) in s.data;
    case _ =>
  }

  lemma OthersKeepCopy(s: Sys, s': Sys, e: nat, c: nat, x: nat, d: nat, f: nat, g: nat)
    requires OnlyOwn(s, s', e, c) && x != e && x != c && e < |s.phase| && !s.phase[e].Unborn?
    requires c == e || (c < |s.phase| && (s.phase[c] == Unborn(e) || s.phase[c].Free?))
    requires CopiedTo(s, x, d, f, g)
    ensures CopiedTo(s', x, d, f, g)
  {
    assert d != e && d != c;
    assert forall j: nat :: At(d, j).env == d && At(x, j).env == x;
  }

  /** A step of e that touches its own descriptors only: what has to be looked at. */
  lemma OwnStepKeeps(s: Sys, s': Sys)
    requires Inv(s)
    requires !s.phase[s.cur].ForkFd? && !s.phase[s.cur].ForkData?
    requires OnlyOwn(s, s', s.cur, s.cur) && s'.cur == s.cur && s'.runs == s.runs
    requires Alive(s'.phase[s.cur]) && PhaseOk(s', s.cur) && RunsOk(s'.phase[s.cur], s.runs[s.cur]) && Fresh(s')
    requires forall i: nat {:trigger At(s.cur, i)} :: SlotOk(s', At(s.cur, i))
    ensures Inv(s')
  {
    var e := s.cur;
    forall a: At ensures SlotOk(s', a) {
      assert SlotOk(s, a);
      if a.env == e {
        assert a == At(e, a.i);
      }
    }
    forall x: nat | x < |s.phase| ensures PhaseOk(s', x) {
      assert PhaseOk(s, x);
      if x != e {
        OthersKeepPhase(s, s', e, e, x);
      }
    }
  }

  lemma CloseKeeps(s: Sys)
    requires Inv(s)
    requires s.phase[s.cur].Close1? || s.phase[s.cur].Close2? || s.phase[s.cur].Close3? || s.phase[s.cur].CloseFile?
    ensures Inv(Call(s))
  {
    var e := s.cur;
    assert PhaseOk(s, e);
    assert forall i: nat :: SlotOk(s, At(e, i));
    OwnStepKeeps(s, Call(s));
  }

  lemma DupKeeps(s: Sys)
    requires Inv(s)
    requires s.phase[s.cur].Dup1? || s.phase[s.cur].Dup2? || s.phase[s.cur].Fail1? || s.phase[s.cur].Fail2?
    ensures Inv(Call(s))
  {
    var e := s.cur;
    assert PhaseOk(s, e);
    assert forall i: nat :: SlotOk(s, At(e, i));
    OwnStepKeeps(s, Call(s));
  }

  lemma CheckKeeps(s: Sys)
    requires Inv(s)
    requires s.phase[s.cur].Check1? || s.phase[s.cur].Check2? || s.phase[s.cur].Check3? || s.phase[s.cur].Check4?
    ensures Inv(Call(s))
  {
    var e := s.cur;
    assert PhaseOk(s, e);
    assert forall i: nat :: SlotOk(s, At(e, i));
    OwnStepKeeps(s, Call(s));
  }

  /** A step of a fork: it touches the child's descriptors only. */
  lemma ForkStepKeeps(s: Sys, s': Sys, c: nat)
    requires Inv(s)
    requires s.phase[s.cur].ForkFd? || s.phase[s.cur].ForkData?
    requires c == s.phase[s.cur].child
    requires OnlyOwn(s, s', s.cur, c) && s'.cur == s.cur && s'.runs == s.runs
    requires forall i: nat {:trigger At(s.cur, i)} :: SlotOk(s', At(s.cur, i))
    requires forall i: nat {:trigger At(c, i)} :: SlotOk(s', At(c, i))
    requires Alive(s'.phase[s.cur]) && c < |s.phase| && PhaseOk(s', s.cur) && PhaseOk(s', c)
    requires RunsOk(s'.phase[s.cur], s.runs[s.cur]) && RunsOk(s'.phase[c], s.runs[c]) && Fresh(s')
    ensures Inv(s')
  {
    var e := s.cur;
    assert PhaseOk(s, e);
    forall a: At ensures SlotOk(s', a) {
      assert SlotOk(s, a);
      assert a == At(a.env, a.i);
    }
    forall x: nat | x < |s.phase| ensures PhaseOk(s', x) {
      assert PhaseOk(s, x);
      if x != e && x != c {
        OthersKeepPhase(s, s', e, c, x);
      }
    }
  }

  lemma ForkFdKeeps(s: Sys)
    requires Inv(s) && s.phase[s.cur].ForkFd? && s.phase[s.cur].i < s.slots
    ensures Inv(Call(s))
  {
    var e := s.cur;
    var c := s.phase[e].child;
    assert PhaseOk(s, e) && PhaseOk(s, c);
    assert forall i: nat :: SlotOk(s, At(e, i)) && SlotOk(s, At(c, i));
    ForkStepKeeps(s, Call(s), c);
  }

  /** All Fd pages are shared; the data pages are next. */
  lemma ForkTurnKeeps(s: Sys)
    requires Inv(s) && s.phase[s.cur].ForkFd? && s.phase[s.cur].i >= s.slots
    ensures Inv(Call(s))
  {
    var e := s.cur;
    var c := s.phase[e].child;
    assert PhaseOk(s, e) && PhaseOk(s, c);
    assert forall i: nat :: SlotOk(s, At(e, i)) && SlotOk(s, At(c, i));
    ForkStepKeeps(s, Call(s), c);
  }

  lemma ForkDataKeeps(s: Sys)
    requires Inv(s) && s.phase[s.cur].ForkData?
    requires s.phase[s.cur].i < s.slots
    ensures Inv(Call(s))
  {
    var e := s.cur;
    var c := s.phase[e].child;
    assert PhaseOk(s, e) && PhaseOk(s, c);
    assert forall i: nat :: SlotOk(s, At(e, i)) && SlotOk(s, At(c, i));
    ForkStepKeeps(s, Call(s), c);
  }

  /** The child is complete, so every end it inherited has its pipe page. */
  lemma ForkDoneKeeps(s: Sys)
    requires Inv(s) && s.phase[s.cur].ForkData?
    requires s.phase[s.cur].i >= s.slots
    ensures Inv(Call(s))
  {
    var e := s.cur;
    var c := s.phase[e].child;
    assert PhaseOk(s, e) && PhaseOk(s, c);
    assert forall i: nat :: SlotOk(s, At(e, i)) && SlotOk(s, At(c, i));
    ForkStepKeeps(s, Call(s), c);
  }

  lemma CallKeeps(s: Sys)
    requires Inv(s) && Enabled(s, Go)
    ensures Inv(Call(s))
  {
    match s.phase[s.cur] {
      case ForkFd(_, i) =>
        if i < s.slots {
          ForkFdKeeps(s);
        } else {
          ForkTurnKeeps(s);
        }
      case ForkData(_, i) =>
        if i < s.slots {
          ForkDataKeeps(s);
        } else {
          ForkDoneKeeps(s);
        }
      case Check1(_) => CheckKeeps(s);
      case Check2(_, _) => CheckKeeps(s);
      case Check3(_, _, _) => CheckKeeps(s);
      case Check4(_, _, _, _) => CheckKeeps(s);
      case Dup1(_, _) => DupKeeps(s);
      case Dup2(_, _) => DupKeeps(s);
      case Fail1(_) => DupKeeps(s);
      case Fail2(_) => DupKeeps(s);
      case _ => CloseKeeps(s);
    }
  }

  lemma StartKeeps(s: Sys, ch: Choice)
    requires Inv(s) && Enabled(s, ch)
    requires ch.StartClose? || ch.StartDup? || ch.StartCheck? || ch.NoMem? || ch.OpenFile?
    ensures Inv(Step(s, ch))
  {
    var e := s.cur;
    assert PhaseOk(s, e);
    assert forall i: nat :: SlotOk(s, At(e, i));
    OwnStepKeeps(s, Step(s, ch));
  }

  lemma MakePipeKeeps(s: Sys, i: nat, j: nat)
    requires Inv(s) && Enabled(s, MakePipe(i, j))
    ensures Inv(Step(s, MakePipe(i, j)))
  {
    var e := s.cur;
    assert PhaseOk(s, e);
    assert forall x: nat :: SlotOk(s, At(e, x));
    OwnStepKeeps(s, Step(s, MakePipe(i, j)));
  }

  lemma StartForkKeeps(s: Sys, c: nat)
    requires Inv(s) && Enabled(s, StartFork(c))
    ensures Inv(Step(s, StartFork(c)))
  {
    var e, s' := s.cur, Step(s, StartFork(c));
    assert forall i: nat :: SlotOk(s, At(c, i));
    forall a: At ensures SlotOk(s', a) {
      assert SlotOk(s, a);
    }
    forall x: nat | x < |s.phase| ensures PhaseOk(s', x) {
      assert PhaseOk(s, x);
      if x != e && x != c {
        OthersKeepPhase(s, s', e, c, x);
      }
    }
  }

  lemma SwitchKeeps(s: Sys, to: nat)
    requires Inv(s) && Enabled(s, Switch(to))
    ensures Inv(Resume(s, to))
  {
    var s' := Resume(s, to);
    forall a: At ensures SlotOk(s', a) {
      assert SlotOk(s, a);
    }
    forall x: nat | x < |s.phase| ensures PhaseOk(s', x) {
      assert PhaseOk(s, x);
    }
    assert RunsOk(s.phase[to], s.runs[to]);
  }

  /** An environment disappears, whatever it was doing; a child it was filling stays half filled. */
  lemma DestroyedKeeps(s: Sys, x: nat)
    requires Inv(s) && x < |s.phase| && Alive(s.phase[x])
    ensures forall a: At {:trigger SlotOk(Destroyed(s, x), a)} :: SlotOk(Destroyed(s, x), a)
    ensures forall e: nat {:trigger PhaseOk(Destroyed(s, x), e)} :: e < |s.phase| ==> PhaseOk(Destroyed(s, x), e)
  {
    var s' := Destroyed(s, x);
    forall a: At ensures SlotOk(s', a) {
      assert SlotOk(s, a);
    }
    forall e: nat | e < |s.phase| ensures PhaseOk(s', e) {
      assert PhaseOk(s, e);
      if e != x {
        OthersKeepPhase(s, s', x, x, e);
      }
    }
  }

  lemma ExitKeeps(s: Sys, to: nat)
    requires Inv(s) && Enabled(s, Exit(to))
    ensures Inv(Step(s, Exit(to)))
  {
    var u, s' := Destroyed(s, s.cur), Step(s, Exit(to));
    DestroyedKeeps(s, s.cur);
    forall a: At ensures SlotOk(s', a) {
      assert SlotOk(u, a);
    }
    forall x: nat | x < |s.phase| ensures PhaseOk(s', x) {
      assert PhaseOk(u, x);
    }
    assert RunsOk(s.phase[to], s.runs[to]);
  }

  lemma KillKeeps(s: Sys, x: nat)
    requires Inv(s) && Enabled(s, Kill(x))
    ensures Inv(Destroyed(s, x))
  {
    DestroyedKeeps(s, x);
  }

  /** A parent gives up, as spawn does when it cannot load the program, and destroys the child it was filling. */
  lemma AbortKeeps(s: Sys)
    requires Inv(s) && Enabled(s, Abort)
    ensures Inv(Step(s, Abort))
  {
    var e := s.cur;
    var c, s' := s.phase[e].child, Step(s, Abort);
    assert PhaseOk(s, e) && PhaseOk(s, c);
    assert forall i: nat :: SlotOk(s, At(e, i)) && SlotOk(s, At(c, i));
    ForkStepKeeps(s, s', c);
  }

  lemma StepKeeps(s: Sys, ch: Choice)
    requires Inv(s) && Enabled(s, ch)
    ensures Inv(Step(s, ch))
  {
    match ch {
      case Go => CallKeeps(s);
      case StartFork(c) => StartForkKeeps(s, c);
      case MakePipe(i, j) => MakePipeKeeps(s, i, j);
      case Switch(to) => SwitchKeeps(s, to);
      case Exit(to) => ExitKeeps(s, to);
      case Kill(x) => KillKeeps(s, x);
      case Abort => AbortKeeps(s);
      case _ => StartKeeps(s, ch);
    }
  }

  // ----- what the counts say -----

  ghost function Ends(s: Sys): set<At> {
    Sites(s.fd, ReadEnd) + Sites(s.fd, WriteEnd)
  }

  /** Descriptors of an end whose pipe page is not there, and pipe pages whose descriptor is not an end. */
  ghost function Missing(s: Sys): set<At> {
    Ends(s) - Sites(s.data, PipePage)
  }

  ghost function Spare(s: Sys): set<At> {
    Sites(s.data, PipePage) - Ends(s)
  }

  lemma SplitBy<T>(a: set<T>, b: set<T>)
    ensures |a| == |a * b| + |a - b|
  {
    assert a == a * b + (a - b);
  }

  /** The exact balance between the pipe page's references and those of its two ends. */
  lemma Balance(s: Sys)
    ensures Count(s.data, PipePage) + |Missing(s)| == Count(s.fd, ReadEnd) + Count(s.fd, WriteEnd) + |Spare(s)|
  {
    var r, w, p := Sites(s.fd, ReadEnd), Sites(s.fd, WriteEnd), Sites(s.data, PipePage);
    assert r !! w;
    SplitBy(r + w, p);
    SplitBy(p, r + w);
    assert (r + w) * p == p * (r + w);
  }

  predicate NoFork(s: Sys) {
    forall e :: 0 <= e < |s.phase| ==> !s.phase[e].Unborn?
  }

  /** Only a child still being filled misses a pipe page. */
  lemma OnlyChildrenMiss(s: Sys)
    requires Inv(s)
    ensures forall a :: a in Missing(s) ==> a.env < |s.phase| && s.phase[a.env].Unborn?
    ensures NoFork(s) ==> Missing(s) == {}
  {
    forall a | a in Missing(s) ensures a.env < |s.phase| && s.phase[a.env].Unborn? {
      assert SlotOk(s, a);
    }
  }

  /** Only a half-done close or dup has a pipe page to spare. */
  lemma OnlyHalfDoneSpare(s: Sys)
    requires Inv(s)
    ensures forall a :: a in Spare(s) ==> a.env < |s.phase| && HalfDone(s.phase[a.env], a.i)
  {
    forall a | a in Spare(s) ensures a.env < |s.phase| && HalfDone(s.phase[a.env], a.i) {
      assert SlotOk(s, a);
    }
  }

  /** Nobody is in the middle of a close, a dup or a fork. */
  predicate Settled(s: Sys) {
    forall e :: 0 <= e < |s.phase| ==> var p := s.phase[e]; !p.Unborn? && !p.Close2? && !p.Dup2? && !p.Fail1? && !p.Fail2?
  }

  /** Then pipe pages and ends are paired one to one. */
  lemma SettledPairs(s: Sys)
    requires Inv(s) && Settled(s)
    ensures NoFork(s) && Missing(s) == {} && Spare(s) == {}
    ensures Count(s.data, PipePage) == Count(s.fd, ReadEnd) + Count(s.fd, WriteEnd)
  {
    OnlyChildrenMiss(s);
    OnlyHalfDoneSpare(s);
    Balance(s);
  }

  ghost function OtherEnd(o: Obj): Obj {
    if o == ReadEnd then WriteEnd else ReadEnd
  }

  /** The running environment is about to answer "closed" about its descriptor i. */
  predicate SaysClosed(s: Sys, i: nat)
    requires s.cur < |s.phase| == |s.runs|
  {
    && s.phase[s.cur].Check4? && s.phase[s.cur].i == i
    && s.phase[s.cur].runs == s.runs[s.cur] && s.phase[s.cur].a == s.phase[s.cur].b
  }

  /** What "closed" is worth: the other end has exactly as many descriptors as
      unfilled children still miss pipe pages, less the spare pipe pages. */
  lemma ClosedMeans(s: Sys, i: nat)
    requires Inv(s) && SaysClosed(s, i)
    ensures IsEnd(s.fd, At(s.cur, i))
    ensures Step(s, Go).phase[s.cur] == Answer(true)
    ensures Count(s.fd, OtherEnd(s.fd[At(s.cur, i)])) + |Spare(s)| == |Missing(s)|
    ensures Count(s.fd, OtherEnd(s.fd[At(s.cur, i)])) == 0 <==> |Missing(s)| == |Spare(s)|
    ensures NoFork(s) ==> Count(s.fd, OtherEnd(s.fd[At(s.cur, i)])) == 0
  {
    assert PhaseOk(s, s.cur) && SlotOk(s, At(s.cur, i));
    Balance(s);
    OnlyChildrenMiss(s);
  }

  /** The running environment is about to answer about its descriptor i. */
  predicate Decides(s: Sys, i: nat)
    requires s.cur < |s.phase| == |s.runs|
  {
    s.phase[s.cur].Check4? && s.phase[s.cur].i == i && s.phase[s.cur].runs == s.runs[s.cur]
  }

  /** What "open" is worth: with no fork under way, the other end has as many descriptors as the counts
      differ by, less the spare pipe pages of closes and dups that are not finished. */
  lemma OpenMeans(s: Sys, i: nat)
    requires Inv(s) && Decides(s, i) && s.phase[s.cur].a != s.phase[s.cur].b
    ensures IsEnd(s.fd, At(s.cur, i))
    ensures Step(s, Go).phase[s.cur] == Answer(false)
    ensures Count(s.fd, OtherEnd(s.fd[At(s.cur, i)])) + |Spare(s)| != |Missing(s)|
    ensures NoFork(s) ==> Count(s.fd, OtherEnd(s.fd[At(s.cur, i)])) + |Spare(s)| == s.phase[s.cur].b - s.phase[s.cur].a
    ensures Missing(s) == Spare(s) == {} ==> Count(s.fd, OtherEnd(s.fd[At(s.cur, i)])) > 0
  {
    assert PhaseOk(s, s.cur) && SlotOk(s, At(s.cur, i));
    Balance(s);
    OnlyChildrenMiss(s);
  }

  /** With nothing half done, the answer is right: "closed" if and only if the other end has no descriptor. */
  lemma SettledAnswer(s: Sys, i: nat)
    requires Inv(s) && Settled(s) && Decides(s, i)
    ensures IsEnd(s.fd, At(s.cur, i))
    ensures Step(s, Go).phase[s.cur] == Answer(Count(s.fd, OtherEnd(s.fd[At(s.cur, i)])) == 0)
  {
    SettledPairs(s);
    if s.phase[s.cur].a == s.phase[s.cur].b {
      ClosedMeans(s, i);
    } else {
      OpenMeans(s, i);
    }
  }

  // ----- whole calls -----

  /** close(i) of an end: both pages are gone, and nothing else. */
  lemma CloseLetsGo(s: Sys, i: nat)
    requires Inv(s) && Enabled(s, StartClose(i)) && IsEnd(s.fd, At(s.cur, i))
    ensures var t := Call(Call(Call(Step(s, StartClose(i)))));
      t == s.(phase := s.phase[s.cur := Idle], fd := s.fd - {At(s.cur, i)}, data := s.data - {At(s.cur, i)})
  {
    var e := s.cur;
    var s0 := Step(s, StartClose(i));
    assert s0 == Goto(s, e, Close1(i, Finish));
    var s1 := Call(s0);
    assert s1 == Goto(s0, e, Close2(i, Finish)).(fd := s.fd - {At(e, i)});
    var s2 := Call(s1);
    assert s2 == Goto(s1, e, Close3(i, Finish)).(data := s.data - {At(e, i)});
    var s3 := Call(s2);
    assert s3.fd == s.fd - {At(e, i)} && s3.phase == s.phase[e := Idle];
  }

  /** dup(o, n) onto a free descriptor: it has the pages that o has, and nothing else changes. */
  lemma DupShares(s: Sys, o: nat, n: nat)
    requires Inv(s) && Enabled(s, StartDup(o, n)) && At(s.cur, n) !in s.fd && At(s.cur, n) !in s.data
    ensures var t := Call(Call(Step(s, StartDup(o, n))));
      && t == s.(phase := s.phase[s.cur := Idle], fd := s.fd[At(s.cur, n) := s.fd[At(s.cur, o)]], data := t.data)
      && Same(t.data, At(s.cur, o), At(s.cur, n)) && t.data - {At(s.cur, n)} == s.data
  {
    var e := s.cur;
    var s0 := Step(s, StartDup(o, n));
    assert s0 == Goto(s, e, Dup1(o, n));
    var s1 := Call(s0);
    assert s1 == Goto(s0, e, Dup2(o, n)).(data := Share(s.data, At(e, o), At(e, n)));
    var s2 := Call(s1);
    assert s2.phase == s.phase[e := Idle];
  }

  /** The last step of fork: the child has every descriptor of its parent, page for page, and can run. */
  lemma ForkCopies(s: Sys, j: nat)
    requires Inv(s) && s.phase[s.cur].ForkData? && s.phase[s.cur].i >= s.slots && j < s.slots
    ensures var c, t := s.phase[s.cur].child, Call(s);
      && c < |s.phase| && t.phase[c] == t.phase[s.cur] == Idle
      && Same(t.fd, At(s.cur, j), At(c, j)) && Same(t.data, At(s.cur, j), At(c, j))
  {
    assert PhaseOk(s, s.cur);
    var c := s.phase[s.cur].child;
    assert At(c, j).env == c;
  }

  // ----- runs -----

  ghost predicate Run(s: Sys, steps: seq<Choice>, t: Sys)
    decreases |steps|
  {
    if steps == [] then t == s
    else s.cur < |s.phase| == |s.runs| && Enabled(s, steps[0]) && Run(Step(s, steps[0]), steps[1..], t)
  }

  /** A system in which one environment runs and nothing is mapped yet. */
  lemma StartInv(s: Sys)
    requires s.cur < |s.phase| == |s.runs| && s.phase[s.cur] == Idle && s.fd == map[] && s.data == map[]
    requires forall e :: 0 <= e < |s.phase| && e != s.cur ==> s.phase[e] == Free
    ensures Inv(s)
  {
  }

  /** A first pipe: its two ends are open once each, its page twice, and nothing else has changed. */
  lemma FirstPipe(s: Sys, i: nat, j: nat)
    requires s.cur < |s.phase| == |s.runs| && s.phase[s.cur] == Idle && s.fd == map[] && s.data == map[]
    requires forall e :: 0 <= e < |s.phase| && e != s.cur ==> s.phase[e] == Free
    requires i < s.slots && j < s.slots && i != j
    ensures Inv(s) && Enabled(s, MakePipe(i, j))
    ensures var t := Step(s, MakePipe(i, j));
      && t.fd == map[At(s.cur, i) := ReadEnd, At(s.cur, j) := WriteEnd]
      && t.data == map[At(s.cur, i) := PipePage, At(s.cur, j) := PipePage]
      && Count(t.fd, ReadEnd) == Count(t.fd, WriteEnd) == 1 && Count(t.data, PipePage) == 2
  {
    StartInv(s);
    var e, t := s.cur, Step(s, MakePipe(i, j));
    assert Sites(t.fd, ReadEnd) == {At(e, i)} && Sites(t.fd, WriteEnd) == {At(e, j)};
    assert Sites(t.data, PipePage) == {At(e, i), At(e, j)};
  }

  /** Opening a file takes the descriptor, and closing it gives it back: two steps after which all is as before. */
  lemma OpenThenClose(s: Sys, i: nat, id: nat)
    requires Inv(s) && Enabled(s, OpenFile(i, id))
    ensures var t := Step(s, OpenFile(i, id));
      && At(s.cur, i) in t.fd && !IsEnd(t.fd, At(s.cur, i)) && Enabled(t, StartClose(i))
      && Call(Step(t, StartClose(i))) == s.(phase := s.phase[s.cur := Idle])
  {
    var e, t := s.cur, Step(s, OpenFile(i, id));
    assert t.fd - {At(e, i)} == s.fd;
    assert Call(Step(t, StartClose(i))).phase == s.phase[e := Idle];
  }

  /** In every reachable state with no fork under way the pipe page has at least as
      many references as its ends, and "closed" means the other end has none; with no
      close or dup half done either, "open" means that it has one. */
  lemma {:induction false} PipeCountsSound(s: Sys, steps: seq<Choice>, t: Sys)
    requires Inv(s) && Run(s, steps, t)
    ensures Inv(t)
    ensures NoFork(t) ==> Count(t.data, PipePage) >= Count(t.fd, ReadEnd) + Count(t.fd, WriteEnd)
    ensures forall i: nat :: NoFork(t) && SaysClosed(t, i) ==>
              IsEnd(t.fd, At(t.cur, i)) && Count(t.fd, OtherEnd(t.fd[At(t.cur, i)])) == 0
    ensures forall i: nat :: Settled(t) && Decides(t, i) ==>
              IsEnd(t.fd, At(t.cur, i)) && Step(t, Go).phase[t.cur] == Answer(Count(t.fd, OtherEnd(t.fd[At(t.cur, i)])) == 0)
    decreases |steps|
  {
    if steps == [] {
      OnlyChildrenMiss(s);
      Balance(s);
      forall i: nat | NoFork(t) && SaysClosed(t, i)
        ensures IsEnd(t.fd, At(t.cur, i)) && Count(t.fd, OtherEnd(t.fd[At(t.cur, i)])) == 0
      {
        ClosedMeans(t, i);
      }
      forall i: nat | Settled(t) && Decides(t, i)
        ensures IsEnd(t.fd, At(t.cur, i)) && Step(t, Go).phase[t.cur] == Answer(Count(t.fd, OtherEnd(t.fd[At(t.cur, i)])) == 0)
      {
        SettledAnswer(t, i);
      }
    } else {
      StepKeeps(s, steps[0]);
      PipeCountsSound(Step(s, steps[0]), steps[1..], t);
    }
  }

  // ----- a fork under way makes the answer wrong -----

  /** Three environments hold one descriptor each: a reader and two writers. */
  ghost function ThreeHolders(): Sys {
    Sys(1, map[At(0, 0) := ReadEnd, At(1, 0) := WriteEnd, At(2, 0) := WriteEnd],
        map[At(0, 0) := PipePage, At(1, 0) := PipePage, At(2, 0) := PipePage],
        [Idle, Idle, Idle, Free], 2, [0, 0, 0, 0])
  }

  /** The same once environment 2 has shared its Fd page, but not its data page, with environment 3. */
  ghost function Midway(asking: Phase): Sys {
    ThreeHolders().(
      fd := ThreeHolders().fd[At(3, 0) := WriteEnd],
      phase := [Idle, asking, ForkFd(3, 1), Unborn(2)],
      cur := 1,
      runs := [0, 1, 0, 0])
  }

  /** s takes step ch to s'. */
  ghost predicate Leads(s: Sys, ch: Choice, s': Sys) {
    s.cur < |s.phase| == |s.runs| && Enabled(s, ch) && Step(s, ch) == s'
  }

  lemma Then(s: Sys, ch: Choice, s': Sys, rest: seq<Choice>, t: Sys)
    requires Leads(s, ch, s') && Run(s', rest, t)
    ensures Run(s, [ch] + rest, t)
  {
    assert ([ch] + rest)[1..] == rest;
  }

  lemma MidwayCounts()
    ensures var m := Midway(Idle);
            Count(m.fd, WriteEnd) == 3 && Count(m.fd, ReadEnd) == 1 && Count(m.data, PipePage) == 3
  {
    var m := Midway(Idle);
    assert Sites(m.fd, WriteEnd) == {At(1, 0), At(2, 0), At(3, 0)};
    assert Sites(m.fd, ReadEnd) == {At(0, 0)};
    assert Sites(m.data, PipePage) == {At(0, 0), At(1, 0), At(2, 0)};
  }

  lemma MidwayGoto(p: Phase, q: Phase)
    ensures Goto(Midway(p), 1, q) == Midway(q)
  {
    assert Midway(p).phase[1 := q] == Midway(q).phase;
  }

  /** The second writer's question, asked at that moment. */
  lemma StartMidway()
    ensures Leads(Midway(Idle), StartCheck(0), Midway(Check1(0)))
    ensures Leads(Midway(Check1(0)), Go, Midway(Check2(0, 1)))
  {
    MidwayGoto(Idle, Check1(0));
    MidwayGoto(Check1(0), Check2(0, 1));
  }

  lemma AskMidway()
    ensures Leads(Midway(Check2(0, 1)), Go, Midway(Check3(0, 1, 3)))
    ensures Leads(Midway(Check3(0, 1, 3)), Go, Midway(Check4(0, 1, 3, 3)))
  {
    MidwayCounts();
    MidwayGoto(Check2(0, 1), Check3(0, 1, 3));
    MidwayGoto(Check3(0, 1, 3), Check4(0, 1, 3, 3));
  }

  /** The first writer forks and is preempted. */
  lemma ForkMidway(s1: Sys, s2: Sys)
    requires s1 == ThreeHolders().(phase := [Idle, Idle, ForkFd(3, 0), Unborn(2)])
    requires s2 == s1.(phase := [Idle, Idle, ForkFd(3, 1), Unborn(2)], fd := Midway(Idle).fd)
    ensures Leads(ThreeHolders(), StartFork(3), s1)
    ensures Leads(s1, Go, s2)
    ensures Leads(s2, Switch(1), Midway(Idle))
  {
    assert ThreeHolders().phase[2 := ForkFd(3, 0)][3 := Unborn(2)] == s1.phase;
    assert s1.phase[2 := ForkFd(3, 1)] == s2.phase;
    assert s2.runs[1 := 1] == Midway(Idle).runs;
  }

  lemma ThreeHoldersInv()
    ensures Inv(ThreeHolders())
  {
  }

  /** "Closed", although a reader is there: the hypothesis that no fork is under way cannot be dropped. */
  lemma ForkMidwayFoolsCheck() returns (steps: seq<Choice>, t: Sys)
    ensures Inv(ThreeHolders()) && Run(ThreeHolders(), steps, t)
    ensures t == Midway(Check4(0, 1, 3, 3)) && SaysClosed(t, 0)
    ensures t.fd[At(1, 0)] == WriteEnd && Count(t.fd, ReadEnd) == 1
  {
    ThreeHoldersInv();
    MidwayCounts();
    StartMidway();
    AskMidway();
    t := Midway(Check4(0, 1, 3, 3));
    var s1 := ThreeHolders().(phase := [Idle, Idle, ForkFd(3, 0), Unborn(2)]);
    var s2 := s1.(phase := [Idle, Idle, ForkFd(3, 1), Unborn(2)], fd := Midway(Idle).fd);
    ForkMidway(s1, s2);
    steps := [Go];
    assert Run(t, [], t);
    Then(Midway(Check3(0, 1, 3)), Go, t, [], t);
    Then(Midway(Check2(0, 1)), Go, Midway(Check3(0, 1, 3)), [Go], t);
    Then(Midway(Check1(0)), Go, Midway(Check2(0, 1)), [Go] + [Go], t);
    steps := [Go] + ([Go] + [Go]);
    Then(Midway(Idle), StartCheck(0), Midway(Check1(0)), steps, t);
    steps := [StartCheck(0)] + steps;
    Then(s2, Switch(1), Midway(Idle), steps, t);
    steps := [Switch(1)] + steps;
    Then(s1, Go, s2, steps, t);
    steps := [Go] + steps;
    Then(ThreeHolders(), StartFork(3), s1, steps, t);
    steps := [StartFork(3)] + steps;
  }
}
