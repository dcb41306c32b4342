/**
 The prompts of the websocket server: any number of `handleServer` runs, one user interface
 that answers, and the mutexes between them. A mutex that one thread locks and another
 unlocks is a binary semaphore.
 */
module PromptProtocol {

  /** The three questions put to the user. */
  datatype Kind = Permission | Transaction | Signature

  datatype Lock =
    | PermissionList
    | Global
    | RequestMutex(kind: Kind)
    | InputRequest(kind: Kind)
    | InputAnswer(kind: Kind)
    | PosRequest

  /** What a website sends: a request that needs no permission, one that needs only that, and
      the two that need the user's word each time. */
  datatype Request =
    | Free
    | Accounts(site: string)
    | Send(site: string)
    | Sign(site: string)

  datatype Response = Pending | Result(text: string) | Rejected

  datatype Thread = Thread(request: Request, pc: nat, permission: bool, response: Response)

  datatype Instruction =
    | Acquire(lock: Lock)
    | Release(lock: Lock)
    | Consult
    | Ask(kind: Kind)
    | Reread
    | Decide
    | ReadAnswer
    | WriteBack
    | Stop

  predicate Confirms(r: Request) { r.Send? || r.Sign? }

  function KindOf(r: Request): Kind
  {
    if r.Sign? then Signature else Transaction
  }

  const FOUND: nat := 11
  const CONFIRM: nat := 13
  const ANSWER: nat := 24
  const DONE: nat := 27
  const CLOSED: nat := 28

  /** `handleServer` as a list of instructions. */
  function At(t: Thread): Instruction
  {
    var k := KindOf(t.request);
    if t.pc == 0 then Acquire(PermissionList)
    else if t.pc == 1 then Consult
    else if t.pc == 2 then Acquire(Global)
    else if t.pc == 3 then Acquire(InputRequest(Permission))
    else if t.pc == 4 then Ask(Permission)
    else if t.pc == 5 then Acquire(InputAnswer(Permission))
    else if t.pc == 6 then Acquire(InputAnswer(Permission))
    else if t.pc == 7 then Reread
    else if t.pc == 8 then Release(InputAnswer(Permission))
    else if t.pc == 9 then Release(InputRequest(Permission))
    else if t.pc == 10 then Release(Global)
    else if t.pc == FOUND then Release(PermissionList)
    else if t.pc == 12 then Decide
    else if t.pc == CONFIRM then Acquire(Global)
    else if t.pc == 14 then Acquire(RequestMutex(k))
    else if t.pc == 15 then Acquire(InputRequest(k))
    else if t.pc == 16 then Acquire(InputAnswer(k))
    else if t.pc == 17 then Ask(k)
    else if t.pc == 18 then Acquire(InputAnswer(k))
    else if t.pc == 19 then ReadAnswer
    else if t.pc == 20 then Release(InputAnswer(k))
    else if t.pc == 21 then Release(InputRequest(k))
    else if t.pc == 22 then Release(RequestMutex(k))
    else if t.pc == 23 then Release(Global)
    else if t.pc == ANSWER then Acquire(PosRequest)
    else if t.pc == 25 then WriteBack
    else if t.pc == 26 then Release(PosRequest)
    else Stop
  }

  function Start(r: Request): Thread
  {
    Thread(r, if r.Free? then ANSWER else 0, false, Pending)
  }

  datatype Prompt = Prompt(thread: nat, kind: Kind)

  /** The interface thread: idle, or about to unlock the answer it has just written. */
  datatype Ui = Idle | Unlocking(kind: Kind)

  /** `held` says which locks are taken (and by whom, which no step reads); `texts` are the
      shared strings the answers travel in; `lost` remembers that an answer was unlocked
      before anyone had locked it. */
  datatype System = System(
    threads: seq<Thread>, held: map<Lock, nat>, permissions: map<string, bool>,
    texts: map<Kind, string>, prompts: set<Prompt>, ui: Ui, lost: bool)

  function Text(s: System, k: Kind): string
  {
    if k in s.texts then s.texts[k] else ""
  }

  datatype Event =
    | Arrive(request: Request)
    | Run(thread: nat)
    | Answer(prompt: Prompt, approved: bool, text: string)
    | Unlock

  predicate Enabled(s: System, e: Event)
  {
    match e
    case Arrive(_) => true
    case Run(i) =>
      i < |s.threads| && At(s.threads[i]) != Stop
      && (At(s.threads[i]).Acquire? ==> At(s.threads[i]).lock !in s.held)
    case Answer(p, _, _) => p in s.prompts && p.thread < |s.threads| && s.ui == Idle
    case Unlock => s.ui.Unlocking?
  }

  predicate Allowed(s: System, site: string)
  {
    site in s.permissions && s.permissions[site]
  }

  function SiteOf(r: Request): string
  {
    if r.Free? then "" else r.site
  }

  /** A thread's own part of a step. */
  function Moved(s: System, t: Thread): Thread
  {
    match At(t)
    case Consult =>
      if SiteOf(t.request) in s.permissions
      then t.(pc := FOUND, permission := s.permissions[SiteOf(t.request)])
      else t.(pc := t.pc + 1)
    case Reread => t.(pc := t.pc + 1, permission := Allowed(s, SiteOf(t.request)))
    case Decide =>
      t.(pc := if !t.permission then CLOSED else if Confirms(t.request) then CONFIRM else ANSWER)
    case ReadAnswer =>
      var text := Text(s, KindOf(t.request));
      t.(pc := t.pc + 1, response := if text == "" then Rejected else Result(text))
    case Acquire(_) => t.(pc := t.pc + 1)
    case Release(_) => t.(pc := t.pc + 1)
    case Ask(_) => t.(pc := t.pc + 1)
    case WriteBack => t.(pc := t.pc + 1)
    case Stop => t
  }

  function After(s: System, e: Event): System
    requires Enabled(s, e)
  {
    match e
    case Arrive(r) => s.(threads := s.threads + [Start(r)])
    case Run(i) =>
      var t := s.threads[i];
      var s' := s.(threads := s.threads[i := Moved(s, t)]);
      if At(t).Acquire? then s'.(held := s.held[At(t).lock := i])
      else if At(t).Release? then s'.(held := s.held - {At(t).lock})
      else if At(t).Ask? then s'.(prompts := s.prompts + {Prompt(i, At(t).kind)})
      else s'
    case Answer(p, approved, text) =>
      var s' := s.(prompts := s.prompts - {p}, ui := Unlocking(p.kind));
      if p.kind == Permission then
        s'.(permissions := s.permissions[SiteOf(s.threads[p.thread].request) := approved])
      else
        s'.(texts := s.texts[p.kind := if approved then text else ""])
    case Unlock =>
      var lock := InputAnswer(s.ui.kind);
      s.(held := s.held - {lock}, ui := Idle, lost := s.lost || lock !in s.held)
  }

  function Initial(permissions: map<string, bool>): System
  {
    System([], map[], permissions, map[], {}, Idle, false)
  }

  /** A run: events one after the other, each enabled where it happens. */
  predicate IsRun(s: System, run: seq<Event>)
    decreases |run|, 0
  {
    run == [] || (IsRun(s, run[..|run| - 1]) && Enabled(AfterAll(s, run[..|run| - 1]), run[|run| - 1]))
  }

  function AfterAll(s: System, run: seq<Event>): System
    requires IsRun(s, run)
    decreases |run|, 1
  {
    if run == [] then s else After(AfterAll(s, run[..|run| - 1]), run[|run| - 1])
  }

  // ---- who holds what ----

  /** The locks a thread has taken and not yet given back. */
  predicate Owns(t: Thread, l: Lock)
  {
    match l
    case PermissionList => 1 <= t.pc <= 11
    case Global => Inside(t)
    case RequestMutex(k) => k != Permission && KindOf(t.request) == k && 15 <= t.pc <= 22
    case InputRequest(k) =>
      if k == Permission then 4 <= t.pc <= 9 else KindOf(t.request) == k && 16 <= t.pc <= 21
    case InputAnswer(_) => false
    case PosRequest => 25 <= t.pc <= 26
  }

  predicate Inside(t: Thread) { 3 <= t.pc <= 10 || 14 <= t.pc <= 23 }

  predicate ThreadOk(t: Thread)
  {
    && t.pc <= CLOSED
    && (t.request.Free? ==> ANSWER <= t.pc <= DONE)
    && (t.request.Accounts? ==> !(CONFIRM <= t.pc < ANSWER))
  }

  ghost predicate LocksOk(s: System)
  {
    && (forall i | 0 <= i < |s.threads| :: ThreadOk(s.threads[i]))
    && (forall i, l | 0 <= i < |s.threads| && Owns(s.threads[i], l) :: l in s.held && s.held[l] == i)
    && (forall l | l in s.held && !l.InputAnswer? :: s.held[l] < |s.threads| && Owns(s.threads[s.held[l]], l))
  }

  // ---- the one thread inside ----

  function Asking(t: Thread): Kind
  {
    if t.pc <= 10 then Permission else KindOf(t.request)
  }

  /** The prompt is on the screen. */
  predicate Open(s: System, i: nat, k: Kind) { s.prompts == {Prompt(i, k)} && s.ui == Idle }

  /** The answer is written and about to be unlocked. */
  predicate Answered(s: System, k: Kind) { s.prompts == {} && s.ui == Unlocking(k) }

  predicate Quiet(s: System) { s.prompts == {} && s.ui == Idle }

  predicate NoAnswerLocks(s: System)
  {
    forall k: Kind :: InputAnswer(k) !in s.held
  }

  /** What the prompt, the interface and the answer lock look like around the thread inside. */
  predicate InsideOk(s: System, i: nat)
    requires i < |s.threads|
  {
    var t := s.threads[i];
    var k := Asking(t);
    var taken := InputAnswer(k) in s.held;
    && (forall q: Kind | q != k :: InputAnswer(q) !in s.held)
    && match At(t)
       case Acquire(l) =>
         if t.pc == 5 then !taken && (s.lost ==> Quiet(s)) && (s.lost || Open(s, i, k) || Answered(s, k))
         else if t.pc == 6 || t.pc == 18 then
           if s.lost then t.pc == 6 && taken && Quiet(s)
           else if taken then Open(s, i, k) || Answered(s, k)
           else Quiet(s)
         else !taken && Quiet(s) && !s.lost
       case Release(l) => (taken <==> l == InputAnswer(k)) && Quiet(s) && !s.lost
       case Ask(_) => (taken <==> t.pc == 17) && Quiet(s) && !s.lost
       case Reread => taken && Quiet(s) && !s.lost
       case ReadAnswer => taken && Quiet(s) && !s.lost
       case Consult => false
       case Decide => false
       case WriteBack => false
       case Stop => false
  }

  predicate PromptOk(s: System)
  {
    if Global in s.held then s.held[Global] < |s.threads| && InsideOk(s, s.held[Global])
    else NoAnswerLocks(s) && Quiet(s) && !s.lost
  }

  // ---- permissions ----

  /** What a thread knows about its site: nothing yet, not decided, or the user's word. */
  predicate PermissionOk(s: System, t: Thread)
  {
    var site := SiteOf(t.request);
    t.request.Free?
    || (t.pc <= 1 && !t.permission)
    || (2 <= t.pc <= 4 && !t.permission && site !in s.permissions)
    || (5 <= t.pc <= 6 && !t.permission && (site in s.permissions <==> s.prompts == {}))
    || (t.pc == 7 && site in s.permissions)
    || (8 <= t.pc <= 12 && site in s.permissions && t.permission == s.permissions[site])
    || (CONFIRM <= t.pc <= DONE && Allowed(s, site))
    || (t.pc == CLOSED && site in s.permissions && !s.permissions[site])
  }

  ghost predicate PermissionsOk(s: System)
  {
    forall i | 0 <= i < |s.threads| :: PermissionOk(s, s.threads[i])
  }

  // ---- every step keeps all this ----

  ghost predicate Inv(s: System)
  {
    LocksOk(s) && PromptOk(s) && PermissionsOk(s)
  }

  lemma InitialInv(permissions: map<string, bool>)
    ensures Inv(Initial(permissions))
  {
  }

  lemma InsideSame(s: System, s': System, g: nat)
    requires g < |s.threads| && g < |s'.threads| && s'.threads[g] == s.threads[g] && InsideOk(s, g)
    requires s'.prompts == s.prompts && s'.ui == s.ui && s'.lost == s.lost
    requires forall k: Kind :: InputAnswer(k) in s'.held <==> InputAnswer(k) in s.held
    ensures InsideOk(s', g)
  {
  }

  lemma PermissionSame(s: System, s': System, t: Thread)
    requires PermissionOk(s, t) && s'.permissions == s.permissions && s'.prompts == s.prompts
    ensures PermissionOk(s', t)
  {
  }

  lemma ArriveKeeps(s: System, r: Request)
    requires Inv(s)
    ensures Inv(After(s, Arrive(r)))
  {
    hide At, Moved, Owns, InsideOk, PermissionOk, ThreadOk, Start;
    var s' := After(s, Arrive(r));
    NewThread(s', r);
    forall i | 0 <= i < |s.threads|
      ensures s'.threads[i] == s.threads[i] && PermissionOk(s', s.threads[i])
    {
      PermissionSame(s, s', s.threads[i]);
    }
    if Global in s.held {
      InsideSame(s, s', s.held[Global]);
    }
  }

  /** A thread that starts holds nothing. */
  lemma NewThread(s: System, r: Request)
    ensures ThreadOk(Start(r)) && PermissionOk(s, Start(r)) && forall l: Lock :: !Owns(Start(r), l)
  {
  }

  /** A step changes what its thread holds by the lock it takes or gives back, and no more. */
  lemma OwnsMoves(s: System, t: Thread, l: Lock)
    requires ThreadOk(t) && At(t) != Stop
    ensures ThreadOk(Moved(s, t))
    ensures At(t) == Acquire(l) ==> !Owns(t, l) && (Owns(Moved(s, t), l) <==> !l.InputAnswer?)
    ensures At(t) == Release(l) ==> !Owns(Moved(s, t), l) && (Owns(t, l) <==> !l.InputAnswer?)
    ensures At(t) != Acquire(l) && At(t) != Release(l) ==> Owns(Moved(s, t), l) == Owns(t, l)
  {
  }

  /** Nobody owns an answer lock: it is a signal. */
  lemma NeverOwned(t: Thread, l: Lock)
    requires Owns(t, l)
    ensures !l.InputAnswer?
  {
  }

  lemma RunKeepsLocks(s: System, i: nat)
    requires LocksOk(s) && Enabled(s, Run(i))
    ensures LocksOk(After(s, Run(i)))
  {
    hide At, Owns, Moved, ThreadOk;
    var s', t := After(s, Run(i)), s.threads[i];
    assert ThreadOk(s'.threads[i]) by { OwnsMoves(s, t, Global); }
    forall j, l | 0 <= j < |s'.threads| && Owns(s'.threads[j], l)
      ensures l in s'.held && s'.held[l] == j
    {
      OwnsMoves(s, t, l);
      NeverOwned(s'.threads[j], l);
      assert j != i ==> s'.threads[j] == s.threads[j];
    }
    forall l | l in s'.held && !l.InputAnswer?
      ensures s'.held[l] < |s'.threads| && Owns(s'.threads[s'.held[l]], l)
    {
      OwnsMoves(s, t, l);
    }
  }

  lemma Holder(s: System, i: nat, l: Lock)
    requires LocksOk(s) && i < |s.threads| && Owns(s.threads[i], l)
    ensures l in s.held && s.held[l] == i
  {
  }

  /** Two threads are never inside together. */
  lemma OneInside(s: System, i: nat)
    requires LocksOk(s) && i < |s.threads| && Inside(s.threads[i])
    ensures Global in s.held && s.held[Global] == i
  {
    Holder(s, i, Global);
  }

  lemma RunKeepsPrompts(s: System, i: nat)
    requires Inv(s) && Enabled(s, Run(i))
    ensures PromptOk(After(s, Run(i)))
  {
    var t := s.threads[i];
    if Inside(t) {
      OneInside(s, i);
      RunInside(s, i);
    } else if At(t) == Acquire(Global) {
      RunEnters(s, i);
    } else {
      RunOutside(s, i);
    }
  }

  lemma RunInside(s: System, i: nat)
    requires LocksOk(s) && Enabled(s, Run(i)) && PromptOk(s)
    requires Inside(s.threads[i]) && Global in s.held && s.held[Global] == i
    ensures PromptOk(After(s, Run(i)))
  {
    hide LocksOk;
    var t := s.threads[i];
    assert InsideOk(s, i);
    if At(t) == Release(Global) {
    } else if At(t).Acquire? || At(t).Release? {
      LockInside(s, i);
    } else {
      MoveInside(s, i);
    }
  }

  lemma LockInside(s: System, i: nat)
    requires Enabled(s, Run(i)) && InsideOk(s, i) && Inside(s.threads[i])
    requires At(s.threads[i]).Acquire? || At(s.threads[i]).Release?
    requires At(s.threads[i]) != Release(Global)
    ensures InsideOk(After(s, Run(i)), i)
    ensures At(s.threads[i]).lock != Global
  {
  }

  lemma MoveInside(s: System, i: nat)
    requires Enabled(s, Run(i)) && InsideOk(s, i) && Inside(s.threads[i])
    requires !At(s.threads[i]).Acquire? && !At(s.threads[i]).Release?
    ensures InsideOk(After(s, Run(i)), i)
  {
  }

  lemma RunEnters(s: System, i: nat)
    requires LocksOk(s) && Enabled(s, Run(i)) && PromptOk(s) && At(s.threads[i]) == Acquire(Global)
    ensures PromptOk(After(s, Run(i)))
  {
  }

  lemma RunOutside(s: System, i: nat)
    requires LocksOk(s) && Enabled(s, Run(i)) && PromptOk(s)
    requires !Inside(s.threads[i]) && At(s.threads[i]) != Acquire(Global)
    ensures PromptOk(After(s, Run(i)))
  {
    hide Moved, InsideOk;
    StepOutside(s.threads[i]);
    var s' := After(s, Run(i));
    if Global in s.held {
      var g := s.held[Global];
      assert Owns(s.threads[g], Global);
      InsideSame(s, s', g);
    }
  }

  /** Outside, no answer lock is touched and nothing is asked. */
  lemma StepOutside(t: Thread)
    requires ThreadOk(t) && At(t) != Stop && !Inside(t) && At(t) != Acquire(Global)
    ensures !At(t).Ask? && At(t) != Release(Global)
    ensures At(t).Acquire? || At(t).Release? ==> !At(t).lock.InputAnswer?
  {
  }

  lemma RunKeepsPermissions(s: System, i: nat)
    requires Inv(s) && Enabled(s, Run(i))
    ensures PermissionsOk(After(s, Run(i)))
  {
    hide At, Moved, PermissionOk;
    var s' := After(s, Run(i));
    forall j | 0 <= j < |s'.threads|
      ensures PermissionOk(s', s'.threads[j])
    {
      assert PermissionOk(s, s.threads[j]);
      if j == i {
        MovedPermission(s, i);
      } else {
        SamePermission(s, i, j);
      }
    }
  }

  /** A prompt is for the permission of the thread at it, or there is none of that kind. */
  lemma MovedPermission(s: System, i: nat)
    requires Inv(s) && Enabled(s, Run(i))
    ensures PermissionOk(After(s, Run(i)), Moved(s, s.threads[i]))
  {
    var t := s.threads[i];
    assert PermissionOk(s, t);
    if Inside(t) {
      OneInside(s, i);
      assert InsideOk(s, i);
    }
  }

  lemma SamePermission(s: System, i: nat, j: nat)
    requires Inv(s) && Enabled(s, Run(i)) && j < |s.threads| && j != i
    ensures PermissionOk(After(s, Run(i)), s.threads[j])
  {
    hide Moved, InsideOk;
    assert PermissionOk(s, s.threads[j]);
    if Inside(s.threads[j]) {
      OneInside(s, j);
      if Inside(s.threads[i]) {
        OneInside(s, i);
        assert false;
      }
      AsksInside(s.threads[i]);
    }
  }

  lemma AsksInside(t: Thread)
    requires !Inside(t)
    ensures !At(t).Ask?
  {
  }

  /** The interface answers the prompt of the thread inside. */
  lemma PromptOfInsider(s: System, p: Prompt)
    requires Inv(s) && p in s.prompts
    ensures Global in s.held && s.held[Global] == p.thread < |s.threads|
    ensures s.prompts == {p} && s.ui == Idle && !s.lost && p.kind == Asking(s.threads[p.thread])
    ensures s.threads[p.thread].pc in {5, 6, 18}
  {
    var g := s.held[Global];
    assert InsideOk(s, g);
    assert s.prompts == {Prompt(g, Asking(s.threads[g]))};
  }

  lemma AnswerKeeps(s: System, p: Prompt, approved: bool, text: string)
    requires Inv(s) && Enabled(s, Answer(p, approved, text))
    ensures Inv(After(s, Answer(p, approved, text)))
  {
    hide At, Owns, PermissionOk, InsideOk;
    var s' := After(s, Answer(p, approved, text));
    PromptOfInsider(s, p);
    AnsweredInside(s, p, s');
    forall j | 0 <= j < |s.threads|
      ensures PermissionOk(s', s.threads[j])
    {
      AnsweredPermission(s, p, approved, text, j);
    }
  }

  lemma AnsweredInside(s: System, p: Prompt, s': System)
    requires p.thread < |s.threads| && InsideOk(s, p.thread) && s.prompts == {p} && !s.lost
    requires s.threads[p.thread].pc in {5, 6, 18} && p.kind == Asking(s.threads[p.thread])
    requires s'.threads == s.threads && s'.held == s.held && s'.lost == s.lost && Answered(s', p.kind)
    ensures InsideOk(s', p.thread)
  {
  }

  lemma AnsweredPermission(s: System, p: Prompt, approved: bool, text: string, j: nat)
    requires Inv(s) && Enabled(s, Answer(p, approved, text)) && j < |s.threads|
    requires Global in s.held && s.held[Global] == p.thread && s.prompts == {p} && p.kind == Asking(s.threads[p.thread])
    requires s.threads[p.thread].pc in {5, 6, 18}
    ensures PermissionOk(After(s, Answer(p, approved, text)), s.threads[j])
  {
    hide At, InsideOk;
    var t, g := s.threads[j], s.threads[p.thread];
    assert PermissionOk(s, t) && PermissionOk(s, g) && ThreadOk(g);
    if p.kind == Permission {
      assert SiteOf(g.request) !in s.permissions;
      if 1 <= t.pc <= 11 {
        Holder(s, j, PermissionList);
        Holder(s, p.thread, PermissionList);
      }
    } else if 5 <= t.pc <= 6 {
      OneInside(s, j);
      assert false;
    }
  }

  lemma UnlockKeeps(s: System)
    requires Inv(s) && Enabled(s, Unlock)
    ensures Inv(After(s, Unlock))
  {
    hide At, Owns, PermissionOk, InsideOk;
    var s' := After(s, Unlock);
    var g := s.held[Global];
    UnlockedInside(s, g, s');
    forall i, l | 0 <= i < |s.threads| && Owns(s.threads[i], l)
      ensures l in s'.held && s'.held[l] == i
    {
      NeverOwned(s.threads[i], l);
    }
    forall j | 0 <= j < |s.threads|
      ensures PermissionOk(s', s.threads[j])
    {
      PermissionSame(s, s', s.threads[j]);
    }
  }

  lemma UnlockedInside(s: System, g: nat, s': System)
    requires g < |s.threads| && InsideOk(s, g) && s.ui.Unlocking?
    requires s' == After(s, Unlock)
    ensures InsideOk(s', g)
  {
  }

  // ---- whole runs ----

  lemma StepKeepsInv(s: System, e: Event)
    requires Inv(s) && Enabled(s, e)
    ensures Inv(After(s, e))
  {
    hide LocksOk, PromptOk, PermissionsOk, At, Moved;
    match e
    case Arrive(r) => ArriveKeeps(s, r);
    case Run(i) =>
      RunKeepsLocks(s, i);
      RunKeepsPrompts(s, i);
      RunKeepsPermissions(s, i);
    case Answer(p, approved, text) => AnswerKeeps(s, p, approved, text);
    case Unlock => UnlockKeeps(s);
  }

  lemma {:induction false} RunKeepsInv(permissions: map<string, bool>, run: seq<Event>)
    requires IsRun(Initial(permissions), run)
    ensures Inv(AfterAll(Initial(permissions), run))
    decreases |run|
  {
    if run == [] {
      InitialInv(permissions);
    } else {
      hide Inv, After, Enabled;
      RunKeepsInv(permissions, run[..|run| - 1]);
      StepKeepsInv(AfterAll(Initial(permissions), run[..|run| - 1]), run[|run| - 1]);
    }
  }

  /** However many requests come in, the user sees one prompt at a time. */
  lemma AtMostOnePrompt(permissions: map<string, bool>, run: seq<Event>, p: Prompt, q: Prompt)
    requires IsRun(Initial(permissions), run)
    requires p in AfterAll(Initial(permissions), run).prompts && q in AfterAll(Initial(permissions), run).prompts
    ensures p == q
  {
    RunKeepsInv(permissions, run);
    PromptOfInsider(AfterAll(Initial(permissions), run), p);
  }

  /** What the user is asked is what the thread behind the prompt was sent for: permission for
      a website not decided on yet, a transaction for a request to send one, a signature for a
      request to sign, and the last two only for websites that are allowed. */
  lemma PromptFits(permissions: map<string, bool>, run: seq<Event>, p: Prompt)
    requires IsRun(Initial(permissions), run) && p in AfterAll(Initial(permissions), run).prompts
    ensures var s := AfterAll(Initial(permissions), run);
            && p.thread < |s.threads| && !s.threads[p.thread].request.Free?
            && var r := s.threads[p.thread].request;
               match p.kind
               case Permission => r.site !in s.permissions
               case Transaction => r.Send? && r.site in s.permissions && s.permissions[r.site]
               case Signature => r.Sign? && r.site in s.permissions && s.permissions[r.site]
  {
    RunKeepsInv(permissions, run);
    PromptOfRequest(AfterAll(Initial(permissions), run), p);
  }

  lemma PromptOfRequest(s: System, p: Prompt)
    requires Inv(s) && p in s.prompts
    ensures && p.thread < |s.threads| && !s.threads[p.thread].request.Free?
            && var r := s.threads[p.thread].request;
               match p.kind
               case Permission => r.site !in s.permissions
               case Transaction => r.Send? && r.site in s.permissions && s.permissions[r.site]
               case Signature => r.Sign? && r.site in s.permissions && s.permissions[r.site]
  {
    hide At, Owns, InsideOk;
    PromptOfInsider(s, p);
    assert PermissionOk(s, s.threads[p.thread]) && ThreadOk(s.threads[p.thread]);
  }

  // ---- consent ----

  /** No website gets a prompt to send or sign, or an answer that needs permission, unless the
      user has allowed it; and a session is closed only on a website the user has refused. */
  lemma ConsentFirst(permissions: map<string, bool>, run: seq<Event>, i: nat)
    requires IsRun(Initial(permissions), run) && i < |AfterAll(Initial(permissions), run).threads|
    ensures var s := AfterAll(Initial(permissions), run);
            var t := s.threads[i];
            && (!t.request.Free? && 13 <= t.pc <= 27 ==>
                  t.request.site in s.permissions && s.permissions[t.request.site])
            && (t.pc == 28 ==>
                  !t.request.Free? && t.request.site in s.permissions && !s.permissions[t.request.site])
            && (At(t) == WriteBack ==> 13 <= t.pc <= 27) && t.pc <= 28
  {
    hide At, Moved, LocksOk, PromptOk;
    RunKeepsInv(permissions, run);
    var s := AfterAll(Initial(permissions), run);
    AnyThreadOk(s, i);
    assert PermissionOk(s, s.threads[i]);
    WritesAt(s.threads[i]);
  }

  lemma AnyThreadOk(s: System, i: nat)
    requires LocksOk(s) && i < |s.threads|
    ensures ThreadOk(s.threads[i])
  {
  }

  lemma WritesAt(t: Thread)
    ensures At(t) == WriteBack ==> t.pc == 25
  {
  }

  /** A website's permission, once given or refused, is never asked again or changed. */
  lemma PermissionsStay(s: System, e: Event)
    requires Inv(s) && Enabled(s, e)
    ensures forall site | site in s.permissions ::
              site in After(s, e).permissions && After(s, e).permissions[site] == s.permissions[site]
    ensures e.Answer? && e.prompt.kind == Permission ==>
              SiteOf(s.threads[e.prompt.thread].request) !in s.permissions
  {
    hide At, Moved, Owns;
    if e.Answer? {
      PromptOfInsider(s, e.prompt);
      assert PermissionOk(s, s.threads[e.prompt.thread]) && ThreadOk(s.threads[e.prompt.thread]);
    }
  }

  predicate AsksPermission(e: Event) { e.Answer? && e.prompt.kind == Permission }

  /** The website a permission answer of the run is about. */
  function SiteAsked(s: System, run: seq<Event>, a: nat): string
    requires IsRun(s, run) && a < |run| && AsksPermission(run[a])
  {
    PrefixIsRun(s, run, a);
    PrefixIsRun(s, run, a + 1);
    assert run[..a + 1][..a] == run[..a];
    SiteOf(AfterAll(s, run[..a]).threads[run[a].prompt.thread].request)
  }

  lemma {:induction false} PrefixIsRun(s: System, run: seq<Event>, a: nat)
    requires IsRun(s, run) && a <= |run|
    ensures IsRun(s, run[..a])
    decreases |run|
  {
    if a < |run| {
      PrefixIsRun(s, run[..|run| - 1], a);
      assert run[..|run| - 1][..a] == run[..a];
    } else {
      assert run[..a] == run;
    }
  }

  /** What was permitted or refused along a run stays so to its end. */
  lemma {:induction false} PermissionsStayAlong(permissions: map<string, bool>, run: seq<Event>, a: nat, site: string)
    requires IsRun(Initial(permissions), run) && a <= |run| && IsRun(Initial(permissions), run[..a])
    requires site in AfterAll(Initial(permissions), run[..a]).permissions
    ensures site in AfterAll(Initial(permissions), run).permissions
    ensures AfterAll(Initial(permissions), run).permissions[site] ==
            AfterAll(Initial(permissions), run[..a]).permissions[site]
    decreases |run|
  {
    hide After, Enabled, Inv;
    if a < |run| {
      var front := run[..|run| - 1];
      assert front[..a] == run[..a];
      PermissionsStayAlong(permissions, front, a, site);
      RunKeepsInv(permissions, front);
      PermissionsStay(AfterAll(Initial(permissions), front), run[|run| - 1]);
    } else {
      assert run[..a] == run;
    }
  }

  lemma JustAsked(permissions: map<string, bool>, run: seq<Event>, a: nat)
    requires IsRun(Initial(permissions), run) && a < |run| && AsksPermission(run[a])
    ensures IsRun(Initial(permissions), run[..a]) && IsRun(Initial(permissions), run[..a + 1])
    ensures var site := SiteAsked(Initial(permissions), run, a);
            && site !in AfterAll(Initial(permissions), run[..a]).permissions
            && site in AfterAll(Initial(permissions), run[..a + 1]).permissions
            && AfterAll(Initial(permissions), run[..a + 1]).permissions[site] == run[a].approved
  {
    hide Inv, At, Moved;
    var s := Initial(permissions);
    PrefixIsRun(s, run, a);
    PrefixIsRun(s, run, a + 1);
    assert run[..a + 1][..a] == run[..a];
    RunKeepsInv(permissions, run[..a]);
    PermissionsStay(AfterAll(s, run[..a]), run[a]);
  }

  /** No website is asked about twice. */
  lemma AskedOnce(permissions: map<string, bool>, run: seq<Event>, a: nat, b: nat)
    requires IsRun(Initial(permissions), run) && a < b < |run| && AsksPermission(run[a]) && AsksPermission(run[b])
    ensures SiteAsked(Initial(permissions), run, a) != SiteAsked(Initial(permissions), run, b)
  {
    hide SiteAsked, IsRun, AfterAll;
    JustAsked(permissions, run, a);
    JustAsked(permissions, run, b);
    assert run[..b][..a + 1] == run[..a + 1];
    PermissionsStayAlong(permissions, run[..b], a + 1, SiteAsked(Initial(permissions), run, a));
  }

  /** A website is allowed or refused because it was so before the run, or because the user
      said so when asked about it. */
  lemma {:induction false} PermissionsGiven(permissions: map<string, bool>, run: seq<Event>, site: string)
    requires IsRun(Initial(permissions), run) && site in AfterAll(Initial(permissions), run).permissions
    ensures var word := AfterAll(Initial(permissions), run).permissions[site];
            || (site in permissions && permissions[site] == word)
            || exists a :: 0 <= a < |run| && GivesWord(permissions, run, a, site, word)
    decreases |run|
  {
    hide After, Enabled, SiteAsked;
    var s := Initial(permissions);
    if run != [] {
      var last := |run| - 1;
      var front := run[..last];
      if site in AfterAll(s, front).permissions {
        RunKeepsInv(permissions, front);
        PermissionsStay(AfterAll(s, front), run[last]);
        PermissionsGiven(permissions, front, site);
        var word := AfterAll(s, front).permissions[site];
        if a :| 0 <= a < last && GivesWord(permissions, front, a, site, word) {
          SameWord(permissions, run, a, site, word);
        }
      } else {
        NewPermission(AfterAll(s, front), run[last], site);
        assert run[..last + 1] == run;
        AskedSite(s, run, last);
        assert GivesWord(permissions, run, last, site, run[last].approved);
      }
    }
  }

  ghost predicate GivesWord(permissions: map<string, bool>, run: seq<Event>, a: nat, site: string, word: bool)
    requires IsRun(Initial(permissions), run) && a < |run|
  {
    AsksPermission(run[a]) && SiteAsked(Initial(permissions), run, a) == site && run[a].approved == word
  }

  lemma SameWord(permissions: map<string, bool>, run: seq<Event>, a: nat, site: string, word: bool)
    requires IsRun(Initial(permissions), run) && a < |run| - 1
    requires IsRun(Initial(permissions), run[..|run| - 1])
    requires GivesWord(permissions, run[..|run| - 1], a, site, word)
    ensures GivesWord(permissions, run, a, site, word)
  {
    assert run[..|run| - 1][..a] == run[..a];
  }

  lemma AskedSite(s: System, run: seq<Event>, a: nat)
    requires IsRun(s, run) && a < |run| && AsksPermission(run[a])
    requires IsRun(s, run[..a]) && run[a].prompt.thread < |AfterAll(s, run[..a]).threads|
    ensures SiteAsked(s, run, a) == SiteOf(AfterAll(s, run[..a]).threads[run[a].prompt.thread].request)
  {
  }

  lemma NewPermission(s: System, e: Event, site: string)
    requires Enabled(s, e) && site !in s.permissions && site in After(s, e).permissions
    ensures AsksPermission(e) && e.prompt.thread < |s.threads|
    ensures SiteOf(s.threads[e.prompt.thread].request) == site && After(s, e).permissions[site] == e.approved
  {
  }

  // ---- each response carries its own answer ----

  /** The answers the user gave to one prompt, oldest first; refusal is the empty text. */
  function Answers(run: seq<Event>, p: Prompt): seq<string>
  {
    if run == [] then [] else
    var e := run[|run| - 1];
    Answers(run[..|run| - 1], p) +
    if e.Answer? && e.prompt == p then [if e.approved then e.text else ""] else []
  }

  function ResponseOf(text: string): Response
  {
    if text == "" then Rejected else Result(text)
  }

  /** How far the answer to a thread's own request has come. */
  predicate AnswerOk(s: System, t: Thread, answers: seq<string>)
  {
    Confirms(t.request) ==>
      if t.pc <= 17 || t.pc == CLOSED || (t.pc == 18 && s.prompts != {}) then
        answers == [] && t.response == Pending
      else if t.pc <= 19 then
        |answers| == 1 && Text(s, KindOf(t.request)) == answers[0] && t.response == Pending
      else
        |answers| == 1 && t.response == ResponseOf(answers[0])
  }

  ghost predicate AnswersOk(s: System, run: seq<Event>)
  {
    && (forall i | 0 <= i < |s.threads| ::
          AnswerOk(s, s.threads[i], Answers(run, Prompt(i, KindOf(s.threads[i].request)))))
    && (forall p: Prompt | p.thread >= |s.threads| :: Answers(run, p) == [])
  }

  lemma AnswersStep(run: seq<Event>, e: Event, p: Prompt)
    ensures Answers(run + [e], p) ==
            Answers(run, p) + if e.Answer? && e.prompt == p then [if e.approved then e.text else ""] else []
  {
    assert (run + [e])[..|run|] == run;
  }

  lemma StepKeepsAnswers(s: System, run: seq<Event>, e: Event)
    requires Inv(s) && Enabled(s, e) && AnswersOk(s, run)
    ensures AnswersOk(After(s, e), run + [e])
  {
    hide At, Moved, Owns, InsideOk, PermissionOk, AnswerOk, Answers;
    var s' := After(s, e);
    forall p: Prompt
      ensures p.thread >= |s'.threads| ==> Answers(run + [e], p) == []
    {
      AnswersStep(run, e, p);
    }
    forall i | 0 <= i < |s'.threads|
      ensures AnswerOk(s', s'.threads[i], Answers(run + [e], Prompt(i, KindOf(s'.threads[i].request))))
    {
      AnswersStep(run, e, Prompt(i, KindOf(s'.threads[i].request)));
      if i == |s.threads| {
        NewThreadAnswer(s', s'.threads[i]);
      } else {
        AnswerStep(s, e, i, Answers(run, Prompt(i, KindOf(s.threads[i].request))));
      }
    }
  }

  lemma NewThreadAnswer(s: System, t: Thread)
    requires exists r: Request :: t == Start(r)
    ensures AnswerOk(s, t, [])
  {
  }

  lemma AnswerStep(s: System, e: Event, i: nat, answers: seq<string>)
    requires Inv(s) && Enabled(s, e) && i < |s.threads| && AnswerOk(s, s.threads[i], answers)
    ensures var k := KindOf(s.threads[i].request);
            var more := if e.Answer? && e.prompt == Prompt(i, k) then [if e.approved then e.text else ""] else [];
            && KindOf(After(s, e).threads[i].request) == k
            && AnswerOk(After(s, e), After(s, e).threads[i], answers + more)
  {
    assert answers + [] == answers;
    match e
    case Arrive(_) =>
    case Run(j) => AnswerStepRun(s, i, j, answers);
    case Answer(p, approved, text) => AnswerStepAnswer(s, i, p, approved, text, answers);
    case Unlock =>
  }

  lemma AnswerStepRun(s: System, i: nat, j: nat, answers: seq<string>)
    requires Inv(s) && Enabled(s, Run(j)) && i < |s.threads| && AnswerOk(s, s.threads[i], answers)
    ensures KindOf(After(s, Run(j)).threads[i].request) == KindOf(s.threads[i].request)
    ensures AnswerOk(After(s, Run(j)), After(s, Run(j)).threads[i], answers)
  {
    hide Moved;
    if i == j {
      OwnAnswerStep(s, i, answers);
    } else {
      OtherAnswerStep(s, i, j, answers);
    }
  }

  lemma OwnAnswerStep(s: System, i: nat, answers: seq<string>)
    requires Inv(s) && Enabled(s, Run(i)) && AnswerOk(s, s.threads[i], answers)
    ensures KindOf(Moved(s, s.threads[i]).request) == KindOf(s.threads[i].request)
    ensures AnswerOk(After(s, Run(i)), Moved(s, s.threads[i]), answers)
  {
    assert ThreadOk(s.threads[i]);
    if Inside(s.threads[i]) {
      OneInside(s, i);
      assert InsideOk(s, i);
    }
  }

  lemma OtherAnswerStep(s: System, i: nat, j: nat, answers: seq<string>)
    requires Inv(s) && Enabled(s, Run(j)) && i < |s.threads| && i != j && AnswerOk(s, s.threads[i], answers)
    ensures AnswerOk(After(s, Run(j)), s.threads[i], answers)
  {
    hide At, Moved, InsideOk, PermissionOk;
    if s.threads[i].pc == 18 {
      OneInside(s, i);
      if Inside(s.threads[j]) {
        OneInside(s, j);
        assert false;
      }
      AsksInside(s.threads[j]);
    }
  }

  lemma AnswerStepAnswer(s: System, i: nat, p: Prompt, approved: bool, text: string, answers: seq<string>)
    requires Inv(s) && Enabled(s, Answer(p, approved, text)) && i < |s.threads| && AnswerOk(s, s.threads[i], answers)
    ensures var k := KindOf(s.threads[i].request);
            var more := if p == Prompt(i, k) then [if approved then text else ""] else [];
            AnswerOk(After(s, Answer(p, approved, text)), s.threads[i], answers + more)
  {
    hide At, Owns, InsideOk, PermissionOk;
    PromptOfInsider(s, p);
    if 18 <= s.threads[i].pc <= 19 {
      InsiderOfPc(s, i);
    }
    assert answers + [] == answers;
  }

  lemma InsiderOfPc(s: System, i: nat)
    requires LocksOk(s) && i < |s.threads| && 18 <= s.threads[i].pc <= 19
    ensures Global in s.held && s.held[Global] == i
  {
    OneInside(s, i);
  }

  /** A finished request to send or sign got exactly one answer of the user's, given to the
      prompt of that very request, and responds with it. */
  lemma {:induction false} OwnAnswers(permissions: map<string, bool>, run: seq<Event>)
    requires IsRun(Initial(permissions), run)
    ensures AnswersOk(AfterAll(Initial(permissions), run), run)
    decreases |run|
  {
    hide After, Enabled, Inv, AnswersOk;
    if run == [] {
      NoAnswersYet(permissions);
    } else {
      var front := run[..|run| - 1];
      OwnAnswers(permissions, front);
      RunKeepsInv(permissions, front);
      StepKeepsAnswers(AfterAll(Initial(permissions), front), front, run[|run| - 1]);
      assert run == front + [run[|run| - 1]];
    }
  }

  lemma NoAnswersYet(permissions: map<string, bool>)
    ensures AnswersOk(Initial(permissions), [])
  {
  }

  lemma OwnAnswer(permissions: map<string, bool>, run: seq<Event>, i: nat)
    requires IsRun(Initial(permissions), run) && i < |AfterAll(Initial(permissions), run).threads|
    ensures var t := AfterAll(Initial(permissions), run).threads[i];
            Confirms(t.request) && t.pc == DONE ==>
              var answers := Answers(run, Prompt(i, KindOf(t.request)));
              |answers| == 1 && t.response == ResponseOf(answers[0])
  {
    hide Answers;
    OwnAnswers(permissions, run);
    var s := AfterAll(Initial(permissions), run);
    assert AnswerOk(s, s.threads[i], Answers(run, Prompt(i, KindOf(s.threads[i].request))));
  }

  /** A thread keeps its request. */
  lemma SameRequest(s: System, e: Event, i: nat)
    requires Enabled(s, e) && i < |s.threads|
    ensures i < |After(s, e).threads| && After(s, e).threads[i].request == s.threads[i].request
    ensures |After(s, e).threads| <= |s.threads| + if e.Arrive? then 1 else 0
  {
  }

  /** Nobody answers a prompt that does not fit the request. */
  lemma {:induction false} NoOtherAnswers(permissions: map<string, bool>, run: seq<Event>, p: Prompt)
    requires IsRun(Initial(permissions), run) && p.thread < |AfterAll(Initial(permissions), run).threads|
    requires var r := AfterAll(Initial(permissions), run).threads[p.thread].request;
             (p.kind == Transaction && !r.Send?) || (p.kind == Signature && !r.Sign?)
    ensures Answers(run, p) == []
    decreases |run|
  {
    hide After, Enabled, Inv, AnswersOk;
    if run != [] {
      var front, e := run[..|run| - 1], run[|run| - 1];
      var s := AfterAll(Initial(permissions), front);
      assert run == front + [e];
      AnswersStep(front, e, p);
      RunKeepsInv(permissions, front);
      AnswerNeedsPrompt(s, e);
      if p.thread < |s.threads| {
        SameRequest(s, e, p.thread);
        NoOtherAnswers(permissions, front, p);
        if e.Answer? && e.prompt == p {
          PromptOfRequest(s, p);
        }
      } else {
        OwnAnswers(permissions, front);
        NoAnswersBefore(s, front, p);
      }
    }
  }

  lemma AnswerNeedsPrompt(s: System, e: Event)
    requires Enabled(s, e)
    ensures e.Answer? ==> e.prompt in s.prompts && e.prompt.thread < |s.threads|
  {
  }

  lemma NoAnswersBefore(s: System, run: seq<Event>, p: Prompt)
    requires AnswersOk(s, run) && p.thread >= |s.threads|
    ensures Answers(run, p) == []
  {
  }

  /** The answer a response is made from, to the one prompt of that kind. */
  ghost predicate RespondsWith(run: seq<Event>, p: Prompt, response: Response)
  {
    exists text: string ::
      Answers(run, p) == [text] && response == if text == "" then Rejected else Result(text)
  }

  /** A request to send a transaction is answered with what the user answered to its own
      transaction prompt, and is answered if it is finished and its website allowed. */
  lemma OwnSend(permissions: map<string, bool>, run: seq<Event>, i: nat)
    requires IsRun(Initial(permissions), run) && i < |AfterAll(Initial(permissions), run).threads|
    requires AfterAll(Initial(permissions), run).threads[i].request.Send?
    ensures var s := AfterAll(Initial(permissions), run);
            var t := s.threads[i];
            && Answers(run, Prompt(i, Signature)) == []
            && (t.response != Pending ==> RespondsWith(run, Prompt(i, Transaction), t.response))
            && (At(t) == Stop && t.request.site in s.permissions && s.permissions[t.request.site] ==>
                  t.response != Pending)
  {
    NoOtherAnswers(permissions, run, Prompt(i, Signature));
    hide Answers;
    OwnAnswers(permissions, run);
    ConsentFirst(permissions, run, i);
    var s := AfterAll(Initial(permissions), run);
    Responded(s, run, i);
  }

  /** The same for a request to sign and its signature prompt. */
  lemma OwnSign(permissions: map<string, bool>, run: seq<Event>, i: nat)
    requires IsRun(Initial(permissions), run) && i < |AfterAll(Initial(permissions), run).threads|
    requires AfterAll(Initial(permissions), run).threads[i].request.Sign?
    ensures var s := AfterAll(Initial(permissions), run);
            var t := s.threads[i];
            && Answers(run, Prompt(i, Transaction)) == []
            && (t.response != Pending ==> RespondsWith(run, Prompt(i, Signature), t.response))
            && (At(t) == Stop && t.request.site in s.permissions && s.permissions[t.request.site] ==>
                  t.response != Pending)
  {
    NoOtherAnswers(permissions, run, Prompt(i, Transaction));
    hide Answers;
    OwnAnswers(permissions, run);
    ConsentFirst(permissions, run, i);
    var s := AfterAll(Initial(permissions), run);
    Responded(s, run, i);
  }

  lemma Responded(s: System, run: seq<Event>, i: nat)
    requires AnswersOk(s, run) && i < |s.threads| && Confirms(s.threads[i].request)
    ensures var t := s.threads[i];
            && (t.response != Pending ==> RespondsWith(run, Prompt(i, KindOf(t.request)), t.response))
            && (At(t) == Stop && t.pc <= 27 ==> t.response != Pending)
  {
    hide Answers;
    var t := s.threads[i];
    var answers := Answers(run, Prompt(i, KindOf(t.request)));
    assert AnswerOk(s, t, answers);
    if t.response != Pending {
      assert answers == [answers[0]];
    }
  }

  // ---- progress ----

  predicate Finished(t: Thread) { At(t) == Stop }

  predicate AllFinished(s: System)
  {
    forall i | 0 <= i < |s.threads| :: Finished(s.threads[i])
  }

  /** Nothing can happen any more but a new request coming in. */
  ghost predicate Halted(s: System)
  {
    forall e: Event :: Enabled(s, e) ==> e.Arrive?
  }

  /** Where nothing can move, every request is finished, unless an answer was lost; and then
      not every one is. */
  lemma HaltedMeansFinished(s: System)
    requires Inv(s) && Halted(s)
    ensures AllFinished(s) <==> !s.lost
  {
    hide At, InsideOk, PermissionOk, Moved;
    if s.lost {
      LostStaysInside(s);
    } else {
      forall i | 0 <= i < |s.threads|
        ensures Finished(s.threads[i])
      {
        if !Finished(s.threads[i]) {
          var e := SomeStep(s, i);
          assert false;
        }
      }
    }
  }

  lemma LostStaysInside(s: System)
    requires Inv(s) && s.lost
    ensures !AllFinished(s)
  {
    assert InsideOk(s, s.held[Global]);
    assert !Finished(s.threads[s.held[Global]]);
  }

  /** The locks are taken in one order, so some thread can go on, or the user can answer. */
  lemma SomeStep(s: System, i: nat) returns (e: Event)
    requires Inv(s) && !s.lost && i < |s.threads| && !Finished(s.threads[i])
    ensures !e.Arrive? && Enabled(s, e)
  {
    if Global in s.held {
      e := StepInside(s, s.held[Global]);
    } else if PermissionList in s.held {
      e := Run(s.held[PermissionList]);
      StepAtList(s, s.held[PermissionList]);
    } else if PosRequest in s.held {
      e := Run(s.held[PosRequest]);
      StepAtWrite(s, s.held[PosRequest]);
    } else {
      e := Run(i);
      StepOfAny(s, i);
    }
  }

  lemma StepInside(s: System, g: nat) returns (e: Event)
    requires Inv(s) && !s.lost && Global in s.held && s.held[Global] == g
    ensures !e.Arrive? && Enabled(s, e)
  {
    hide PermissionOk, Moved;
    var t := s.threads[g];
    assert Owns(t, Global) && InsideOk(s, g);
    var k := Asking(t);
    if (t.pc == 6 || t.pc == 18) && InputAnswer(k) in s.held {
      e := if s.ui == Idle then Answer(Prompt(g, k), true, "") else Unlock;
    } else {
      e := Run(g);
      InnerFree(s, g);
    }
  }

  /** The locks taken inside are free for the thread inside, but for those it has taken. */
  lemma InnerFree(s: System, g: nat)
    requires Inv(s) && Global in s.held && s.held[Global] == g
    ensures forall k: Kind :: RequestMutex(k) in s.held ==> s.held[RequestMutex(k)] == g
    ensures forall k: Kind :: InputRequest(k) in s.held ==> s.held[InputRequest(k)] == g
    ensures forall l | l in s.held && !l.InputAnswer? :: Owns(s.threads[s.held[l]], l)
  {
    hide At, PermissionOk, Moved, InsideOk;
    forall l | l in s.held && (l.RequestMutex? || l.InputRequest?)
      ensures s.held[l] == g
    {
      assert Owns(s.threads[s.held[l]], l);
      OneInside(s, s.held[l]);
    }
  }

  /** Outside, a thread waits for nothing but these three locks, and never for one it has. */
  lemma OutsideAcquires(t: Thread)
    requires ThreadOk(t) && !Inside(t) && At(t).Acquire?
    ensures At(t).lock in {PermissionList, Global, PosRequest} && !Owns(t, At(t).lock)
    ensures Owns(t, PermissionList) ==> At(t).lock == Global
    ensures !Owns(t, PosRequest)
  {
  }

  lemma StepAtList(s: System, g: nat)
    requires Inv(s) && Global !in s.held && PermissionList in s.held && s.held[PermissionList] == g
    ensures Enabled(s, Run(g))
  {
    hide At, PermissionOk, InsideOk;
    NobodyInside(s, g);
    assert Owns(s.threads[g], PermissionList);
    NotStopped(s.threads[g]);
    if At(s.threads[g]).Acquire? {
      OutsideAcquires(s.threads[g]);
    }
  }

  lemma NobodyInside(s: System, i: nat)
    requires LocksOk(s) && Global !in s.held && i < |s.threads|
    ensures !Inside(s.threads[i])
  {
    if Inside(s.threads[i]) {
      OneInside(s, i);
    }
  }

  lemma NotStopped(t: Thread)
    requires Owns(t, PermissionList) || Owns(t, PosRequest)
    ensures At(t) != Stop
  {
  }

  lemma StepAtWrite(s: System, g: nat)
    requires Inv(s) && Global !in s.held && PosRequest in s.held && s.held[PosRequest] == g
    ensures Enabled(s, Run(g))
  {
    hide At, PermissionOk, InsideOk;
    NobodyInside(s, g);
    assert Owns(s.threads[g], PosRequest);
    NotStopped(s.threads[g]);
    if At(s.threads[g]).Acquire? {
      OutsideAcquires(s.threads[g]);
      assert false;
    }
  }

  lemma StepOfAny(s: System, i: nat)
    requires Inv(s) && i < |s.threads| && !Finished(s.threads[i])
    requires Global !in s.held && PermissionList !in s.held && PosRequest !in s.held
    ensures Enabled(s, Run(i))
  {
    hide At, PermissionOk, InsideOk;
    NobodyInside(s, i);
    if At(s.threads[i]).Acquire? {
      OutsideAcquires(s.threads[i]);
    }
  }

  /** An answer is lost only if it is a permission, unlocked before the asking thread has
      locked its answer mutex for the first time. */
  lemma LostOnlyEarly(s: System)
    requires Inv(s) && Enabled(s, Unlock) && !s.lost
    ensures After(s, Unlock).lost <==>
              && s.ui.kind == Permission && Global in s.held && s.held[Global] < |s.threads|
              && s.threads[s.held[Global]].pc == 5
  {
    hide At, PermissionOk;
    assert InsideOk(s, s.held[Global]);
  }

  // ---- how long it can take ----

  function ThreadWork(t: Thread): nat
  {
    if t.pc <= CLOSED then 3 * (CLOSED - t.pc) else 0
  }

  function ThreadsWork(ts: seq<Thread>): nat
  {
    if ts == [] then 0 else ThreadWork(ts[0]) + ThreadsWork(ts[1..])
  }

  /** The steps still possible, when no more requests come in. */
  function Work(s: System): nat
  {
    ThreadsWork(s.threads) + 2 * |s.prompts| + if s.ui == Idle then 0 else 1
  }

  lemma {:induction false} ThreadsWorkUpdate(ts: seq<Thread>, i: nat, t: Thread)
    requires i < |ts|
    ensures ThreadsWork(ts[i := t]) == ThreadsWork(ts) - ThreadWork(ts[i]) + ThreadWork(t)
  {
    if i == 0 {
      assert ts[0 := t][1..] == ts[1..];
    } else {
      ThreadsWorkUpdate(ts[1..], i - 1, t);
      assert ts[i := t][1..] == ts[1..][i - 1 := t];
    }
  }

  /** A thread has 28 instructions to go, each for itself or to be answered. */
  lemma {:induction false} ThreadsWorkBound(ts: seq<Thread>)
    ensures ThreadsWork(ts) <= 84 * |ts|
  {
    if ts != [] {
      ThreadsWorkBound(ts[1..]);
    }
  }

  lemma WorkBound(s: System)
    requires Inv(s)
    ensures Work(s) <= 84 * |s.threads| + 3
  {
    hide LocksOk, PermissionsOk, At;
    ThreadsWorkBound(s.threads);
    if p :| p in s.prompts {
      PromptOfInsider(s, p);
      assert |{p}| == 1;
    } else {
      assert s.prompts == {};
    }
  }

  lemma StepWorks(s: System, e: Event)
    requires Inv(s) && Enabled(s, e) && !e.Arrive?
    ensures Work(After(s, e)) < Work(s)
  {
    hide At, Moved, Owns, InsideOk, PermissionOk, ThreadsWork;
    match e
    case Arrive(_) => assert false;
    case Run(i) => RunWorks(s, i);
    case Answer(p, _, _) =>
      assert |s.prompts - {p}| == |s.prompts| - 1;
    case Unlock =>
  }

  lemma RunWorks(s: System, i: nat)
    requires LocksOk(s) && Enabled(s, Run(i))
    ensures Work(After(s, Run(i))) < Work(s)
  {
    hide At, Moved, Owns, ThreadsWork;
    assert ThreadOk(s.threads[i]);
    ThreadsWorkUpdate(s.threads, i, Moved(s, s.threads[i]));
    MovesOn(s, s.threads[i]);
  }

  lemma MovesOn(s: System, t: Thread)
    requires ThreadOk(t) && At(t) != Stop
    ensures t.pc < Moved(s, t).pc <= CLOSED
  {
  }

  /** Without new requests a run is over after as many events as there is work. */
  lemma {:induction false} RunsEnd(s: System, run: seq<Event>)
    requires Inv(s) && IsRun(s, run) && forall a | 0 <= a < |run| :: !run[a].Arrive?
    ensures Inv(AfterAll(s, run)) && |run| + Work(AfterAll(s, run)) <= Work(s) <= 84 * |s.threads| + 3
    decreases |run|
  {
    hide Inv, After, Enabled, Work;
    WorkBound(s);
    if run != [] {
      var front := run[..|run| - 1];
      RunsEnd(s, front);
      StepKeepsInv(AfterAll(s, front), run[|run| - 1]);
      StepWorks(AfterAll(s, front), run[|run| - 1]);
    }
  }

  /** The interface keeps its answer back until the lock it will release is taken. */
  ghost predicate Patient(s: System, run: seq<Event>)
    requires IsRun(s, run)
    decreases |run|
  {
    run == [] ||
    var front := run[..|run| - 1];
    && Patient(s, front)
    && (run[|run| - 1] == Unlock ==> InputAnswer(AfterAll(s, front).ui.kind) in AfterAll(s, front).held)
  }

  lemma {:induction false} LostUnlessPatient(permissions: map<string, bool>, run: seq<Event>)
    requires IsRun(Initial(permissions), run)
    ensures AfterAll(Initial(permissions), run).lost <==> !Patient(Initial(permissions), run)
    decreases |run|
  {
    if run != [] {
      hide At, Moved;
      LostUnlessPatient(permissions, run[..|run| - 1]);
    }
  }

  /** A run that cannot go on has finished every request exactly when no answer was unlocked
      before the asking thread had locked for it. */
  lemma FinishesIffPatient(permissions: map<string, bool>, run: seq<Event>)
    requires IsRun(Initial(permissions), run) && Halted(AfterAll(Initial(permissions), run))
    ensures AllFinished(AfterAll(Initial(permissions), run)) <==> Patient(Initial(permissions), run)
  {
    hide Inv, Halted, AllFinished, Patient;
    RunKeepsInv(permissions, run);
    HaltedMeansFinished(AfterAll(Initial(permissions), run));
    LostUnlessPatient(permissions, run);
  }

  lemma RunExtends(s: System, run: seq<Event>, e: Event)
    requires IsRun(s, run) && Enabled(AfterAll(s, run), e)
    ensures IsRun(s, run + [e]) && AfterAll(s, run + [e]) == After(AfterAll(s, run), e)
  {
    assert (run + [e])[..|run|] == run;
  }

  /** The state in which one request waits at `pc`. */
  function Waiting(pc: nat, held: map<Lock, nat>): System
  {
    Initial(map[]).(threads := [Thread(Accounts("site"), pc, false, Pending)], held := held)
  }

  const LIST: map<Lock, nat> := map[PermissionList := 0]
  const ASKING: map<Lock, nat> := map[PermissionList := 0, Global := 0, InputRequest(Permission) := 0]

  /** The prompt is shown, the user allows the website at once, and only then the thread locks
      twice: it hangs. The website is allowed, its request never finishes, and the thread
      keeps the locks every other request for permission needs. */
  lemma EarlyAnswerHangs() returns (run: seq<Event>)
    ensures IsRun(Initial(map[]), run)
    ensures var s := AfterAll(Initial(map[]), run);
            Halted(s) && !AllFinished(s) && Allowed(s, "site") && PermissionList in s.held && Global in s.held
  {
    hide IsRun, AfterAll;
    run := ToThePrompt();
    var s := Initial(map[]);
    var asked := AfterAll(s, run);
    var p := Prompt(0, Permission);
    RunExtends(s, run, Answer(p, true, ""));
    run := run + [Answer(p, true, "")];
    RunExtends(s, run, Unlock);
    run := run + [Unlock];
    RunExtends(s, run, Run(0));
    run := run + [Run(0)];
    var hung := AfterAll(s, run);
    assert hung.threads == [Thread(Accounts("site"), 6, false, Pending)];
    assert hung.held == ASKING[InputAnswer(Permission) := 0] && hung.prompts == {} && hung.ui == Idle;
    assert !Finished(hung.threads[0]);
  }

  lemma ToThePrompt() returns (run: seq<Event>)
    ensures IsRun(Initial(map[]), run)
    ensures AfterAll(Initial(map[]), run) == Waiting(5, ASKING).(prompts := {Prompt(0, Permission)})
  {
    hide IsRun, AfterAll;
    var s := Initial(map[]);
    NothingIsRun(s);
    var e := Arrive(Accounts("site"));
    RunExtends(s, [], e);
    run := [] + [e];
    assert AfterAll(s, run) == Waiting(0, map[]);
    RunExtends(s, run, Run(0));
    run := run + [Run(0)];
    assert AfterAll(s, run) == Waiting(1, LIST);
    RunExtends(s, run, Run(0));
    run := run + [Run(0)];
    assert AfterAll(s, run) == Waiting(2, LIST);
    RunExtends(s, run, Run(0));
    run := run + [Run(0)];
    assert AfterAll(s, run) == Waiting(3, LIST[Global := 0]);
    RunExtends(s, run, Run(0));
    run := run + [Run(0)];
    assert AfterAll(s, run) == Waiting(4, ASKING);
    RunExtends(s, run, Run(0));
    run := run + [Run(0)];
  }

  lemma NothingIsRun(s: System)
    ensures IsRun(s, []) && AfterAll(s, []) == s
  {
  }
}