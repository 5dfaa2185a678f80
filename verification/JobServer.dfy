/** A core's job server and the tasks that post jobs to it, as interleaved atomic steps: the queue
    lock, the flag the server sleeps on, and where each job is (HolyCRT/MultiProc.HC, HolyCRT/Job.HC). */
module JobServer {

  datatype Code = TextInput | Msg | ExeStr | Call | SpawnTask

  // What a job is posted with. Master 0 is none; otherwise it is a task with a queue of its own.
  datatype Info = Info(code: Code, exitOnComplete: bool, freeOnComplete: bool, master: nat)

  // The job codes JobRunOne knows.
  predicate Handled(c: Code)
  {
    c.ExeStr? || c.Call? || c.SpawnTask?
  }

  datatype Res = JobDone | JobCont | JobExit

  // Where the server is: CoreAPSethTask's loop with JobRunOne inside it.
  datatype Server =
    | Spin | Test | Remove | Unlock(j: nat) | Exec(j: nat)
    | SpinDone(j: nat) | PutDone(j: nat) | MarkDone(j: nat) | UnlockDone(j: nat) | Delete(j: nat)
    | Returned(res: Res) | SetAwaiting | UnlockAwaiting | Sleeping

  // Where a posting task is: JobQue or TaskExe, then JobResGet or SpawnQue.
  datatype Client =
    | Idle | SpinPost(j: nat) | Check(j: nat) | Insert(j: nat) | UnlockPost(j: nat)
    | Waiting(j: nat) | SpinTake(j: nat) | Take(j: nat) | UnlockTake(j: nat) | DeleteTaken(j: nat)

  datatype Place = InWaiting | InDone | WithServer | WithClient(a: nat) | Freed

  const FREE: nat := 0
  const SERVER: nat := 1

  // Lock and done queue 0 are the server's, the others the masters'. The places are history.
  datatype State = State(
    info: seq<Info>, owner: seq<nat>, waiting: seq<nat>, doneQ: seq<seq<nat>>, awaiting: bool,
    doneBits: set<nat>, place: map<nat, Place>, server: Server, clients: seq<Client>)

  function Agent(a: nat): nat { a + 2 }

  function ResOf(i: Info): Res
  {
    if i.exitOnComplete then JobExit else JobCont
  }

  // ---- Steps ----

  function Lock(s: State, c: nat, who: nat): State
    requires c < |s.owner|
  {
    s.(owner := s.owner[c := who])
  }

  // A posted job's queue once it is done.
  function Home(s: State, j: nat): nat
    requires j < |s.info|
  {
    s.info[j].master
  }

  ghost predicate Sized(s: State)
  {
    && |s.owner| == |s.doneQ| > 0
    && (forall j :: 0 <= j < |s.info| ==> s.info[j].master < |s.owner|)
    && (forall j :: j in s.place ==> j < |s.info|)
    && (forall i :: 0 <= i < |s.waiting| ==> s.waiting[i] < |s.info|)
    && (ServerJob(s.server) != [] ==> ServerJob(s.server)[0] < |s.info|)
    && (forall a :: 0 <= a < |s.clients| && ClientJob(s.clients[a]) != [] ==> ClientJob(s.clients[a])[0] < |s.info|)
    && (s.server.Remove? ==> s.waiting != [])
  }

  // The job a program point is about, as a list of at most one.
  function ServerJob(p: Server): seq<nat>
  {
    if p.Unlock? || p.Exec? || p.SpinDone? || p.PutDone? || p.MarkDone? || p.UnlockDone? || p.Delete? then [p.j] else []
  }

  function ClientJob(p: Client): seq<nat>
  {
    if p.Idle? then [] else [p.j]
  }

  function ServerStep(s: State): State
    requires Sized(s)
  {
    match s.server
    case Spin => if s.owner[0] == FREE then Lock(s, 0, SERVER).(server := Test) else s
    case Test =>
      if s.waiting == [] then s.(server := SetAwaiting)
      else if Handled(s.info[s.waiting[0]].code) then s.(server := Remove)
      else s.(server := Returned(JobDone))
    case Remove =>
      var j := s.waiting[0];
      s.(waiting := s.waiting[1..], place := s.place[j := WithServer], server := Unlock(j))
    case Unlock(j) => Lock(s, 0, FREE).(server := Exec(j))
    case Exec(j) => s.(server := if s.info[j].freeOnComplete then Delete(j) else SpinDone(j))
    case SpinDone(j) =>
      if s.owner[Home(s, j)] == FREE then Lock(s, Home(s, j), SERVER).(server := PutDone(j)) else s
    case PutDone(j) =>
      s.(doneQ := s.doneQ[Home(s, j) := s.doneQ[Home(s, j)] + [j]], place := s.place[j := InDone], server := MarkDone(j))
    case MarkDone(j) => s.(doneBits := s.doneBits + {j}, server := UnlockDone(j))
    case UnlockDone(j) => Lock(s, Home(s, j), FREE).(server := Returned(ResOf(s.info[j])))
    case Delete(j) => s.(place := s.place[j := Freed], server := Returned(ResOf(s.info[j])))
    case Returned(r) => s.(server := if r.JobDone? then SetAwaiting else Spin)
    case SetAwaiting => s.(awaiting := true, server := UnlockAwaiting)
    case UnlockAwaiting => Lock(s, 0, FREE).(server := Sleeping)
    case Sleeping => if s.awaiting then s else s.(server := Spin)
  }

  function Removed(q: seq<nat>, j: nat): (r: seq<nat>)
    ensures forall x :: x in r <==> x in q && x != j
    ensures NoDup(q) ==> NoDup(r)
  {
    if q == [] then []
    else
      assert forall x :: x in q <==> x == q[0] || x in q[1..];
      assert NoDup(q) ==> NoDup(q[1..]) && q[0] !in q[1..];
      if q[0] == j then Removed(q[1..], j) else [q[0]] + Removed(q[1..], j)
  }

  ghost predicate NoDup(q: seq<nat>)
  {
    forall i, k :: 0 <= i < k < |q| ==> q[i] != q[k]
  }

  // The choices a posting task has: which job to post, whether it clears the flag in any case (as
  // TaskExe does), and whether it will ask for the result.
  datatype Choice = Choice(job: nat, always: bool, ask: bool)

  function ClientStep(s: State, a: nat, ch: Choice): State
    requires Sized(s) && a < |s.clients|
  {
    match s.clients[a]
    case Idle =>
      if ch.job < |s.info| && ch.job !in s.place then
        s.(place := s.place[ch.job := WithClient(a)], clients := s.clients[a := SpinPost(ch.job)])
      else s
    case SpinPost(j) =>
      if s.owner[0] == FREE then Lock(s, 0, Agent(a)).(clients := s.clients[a := Check(j)]) else s
    case Check(j) =>
      s.(awaiting := s.awaiting && !(ch.always || s.waiting == []), clients := s.clients[a := Insert(j)])
    case Insert(j) =>
      s.(waiting := s.waiting + [j], place := s.place[j := InWaiting], clients := s.clients[a := UnlockPost(j)])
    case UnlockPost(j) =>
      Lock(s, 0, FREE).(clients := s.clients[a := if ch.ask && !s.info[j].freeOnComplete then Waiting(j) else Idle])
    case Waiting(j) => if j in s.doneBits then s.(clients := s.clients[a := SpinTake(j)]) else s
    case SpinTake(j) =>
      if s.owner[Home(s, j)] == FREE then Lock(s, Home(s, j), Agent(a)).(clients := s.clients[a := Take(j)]) else s
    case Take(j) =>
      if j in s.doneQ[Home(s, j)] then
        s.(doneQ := s.doneQ[Home(s, j) := Removed(s.doneQ[Home(s, j)], j)], place := s.place[j := WithClient(a)],
           clients := s.clients[a := UnlockTake(j)])
      else Lock(s, Home(s, j), FREE).(clients := s.clients[a := Idle])
    case UnlockTake(j) => Lock(s, Home(s, j), FREE).(clients := s.clients[a := DeleteTaken(j)])
    case DeleteTaken(j) => s.(place := s.place[j := Freed], clients := s.clients[a := Idle])
  }

  ghost predicate Next(s: State, t: State)
    requires Sized(s)
  {
    t == ServerStep(s) || exists a: nat, ch :: a < |s.clients| && t == ClientStep(s, a, ch)
  }

  ghost predicate Init(s: State)
  {
    && Sized(s) && s.waiting == [] && s.place == map[] && s.doneBits == {} && s.server.Spin? && !s.awaiting
    && (forall c :: 0 <= c < |s.owner| ==> s.owner[c] == FREE && s.doneQ[c] == [])
    && (forall a :: 0 <= a < |s.clients| ==> s.clients[a].Idle?)
  }

  // ---- Invariants ----

  // The lock the server holds, or -1.
  function ServerLock(s: State): int
    requires ServerJob(s.server) != [] ==> ServerJob(s.server)[0] < |s.info|
  {
    match s.server
    case Test => 0
    case Remove => 0
    case Unlock(_) => 0
    case PutDone(j) => Home(s, j)
    case MarkDone(j) => Home(s, j)
    case UnlockDone(j) => Home(s, j)
    case Returned(r) => if r.JobDone? then 0 else -1
    case SetAwaiting => 0
    case UnlockAwaiting => 0
    case _ => -1
  }

  // The lock a posting task holds, or -1.
  function ClientLock(s: State, a: nat): int
    requires a < |s.clients| && (ClientJob(s.clients[a]) != [] ==> ClientJob(s.clients[a])[0] < |s.info|)
  {
    match s.clients[a]
    case Check(_) => 0
    case Insert(_) => 0
    case UnlockPost(_) => 0
    case Take(j) => Home(s, j)
    case UnlockTake(j) => Home(s, j)
    case _ => -1
  }

  /** Each lock is held exactly by whoever is between taking and releasing it. */
  ghost predicate Locks(s: State)
    requires Sized(s)
  {
    && (forall c :: 0 <= c < |s.owner| ==> (s.owner[c] == SERVER <==> ServerLock(s) == c))
    && (forall c, a :: 0 <= c < |s.owner| && 0 <= a < |s.clients| ==> (s.owner[c] == Agent(a) <==> ClientLock(s, a) == c))
  }

  predicate ServerHolds(p: Server, j: nat)
  {
    (p.Unlock? || p.Exec? || p.SpinDone? || p.PutDone? || p.Delete?) && p.j == j
  }

  predicate ClientHolds(p: Client, j: nat)
  {
    (p.SpinPost? || p.Check? || p.Insert? || p.UnlockTake? || p.DeleteTaken?) && p.j == j
  }

  ghost predicate At(s: State, j: nat, p: Place)
  {
    j in s.place && s.place[j] == p
  }

  // The queues and hands agree about where job j is.
  ghost predicate PlacedAt(s: State, j: nat)
  {
    && (j in s.waiting <==> At(s, j, InWaiting))
    && (forall c: nat :: c < |s.doneQ| ==> (j in s.doneQ[c] <==> At(s, j, InDone) && j < |s.info| && Home(s, j) == c))
    && (ServerHolds(s.server, j) <==> At(s, j, WithServer))
    && (forall a: nat :: a < |s.clients| ==> (ClientHolds(s.clients[a], j) <==> At(s, j, WithClient(a))))
    && (j in s.place && s.place[j].WithClient? ==> s.place[j].a < |s.clients|)
  }

  /** Every posted job is in exactly one place: the waiting queue, its own done queue, the server's
      hands, one task's hands, or gone. */
  ghost predicate Placed(s: State)
  {
    && NoDup(s.waiting) && (forall c :: 0 <= c < |s.doneQ| ==> NoDup(s.doneQ[c]))
    && (forall j: nat :: PlacedAt(s, j))
  }

  ghost predicate BitAt(s: State, j: nat)
  {
    && (At(s, j, InDone) ==> j < |s.info| && !s.info[j].freeOnComplete && (j in s.doneBits || s.server == MarkDone(j)))
    && (j in s.doneBits ==> j in s.place && Collected(s, j))
  }

  /** A job's done bit tells where it is: set on the way out of the server's hands, once the job is in
      a done queue, and never on a job freed by the server. */
  ghost predicate Bits(s: State)
  {
    && (forall j: nat :: BitAt(s, j))
    && (s.server.MarkDone? ==> At(s, s.server.j, InDone))
    && (s.server.Delete? ==> s.server.j < |s.info| && s.info[s.server.j].freeOnComplete)
    && (s.server.SpinDone? || s.server.PutDone? ==> s.server.j < |s.info| && !s.info[s.server.j].freeOnComplete)
  }

  ghost predicate Collected(s: State, j: nat)
    requires j in s.place
  {
    match s.place[j]
    case InDone => true
    case Freed => true
    case WithClient(a) => a < |s.clients| && (s.clients[a] == UnlockTake(j) || s.clients[a] == DeleteTaken(j))
    case _ => false
  }

  predicate Asks(p: Client)
  {
    p.Waiting? || p.SpinTake? || p.Take?
  }

  ghost predicate ClientClaimOk(s: State, a: nat)
    requires a < |s.clients|
  {
    var p := s.clients[a];
    && (!p.Idle? ==> p.j in s.place)
    && (p.UnlockPost? ==> At(s, p.j, InWaiting))
    && (Asks(p) ==> p.j < |s.info| && !s.info[p.j].freeOnComplete && !s.place[p.j].Freed? && !s.place[p.j].WithClient?
                    && (p.Waiting? || p.j in s.doneBits))
  }

  /** Two tasks never deal with the same job, and one that waits for a job's result has it coming. */
  ghost predicate Claims(s: State)
  {
    && (forall a: nat :: a < |s.clients| ==> ClientClaimOk(s, a))
    && (forall a, b :: 0 <= a < b < |s.clients| && !s.clients[a].Idle? && !s.clients[b].Idle? ==>
          s.clients[a].j != s.clients[b].j)
  }

  ghost predicate Inv(s: State)
  {
    Sized(s) && Locks(s) && Placed(s) && Bits(s) && Claims(s)
  }

  // Only job codes the server knows are posted.
  ghost predicate AllHandled(s: State)
  {
    forall j :: 0 <= j < |s.info| ==> Handled(s.info[j].code)
  }

  /** The server never sleeps on a queue with jobs in it. */
  ghost predicate Awake(s: State)
  {
    && (s.awaiting ==> s.waiting == [])
    && (s.server.SetAwaiting? ==> s.waiting == [])
    && s.server != Returned(JobDone)
    && (forall a :: 0 <= a < |s.clients| && s.clients[a].Insert? ==> !s.awaiting)
  }

  // The steps by what they do: take a lock, release one, move a job, or none of these.
  predicate Takes(p: Server) { p.Spin? || p.SpinDone? }
  predicate Releases(p: Server) { p.Unlock? || p.UnlockDone? || p.UnlockAwaiting? }
  predicate Moves(p: Server) { p.Remove? || p.PutDone? || p.Delete? }

  ghost predicate SameJobs(s: State, t: State)
  {
    t.waiting == s.waiting && t.doneQ == s.doneQ && t.place == s.place
  }

  ghost predicate ServerFramed(s: State, t: State)
  {
    && t.info == s.info && t.clients == s.clients
    && (!Moves(s.server) ==> SameJobs(s, t))
    && (!Takes(s.server) && !Releases(s.server) ==> t.owner == s.owner)
    && (!s.server.SetAwaiting? ==> t.awaiting == s.awaiting)
    && (!s.server.MarkDone? ==> t.doneBits == s.doneBits)
  }

  lemma ServerLockingFrame(s: State)
    requires Sized(s) && (Takes(s.server) || Releases(s.server))
    ensures ServerFramed(s, ServerStep(s))
  {
  }

  lemma ServerMovingFrame(s: State)
    requires Sized(s) && Moves(s.server)
    ensures ServerFramed(s, ServerStep(s))
  {
  }

  lemma ServerOtherFrame(s: State)
    requires Sized(s) && !Takes(s.server) && !Releases(s.server) && !Moves(s.server)
    ensures ServerFramed(s, ServerStep(s))
  {
  }

  lemma ServerFrame(s: State)
    requires Sized(s)
    ensures ServerFramed(s, ServerStep(s))
  {
    hide *;
    if Takes(s.server) || Releases(s.server) {
      ServerLockingFrame(s);
    } else if Moves(s.server) {
      ServerMovingFrame(s);
    } else {
      ServerOtherFrame(s);
    }
  }

  lemma ServerSized(s: State)
    requires Sized(s)
    ensures Sized(ServerStep(s))
  {
    var t := ServerStep(s);
    ServerFrame(s);
    assert |t.owner| == |s.owner| && |t.doneQ| == |s.doneQ|;
    assert forall i :: 0 <= i < |t.waiting| ==> t.waiting[i] < |s.info|;
    assert forall j :: j in t.place ==> j < |s.info|;
    assert ServerJob(t.server) == [] || ServerJob(t.server)[0] < |s.info|;
    assert t.server.Remove? ==> t.waiting != [];
    hide ServerStep;
  }

  predicate TakesOrReleases(p: Client) { p.SpinPost? || p.SpinTake? || p.UnlockPost? || p.UnlockTake? }

  ghost predicate Framed(s: State, t: State, a: nat)
  {
    && t.info == s.info && t.server == s.server && |t.owner| == |s.owner| && |t.doneQ| == |s.doneQ|
    && a < |s.clients| == |t.clients| && t.clients == s.clients[a := t.clients[a]] && t.doneBits == s.doneBits
  }

  lemma LockingFrame(s: State, a: nat, ch: Choice)
    requires Sized(s) && a < |s.clients| && TakesOrReleases(s.clients[a])
    ensures Framed(s, ClientStep(s, a, ch), a)
  {
  }

  lemma MovingFrame(s: State, a: nat, ch: Choice)
    requires Sized(s) && a < |s.clients| && !TakesOrReleases(s.clients[a])
    ensures Framed(s, ClientStep(s, a, ch), a)
  {
  }

  lemma ClientFrame(s: State, a: nat, ch: Choice)
    requires Sized(s) && a < |s.clients|
    ensures Framed(s, ClientStep(s, a, ch), a)
  {
    hide ClientStep, Framed, Sized;
    if TakesOrReleases(s.clients[a]) {
      LockingFrame(s, a, ch);
    } else {
      MovingFrame(s, a, ch);
    }
  }

  lemma ClientWaiting(s: State, a: nat, ch: Choice)
    requires Sized(s) && a < |s.clients|
    ensures var t := ClientStep(s, a, ch);
            (forall i :: 0 <= i < |t.waiting| ==> t.waiting[i] < |s.info|) && |t.waiting| >= |s.waiting|
  {
  }

  ghost predicate JobsKnown(s: State, t: State, a: nat)
  {
    && (forall j :: j in t.place ==> j < |s.info|) && a < |t.clients|
    && (ClientJob(t.clients[a]) == [] || ClientJob(t.clients[a])[0] < |s.info|)
  }

  lemma LockingJobs(s: State, a: nat, ch: Choice)
    requires Sized(s) && a < |s.clients| && TakesOrReleases(s.clients[a])
    ensures JobsKnown(s, ClientStep(s, a, ch), a)
  {
  }

  lemma MovingJobs(s: State, a: nat, ch: Choice)
    requires Sized(s) && a < |s.clients| && !TakesOrReleases(s.clients[a])
    ensures JobsKnown(s, ClientStep(s, a, ch), a)
  {
    hide Removed;
  }

  lemma ClientJobs(s: State, a: nat, ch: Choice)
    requires Sized(s) && a < |s.clients|
    ensures JobsKnown(s, ClientStep(s, a, ch), a)
  {
    hide ClientStep, JobsKnown, Sized;
    if TakesOrReleases(s.clients[a]) {
      LockingJobs(s, a, ch);
    } else {
      MovingJobs(s, a, ch);
    }
  }

  lemma ClientSized(s: State, a: nat, ch: Choice)
    requires Sized(s) && a < |s.clients|
    ensures Sized(ClientStep(s, a, ch))
  {
    hide ClientStep;
    ClientFrame(s, a, ch);
    ClientWaiting(s, a, ch);
    ClientJobs(s, a, ch);
  }

  // One agent's locking: nothing, taking a free lock, or releasing the one it has.
  ghost predicate Locking(was: seq<nat>, now: seq<nat>, who: nat, before: int, after: int)
  {
    || (now == was && before == after)
    || (before == -1 && 0 <= after < |was| && was[after] == FREE && now == was[after := who])
    || (after == -1 && 0 <= before < |was| && now == was[before := FREE])
  }

  lemma ServerTakes(s: State)
    requires Sized(s) && Sized(ServerStep(s)) && Takes(s.server)
    ensures Locking(s.owner, ServerStep(s).owner, SERVER, ServerLock(s), ServerLock(ServerStep(s)))
  {
  }

  lemma ServerReleases(s: State)
    requires Sized(s) && Sized(ServerStep(s)) && Releases(s.server)
    ensures Locking(s.owner, ServerStep(s).owner, SERVER, ServerLock(s), ServerLock(ServerStep(s)))
  {
  }

  lemma ServerKeepsLock(s: State)
    requires Sized(s) && Sized(ServerStep(s)) && !Takes(s.server) && !Releases(s.server)
    ensures Locking(s.owner, ServerStep(s).owner, SERVER, ServerLock(s), ServerLock(ServerStep(s)))
  {
    assert ServerStep(s).owner == s.owner by { ServerFrame(s); }
    hide Sized, Handled;
  }

  lemma ClientTakes(s: State, a: nat, ch: Choice)
    requires Sized(s) && a < |s.clients| && Sized(ClientStep(s, a, ch))
    requires TakesOrReleases(s.clients[a])
    ensures var t := ClientStep(s, a, ch);
            |t.clients| == |s.clients| && Locking(s.owner, t.owner, Agent(a), ClientLock(s, a), ClientLock(t, a))
  {
  }

  lemma ClientKeepsLock(s: State, a: nat, ch: Choice)
    requires Sized(s) && a < |s.clients| && Sized(ClientStep(s, a, ch))
    requires !TakesOrReleases(s.clients[a])
    ensures var t := ClientStep(s, a, ch);
            |t.clients| == |s.clients| && Locking(s.owner, t.owner, Agent(a), ClientLock(s, a), ClientLock(t, a))
  {
    hide Removed, ServerJob;
  }

  lemma ServerLocks(s: State)
    requires Inv(s)
    ensures Sized(ServerStep(s)) && Locks(ServerStep(s))
  {
    var t := ServerStep(s);
    hide Placed, Bits, Claims, Sized, ServerStep, ServerLock;
    ServerSized(s);
    ServerFrame(s);
    if Takes(s.server) {
      ServerTakes(s);
    } else if Releases(s.server) {
      ServerReleases(s);
    } else {
      ServerKeepsLock(s);
    }
    assert forall a :: 0 <= a < |s.clients| ==> ClientLock(t, a) == ClientLock(s, a);
    ServerLocksFollow(s, t);
  }

  lemma ServerLocksFollow(s: State, t: State)
    requires Sized(s) && Sized(t) && Locks(s) && |t.clients| == |s.clients|
    requires Locking(s.owner, t.owner, SERVER, ServerLock(s), ServerLock(t))
    requires forall a :: 0 <= a < |s.clients| ==> ClientLock(t, a) == ClientLock(s, a)
    ensures Locks(t)
  {
    hide ServerLock, ClientLock;
    forall c | 0 <= c < |t.owner|
      ensures t.owner[c] == SERVER <==> ServerLock(t) == c
    {
      assert s.owner[c] == SERVER <==> ServerLock(s) == c;
    }
    forall c, b | 0 <= c < |t.owner| && 0 <= b < |t.clients|
      ensures t.owner[c] == Agent(b) <==> ClientLock(t, b) == c
    {
      assert s.owner[c] == Agent(b) <==> ClientLock(s, b) == c;
      assert s.owner[c] == SERVER <==> ServerLock(s) == c;
    }
  }

  lemma ClientLocks(s: State, a: nat, ch: Choice)
    requires Inv(s) && a < |s.clients|
    ensures Sized(ClientStep(s, a, ch)) && Locks(ClientStep(s, a, ch))
  {
    var t := ClientStep(s, a, ch);
    hide Placed, Bits, Claims, Sized, ClientStep;
    ClientFrame(s, a, ch);
    ClientSized(s, a, ch);
    if TakesOrReleases(s.clients[a]) {
      ClientTakes(s, a, ch);
    } else {
      ClientKeepsLock(s, a, ch);
    }
    assert forall b :: 0 <= b < |s.clients| && b != a ==> ClientLock(t, b) == ClientLock(s, b);
    LocksFollow(s, t, a);
  }

  lemma LocksFollow(s: State, t: State, a: nat)
    requires Sized(s) && Sized(t) && Locks(s) && |t.clients| == |s.clients| && a < |s.clients|
    requires Locking(s.owner, t.owner, Agent(a), ClientLock(s, a), ClientLock(t, a))
    requires ServerLock(t) == ServerLock(s)
    requires forall b :: 0 <= b < |s.clients| && b != a ==> ClientLock(t, b) == ClientLock(s, b)
    ensures Locks(t)
  {
    hide ServerLock, ClientLock;
    forall c | 0 <= c < |t.owner|
      ensures t.owner[c] == SERVER <==> ServerLock(t) == c
    {
      assert s.owner[c] == SERVER <==> ServerLock(s) == c;
      assert s.owner[c] == Agent(a) <==> ClientLock(s, a) == c;
    }
    forall c, b | 0 <= c < |t.owner| && 0 <= b < |t.clients|
      ensures t.owner[c] == Agent(b) <==> ClientLock(t, b) == c
    {
      assert s.owner[c] == Agent(b) <==> ClientLock(s, b) == c;
      assert s.owner[c] == Agent(a) <==> ClientLock(s, a) == c;
    }
  }

  lemma ServerPlaced(s: State)
    requires Inv(s)
    ensures Placed(ServerStep(s))
  {
    if s.server.Remove? {
      RemovePlaced(s);
    } else if s.server.PutDone? {
      PutDonePlaced(s);
    } else if s.server.Delete? {
      DeletePlaced(s);
    } else {
      QuietPlaced(s);
    }
  }

  lemma RemovePlaced(s: State)
    requires Inv(s) && s.server.Remove?
    ensures Placed(ServerStep(s))
  {
    hide Locks, Bits, Claims;
    assert s.waiting == [s.waiting[0]] + s.waiting[1..];
    forall j: nat
      ensures PlacedAt(ServerStep(s), j)
    {
      assert PlacedAt(s, j);
    }
  }

  lemma PutDonePlaced(s: State)
    requires Inv(s) && s.server.PutDone?
    ensures Placed(ServerStep(s))
  {
    hide Locks, Bits, Claims;
    assert PlacedAt(s, s.server.j);
    forall j: nat
      ensures PlacedAt(ServerStep(s), j)
    {
      assert PlacedAt(s, j);
    }
  }

  lemma DeletePlaced(s: State)
    requires Inv(s) && s.server.Delete?
    ensures Placed(ServerStep(s))
  {
    hide Locks, Bits, Claims;
    forall j: nat
      ensures PlacedAt(ServerStep(s), j)
    {
      assert PlacedAt(s, j);
    }
  }

  lemma QuietPlaced(s: State)
    requires Inv(s) && !Moves(s.server)
    ensures Placed(ServerStep(s))
  {
    hide Locks, Bits, Claims;
    var t := ServerStep(s);
    ServerFrame(s);
    assert forall j: nat :: ServerHolds(t.server, j) <==> ServerHolds(s.server, j);
    hide ServerStep, ServerHolds, ClientHolds, Sized;
    forall j: nat
      ensures PlacedAt(t, j)
    {
      assert PlacedAt(s, j);
    }
  }

  lemma ClientPlaced(s: State, a: nat, ch: Choice)
    requires Inv(s) && a < |s.clients|
    ensures Placed(ClientStep(s, a, ch))
  {
    if s.clients[a].Idle? {
      IdlePlaced(s, a, ch);
    } else if s.clients[a].Insert? {
      InsertPlaced(s, a, ch);
    } else if s.clients[a].Take? {
      TakePlaced(s, a, ch);
    } else if s.clients[a].DeleteTaken? {
      DeleteTakenPlaced(s, a, ch);
    } else {
      OtherPlaced(s, a, ch);
    }
  }

  lemma IdlePlaced(s: State, a: nat, ch: Choice)
    requires Inv(s) && a < |s.clients| && s.clients[a].Idle?
    ensures Placed(ClientStep(s, a, ch))
  {
    hide Locks, Bits, Claims;
    forall j: nat
      ensures PlacedAt(ClientStep(s, a, ch), j)
    {
      assert PlacedAt(s, j);
    }
  }

  lemma InsertPlaced(s: State, a: nat, ch: Choice)
    requires Inv(s) && a < |s.clients| && s.clients[a].Insert?
    ensures Placed(ClientStep(s, a, ch))
  {
    hide Locks, Bits, Claims;
    assert PlacedAt(s, s.clients[a].j);
    forall j: nat
      ensures PlacedAt(ClientStep(s, a, ch), j)
    {
      assert PlacedAt(s, j);
    }
  }

  lemma TakePlaced(s: State, a: nat, ch: Choice)
    requires Inv(s) && a < |s.clients| && s.clients[a].Take?
    ensures Placed(ClientStep(s, a, ch))
  {
    hide Locks, Bits;
    assert PlacedAt(s, s.clients[a].j);
    forall j: nat
      ensures PlacedAt(ClientStep(s, a, ch), j)
    {
      assert PlacedAt(s, j);
    }
  }

  lemma DeleteTakenPlaced(s: State, a: nat, ch: Choice)
    requires Inv(s) && a < |s.clients| && s.clients[a].DeleteTaken?
    ensures Placed(ClientStep(s, a, ch))
  {
    hide Locks, Bits;
    assert PlacedAt(s, s.clients[a].j);
    forall j: nat
      ensures PlacedAt(ClientStep(s, a, ch), j)
    {
      assert PlacedAt(s, j);
    }
  }

  lemma OtherPlaced(s: State, a: nat, ch: Choice)
    requires Inv(s) && a < |s.clients|
    requires !(s.clients[a].Idle? || s.clients[a].Insert? || s.clients[a].Take? || s.clients[a].DeleteTaken?)
    ensures Placed(ClientStep(s, a, ch))
  {
    hide Locks, Bits, Claims;
    var t := ClientStep(s, a, ch);
    ClientFrame(s, a, ch);
    assert SameJobs(s, t) && forall j: nat :: ClientHolds(t.clients[a], j) <==> ClientHolds(s.clients[a], j);
    hide ClientStep, ServerHolds, ClientHolds, Sized;
    forall j: nat
      ensures PlacedAt(t, j)
    {
      assert PlacedAt(s, j);
    }
  }

  // The server and a task never hold the same lock.
  lemma OneHolder(s: State, a: nat)
    requires Inv(s) && a < |s.clients|
    ensures ServerLock(s) == -1 || ServerLock(s) != ClientLock(s, a)
  {
    hide Placed, Bits, Claims;
    var c := ServerLock(s);
    assert 0 <= c < |s.owner| ==> s.owner[c] == SERVER;
    assert 0 <= c < |s.owner| && ClientLock(s, a) == c ==> s.owner[c] == Agent(a);
  }

  lemma ServerBits(s: State)
    requires Inv(s)
    ensures Bits(ServerStep(s))
  {
    hide Locks, Claims;
    if !Moves(s.server) {
      QuietBits(s);
    } else {
      assert PlacedAt(s, ServerJobAt(s));
      forall j: nat
        ensures BitAt(ServerStep(s), j)
      {
        assert BitAt(s, j) && PlacedAt(s, j);
      }
    }
  }

  // The job the server is about to move.
  function ServerJobAt(s: State): nat
    requires Sized(s) && Moves(s.server)
  {
    if s.server.Remove? then s.waiting[0] else s.server.j
  }

  lemma QuietBits(s: State)
    requires Inv(s) && !Moves(s.server)
    ensures Bits(ServerStep(s))
  {
    var t := ServerStep(s);
    ServerFrame(s);
    assert !t.server.MarkDone? && (t.server.PutDone? ==> s.server == SpinDone(t.server.j));
    assert t.server.SpinDone? ==> s.server == t.server || !s.info[t.server.j].freeOnComplete;
    assert t.server.Delete? ==> t.server.j < |s.info| && s.info[t.server.j].freeOnComplete;
    assert s.server.MarkDone? ==> t.doneBits == s.doneBits + {s.server.j};
    hide Locks, Claims, Placed, ServerStep, Sized;
    forall j: nat
      ensures BitAt(t, j)
    {
      assert BitAt(s, j);
    }
  }

  lemma ClientBits(s: State, a: nat, ch: Choice)
    requires Inv(s) && a < |s.clients|
    ensures Bits(ClientStep(s, a, ch))
  {
    var t := ClientStep(s, a, ch);
    ClientFrame(s, a, ch);
    OneHolder(s, a);
    if s.clients[a].Idle? {
      IdleBits(s, a, ch);
    } else if s.clients[a].Insert? {
      InsertBits(s, a, ch);
    } else if s.clients[a].Take? {
      TakeBits(s, a, ch);
    } else if s.clients[a].DeleteTaken? {
      DeleteTakenBits(s, a, ch);
    } else {
      assert t.place == s.place && (s.clients[a].UnlockTake? ==> t.clients[a] == DeleteTaken(s.clients[a].j));
      hide ClientStep, Locks, Claims, Placed, Sized;
      forall j: nat
        ensures BitAt(t, j)
      {
        assert BitAt(s, j);
      }
    }
  }

  lemma IdleBits(s: State, a: nat, ch: Choice)
    requires Inv(s) && a < |s.clients| && (ServerLock(s) == -1 || ServerLock(s) != ClientLock(s, a)) && s.clients[a].Idle?
    ensures Bits(ClientStep(s, a, ch))
  {
    hide Locks, Claims, Sized;
    forall j: nat
      ensures BitAt(ClientStep(s, a, ch), j)
    {
      assert BitAt(s, j) && PlacedAt(s, j);
    }
  }

  lemma InsertBits(s: State, a: nat, ch: Choice)
    requires Inv(s) && a < |s.clients| && (ServerLock(s) == -1 || ServerLock(s) != ClientLock(s, a)) && s.clients[a].Insert?
    ensures Bits(ClientStep(s, a, ch))
  {
    hide Locks, Claims, Sized;
    assert PlacedAt(s, s.clients[a].j);
    forall j: nat
      ensures BitAt(ClientStep(s, a, ch), j)
    {
      assert BitAt(s, j) && PlacedAt(s, j);
    }
  }

  lemma TakeBits(s: State, a: nat, ch: Choice)
    requires Inv(s) && a < |s.clients| && (ServerLock(s) == -1 || ServerLock(s) != ClientLock(s, a)) && s.clients[a].Take?
    ensures Bits(ClientStep(s, a, ch))
  {
    hide Locks, Claims, Sized;
    assert PlacedAt(s, s.clients[a].j);
    forall j: nat
      ensures BitAt(ClientStep(s, a, ch), j)
    {
      assert BitAt(s, j) && PlacedAt(s, j);
    }
  }

  lemma DeleteTakenBits(s: State, a: nat, ch: Choice)
    requires Inv(s) && a < |s.clients| && (ServerLock(s) == -1 || ServerLock(s) != ClientLock(s, a)) && s.clients[a].DeleteTaken?
    ensures Bits(ClientStep(s, a, ch))
  {
    hide Locks, Claims, Sized;
    assert PlacedAt(s, s.clients[a].j);
    forall j: nat
      ensures BitAt(ClientStep(s, a, ch), j)
    {
      assert BitAt(s, j) && PlacedAt(s, j);
    }
  }

  lemma ServerClaims(s: State)
    requires Inv(s)
    ensures Claims(ServerStep(s))
  {
    ServerFrame(s);
    if Moves(s.server) {
      assert PlacedAt(s, ServerJobAt(s));
      forall a: nat | a < |s.clients|
        ensures s.server.Remove? ==> !s.clients[a].UnlockPost?
      {
        OneHolder(s, a);
      }
    }
    hide Locks, Placed;
    forall a: nat | a < |s.clients|
      ensures ClientClaimOk(ServerStep(s), a)
    {
      assert ClientClaimOk(s, a);
    }
  }

  lemma ClientClaims(s: State, a: nat, ch: Choice)
    requires Inv(s) && a < |s.clients|
    ensures Claims(ClientStep(s, a, ch))
  {
    var t := ClientStep(s, a, ch);
    ClientFrame(s, a, ch);
    ClientClaim(s, a, ch);
    hide ClientStep, Locks, Placed, Bits, Sized, Asks;
    forall b: nat | b < |t.clients|
      ensures ClientClaimOk(t, b)
    {
      assert ClientClaimOk(s, b);
    }
    forall b: nat | b < |t.clients|
      ensures b != a && !t.clients[a].Idle? && !t.clients[b].Idle? ==> t.clients[a].j != t.clients[b].j
    {
      assert ClientClaimOk(s, b);
    }
  }

  // What a task's own step does to its claim, and that it leaves other jobs where they are.
  lemma ClientClaim(s: State, a: nat, ch: Choice)
    requires Inv(s) && a < |s.clients|
    ensures Claimed(s, ClientStep(s, a, ch), a)
  {
    hide Locks, Placed, Bits, ClientStep, Claimed, Sized, ClientClaimOk;
    assert ClientClaimOk(s, a);
    if TakesOrReleases(s.clients[a]) {
      LockingClaim(s, a, ch);
    } else {
      MovingClaim(s, a, ch);
    }
  }

  ghost predicate Claimed(s: State, t: State, a: nat)
    requires a < |s.clients|
  {
    && |t.clients| == |s.clients| && ClientClaimOk(t, a)
    && (forall j: nat :: j in s.place && (s.clients[a].Idle? || j != s.clients[a].j) ==>
          j in t.place && t.place[j] == s.place[j])
    && (forall j: nat :: j in s.place ==> j in t.place)
    && (!t.clients[a].Idle? ==> if s.clients[a].Idle? then t.clients[a].j !in s.place else t.clients[a].j == s.clients[a].j)
  }

  lemma LockingClaim(s: State, a: nat, ch: Choice)
    requires Sized(s) && a < |s.clients| && ClientClaimOk(s, a) && TakesOrReleases(s.clients[a])
    ensures Claimed(s, ClientStep(s, a, ch), a)
  {
  }

  lemma MovingClaim(s: State, a: nat, ch: Choice)
    requires Sized(s) && a < |s.clients| && ClientClaimOk(s, a) && !TakesOrReleases(s.clients[a])
    ensures Claimed(s, ClientStep(s, a, ch), a)
  {
    hide Removed;
  }

  lemma ServerAwake(s: State)
    requires Inv(s) && AllHandled(s) && Awake(s)
    ensures Awake(ServerStep(s))
  {
    hide Placed, Bits, Claims;
    forall a: nat | a < |s.clients|
      ensures s.server.SetAwaiting? ==> !s.clients[a].Insert?
    {
      OneHolder(s, a);
    }
    hide Locks;
  }

  lemma ClientAwake(s: State, a: nat, ch: Choice)
    requires Inv(s) && AllHandled(s) && Awake(s) && a < |s.clients|
    ensures Awake(ClientStep(s, a, ch))
  {
    hide Placed, Bits, Claims, Locks, Removed;
    OneHolder(s, a);
  }

  // ---- Runs ----

  ghost predicate Run(r: seq<State>)
  {
    |r| > 0 && Init(r[0]) && forall i :: 0 <= i < |r| - 1 ==> Follows(r, i)
  }

  ghost predicate Follows(r: seq<State>, i: nat)
  {
    i + 1 < |r| && Sized(r[i]) && Next(r[i], r[i + 1])
  }

  lemma ServerKeeps(s: State)
    requires Inv(s)
    ensures var t := ServerStep(s); Inv(t) && t.info == s.info && |t.clients| == |s.clients|
    ensures AllHandled(s) && Awake(s) ==> Awake(ServerStep(s))
  {
    ServerLocks(s);
    ServerPlaced(s);
    ServerBits(s);
    ServerClaims(s);
    ServerFrame(s);
    if AllHandled(s) && Awake(s) {
      ServerAwake(s);
    }
    hide ServerStep, Locks, Placed, Bits, Claims, Awake, AllHandled, Sized;
  }

  lemma ClientKeeps(s: State, a: nat, ch: Choice)
    requires Inv(s) && a < |s.clients|
    ensures var t := ClientStep(s, a, ch); Inv(t) && t.info == s.info && |t.clients| == |s.clients|
    ensures AllHandled(s) && Awake(s) ==> Awake(ClientStep(s, a, ch))
  {
    ClientLocks(s, a, ch);
    ClientPlaced(s, a, ch);
    ClientBits(s, a, ch);
    ClientClaims(s, a, ch);
    ClientFrame(s, a, ch);
    if AllHandled(s) && Awake(s) {
      ClientAwake(s, a, ch);
    }
    hide ClientStep, Locks, Placed, Bits, Claims, Awake, AllHandled, Sized;
  }

  lemma InitHolds(s: State)
    requires Init(s)
    ensures Inv(s) && Awake(s)
  {
    forall j: nat
      ensures PlacedAt(s, j) && BitAt(s, j)
    {
    }
  }

  /** Every state of every run: each lock has exactly the holder its users' positions say, each posted
      job is in exactly one place, and done bits tell the truth. */
  lemma {:induction false} RunsKeep(r: seq<State>)
    requires Run(r)
    ensures var s := r[|r| - 1]; Inv(s) && s.info == r[0].info && |s.clients| == |r[0].clients|
    ensures AllHandled(r[0]) ==> Awake(r[|r| - 1])
  {
    if |r| == 1 {
      InitHolds(r[0]);
    } else {
      var p := r[..|r| - 1];
      forall i | 0 <= i < |p| - 1
        ensures Follows(p, i)
      {
        assert Follows(r, i);
      }
      RunsKeep(p);
      hide Inv, Awake, AllHandled, Sized, Next;
      assert Follows(r, |r| - 2);
      LastStep(p[|p| - 1], r[|r| - 1]);
    }
  }

  lemma LastStep(s: State, t: State)
    requires Inv(s) && Next(s, t)
    ensures Inv(t) && t.info == s.info && |t.clients| == |s.clients|
    ensures AllHandled(s) && Awake(s) ==> Awake(t)
  {
    hide Locks, Placed, Bits, Claims, Awake, AllHandled, ServerStep, ClientStep, Sized;
    if t == ServerStep(s) {
      ServerKeeps(s);
    } else {
      var a: nat, ch :| a < |s.clients| && t == ClientStep(s, a, ch);
      ClientKeeps(s, a, ch);
    }
  }

  /** What JobRunOne answers: JOB_DONE for a job it does not know, which stays first in the queue; for a job done
      with, JOB_EXIT exactly if the job says so. */
  lemma AnswersFor(s: State)
    requires Inv(s) && !s.server.Returned? && ServerStep(s).server.Returned?
    ensures var t := ServerStep(s);
            if t.server.res.JobDone? then
              t.waiting == s.waiting != [] && t.waiting[0] < |s.info| && s.info[t.waiting[0]].code in {TextInput, Msg}
            else
              exists j: nat :: j < |s.info| && (s.server == UnlockDone(j) || (s.server == Delete(j) && At(t, j, Freed))) &&
                               (t.server.res.JobExit? <==> s.info[j].exitOnComplete)
  {
    hide Locks, Claims, Placed, Bits;
  }

  // State s is the last of a run.
  ghost predicate EndsIn(r: seq<State>, s: State)
  {
    Run(r) && s == r[|r| - 1]
  }

  /** JobRunOne comes back with the lock exactly when it says JOB_DONE. */
  lemma ReturnsWithLock(r: seq<State>, s: State)
    requires EndsIn(r, s) && s.server.Returned?
    ensures |s.owner| > 0 && (s.owner[0] == SERVER <==> s.server.res.JobDone?)
  {
    RunsKeep(r);
    hide Placed, Bits, Claims;
    assert s.owner[0] == SERVER <==> ServerLock(s) == 0;
  }

  /** A task that saw its job's done bit and has the queue's lock finds the job in the queue. */
  lemma ResultIsThere(r: seq<State>, s: State, a: nat)
    requires EndsIn(r, s) && a < |s.clients| && s.clients[a].Take?
    ensures s.clients[a].j < |s.info| && s.info[s.clients[a].j].master < |s.doneQ|
    ensures s.clients[a].j in s.doneQ[s.info[s.clients[a].j].master]
  {
    RunsKeep(r);
    var j := s.clients[a].j;
    hide Locks;
    assert ClientClaimOk(s, a) && BitAt(s, j) && PlacedAt(s, j);
  }

  lemma MarksUnderLock(s: State)
    requires Inv(s)
    ensures s.server.MarkDone? ==> exists c :: 0 <= c < |s.owner| && s.owner[c] == SERVER
  {
    if s.server.MarkDone? {
      assert s.owner[Home(s, s.server.j)] == SERVER;
    }
  }

  /** With the locks free, the done bit is set exactly on the jobs in done queues, among those not
      collected or freed. */
  lemma DoneBitsTell(r: seq<State>, s: State, j: nat)
    requires EndsIn(r, s) && j in s.place && !s.place[j].Freed? && !s.place[j].WithClient?
    requires forall c :: 0 <= c < |s.owner| ==> s.owner[c] == FREE
    ensures j in s.doneBits <==> exists c :: 0 <= c < |s.doneQ| && j in s.doneQ[c]
  {
    RunsKeep(r);
    assert BitAt(s, j) && PlacedAt(s, j);
    MarksUnderLock(s);
    hide Locks;
    if s.place[j] == InDone {
      assert j in s.doneQ[Home(s, j)];
    }
  }

  // A job waits, nobody holds the lock, and the server waits for a message all the same.
  ghost predicate Lost(s: State)
  {
    |s.owner| > 0 && s.owner[0] == FREE && s.waiting != [] && s.awaiting
  }

  // The server is asleep although a job waits, and nothing has told it.
  ghost predicate Asleep(s: State)
  {
    s.server.Sleeping? && s.awaiting && s.waiting != []
  }

  /** No lost wakeup: with job codes the server knows, no run gets there. */
  lemma NoLostWakeup(r: seq<State>, s: State)
    requires EndsIn(r, s) && AllHandled(r[0])
    ensures !Lost(s)
  {
    RunsKeep(r);
  }

  // Each state follows from the one before.
  ghost predicate Chain(r: seq<State>)
  {
    forall i :: 0 <= i < |r| - 1 ==> Follows(r, i)
  }

  // One step more.
  lemma Longer(r: seq<State>, t: State)
    requires Chain(r) && r != [] && Sized(r[|r| - 1]) && Next(r[|r| - 1], t)
    ensures Chain(r + [t])
  {
    var q := r + [t];
    forall i | 0 <= i < |q| - 1
      ensures Follows(q, i)
    {
      assert i < |r| - 1 ==> Follows(r, i);
    }
  }

  lemma ClientGoes(r: seq<State>, s: State, ch: Choice, t: State) returns (q: seq<State>)
    requires Chain(r) && r != [] && r[|r| - 1] == s && Sized(s) && |s.clients| > 0 && t == ClientStep(s, 0, ch)
    ensures q == r + [t] && Chain(q)
  {
    hide ClientStep, Sized;
    q := r + [t];
    Longer(r, t);
  }

  lemma ServerGoes(r: seq<State>, s: State, t: State) returns (q: seq<State>)
    requires Chain(r) && r != [] && r[|r| - 1] == s && Sized(s) && t == ServerStep(s)
    ensures q == r + [t] && Chain(q) && Sized(t)
  {
    ServerSized(s);
    hide ServerStep, Sized;
    q := r + [t];
    Longer(r, t);
  }

  // The steps of a task that posts job j.
  lemma Posting(s: State, j: nat) returns (r: seq<State>)
    requires Init(s) && |s.clients| > 0 && j < |s.info|
    ensures r != [] && r[0] == s && Chain(r)
    ensures var t := r[|r| - 1];
            && Sized(t) && t.info == s.info && t.owner[0] == FREE && t.waiting == [j] && t.server.Spin? && !t.awaiting
  {
    var ch := Choice(j, false, false);
    var s1 := s.(place := map[j := WithClient(0)], clients := s.clients[0 := SpinPost(j)]);
    var s2 := Lock(s1, 0, Agent(0)).(clients := s.clients[0 := Check(j)]);
    var s3 := s2.(clients := s.clients[0 := Insert(j)]);
    var s4 := s3.(waiting := [j], place := map[j := InWaiting], clients := s.clients[0 := UnlockPost(j)]);
    var s5 := Lock(s4, 0, FREE).(clients := s.clients[0 := Idle]);
    r := ClientGoes([s], s, ch, s1);
    r := ClientGoes(r, s1, ch, s2);
    r := ClientGoes(r, s2, ch, s3);
    r := ClientGoes(r, s3, ch, s4);
    r := ClientGoes(r, s4, ch, s5);
  }

  lemma OneState(s: State)
    ensures Chain([s])
  {
  }

  // The server meets a job whose code it does not know, and JobRunOne returns with the lock.
  lemma Refusing(s: State, j: nat) returns (r: seq<State>)
    requires Sized(s) && s.owner[0] == FREE && s.waiting == [j] && s.server.Spin?
    requires j < |s.info| && !Handled(s.info[j].code)
    ensures r != [] && r[0] == s && Chain(r) && Sized(r[|r| - 1])
    ensures r[|r| - 1] == Lock(s, 0, SERVER).(server := Returned(JobDone))
  {
    hide Sized, Chain;
    OneState(s);
    assert |s.owner| > 0 by { SizedHasLock(s); }
    var s1 := Lock(s, 0, SERVER).(server := Test);
    r := ServerGoes([s], s, s1);
    r := ServerGoes(r, s1, s1.(server := Returned(JobDone)));
  }

  // From there it goes to sleep.
  lemma FallingAsleep(p: seq<State>, s: State) returns (r: seq<State>)
    requires Chain(p) && p != [] && p[|p| - 1] == s && Sized(s) && s.server == Returned(JobDone) && s.waiting != []
    ensures p <= r && Chain(r) && Asleep(r[|r| - 1]) && Lost(r[|r| - 1])
  {
    hide Sized, Chain;
    assert |s.owner| > 0 by { SizedHasLock(s); }
    var s3 := s.(server := SetAwaiting);
    var s4 := s.(awaiting := true, server := UnlockAwaiting);
    r := ServerGoes(p, s, s3);
    r := ServerGoes(r, s3, s4);
    r := ServerGoes(r, s4, Lock(s4, 0, FREE).(server := Sleeping));
  }

  lemma SizedHasLock(s: State)
    requires Sized(s)
    ensures |s.owner| > 0
  {
  }

  lemma Joined(p: seq<State>, q: seq<State>)
    requires Chain(p) && Chain(q) && p != [] && q != [] && p[|p| - 1] == q[0]
    ensures Chain(p + q[1..])
  {
    var r := p + q[1..];
    forall i | 0 <= i < |r| - 1
      ensures Follows(r, i)
    {
      if i < |p| - 1 {
        assert Follows(p, i);
      } else {
        assert Follows(q, i - (|p| - 1));
      }
    }
  }

  lemma LostWakeup(s: State, j: nat) returns (r: seq<State>)
    requires Init(s) && |s.clients| > 0 && j < |s.info| && !Handled(s.info[j].code)
    ensures Run(r) && r[0] == s && Lost(r[|r| - 1]) && Asleep(r[|r| - 1])
  {
    var p := Posting(s, j);
    var q := Refusing(p[|p| - 1], j);
    q := FallingAsleep(q, q[|q| - 1]);
    Joined(p, q);
    r := p + q[1..];
    assert forall i :: 0 <= i < |r| - 1 ==> Follows(r, i);
  }

  ghost predicate LosesFrom(s: State, r: seq<State>)
  {
    Run(r) && r[0] == s && Lost(r[|r| - 1])
  }

  /** A wakeup can be lost if and only if some job's code is one JobRunOne does not handle: it leaves
      such a job at the head of the queue and goes to sleep. */
  lemma WakeupLostExactly(s: State)
    requires Init(s) && |s.clients| > 0
    ensures (forall j :: 0 <= j < |s.info| ==> s.info[j].code in {ExeStr, Call, SpawnTask}) <==>
              forall r :: !LosesFrom(s, r)
  {
    assert AllHandled(s) <==> forall j :: 0 <= j < |s.info| ==> s.info[j].code in {ExeStr, Call, SpawnTask};
    if AllHandled(s) {
      forall r: seq<State>
        ensures !LosesFrom(s, r)
      {
        if Run(r) && r[0] == s {
          NoLostWakeup(r, r[|r| - 1]);
        }
      }
    } else {
      var j: nat :| j < |s.info| && !Handled(s.info[j].code);
      var r := LostWakeup(s, j);
      assert LosesFrom(s, r);
    }
  }

  // ---- A lost wakeup stays lost ----

  /** A sleeping server is woken by no step but one: a task that clears the flag in any case, as TaskExe
      does. Jobs posted meanwhile only make the queue longer. */
  lemma SleepsOn(s: State, a: nat, ch: Choice)
    requires Sized(s) && Asleep(s) && a < |s.clients|
    ensures Asleep(ClientStep(s, a, ch)) <==> !(s.clients[a].Check? && ch.always)
    ensures s.waiting <= ClientStep(s, a, ch).waiting && ServerStep(s) == s
  {
    hide Removed;
  }

  // A step of the server, or of a task that posts as JobQue does.
  ghost predicate PlainNext(s: State, t: State)
    requires Sized(s)
  {
    t == ServerStep(s) || exists a: nat, ch: Choice :: a < |s.clients| && !ch.always && t == ClientStep(s, a, ch)
  }

  ghost predicate PlainFollows(r: seq<State>, i: nat)
  {
    i + 1 < |r| && Sized(r[i]) && PlainNext(r[i], r[i + 1])
  }

  // A run from some state on in which no task clears the flag in any case.
  ghost predicate PlainRun(s: State, r: seq<State>)
  {
    r != [] && r[0] == s && forall i :: 0 <= i < |r| - 1 ==> PlainFollows(r, i)
  }

  /** However such a run goes on, the server sleeps and the jobs wait. */
  lemma {:induction false} NeverWakes(s: State, r: seq<State>)
    requires Asleep(s) && PlainRun(s, r)
    ensures var t := r[|r| - 1]; Asleep(t) && s.waiting <= t.waiting
  {
    if |r| > 1 {
      var p := r[..|r| - 1];
      forall i | 0 <= i < |p| - 1
        ensures PlainFollows(p, i)
      {
        assert PlainFollows(r, i);
      }
      NeverWakes(s, p);
      assert PlainFollows(r, |r| - 2);
      StillAsleep(p[|p| - 1], r[|r| - 1]);
    }
  }

  lemma StillAsleep(s: State, t: State)
    requires Sized(s) && Asleep(s) && PlainNext(s, t)
    ensures Asleep(t) && s.waiting <= t.waiting
  {
    hide ClientStep, Sized;
    if t != ServerStep(s) {
      var a: nat, ch: Choice :| a < |s.clients| && !ch.always && t == ClientStep(s, a, ch);
      SleepsOn(s, a, ch);
    }
  }

  // A run that leaves a job waiting and the server asleep for as long as no task calls TaskExe.
  ghost predicate LosesForGood(s: State, r: seq<State>)
  {
    && Run(r) && r[0] == s && r[|r| - 1].waiting != []
    && forall q: seq<State> :: PlainRun(r[|r| - 1], q) ==> q[|q| - 1].server.Sleeping?
  }

  /** The server can be left asleep for good if and only if some job's code is one JobRunOne does not
      handle. */
  lemma LostForGoodExactly(s: State)
    requires Init(s) && |s.clients| > 0
    ensures (exists j :: 0 <= j < |s.info| && s.info[j].code in {TextInput, Msg}) <==> exists r :: LosesForGood(s, r)
  {
    assert AllHandled(s) <==> !exists j :: 0 <= j < |s.info| && s.info[j].code in {TextInput, Msg};
    if AllHandled(s) {
      forall r: seq<State>
        ensures !LosesForGood(s, r)
      {
        if Run(r) && r[0] == s && r[|r| - 1].waiting != [] {
          WakesUp(r);
        }
      }
    } else {
      var j: nat :| j < |s.info| && !Handled(s.info[j].code);
      var r := LostWakeup(s, j);
      var t := r[|r| - 1];
      forall q: seq<State> | PlainRun(t, q)
        ensures q[|q| - 1].server.Sleeping?
      {
        NeverWakes(t, q);
      }
      assert LosesForGood(s, r);
    }
  }

  // With known codes a server asleep beside a job is on its way out of its sleep.
  lemma WakesUp(r: seq<State>)
    requires Run(r) && AllHandled(r[0]) && r[|r| - 1].waiting != []
    ensures exists q: seq<State> :: PlainRun(r[|r| - 1], q) && !q[|q| - 1].server.Sleeping?
  {
    RunsKeep(r);
    hide Locks, Placed, Bits, Claims, Sized;
    var s := r[|r| - 1];
    var q := if s.server.Sleeping? then [s, ServerStep(s)] else [s];
    assert |q| > 1 ==> PlainFollows(q, 0);
    assert PlainRun(s, q);
  }

  // ---- First in, first out ----

  // Job j joins the waiting queue by a step.
  ghost predicate Enters(s: State, t: State, j: nat)
  {
    At(t, j, InWaiting) && !At(s, j, InWaiting)
  }

  // The server gets job j into its hands by a step.
  ghost predicate Leaves(s: State, t: State, j: nat)
  {
    At(t, j, WithServer) && !At(s, j, WithServer)
  }

  ghost function Entered(s: State, t: State): seq<nat>
  {
    if j: nat :| Enters(s, t, j) then [j] else []
  }

  ghost function Left(s: State, t: State): seq<nat>
  {
    if j: nat :| Leaves(s, t, j) then [j] else []
  }

  // The jobs posted in the course of a run, and those the server has got to, each in order of time.
  ghost function Posted(r: seq<State>): seq<nat>
  {
    if |r| <= 1 then [] else Posted(r[..|r| - 1]) + Entered(r[|r| - 2], r[|r| - 1])
  }

  ghost function Served(r: seq<State>): seq<nat>
  {
    if |r| <= 1 then [] else Served(r[..|r| - 1]) + Left(r[|r| - 2], r[|r| - 1])
  }

  ghost predicate InOrder(s: State, t: State)
  {
    Left(s, t) + t.waiting == s.waiting + Entered(s, t)
  }

  // A step that puts no job in the queue or the server's hands.
  lemma NeitherMoves(s: State, t: State)
    requires t.waiting == s.waiting
    requires forall j: nat :: (At(t, j, InWaiting) ==> At(s, j, InWaiting)) && (At(t, j, WithServer) ==> At(s, j, WithServer))
    ensures InOrder(s, t)
  {
    assert [] + t.waiting == s.waiting + [];
  }

  lemma RemoveInOrder(s: State)
    requires Inv(s) && s.server.Remove?
    ensures InOrder(s, ServerStep(s))
  {
    hide Locks, Bits, Claims;
    var j, t := s.waiting[0], ServerStep(s);
    assert PlacedAt(s, j) && j in s.waiting;
    assert Leaves(s, t, j);
    assert forall i: nat :: Leaves(s, t, i) ==> i == j;
    assert forall i: nat :: !Enters(s, t, i);
    assert [j] + s.waiting[1..] == s.waiting + [];
  }

  lemma ServerInOrder(s: State)
    requires Inv(s)
    ensures InOrder(s, ServerStep(s))
  {
    if s.server.Remove? {
      RemoveInOrder(s);
    } else {
      ServerFrame(s);
      hide Locks, Placed, Bits, Claims;
      var t := ServerStep(s);
      assert t.waiting == s.waiting;
      NeitherMoves(s, t);
    }
  }

  lemma InsertInOrder(s: State, a: nat, ch: Choice)
    requires Inv(s) && a < |s.clients| && s.clients[a].Insert?
    ensures InOrder(s, ClientStep(s, a, ch))
  {
    hide Locks, Bits, Claims;
    var j, t := s.clients[a].j, ClientStep(s, a, ch);
    assert PlacedAt(s, j) && ClientHolds(s.clients[a], j);
    assert Enters(s, t, j);
    assert forall i: nat :: Enters(s, t, i) ==> i == j;
    assert forall i: nat :: !Leaves(s, t, i);
    assert [] + (s.waiting + [j]) == s.waiting + [j];
  }

  lemma ClientInOrder(s: State, a: nat, ch: Choice)
    requires Inv(s) && a < |s.clients|
    ensures InOrder(s, ClientStep(s, a, ch))
  {
    if s.clients[a].Insert? {
      InsertInOrder(s, a, ch);
    } else {
      hide Locks, Placed, Bits, Claims, Sized, Removed;
      NeitherMoves(s, ClientStep(s, a, ch));
    }
  }

  /** First in, first out, over every run: the jobs the server has got to are the first ones posted, in the order
      they were posted, and the others wait in that order. */
  lemma {:induction false} FirstInFirstOut(r: seq<State>)
    requires Run(r)
    ensures Posted(r) == Served(r) + r[|r| - 1].waiting
  {
    if |r| > 1 {
      var p := r[..|r| - 1];
      forall i | 0 <= i < |p| - 1
        ensures Follows(p, i)
      {
        assert Follows(r, i);
      }
      FirstInFirstOut(p);
      RunsKeep(p);
      assert Follows(r, |r| - 2);
      var s, t := p[|p| - 1], r[|r| - 1];
      assert s == r[|r| - 2];
      StepInOrder(s, t);
      hide Inv, Entered, Left, Run, InOrder;
      Ordered(Posted(p), Served(p), s, t);
    }
  }

  lemma StepInOrder(s: State, t: State)
    requires Inv(s) && Next(s, t)
    ensures InOrder(s, t)
  {
    hide Locks, Placed, Bits, Claims, ServerStep, ClientStep, Sized, InOrder;
    if t == ServerStep(s) {
      ServerInOrder(s);
    } else {
      var a: nat, ch :| a < |s.clients| && t == ClientStep(s, a, ch);
      ClientInOrder(s, a, ch);
    }
  }

  lemma Ordered(posted: seq<nat>, served: seq<nat>, s: State, t: State)
    requires posted == served + s.waiting && InOrder(s, t)
    ensures posted + Entered(s, t) == (served + Left(s, t)) + t.waiting
  {
    assert (served + Left(s, t)) + t.waiting == served + (Left(s, t) + t.waiting);
    assert (served + s.waiting) + Entered(s, t) == served + (s.waiting + Entered(s, t));
  }
}
