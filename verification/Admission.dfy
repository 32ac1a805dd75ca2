/** Who is being patched: the server's list of users, checked and filled by the plugin thread and
    emptied by workers and transfers. */
module Admission {
  import opened Lists

  type Address = nat

  datatype Kind = Changelist | Patch

  /** A patch request whose file list cannot be read, or is empty, is dropped when its turn comes. */
  datatype Request = Request(address: Address, kind: Kind, readable: bool)

  /** What the plugin thread is in the middle of. */
  datatype Plugin =
    | Idle
    | Checked(request: Request)
    | Inserted(request: Request)
    | ClosingInput(address: Address, i: nat)
    | ClosingUsers(address: Address)
    | ClosingQueue(address: Address)

  /** The users are a bag: a client may be there more than once. A limit of 0 is no limit. The inputs
      wait for a worker; the other three are being worked on. */
  datatype Server = Server(
    limit: nat,
    plugin: Plugin,
    users: multiset<Address>,
    queue: seq<Request>,
    input: seq<Request>,
    changelists: multiset<Address>,
    patches: multiset<Address>,
    transfers: multiset<Address>)

  function Start(limit: nat): Server {
    Server(limit, Idle, multiset{}, [], [], multiset{}, multiset{}, multiset{})
  }

  // ---------------------------------------------------------------- the list of users

  predicate LimitReached(limit: nat, users: multiset<Address>) {
    limit != 0 && |users| >= limit
  }

  lemma FirstRemoved(users: seq<Address>, a: Address)
    requires a in users
    ensures multiset(RemovedFast(users, IndexOf(users, a))) == multiset(users) - multiset{a}
  {
    RemovedFastElements(users, IndexOf(users, a));
  }

  lemma NoneRemoved(users: seq<Address>, a: Address)
    requires a !in users
    ensures multiset(users) - multiset{a} == multiset(users)
  {
    assert a !in multiset(users);
  }

  class PatchingUsers {
    var users: seq<Address>
    var maxConcurrentUsers: nat

    constructor ()
      ensures users == [] && maxConcurrentUsers == 0
    {
      users, maxConcurrentUsers := [], 0;
    }

    method IncrementPatchingUserCount(a: Address) returns (ok: bool)
      modifies `users
      ensures ok && users == old(users) + [a]
    {
      users := users + [a];
      ok := true;
    }

    /** The first occurrence of the address goes. */
    method DecrementPatchingUserCount(a: Address) returns (found: bool)
      modifies `users
      ensures found == (a in old(users))
      ensures users == (if found then RemovedFast(old(users), IndexOf(old(users), a)) else old(users))
      ensures multiset(users) == multiset(old(users)) - multiset{a}
    {
      var i := 0;
      while i < |users|
        invariant i <= IndexOf(users, a) && users == old(users)
      {
        if users[i] == a {
          FirstRemoved(users, a);
          users := RemovedFast(users, i);
          return true;
        }
        i := i + 1;
      }
      NoneRemoved(users, a);
      return false;
    }

    /** The loop of OnClosedConnection over the users. */
    method RemoveAll(a: Address)
      modifies `users
      ensures multiset(users) == multiset(old(users))[a := 0]
    {
      SweptElements(users, a, 0);
      var i := 0;
      while i < |users|
        invariant i <= |users| && Swept(users, a, i) == Swept(old(users), a, 0)
        decreases |users| - i
      {
        if users[i] == a {
          users := RemovedFast(users, i);
        } else {
          i := i + 1;
        }
      }
    }

    method PatchingUserLimitReached() returns (reached: bool)
      ensures reached == LimitReached(maxConcurrentUsers, multiset(users))
    {
      if maxConcurrentUsers == 0 {
        return false;
      }
      return |users| >= maxConcurrentUsers;
    }
  }

  // ---------------------------------------------------------------- steps

  /** What the plugin thread does for requests. */
  datatype PluginStep =
    /** A request that the cache cannot answer arrives; the limit is checked. */
    | Arrive(request: Request)
    /** Update checks the limit and takes the oldest waiting request. */
    | Poll
    /** The request that passed the check is entered among the users, if it can be read. */
    | Insert
    /** It is given to the thread pool. */
    | AddInput
    /** The cache answers a request for a patch: a user is entered without a check. */
    | SendCached(address: Address)

  /** What workers and file transfers do. */
  datatype WorkStep =
    /** A worker takes the oldest input. */
    | Take
    /** A worker ends a changelist, or a patch that needs no files or fails. */
    | Finish(kind: Kind, address: Address)
    /** A worker hands the files of a patch to the file transfer. */
    | SendFiles(address: Address)
    /** The file transfer reports that all is sent, or that it gave up. */
    | TransferEnds(address: Address)

  /** What the plugin thread does for a closed connection: inputs, users and waiting requests of the
      address go, in this order. Clear is for a plugin that is detached or shut down, after the
      workers have ended. */
  datatype CloseStep = Close(address: Address) | CloseInput | CloseUsers | CloseQueue | Clear

  datatype Step = Plugs(p: PluginStep) | Works(w: WorkStep) | Closes(c: CloseStep)

  function WithoutAddress(queue: seq<Request>, a: Address): seq<Request> {
    if queue == [] then []
    else if queue[0].address == a then WithoutAddress(queue[1..], a)
    else [queue[0]] + WithoutAddress(queue[1..], a)
  }

  predicate Admits(request: Request) {
    request.kind == Changelist || request.readable
  }

  function NextPlugin(s: Server, step: PluginStep): Server {
    match step
    case Arrive(r) =>
      if s.plugin != Idle then s
      else if LimitReached(s.limit, s.users) then s.(queue := s.queue + [r])
      else s.(plugin := Checked(r))
    case Poll =>
      if s.plugin != Idle || LimitReached(s.limit, s.users) || s.queue == [] then s
      else s.(plugin := Checked(s.queue[0]), queue := s.queue[1..])
    case Insert =>
      if !s.plugin.Checked? then s
      else if !Admits(s.plugin.request) then s.(plugin := Idle)
      else s.(plugin := Inserted(s.plugin.request), users := s.users + multiset{s.plugin.request.address})
    case AddInput =>
      if !s.plugin.Inserted? then s
      else s.(plugin := Idle, input := s.input + [s.plugin.request])
    case SendCached(a) =>
      if s.plugin != Idle then s
      else s.(users := s.users + multiset{a}, transfers := s.transfers + multiset{a})
  }

  function NextWork(s: Server, step: WorkStep): Server {
    match step
    case Take =>
      if s.plugin.ClosingInput? || s.input == [] then s
      else if s.input[0].kind == Changelist then
        s.(input := s.input[1..], changelists := s.changelists + multiset{s.input[0].address})
      else s.(input := s.input[1..], patches := s.patches + multiset{s.input[0].address})
    case Finish(kind, a) =>
      if kind == Changelist && a in s.changelists then
        s.(changelists := s.changelists - multiset{a}, users := s.users - multiset{a})
      else if kind == Patch && a in s.patches then
        s.(patches := s.patches - multiset{a}, users := s.users - multiset{a})
      else s
    case SendFiles(a) =>
      if a !in s.patches then s
      else s.(patches := s.patches - multiset{a}, transfers := s.transfers + multiset{a})
    case TransferEnds(a) =>
      if a !in s.transfers then s
      else s.(transfers := s.transfers - multiset{a}, users := s.users - multiset{a})
  }

  function NextClose(s: Server, step: CloseStep): Server {
    match step
    case Close(a) =>
      if s.plugin != Idle then s else s.(plugin := ClosingInput(a, 0))
    case CloseInput =>
      if !s.plugin.ClosingInput? then s
      else
        var a, i := s.plugin.address, s.plugin.i;
        if i >= |s.input| then s.(plugin := ClosingUsers(a))
        else if s.input[i].address == a then s.(input := RemovedAt(s.input, i), users := s.users - multiset{a})
        else s.(plugin := ClosingInput(a, i + 1))
    case CloseUsers =>
      if !s.plugin.ClosingUsers? then s
      else s.(plugin := ClosingQueue(s.plugin.address), users := s.users[s.plugin.address := 0])
    case CloseQueue =>
      if !s.plugin.ClosingQueue? then s
      else s.(plugin := Idle, queue := WithoutAddress(s.queue, s.plugin.address))
    case Clear =>
      if s.plugin != Idle || s.changelists + s.patches != multiset{} then s
      else s.(users := multiset{}, queue := [], input := [])
  }

  /** A step that is not possible in a state changes nothing. The inputs are locked while a closed
      connection's are removed. */
  function Next(s: Server, step: Step): Server {
    match step
    case Plugs(p) => NextPlugin(s, p)
    case Works(w) => NextWork(s, w)
    case Closes(c) => NextClose(s, c)
  }

  predicate IsCached(step: Step) {
    step.Plugs? && step.p.SendCached?
  }

  function Run(s: Server, steps: seq<Step>): Server {
    if steps == [] then s else Next(Run(s, steps[..|steps| - 1]), steps[|steps| - 1])
  }

  // ---------------------------------------------------------------- the bound

  /** A request that passed the check holds a place that it has not taken yet. */
  function Places(s: Server): nat {
    |s.users| + if s.plugin.Checked? then 1 else 0
  }

  function CachedSends(steps: seq<Step>): nat {
    if steps == [] then 0
    else CachedSends(steps[..|steps| - 1]) + if IsCached(steps[|steps| - 1]) then 1 else 0
  }

  lemma PluginPlaces(s: Server, step: PluginStep)
    ensures var u := NextPlugin(s, step);
      && u.limit == s.limit
      && (Places(u) <= Places(s) || (s.limit != 0 && Places(u) <= s.limit) || s.limit == 0
          || (step.SendCached? && Places(u) == Places(s) + 1))
  {
  }

  lemma WorkPlaces(s: Server, step: WorkStep)
    ensures NextWork(s, step).limit == s.limit && Places(NextWork(s, step)) <= Places(s)
  {
  }

  lemma ClosePlaces(s: Server, step: CloseStep)
    ensures NextClose(s, step).limit == s.limit && Places(NextClose(s, step)) <= Places(s)
  {
    if s.plugin.ClosingUsers? {
      assert s.users[s.plugin.address := 0] + multiset{}[s.plugin.address := s.users[s.plugin.address]] == s.users;
    }
  }

  /** Over every run, though the check and the insertion are separate steps, the users never exceed
      the limit by more than the answers that were sent from the cache. */
  lemma {:induction false} UsersBounded(limit: nat, steps: seq<Step>)
    requires limit != 0
    ensures var s := Run(Start(limit), steps);
      s.limit == limit && |s.users| <= Places(s) <= limit + CachedSends(steps)
    decreases |steps|
  {
    if steps != [] {
      var before := steps[..|steps| - 1];
      UsersBounded(limit, before);
      var s := Run(Start(limit), before);
      match steps[|steps| - 1]
      case Plugs(p) => PluginPlaces(s, p);
      case Works(w) => WorkPlaces(s, w);
      case Closes(c) => ClosePlaces(s, c);
    }
  }

  ghost predicate Uncached(steps: seq<Step>) {
    forall i :: 0 <= i < |steps| ==> !IsCached(steps[i])
  }

  lemma SubBagCount(m: multiset<Address>, n: multiset<Address>)
    requires m <= n
    ensures |m| <= |n|
  {
    assert n == m + (n - m);
  }

  /** Users that a transfer is going on for. */
  function Sending(s: Server): nat {
    |s.users * s.transfers|
  }

  /** Taking a from the users, and perhaps from the transfers, takes at most as much from what they share. */
  lemma SharedLess(u: multiset<Address>, t: multiset<Address>, u': multiset<Address>, t': multiset<Address>, a: Address)
    requires u' == u - multiset{a} && (t' == t || t' == t - multiset{a})
    ensures |u'| - |u' * t'| <= |u| - |u * t|
  {
    if a in u {
      assert |u| == |u'| + 1;
      SubBagCount(u * t, u' * t' + multiset{a});
    } else {
      assert u' == u && u * t == u' * t';
    }
  }

  lemma PluginSending(s: Server, step: PluginStep)
    requires s.limit != 0 && Places(s) <= s.limit + Sending(s)
    ensures Places(NextPlugin(s, step)) <= s.limit + Sending(NextPlugin(s, step))
  {
    var u := NextPlugin(s, step);
    match step
    case SendCached(a) =>
      if s.plugin == Idle {
        SharedMore(s.users, s.transfers, a);
      }
    case Insert => SubBagCount(s.users * s.transfers, u.users * u.transfers);
    case _ =>
  }

  lemma SharedMore(u: multiset<Address>, t: multiset<Address>, a: Address)
    ensures |(u + multiset{a}) * (t + multiset{a})| == |u * t| + 1
  {
    assert (u + multiset{a}) * (t + multiset{a}) == u * t + multiset{a};
  }

  lemma WorkSending(s: Server, step: WorkStep)
    requires Places(s) <= s.limit + Sending(s)
    ensures Places(NextWork(s, step)) <= s.limit + Sending(NextWork(s, step))
  {
    var u := NextWork(s, step);
    if step.Take? || step.SendFiles? {
      SubBagCount(s.users * s.transfers, u.users * u.transfers);
    } else if u != s {
      SharedLess(s.users, s.transfers, u.users, u.transfers, step.address);
    }
  }

  lemma CloseSending(s: Server, step: CloseStep)
    requires Places(s) <= s.limit + Sending(s)
    ensures Places(NextClose(s, step)) <= s.limit + Sending(NextClose(s, step))
  {
    var u := NextClose(s, step);
    if step.CloseInput? && s.plugin.ClosingInput? {
      SharedLess(s.users, s.transfers, s.users - multiset{s.plugin.address}, s.transfers, s.plugin.address);
    } else if step.CloseUsers? && s.plugin.ClosingUsers? {
      var a := s.plugin.address;
      var gone := multiset{}[a := s.users[a]];
      assert s.users == u.users + gone;
      SubBagCount(s.users * s.transfers, u.users * u.transfers + gone);
    }
  }

  /** Over every run the users exceed the limit at most by those a transfer is still going on for. */
  lemma {:induction false} UsersBoundedBySending(limit: nat, steps: seq<Step>)
    requires limit != 0
    ensures var s := Run(Start(limit), steps);
      s.limit == limit && |s.users| <= Places(s) <= limit + Sending(s)
    decreases |steps|
  {
    if steps != [] {
      var before := steps[..|steps| - 1];
      UsersBoundedBySending(limit, before);
      UsersBounded(limit, steps);
      var s := Run(Start(limit), before);
      match steps[|steps| - 1]
      case Plugs(p) => PluginSending(s, p);
      case Works(w) => WorkSending(s, w);
      case Closes(c) => CloseSending(s, c);
    }
  }

  /** The cache answers although the limit is reached. */
  predicate Oversends(s: Server, step: Step) {
    IsCached(step) && s.plugin == Idle && LimitReached(s.limit, s.users)
  }

  /** No step of the run does. */
  predicate NoOversend(limit: nat, steps: seq<Step>) {
    steps == []
    || (NoOversend(limit, steps[..|steps| - 1])
        && !Oversends(Run(Start(limit), steps[..|steps| - 1]), steps[|steps| - 1]))
  }

  /** All along the run the users are within the limit. */
  predicate AlwaysWithin(limit: nat, steps: seq<Step>) {
    (steps == [] || AlwaysWithin(limit, steps[..|steps| - 1])) && |Run(Start(limit), steps).users| <= limit
  }

  lemma StepWithin(s: Server, step: Step)
    requires s.limit != 0 && Places(s) <= s.limit
    ensures Next(s, step).limit == s.limit
    ensures Oversends(s, step) ==> |Next(s, step).users| > s.limit
    ensures !Oversends(s, step) ==> Places(Next(s, step)) <= s.limit
  {
    match step
    case Plugs(p) => PluginPlaces(s, p);
    case Works(w) => WorkPlaces(s, w);
    case Closes(c) => ClosePlaces(s, c);
  }

  lemma {:induction false} PlacesWithin(limit: nat, steps: seq<Step>)
    requires limit != 0
    ensures Run(Start(limit), steps).limit == limit
    ensures NoOversend(limit, steps) ==> Places(Run(Start(limit), steps)) <= limit
    ensures AlwaysWithin(limit, steps) <==> NoOversend(limit, steps)
    decreases |steps|
  {
    if steps != [] {
      var before := steps[..|steps| - 1];
      PlacesWithin(limit, before);
      UsersBounded(limit, steps);
      if NoOversend(limit, before) {
        StepWithin(Run(Start(limit), before), steps[|steps| - 1]);
      }
    }
  }

  /** The users stay within the limit, all along a run, if and only if the cache never answers while the
      limit is reached. */
  lemma WithinUnlessOversent(limit: nat, steps: seq<Step>)
    requires limit != 0
    ensures AlwaysWithin(limit, steps) <==> NoOversend(limit, steps)
  {
    PlacesWithin(limit, steps);
  }

  /** So the limit holds where the cache does not answer at all. */
  lemma LimitHolds(limit: nat, steps: seq<Step>)
    requires limit != 0 && Uncached(steps)
    ensures |Run(Start(limit), steps).users| <= limit
  {
    UncachedNoOversend(limit, steps);
    WithinUnlessOversent(limit, steps);
  }

  lemma {:induction false} UncachedNoOversend(limit: nat, steps: seq<Step>)
    requires Uncached(steps)
    ensures NoOversend(limit, steps)
    decreases |steps|
  {
    if steps != [] {
      UncachedNoOversend(limit, steps[..|steps| - 1]);
    }
  }

  /** With the cache no limit holds: any number of cached answers is sent at once. */
  lemma {:induction false} CacheIgnoresTheLimit(limit: nat, a: Address, n: nat)
    ensures var s := Run(Start(limit), seq(n, _ => Plugs(SendCached(a))));
      s.plugin == Idle && |s.users| == n
  {
    if n > 0 {
      CacheIgnoresTheLimit(limit, a, n - 1);
      assert seq(n, _ => Plugs(SendCached(a)))[..n - 1] == seq(n - 1, _ => Plugs(SendCached(a)));
    }
  }

  // ---------------------------------------------------------------- what the users stand for

  /** How many requests of a client are among the inputs. */
  function Waiting(input: seq<Request>, a: Address): nat {
    if input == [] then 0 else (if input[0].address == a then 1 else 0) + Waiting(input[1..], a)
  }

  /** How much is being done for a client: inputs, workers and transfers. */
  function WorkFor(s: Server, a: Address): nat {
    Waiting(s.input, a) + s.changelists[a] + s.patches[a] + s.transfers[a]
    + if s.plugin.Inserted? && s.plugin.request.address == a then 1 else 0
  }

  lemma {:induction false} WaitingAdded(input: seq<Request>, r: Request, a: Address)
    ensures Waiting(input + [r], a) == Waiting(input, a) + if r.address == a then 1 else 0
  {
    if input == [] {
      assert (input + [r])[1..] == [];
    } else {
      assert (input + [r])[1..] == input[1..] + [r];
      WaitingAdded(input[1..], r, a);
    }
  }

  lemma {:induction false} WaitingRemoved(input: seq<Request>, i: nat, a: Address)
    requires i < |input|
    ensures Waiting(input, a) == Waiting(RemovedAt(input, i), a) + if input[i].address == a then 1 else 0
  {
    if i == 0 {
      assert RemovedAt(input, 0) == input[1..];
    } else {
      assert RemovedAt(input, i)[1..] == RemovedAt(input[1..], i - 1);
      WaitingRemoved(input[1..], i - 1, a);
    }
  }

  /** A client is among the users no more often than something is done for it. */
  predicate Backed(s: Server, a: Address) {
    s.users[a] <= WorkFor(s, a)
  }

  /** And no less often. */
  predicate Exact(s: Server, a: Address) {
    s.users[a] == WorkFor(s, a)
  }

  lemma PluginBacked(s: Server, step: PluginStep, a: Address)
    ensures Backed(s, a) ==> Backed(NextPlugin(s, step), a)
    ensures Exact(s, a) ==> Exact(NextPlugin(s, step), a)
  {
    if step.AddInput? && s.plugin.Inserted? {
      WaitingAdded(s.input, s.plugin.request, a);
    }
  }

  lemma TakeMoves(s: Server, a: Address)
    ensures WorkFor(NextWork(s, Take), a) == WorkFor(s, a) && NextWork(s, Take).users == s.users
  {
    if s.input != [] {
      assert Waiting(s.input, a) == (if s.input[0].address == a then 1 else 0) + Waiting(s.input[1..], a);
    }
  }

  lemma SendMoves(s: Server, b: Address, a: Address)
    ensures WorkFor(NextWork(s, SendFiles(b)), a) == WorkFor(s, a) && NextWork(s, SendFiles(b)).users == s.users
  {
    if b in s.patches {
      assert (s.patches - multiset{b})[a] + (s.transfers + multiset{b})[a] == s.patches[a] + s.transfers[a];
    }
  }

  lemma WorkMoves(s: Server, step: WorkStep, a: Address)
    requires step.Take? || step.SendFiles?
    ensures WorkFor(NextWork(s, step), a) == WorkFor(s, a) && NextWork(s, step).users == s.users
  {
    match step
    case Take => TakeMoves(s, a);
    case SendFiles(b) => SendMoves(s, b, a);
  }

  /** From s to u a piece of work for b has ended, and one of its places is free. */
  predicate Ended(s: Server, u: Server, b: Address, a: Address) {
    var one := if b == a then 1 else 0;
    && WorkFor(u, a) == WorkFor(s, a) - one
    && u.users[a] == if s.users[a] == 0 then 0 else s.users[a] - one
  }

  lemma WorkEnds(s: Server, step: WorkStep, a: Address)
    requires step.Finish? || step.TransferEnds?
    ensures NextWork(s, step) == s || Ended(s, NextWork(s, step), step.address, a)
  {
    match step
    case Finish(Changelist, b) => if b in s.changelists { ChangelistEnds(s, b, a); }
    case Finish(Patch, b) => if b in s.patches { PatchEnds(s, b, a); }
    case TransferEnds(b) => if b in s.transfers { SendingEnds(s, b, a); }
  }

  lemma ChangelistEnds(s: Server, b: Address, a: Address)
    requires b in s.changelists
    ensures Ended(s, s.(changelists := s.changelists - multiset{b}, users := s.users - multiset{b}), b, a)
  {
    LessOne(s.users, b, a);
    LessOne(s.changelists, b, a);
  }

  lemma PatchEnds(s: Server, b: Address, a: Address)
    requires b in s.patches
    ensures Ended(s, s.(patches := s.patches - multiset{b}, users := s.users - multiset{b}), b, a)
  {
    LessOne(s.users, b, a);
    LessOne(s.patches, b, a);
  }

  lemma SendingEnds(s: Server, b: Address, a: Address)
    requires b in s.transfers
    ensures Ended(s, s.(transfers := s.transfers - multiset{b}, users := s.users - multiset{b}), b, a)
  {
    LessOne(s.users, b, a);
    LessOne(s.transfers, b, a);
  }

  lemma LessOne(m: multiset<Address>, b: Address, a: Address)
    ensures (m - multiset{b})[a] == if m[a] == 0 then 0 else m[a] - if b == a then 1 else 0
  {
  }

  lemma WorkBacked(s: Server, step: WorkStep, a: Address)
    ensures Backed(s, a) ==> Backed(NextWork(s, step), a)
    ensures Exact(s, a) ==> Exact(NextWork(s, step), a)
  {
    if step.Take? || step.SendFiles? {
      WorkMoves(s, step, a);
    } else {
      WorkEnds(s, step, a);
    }
  }

  lemma CloseBacked(s: Server, step: CloseStep, a: Address)
    requires Backed(s, a)
    ensures Backed(NextClose(s, step), a)
  {
    if step.CloseInput? && s.plugin.ClosingInput? && s.plugin.i < |s.input| {
      WaitingRemoved(s.input, s.plugin.i, a);
    }
  }

  /** What workers and transfers are doing for a client. */
  function Busy(s: Server, a: Address): nat {
    s.changelists[a] + s.patches[a] + s.transfers[a]
  }

  /** A step gives a client's places up although something is still being done for it: when the users of
      a closed connection go, and when the server is cleared. */
  predicate GivesUp(s: Server, step: Step, a: Address) {
    match step
    case Closes(CloseUsers) => s.plugin == ClosingUsers(a) && Busy(s, a) != 0
    case Closes(Clear) => s.plugin == Idle && s.changelists + s.patches == multiset{} && Busy(s, a) != 0
    case _ => false
  }

  /** While a connection closes, the inputs looked at are not its own. */
  predicate ClosingDone(s: Server) {
    match s.plugin
    case ClosingInput(a, i) => i <= |s.input| && forall j :: 0 <= j < i ==> s.input[j].address != a
    case ClosingUsers(a) => forall j :: 0 <= j < |s.input| ==> s.input[j].address != a
    case _ => true
  }

  lemma ClosingWork(s: Server, step: WorkStep)
    requires ClosingDone(s)
    ensures ClosingDone(NextWork(s, step))
  {
    if step.Take? && s.plugin.ClosingUsers? && s.input != [] {
      assert forall j :: 0 <= j < |s.input[1..]| ==> s.input[1..][j] == s.input[j + 1];
    }
  }

  lemma ClosingClose(s: Server, step: CloseStep)
    requires ClosingDone(s)
    ensures ClosingDone(NextClose(s, step))
  {
    if step.CloseInput? && s.plugin.ClosingInput? && s.plugin.i < |s.input| {
      var i := s.plugin.i;
      assert forall j :: 0 <= j < i ==> RemovedAt(s.input, i)[j] == s.input[j];
    }
  }

  lemma ClosingStep(s: Server, step: Step)
    requires ClosingDone(s)
    ensures ClosingDone(Next(s, step))
  {
    match step
    case Plugs(p) =>
    case Works(w) => ClosingWork(s, w);
    case Closes(c) => ClosingClose(s, c);
  }

  lemma {:induction false} NoneWaiting(input: seq<Request>, a: Address)
    requires forall j :: 0 <= j < |input| ==> input[j].address != a
    ensures Waiting(input, a) == 0
  {
    if input != [] {
      assert forall j :: 0 <= j < |input[1..]| ==> input[1..][j] == input[j + 1];
      NoneWaiting(input[1..], a);
    }
  }

  lemma CloseInputExact(s: Server, a: Address)
    requires Exact(s, a)
    ensures Exact(NextClose(s, CloseInput), a)
  {
    if s.plugin.ClosingInput? && s.plugin.i < |s.input| {
      WaitingRemoved(s.input, s.plugin.i, a);
    }
  }

  lemma CloseUsersExact(s: Server, a: Address)
    requires Exact(s, a) && ClosingDone(s)
    ensures Exact(NextClose(s, CloseUsers), a) <==> !GivesUp(s, Closes(CloseUsers), a)
  {
    if s.plugin.ClosingUsers? {
      NoneWaiting(s.input, s.plugin.address);
    }
  }

  /** A client that has a place for everything done for it keeps that, but for the steps that give up. */
  lemma CloseExact(s: Server, step: CloseStep, a: Address)
    requires Exact(s, a) && ClosingDone(s)
    ensures Exact(NextClose(s, step), a) <==> !GivesUp(s, Closes(step), a)
  {
    match step
    case CloseInput => CloseInputExact(s, a);
    case CloseUsers => CloseUsersExact(s, a);
    case _ =>
  }

  lemma StepExact(s: Server, step: Step, a: Address)
    requires Exact(s, a) && ClosingDone(s)
    ensures Exact(Next(s, step), a) <==> !GivesUp(s, step, a)
  {
    match step
    case Plugs(p) => PluginBacked(s, p, a);
    case Works(w) => WorkBacked(s, w, a);
    case Closes(c) => CloseExact(s, c, a);
  }

  ghost predicate NobodyGivenUp(s: Server, step: Step) {
    forall a :: !GivesUp(s, step, a)
  }

  ghost predicate AllExact(s: Server) {
    forall a :: Exact(s, a)
  }

  /** No step of the run gives a place up early. */
  ghost predicate Patient(limit: nat, steps: seq<Step>) {
    steps == [] ||
    (Patient(limit, steps[..|steps| - 1]) && NobodyGivenUp(Run(Start(limit), steps[..|steps| - 1]), steps[|steps| - 1]))
  }

  /** All along the run every client has one place for every piece of work. */
  ghost predicate AlwaysExact(limit: nat, steps: seq<Step>) {
    (steps == [] || AlwaysExact(limit, steps[..|steps| - 1])) && AllExact(Run(Start(limit), steps))
  }

  /** Over every run a client is among the users at most as often as something is being done for it, so
      one that nothing is done for holds no place. */
  lemma {:induction false} EveryUserBacked(limit: nat, steps: seq<Step>, a: Address)
    ensures ClosingDone(Run(Start(limit), steps))
    ensures Backed(Run(Start(limit), steps), a)
    decreases |steps|
  {
    if steps != [] {
      var before := steps[..|steps| - 1];
      EveryUserBacked(limit, before, a);
      var s := Run(Start(limit), before);
      ClosingStep(s, steps[|steps| - 1]);
      match steps[|steps| - 1]
      case Plugs(p) => PluginBacked(s, p, a);
      case Works(w) => WorkBacked(s, w, a);
      case Closes(c) => CloseBacked(s, c, a);
    }
  }

  /** It is exactly as often, all along a run, if and only if no step of the run gives a place up early. */
  lemma {:induction false} ExactWhilePatient(limit: nat, steps: seq<Step>)
    ensures AlwaysExact(limit, steps) <==> Patient(limit, steps)
    decreases |steps|
  {
    if steps == [] {
      assert forall a :: Exact(Start(limit), a);
    } else {
      var before, last := steps[..|steps| - 1], steps[|steps| - 1];
      ExactWhilePatient(limit, before);
      if AlwaysExact(limit, before) {
        EveryUserBacked(limit, before, 0);
        StepAllExact(Run(Start(limit), before), last);
      }
    }
  }

  lemma StepAllExact(s: Server, step: Step)
    requires AllExact(s) && ClosingDone(s)
    ensures AllExact(Next(s, step)) <==> NobodyGivenUp(s, step)
  {
    forall a
      ensures Exact(Next(s, step), a) <==> !GivesUp(s, step, a)
    {
      assert Exact(s, a);
      StepExact(s, step, a);
    }
  }

  // ---------------------------------------------------------------- what the limit limits

  /** How much is being done, for all clients. */
  function WorkUnderWay(s: Server): nat {
    |s.input| + |s.changelists| + |s.patches| + |s.transfers| + if s.plugin.Inserted? then 1 else 0
  }

  ghost function Bag(input: seq<Request>): multiset<Address> {
    if input == [] then multiset{} else multiset{input[0].address} + Bag(input[1..])
  }

  lemma {:induction false} BagCounts(input: seq<Request>)
    ensures |Bag(input)| == |input| && forall a :: Bag(input)[a] == Waiting(input, a)
  {
    if input != [] {
      BagCounts(input[1..]);
    }
  }

  lemma ExactCount(s: Server)
    requires AllExact(s)
    ensures |s.users| == WorkUnderWay(s)
  {
    BagCounts(s.input);
    var one := if s.plugin.Inserted? then multiset{s.plugin.request.address} else multiset{};
    var all := Bag(s.input) + s.changelists + s.patches + s.transfers + one;
    forall a
      ensures s.users[a] == all[a]
    {
      assert Exact(s, a);
    }
    assert s.users == all;
  }

  /** Without the cache the limit bounds all that is being done, connections closing or not, as long as
      none closes that a worker or a transfer is busy for. */
  lemma WorkLimited(limit: nat, steps: seq<Step>)
    requires limit != 0 && Uncached(steps) && Patient(limit, steps)
    ensures WorkUnderWay(Run(Start(limit), steps)) <= limit
  {
    ExactWhilePatient(limit, steps);
    ExactCount(Run(Start(limit), steps));
    LimitHolds(limit, steps);
  }

  lemma RunLast(s: Server, steps: seq<Step>, before: seq<Step>, u: Server)
    requires steps != [] && before == steps[..|steps| - 1] && u == Run(s, before)
    ensures Run(s, steps) == Next(u, steps[|steps| - 1])
  {
  }

  lemma RunMore(s: Server, steps: seq<Step>, x: Step, y: Step)
    ensures Run(s, steps + [x, y]) == Next(Next(Run(s, steps), x), y)
  {
    RunLast(s, steps + [x], steps, Run(s, steps));
    RunLast(s, steps + [x, y], steps + [x], Run(s, steps + [x]));
  }

  lemma {:induction false} RunOn(s: Server, steps: seq<Step>, more: seq<Step>)
    ensures Run(s, steps + more) == Run(Run(s, steps), more)
    decreases |more|
  {
    if more == [] {
      assert steps + more == steps;
    } else {
      assert (steps + more)[..|steps + more| - 1] == steps + more[..|more| - 1];
      RunOn(s, steps, more[..|more| - 1]);
    }
  }

  /** No step of a run that goes on from s gives a place up early. */
  ghost predicate PatientFrom(s: Server, more: seq<Step>) {
    more == []
    || (PatientFrom(s, more[..|more| - 1]) && NobodyGivenUp(Run(s, more[..|more| - 1]), more[|more| - 1]))
  }

  /** However it goes on, with no cached answer and no further place given up, the limit bounds the work. */
  ghost predicate LimitBinds(s: Server) {
    forall more :: Uncached(more) && PatientFrom(s, more) ==> WorkUnderWay(Run(s, more)) <= s.limit
  }

  lemma {:induction false} StaysExact(s: Server, more: seq<Step>)
    requires AllExact(s) && ClosingDone(s) && PatientFrom(s, more)
    ensures AllExact(Run(s, more)) && ClosingDone(Run(s, more))
    decreases |more|
  {
    if more != [] {
      var before, last := more[..|more| - 1], more[|more| - 1];
      StaysExact(s, before);
      StepAllExact(Run(s, before), last);
      ClosingStep(Run(s, before), last);
    }
  }

  /** Where a client has less places than there is work for it, all have less together. */
  lemma FewerPlaces(s: Server, a: Address)
    requires !Exact(s, a) && forall b :: Backed(s, b)
    ensures |s.users| < WorkUnderWay(s)
  {
    BagCounts(s.input);
    var one := if s.plugin.Inserted? then multiset{s.plugin.request.address} else multiset{};
    var all := Bag(s.input) + s.changelists + s.patches + s.transfers + one;
    forall b
      ensures s.users[b] <= all[b]
    {
      assert Backed(s, b);
    }
    assert Backed(s, a);
    SubBagCount(s.users + multiset{a}, all);
  }

  /** Changelists for every place that is free. */
  lemma {:induction false} PlacesFilled(s: Server, n: nat) returns (more: seq<Step>)
    requires s.plugin == Idle && s.limit != 0 && |s.users| + n <= s.limit
    ensures Uncached(more) && PatientFrom(s, more)
    ensures var u := Run(s, more);
      u.plugin == Idle && u.limit == s.limit && |u.users| == |s.users| + n && WorkUnderWay(u) == WorkUnderWay(s) + n
    decreases n
  {
    more := [];
    if n > 0 {
      var first := PlacesFilled(s, n - 1);
      var u := Run(s, first);
      var x, y, z := Plugs(Arrive(Request(0, Changelist, true))), Plugs(Insert), Plugs(AddInput);
      PatientMore(s, first, x);
      PatientMore(s, first + [x], y);
      PatientMore(s, first + [x] + [y], z);
      more := first + [x] + [y] + [z];
      assert Next(Next(Next(u, x), y), z)
          == u.(users := u.users + multiset{0}, input := u.input + [Request(0, Changelist, true)]);
    }
  }

  lemma PatientMore(s: Server, more: seq<Step>, step: Step)
    requires PatientFrom(s, more) && !step.Closes?
    ensures PatientFrom(s, more + [step]) && Run(s, more + [step]) == Next(Run(s, more), step)
  {
    assert (more + [step])[..|more|] == more;
  }

  /** The exact extent of that: when the plugin is idle after a run without cached answers, the limit goes
      on to bound the work if and only if no client has less places than there is work for it. */
  lemma WorkLimitedExactly(limit: nat, steps: seq<Step>)
    requires limit != 0 && Uncached(steps) && Run(Start(limit), steps).plugin == Idle
    ensures var s := Run(Start(limit), steps); LimitBinds(s) <==> AllExact(s)
  {
    var s := Run(Start(limit), steps);
    UsersBounded(limit, steps);
    forall a
      ensures ClosingDone(s) && Backed(s, a)
    {
      EveryUserBacked(limit, steps, a);
    }
    if AllExact(s) {
      assert ClosingDone(s) by {
        EveryUserBacked(limit, steps, 0);
      }
      forall more | Uncached(more) && PatientFrom(s, more)
        ensures WorkUnderWay(Run(s, more)) <= s.limit
      {
        StaysExact(s, more);
        ExactCount(Run(s, more));
        RunOn(Start(limit), steps, more);
        LimitHolds(limit, steps + more);
      }
    } else {
      var a :| !Exact(s, a);
      FewerPlaces(s, a);
      LimitHolds(limit, steps);
      var more := PlacesFilled(s, limit - |s.users|);
      assert WorkUnderWay(Run(s, more)) > s.limit;
    }
  }

  lemma ChangelistSteps(s: Server, r: Request)
    requires s.plugin == Idle && !LimitReached(s.limit, s.users) && s.input == [] && r.kind == Changelist
    ensures
      var u := Next(Next(s, Plugs(Arrive(r))), Plugs(Insert));
      Next(Next(u, Plugs(AddInput)), Works(Take))
      == s.(users := s.users + multiset{r.address}, changelists := s.changelists + multiset{r.address})
  {
    var u := Next(Next(s, Plugs(Arrive(r))), Plugs(Insert));
    assert u == s.(plugin := Inserted(r), users := s.users + multiset{r.address});
    assert Next(u, Plugs(AddInput)) == u.(plugin := Idle, input := [r]);
  }

  lemma RunFour(s: Server, steps: seq<Step>, u: Server, w: Step, x: Step, y: Step, z: Step, more: seq<Step>)
    requires u == Run(s, steps) && more == steps + [w, x] + [y, z]
    ensures Run(s, more) == Next(Next(Next(Next(u, w), x), y), z)
  {
    RunMore(s, steps, w, x);
    RunMore(s, steps + [w, x], y, z);
  }

  /** A changelist from an idle plugin below its limit to a worker. */
  lemma ChangelistTaken(s: Server, steps: seq<Step>, a: Address) returns (more: seq<Step>)
    requires Uncached(steps) && s == Run(Start(1), steps)
    requires s.plugin == Idle && |s.users| == 0 && s.limit == 1 && s.input == []
    ensures Uncached(more)
    ensures Run(Start(1), more) == s.(users := multiset{a}, changelists := s.changelists + multiset{a})
  {
    var r := Request(a, Changelist, true);
    ChangelistSteps(s, r);
    more := steps + [Plugs(Arrive(r)), Plugs(Insert)] + [Plugs(AddInput), Works(Take)];
    RunFour(Start(1), steps, s, Plugs(Arrive(r)), Plugs(Insert), Plugs(AddInput), Works(Take), more);
    assert s.users + multiset{a} == multiset{a};
  }

  lemma ConnectionClosed(s: Server, steps: seq<Step>, a: Address) returns (more: seq<Step>)
    requires Uncached(steps) && s == Run(Start(1), steps)
    requires s.plugin == Idle && s.users == multiset{a} && s.queue == [] && s.input == []
    ensures Uncached(more)
    ensures Run(Start(1), more) == s.(users := multiset{})
  {
    more := steps + [Closes(Close(a)), Closes(CloseInput)] + [Closes(CloseUsers), Closes(CloseQueue)];
    RunFour(Start(1), steps, s, Closes(Close(a)), Closes(CloseInput), Closes(CloseUsers), Closes(CloseQueue), more);
  }

  /** A closed connection gives its place up while a worker is still busy for it: with a limit of 1,
      two changelists are then being worked on. */
  lemma ClosingFreesAPlaceEarly(a: Address, b: Address)
    ensures exists steps :: Uncached(steps) && WorkUnderWay(Run(Start(1), steps)) == 2
  {
    var steps := ChangelistTaken(Start(1), [], a);
    steps := ConnectionClosed(Run(Start(1), steps), steps, a);
    steps := ChangelistTaken(Run(Start(1), steps), steps, b);
  }

  // ---------------------------------------------------------------- who comes first

  /** The requests of some clients, in order. */
  function Of(queue: seq<Request>, bs: set<Address>): seq<Request> {
    if queue == [] then []
    else if queue[0].address in bs then [queue[0]] + Of(queue[1..], bs)
    else Of(queue[1..], bs)
  }

  lemma {:induction false} OfAppended(queue: seq<Request>, r: Request, bs: set<Address>)
    ensures Of(queue + [r], bs) == Of(queue, bs) + if r.address in bs then [r] else []
  {
    if queue == [] {
      assert (queue + [r])[1..] == [];
    } else {
      assert (queue + [r])[1..] == queue[1..] + [r];
      OfAppended(queue[1..], r, bs);
    }
  }

  lemma {:induction false} OfOthersKept(queue: seq<Request>, a: Address, bs: set<Address>)
    requires a !in bs
    ensures Of(WithoutAddress(queue, a), bs) == Of(queue, bs)
  {
    if queue != [] {
      OfOthersKept(queue[1..], a, bs);
      if queue[0].address != a {
        assert WithoutAddress(queue, a)[1..] == WithoutAddress(queue[1..], a);
      }
    }
  }

  lemma {:induction false} OfOtherRemoved(input: seq<Request>, i: nat, bs: set<Address>)
    requires i < |input| && input[i].address !in bs
    ensures Of(RemovedAt(input, i), bs) == Of(input, bs)
  {
    if i == 0 {
      assert RemovedAt(input, 0) == input[1..];
    } else {
      assert RemovedAt(input, i)[1..] == RemovedAt(input[1..], i - 1);
      OfOtherRemoved(input[1..], i - 1, bs);
    }
  }

  /** The request of one of the clients bs that a step leaves waiting: it arrived while the plugin was idle,
      which did not take it up. */
  function Queued(s: Server, step: Step, bs: set<Address>): seq<Request> {
    match step
    case Plugs(Arrive(r)) => if s.plugin == Idle == Next(s, step).plugin && r.address in bs then [r] else []
    case _ => []
  }

  /** The request of one of the clients bs that the plugin takes up when it looks at those waiting. */
  function Taken(s: Server, step: Step, bs: set<Address>): seq<Request> {
    match step
    case Plugs(Poll) =>
      var u := Next(s, step);
      if s.plugin == Idle && u.plugin.Checked? && u.plugin.request.address in bs then [u.plugin.request] else []
    case _ => []
  }

  /** The request of one of the clients bs that the plugin gives to the workers. */
  function Given(s: Server, step: Step, bs: set<Address>): seq<Request> {
    match step
    case Plugs(AddInput) => if s.plugin.Inserted? && s.plugin.request.address in bs then [s.plugin.request] else []
    case _ => []
  }

  /** The request of one of the clients bs that a worker takes. */
  function Begun(s: Server, step: Step, bs: set<Address>): seq<Request> {
    if step == Works(Take) && |Next(s, step).input| < |s.input| && s.input[0].address in bs then [s.input[0]] else []
  }

  /** The connection of one of the clients bs closes, or the server is cleared. */
  predicate Leaves(step: Step, bs: set<Address>) {
    match step
    case Closes(Close(a)) => a in bs
    case Closes(Clear) => true
    case _ => false
  }

  /** All of these clients stay connected. */
  ghost predicate Stays(steps: seq<Step>, bs: set<Address>) {
    forall i :: 0 <= i < |steps| ==> !Leaves(steps[i], bs)
  }

  /** No connection of theirs is being closed. */
  predicate NotClosing(s: Server, bs: set<Address>) {
    match s.plugin
    case ClosingInput(a, _) => a !in bs
    case ClosingUsers(a) => a !in bs
    case ClosingQueue(a) => a !in bs
    case _ => true
  }

  function AllQueued(limit: nat, steps: seq<Step>, bs: set<Address>): seq<Request> {
    if steps == [] then []
    else
      var before := steps[..|steps| - 1];
      AllQueued(limit, before, bs) + Queued(Run(Start(limit), before), steps[|steps| - 1], bs)
  }

  function AllTaken(limit: nat, steps: seq<Step>, bs: set<Address>): seq<Request> {
    if steps == [] then []
    else
      var before := steps[..|steps| - 1];
      AllTaken(limit, before, bs) + Taken(Run(Start(limit), before), steps[|steps| - 1], bs)
  }

  function AllGiven(limit: nat, steps: seq<Step>, bs: set<Address>): seq<Request> {
    if steps == [] then []
    else
      var before := steps[..|steps| - 1];
      AllGiven(limit, before, bs) + Given(Run(Start(limit), before), steps[|steps| - 1], bs)
  }

  function AllBegun(limit: nat, steps: seq<Step>, bs: set<Address>): seq<Request> {
    if steps == [] then []
    else
      var before := steps[..|steps| - 1];
      AllBegun(limit, before, bs) + Begun(Run(Start(limit), before), steps[|steps| - 1], bs)
  }

  lemma NotClosingStep(s: Server, step: Step, bs: set<Address>)
    requires NotClosing(s, bs) && !Leaves(step, bs)
    ensures NotClosing(Next(s, step), bs)
  {
  }

  lemma PluginQueue(s: Server, p: PluginStep, bs: set<Address>)
    ensures Of(s.queue, bs) + Queued(s, Plugs(p), bs) == Taken(s, Plugs(p), bs) + Of(NextPlugin(s, p).queue, bs)
  {
    match p
    case Arrive(r) => OfAppended(s.queue, r, bs);
    case _ =>
  }

  lemma CloseQueues(s: Server, c: CloseStep, bs: set<Address>)
    requires NotClosing(s, bs) && c != Clear
    ensures Of(NextClose(s, c).queue, bs) == Of(s.queue, bs)
  {
    if c == CloseQueue && s.plugin.ClosingQueue? {
      OfOthersKept(s.queue, s.plugin.address, bs);
    }
  }

  lemma QueueStep(s: Server, step: Step, bs: set<Address>)
    requires NotClosing(s, bs) && !Leaves(step, bs)
    ensures Of(s.queue, bs) + Queued(s, step, bs) == Taken(s, step, bs) + Of(Next(s, step).queue, bs)
  {
    match step
    case Plugs(p) => PluginQueue(s, p, bs);
    case Works(w) =>
    case Closes(c) => CloseQueues(s, c, bs);
  }

  lemma CloseInputs(s: Server, c: CloseStep, bs: set<Address>)
    requires NotClosing(s, bs) && c != Clear
    ensures Of(NextClose(s, c).input, bs) == Of(s.input, bs)
  {
    if c == CloseInput && s.plugin.ClosingInput? && s.plugin.i < |s.input| && s.input[s.plugin.i].address !in bs {
      OfOtherRemoved(s.input, s.plugin.i, bs);
    }
  }

  lemma InputStep(s: Server, step: Step, bs: set<Address>)
    requires NotClosing(s, bs) && !Leaves(step, bs)
    ensures Of(s.input, bs) + Given(s, step, bs) == Begun(s, step, bs) + Of(Next(s, step).input, bs)
  {
    match step
    case Plugs(p) =>
      if p == AddInput && s.plugin.Inserted? {
        OfAppended(s.input, s.plugin.request, bs);
      }
    case Works(w) =>
    case Closes(c) => CloseInputs(s, c, bs);
  }

  /** A worker that takes a request is busy with a changelist or a patch, as the request says. */
  lemma BegunIsDone(s: Server, step: Step, b: Address)
    requires Begun(s, step, {b}) != []
    ensures var r, u := Begun(s, step, {b})[0], Next(s, step);
      && u.changelists == (if r.kind == Changelist then s.changelists + multiset{b} else s.changelists)
      && u.patches == (if r.kind == Patch then s.patches + multiset{b} else s.patches)
  {
  }

  /** Over any run the requests of the clients that stay, whichever one picks, are taken up in the order they
      came to wait, and those not taken up are all still waiting. */
  lemma {:induction false} FirstComeFirstServed(limit: nat, steps: seq<Step>, bs: set<Address>)
    requires Stays(steps, bs)
    ensures var s := Run(Start(limit), steps);
      NotClosing(s, bs) && AllQueued(limit, steps, bs) == AllTaken(limit, steps, bs) + Of(s.queue, bs)
    decreases |steps|
  {
    if steps != [] {
      var before, last := steps[..|steps| - 1], steps[|steps| - 1];
      var s := Run(Start(limit), before);
      assert forall i :: 0 <= i < |before| ==> before[i] == steps[i];
      FirstComeFirstServed(limit, before, bs);
      NotClosingStep(s, last, bs);
      QueueStep(s, last, bs);
      Regrouped(AllQueued(limit, before, bs), AllTaken(limit, before, bs), Of(s.queue, bs), Queued(s, last, bs),
                Taken(s, last, bs), Of(Next(s, last).queue, bs));
    }
  }

  /** And the requests of the clients that stay are begun by workers in the order they were given, and those not
      begun are all still among the inputs. */
  lemma {:induction false} FirstGivenFirstBegun(limit: nat, steps: seq<Step>, bs: set<Address>)
    requires Stays(steps, bs)
    ensures AllGiven(limit, steps, bs) == AllBegun(limit, steps, bs) + Of(Run(Start(limit), steps).input, bs)
    decreases |steps|
  {
    if steps != [] {
      var before, last := steps[..|steps| - 1], steps[|steps| - 1];
      var s := Run(Start(limit), before);
      assert forall i :: 0 <= i < |before| ==> before[i] == steps[i];
      FirstGivenFirstBegun(limit, before, bs);
      FirstComeFirstServed(limit, before, bs);
      InputStep(s, last, bs);
      Regrouped(AllGiven(limit, before, bs), AllBegun(limit, before, bs), Of(s.input, bs), Given(s, last, bs),
                Begun(s, last, bs), Of(Next(s, last).input, bs));
    }
  }

  lemma Regrouped(queued: seq<Request>, taken: seq<Request>, queue: seq<Request>, q: seq<Request>, t: seq<Request>,
                  left: seq<Request>)
    requires queued == taken + queue && queue + q == t + left
    ensures queued + q == (taken + t) + left
  {
    assert queued + q == taken + (queue + q);
    assert taken + (t + left) == (taken + t) + left;
  }

  // ---------------------------------------------------------------- who is turned away

  /** What is given to the workers is a changelist, or a patch whose file list can be read. */
  ghost predicate OnlyReadable(s: Server) {
    && (forall i :: 0 <= i < |s.input| ==> s.input[i].kind == Changelist || s.input[i].readable)
    && (s.plugin.Inserted? ==> s.plugin.request.kind == Changelist || s.plugin.request.readable)
  }

  lemma {:induction false} UnreadableDropped(limit: nat, steps: seq<Step>)
    ensures OnlyReadable(Run(Start(limit), steps))
    decreases |steps|
  {
    if steps != [] {
      UnreadableDropped(limit, steps[..|steps| - 1]);
      StepReadable(Run(Start(limit), steps[..|steps| - 1]), steps[|steps| - 1]);
    }
  }

  lemma StepReadable(s: Server, step: Step)
    requires OnlyReadable(s)
    ensures OnlyReadable(Next(s, step))
  {
    match step
    case Plugs(p) => PluginReadable(s, p);
    case Works(w) => WorkReadable(s, w);
    case Closes(c) => CloseReadable(s, c);
  }

  lemma PluginReadable(s: Server, step: PluginStep)
    requires OnlyReadable(s)
    ensures OnlyReadable(NextPlugin(s, step))
  {
  }

  lemma WorkReadable(s: Server, step: WorkStep)
    requires OnlyReadable(s)
    ensures OnlyReadable(NextWork(s, step))
  {
  }

  lemma CloseReadable(s: Server, step: CloseStep)
    requires OnlyReadable(s)
    ensures OnlyReadable(NextClose(s, step))
  {
    var u := NextClose(s, step);
    if step == CloseInput && s.plugin.ClosingInput? && s.plugin.i < |s.input| && |u.input| < |s.input| {
      forall i | 0 <= i < |u.input|
        ensures u.input[i].kind == Changelist || u.input[i].readable
      {
        assert u.input[i] == s.input[if i < s.plugin.i then i else i + 1];
      }
    }
  }

  lemma {:induction false} OfGone(queue: seq<Request>, a: Address)
    ensures Of(WithoutAddress(queue, a), {a}) == []
  {
    if queue != [] {
      OfGone(queue[1..], a);
      if queue[0].address != a {
        assert WithoutAddress(queue, a)[1..] == WithoutAddress(queue[1..], a);
      }
    }
  }

  lemma {:induction false} OfNone(input: seq<Request>, a: Address)
    requires forall j :: 0 <= j < |input| ==> input[j].address != a
    ensures Of(input, {a}) == []
  {
    if input != [] {
      assert forall j :: 0 <= j < |input[1..]| ==> input[1..][j] == input[j + 1];
      OfNone(input[1..], a);
    }
  }

  /** A closed connection loses all of its inputs, then all of its places, then all that it has waiting. */
  lemma ClosedLosesAll(limit: nat, steps: seq<Step>, a: Address)
    ensures var s := Run(Start(limit), steps);
      && (s.plugin == ClosingUsers(a) ==> Of(s.input, {a}) == [] && Next(s, Closes(CloseUsers)).users[a] == 0)
      && (s.plugin == ClosingQueue(a) ==> Of(Next(s, Closes(CloseQueue)).queue, {a}) == [])
  {
    EveryUserBacked(limit, steps, a);
    var s := Run(Start(limit), steps);
    if s.plugin == ClosingUsers(a) {
      OfNone(s.input, a);
    } else if s.plugin == ClosingQueue(a) {
      OfGone(s.queue, a);
    }
  }
}
