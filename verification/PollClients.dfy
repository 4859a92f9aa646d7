/** The probe daemon's array of polled descriptors and its list of clients. */
module PollClients {
  import opened CStrings

  const POLLFD_SIZE := 8
  const POLLIN := 1
  const POLLPRI := 2

  datatype PollFd = PollFd(fd: int, events: int, revents: int)

  /** The polled entries, and the descriptors of the clients in the order of the list. */
  datatype Daemon = Daemon(polls: seq<PollFd>, clients: seq<int>)

  function Fds(polls: seq<PollFd>): seq<int> {
    seq(|polls|, i requires 0 <= i < |polls| => polls[i].fd)
  }

  function Reversed(s: seq<int>): seq<int> {
    if s == [] then [] else Reversed(s[1..]) + [s[0]]
  }

  /** LIST_REMOVE */
  function Remove(list: seq<int>, fd: int): seq<int> {
    if list == [] then [] else if list[0] == fd then list[1..] else [list[0]] + Remove(list[1..], fd)
  }

  predicate Distinct(s: seq<int>) {
    forall i, j :: 0 <= i < j < |s| ==> s[i] != s[j]
  }

  /**
   The signal descriptor and the listening socket come first. The other entries are the clients, each once:
   they are added to the end of the array and to the head of the list.
   */
  predicate Paired(d: Daemon, sockfd: int) {
    && |d.polls| >= 2 && d.polls[1].fd == sockfd
    && Distinct(Fds(d.polls))
    && d.clients == Reversed(Fds(d.polls)[2..])
    && Listens(d.polls)
  }

  /** The first entry waits for signals; the others for data, urgent or not. */
  predicate Listens(polls: seq<PollFd>) {
    forall i :: 0 <= i < |polls| ==> polls[i].events == if i == 0 then 1 else 3
  }

  function Accepted(d: Daemon, fd: int): Daemon {
    Daemon(d.polls + [PollFd(fd, POLLIN + POLLPRI, 0)], [fd] + d.clients)
  }

  function Terminated(d: Daemon, i: nat): Daemon
    requires i < |d.polls|
  {
    Daemon(d.polls[..i] + d.polls[i + 1..], Remove(d.clients, d.polls[i].fd))
  }

  // ---- Lists ----

  lemma {:induction false} ReversedConcat(a: seq<int>, b: seq<int>)
    ensures Reversed(a + b) == Reversed(b) + Reversed(a)
  {
    if a == [] {
      assert a + b == b;
    } else {
      assert (a + b)[1..] == a[1..] + b;
      ReversedConcat(a[1..], b);
    }
  }

  lemma ReversedOne(x: int)
    ensures Reversed([x]) == [x]
  {
  }

  lemma {:induction false} ReversedHas(s: seq<int>, x: int)
    ensures x in Reversed(s) <==> x in s
  {
    if s == [] {
    } else {
      ReversedHas(s[1..], x);
    }
  }

  lemma {:induction false} RemoveBetween(a: seq<int>, x: int, b: seq<int>)
    requires x !in a
    ensures Remove(a + [x] + b, x) == a + b
  {
    var s := a + [x] + b;
    if a == [] {
      assert s[1..] == a + b;
    } else {
      assert s[1..] == a[1..] + [x] + b;
      RemoveBetween(a[1..], x, b);
    }
  }

  lemma RemoveMiddle(a: seq<int>, x: int, b: seq<int>)
    requires x !in b
    ensures Remove(Reversed(a + ([x] + b)), x) == Reversed(a + b)
  {
    hide Reversed, Remove;
    ReversedConcat(a, [x] + b);
    ReversedConcat([x], b);
    ReversedOne(x);
    ReversedHas(b, x);
    RemoveBetween(Reversed(b), x, Reversed(a));
    ReversedConcat(a, b);
  }

  lemma Middle(s: seq<int>, k: nat)
    requires k < |s| && Distinct(s)
    ensures s == s[..k] + ([s[k]] + s[k + 1..]) && s[k] !in s[k + 1..]
  {
  }

  /** Taking one element out of a sequence and out of its reverse. */
  lemma RemoveReversed(s: seq<int>, k: nat)
    requires k < |s| && Distinct(s)
    ensures Remove(Reversed(s), s[k]) == Reversed(s[..k] + s[k + 1..])
  {
    hide Reversed, Remove;
    Middle(s, k);
    RemoveMiddle(s[..k], s[k], s[k + 1..]);
  }

  // ---- The pairing ----

  lemma AcceptKeeps(d: Daemon, sockfd: int, fd: int)
    requires Paired(d, sockfd) && fd !in Fds(d.polls)
    ensures Paired(Accepted(d, fd), sockfd)
  {
    var fds := Fds(d.polls);
    var fds' := Fds(Accepted(d, fd).polls);
    assert fds' == fds + [fd];
    assert fds'[2..] == fds[2..] + [fd];
    ReversedConcat(fds[2..], [fd]);
    ReversedOne(fd);
  }

  lemma FdsWithout(polls: seq<PollFd>, i: nat)
    requires 2 <= i < |polls|
    ensures var fds, fds' := Fds(polls), Fds(polls[..i] + polls[i + 1..]);
      var s := fds[2..];
      fds' == fds[..i] + fds[i + 1..] && s[i - 2] == polls[i].fd && fds'[2..] == s[..i - 2] + s[i - 2 + 1..]
  {
  }

  lemma DistinctWithout(s: seq<int>, i: nat)
    requires i < |s| && Distinct(s)
    ensures Distinct(s[..i] + s[i + 1..])
  {
  }

  lemma TerminateKeeps(d: Daemon, sockfd: int, i: nat)
    requires Paired(d, sockfd) && 2 <= i < |d.polls|
    ensures Paired(Terminated(d, i), sockfd)
  {
    hide Reversed, Remove;
    var fds := Fds(d.polls);
    assert Distinct(fds[2..]);
    FdsWithout(d.polls, i);
    hide Fds;
    DistinctWithout(fds, i);
    hide Distinct;
    RemoveReversed(fds[2..], i - 2);
  }

  /** Every polled entry but the first two is that of a client. */
  lemma LookupSucceeds(d: Daemon, sockfd: int, i: nat)
    requires Paired(d, sockfd) && 2 <= i < |d.polls|
    ensures d.polls[i].fd in d.clients
  {
    var s := Fds(d.polls)[2..];
    assert s[i - 2] == d.polls[i].fd;
    ReversedHas(s, d.polls[i].fd);
  }

  /** And every client is polled. */
  lemma ClientsArePolled(d: Daemon, sockfd: int, fd: int)
    requires Paired(d, sockfd) && fd in d.clients
    ensures exists i :: 2 <= i < |d.polls| && d.polls[i].fd == fd
  {
    var s := Fds(d.polls)[2..];
    ReversedHas(s, fd);
    var k :| 0 <= k < |s| && s[k] == fd;
    assert d.polls[k + 2].fd == fd;
  }

  // ---- A round of the poll loop ----

  /** What accept returned, if the loop gets to it: none if it fails. */
  ghost predicate Fresh(d: Daemon, i: nat, accepted: Option<int>) {
    accepted.Some? && i <= 1 ==> accepted.value !in Fds(d.polls)
  }

  /**
   The turns of the loop from entry i on. A client that is handled is always terminated,
   and the entry that takes its place is not looked at in this round.
   */
  function Turns(d: Daemon, i: nat, sockfd: int, accepted: Option<int>, quits: nat -> bool): Daemon
    requires Paired(d, sockfd) && Fresh(d, i, accepted)
    decreases |d.polls| - i + if i <= 1 then 1 else 0
  {
    if i >= |d.polls| then d
    else if d.polls[0].revents != 0 && quits(i) then d
    else if d.polls[i].revents == 0 then Turns(d, i + 1, sockfd, accepted, quits)
    else if d.polls[i].fd == sockfd then
      assert Fds(d.polls)[i] == Fds(d.polls)[1];
      match accepted
      case None => d
      case Some(fd) => AcceptKeeps(d, sockfd, fd); Turns(Accepted(d, fd), i + 1, sockfd, accepted, quits)
    else if i != 0 then TerminateKeeps(d, sockfd, i); Turns(Terminated(d, i), i + 1, sockfd, accepted, quits)
    else Turns(d, i + 1, sockfd, accepted, quits)
  }

  /** One turn of the loop. */
  lemma TurnIs(d: Daemon, i: nat, sockfd: int, accepted: Option<int>, quits: nat -> bool)
    requires Paired(d, sockfd) && Fresh(d, i, accepted) && i < |d.polls|
    ensures d.polls[i].fd == sockfd <==> i == 1
    ensures i >= 2 ==> d.polls[i].fd in d.clients
    ensures d.polls[0].revents != 0 && quits(i) ==> Turns(d, i, sockfd, accepted, quits) == d
    ensures !(d.polls[0].revents != 0 && quits(i)) && (d.polls[i].revents == 0 || i == 0) ==>
      Fresh(d, i + 1, accepted) && Turns(d, i, sockfd, accepted, quits) == Turns(d, i + 1, sockfd, accepted, quits)
    ensures !(d.polls[0].revents != 0 && quits(i)) && d.polls[i].revents != 0 && i == 1 && accepted.None? ==>
      Turns(d, i, sockfd, accepted, quits) == d
    ensures !(d.polls[0].revents != 0 && quits(i)) && d.polls[i].revents != 0 && i == 1 && accepted.Some? ==>
      var d' := Accepted(d, accepted.value);
      Paired(d', sockfd) && Fresh(d', i + 1, accepted) &&
        Turns(d, i, sockfd, accepted, quits) == Turns(d', i + 1, sockfd, accepted, quits)
    ensures !(d.polls[0].revents != 0 && quits(i)) && d.polls[i].revents != 0 && i >= 2 ==>
      var d' := Terminated(d, i);
      Paired(d', sockfd) && Fresh(d', i + 1, accepted) &&
        Turns(d, i, sockfd, accepted, quits) == Turns(d', i + 1, sockfd, accepted, quits)
  {
    assert Fds(d.polls)[i] == d.polls[i].fd && Fds(d.polls)[0] == d.polls[0].fd && Fds(d.polls)[1] == sockfd;
    if i >= 2 {
      LookupSucceeds(d, sockfd, i);
    }
    hide Accepted, Terminated, Fds;
    if i == 1 && accepted.Some? {
      AcceptKeeps(d, sockfd, accepted.value);
    } else if i >= 2 {
      TerminateKeeps(d, sockfd, i);
    }
  }

  lemma {:induction false} TurnsKeep(d: Daemon, i: nat, sockfd: int, accepted: Option<int>, quits: nat -> bool)
    requires Paired(d, sockfd) && Fresh(d, i, accepted)
    ensures Paired(Turns(d, i, sockfd, accepted, quits), sockfd)
    decreases |d.polls| - i + if i <= 1 then 1 else 0
  {
    if i >= |d.polls| || (d.polls[0].revents != 0 && quits(i)) {
    } else if d.polls[i].revents == 0 {
      TurnsKeep(d, i + 1, sockfd, accepted, quits);
    } else if d.polls[i].fd == sockfd {
      assert Fds(d.polls)[i] == Fds(d.polls)[1];
      if accepted.Some? {
        AcceptKeeps(d, sockfd, accepted.value);
        TurnsKeep(Accepted(d, accepted.value), i + 1, sockfd, accepted, quits);
      }
    } else if i != 0 {
      TerminateKeeps(d, sockfd, i);
      TurnsKeep(Terminated(d, i), i + 1, sockfd, accepted, quits);
    } else {
      TurnsKeep(d, i + 1, sockfd, accepted, quits);
    }
  }

  /**
   What poll found, the descriptor that accept returns if the listening socket is ready (none if accept or fcntl
   fails), and at which turns the signal descriptor, if it is ready, gives a signal that ends the daemon.
   */
  datatype Round = Round(revents: seq<int>, accepted: Option<int>, quits: nat -> bool)

  function Polled(d: Daemon, revents: seq<int>): Daemon
    requires |revents| == |d.polls|
  {
    d.(polls := seq(|d.polls|, i requires 0 <= i < |d.polls| => d.polls[i].(revents := revents[i])))
  }

  lemma PolledKeeps(d: Daemon, revents: seq<int>, sockfd: int)
    requires Paired(d, sockfd) && |revents| == |d.polls|
    ensures Paired(Polled(d, revents), sockfd) && Fds(Polled(d, revents).polls) == Fds(d.polls)
  {
    assert Fds(Polled(d, revents).polls) == Fds(d.polls);
  }

  /** The system accepts connections on descriptors that are not in use. */
  ghost predicate Possible(d: Daemon, r: Round) {
    |r.revents| == |d.polls| && (r.accepted.Some? ==> r.accepted.value !in Fds(d.polls))
  }

  function AfterRound(d: Daemon, r: Round, sockfd: int): (d': Daemon)
    requires Paired(d, sockfd) && Possible(d, r)
    ensures Paired(d', sockfd)
  {
    PolledKeeps(d, r.revents, sockfd);
    TurnsKeep(Polled(d, r.revents), 0, sockfd, r.accepted, r.quits);
    Turns(Polled(d, r.revents), 0, sockfd, r.accepted, r.quits)
  }

  ghost predicate Follows(d: Daemon, r: Round, d': Daemon, sockfd: int) {
    Paired(d, sockfd) ==> Possible(d, r) && d' == AfterRound(d, r, sockfd)
  }

  /** The states of a run, one before each round and one after the last. */
  ghost predicate IsRun(states: seq<Daemon>, rounds: seq<Round>, sockfd: int) {
    && |states| == |rounds| + 1
    && forall k :: 0 <= k < |rounds| ==> Follows(states[k], rounds[k], states[k + 1], sockfd)
  }

  /** On every run, clients and polled entries correspond one to one. */
  lemma {:induction false} RunKeepsPairing(states: seq<Daemon>, rounds: seq<Round>, sockfd: int, k: nat)
    requires IsRun(states, rounds, sockfd) && Paired(states[0], sockfd) && k <= |rounds|
    ensures Paired(states[k], sockfd)
  {
    if k == 0 {
    } else {
      RunKeepsPairing(states, rounds, sockfd, k - 1);
      assert Follows(states[k - 1], rounds[k - 1], states[k - 1 + 1], sockfd);
    }
  }

  /** The daemon as it starts, with the signal descriptor and the listening socket. */
  lemma PairedAtStart(sigfd: int, sockfd: int)
    requires sigfd != sockfd
    ensures Paired(Daemon([PollFd(sigfd, POLLIN, 0), PollFd(sockfd, POLLIN + POLLPRI, 0)], []), sockfd)
  {
  }

  // ---- Who is handled in a round ----

  /** A client without an event is still there after the round. */
  lemma {:induction false} QuietStays(d: Daemon, i: nat, sockfd: int, accepted: Option<int>, quits: nat -> bool, k: nat)
    requires Paired(d, sockfd) && Fresh(d, i, accepted) && 2 <= k < |d.polls| && d.polls[k].revents == 0
    ensures d.polls[k].fd in Turns(d, i, sockfd, accepted, quits).clients
    decreases |d.polls| - i + if i <= 1 then 1 else 0
  {
    hide Paired, Fresh, Remove, Reversed;
    if i >= |d.polls| {
      NoMoreTurns(d, i, sockfd, accepted, quits);
      LookupSucceeds(d, sockfd, k);
    } else {
      TurnIs(d, i, sockfd, accepted, quits);
      if d.polls[0].revents != 0 && quits(i) {
        LookupSucceeds(d, sockfd, k);
      } else if d.polls[i].revents == 0 || i == 0 {
        QuietStays(d, i + 1, sockfd, accepted, quits, k);
      } else if i == 1 {
        if accepted.None? {
          LookupSucceeds(d, sockfd, k);
        } else {
          QuietStays(Accepted(d, accepted.value), i + 1, sockfd, accepted, quits, k);
        }
      } else {
        QuietStays(Terminated(d, i), i + 1, sockfd, accepted, quits, if k < i then k else k - 1);
      }
    }
  }

  lemma {:induction false} GoneStays(d: Daemon, i: nat, sockfd: int, accepted: Option<int>, quits: nat -> bool, fd: int)
    requires Paired(d, sockfd) && Fresh(d, i, accepted) && 2 <= i && fd !in Fds(d.polls)
    ensures fd !in Fds(Turns(d, i, sockfd, accepted, quits).polls)
    decreases |d.polls| - i
  {
    if i >= |d.polls| {
      NoMoreTurns(d, i, sockfd, accepted, quits);
    } else {
      TurnIs(d, i, sockfd, accepted, quits);
      hide Paired, Fresh, Turns, Remove;
      if d.polls[0].revents != 0 && quits(i) {
      } else if d.polls[i].revents == 0 {
        GoneStays(d, i + 1, sockfd, accepted, quits, fd);
      } else {
        FdsWithout(d.polls, i);
        GoneStays(Terminated(d, i), i + 1, sockfd, accepted, quits, fd);
      }
    }
  }

  lemma TerminatedIsGone(d: Daemon, sockfd: int, k: nat)
    requires Paired(d, sockfd) && 2 <= k < |d.polls|
    ensures d.polls[k].fd !in Fds(Terminated(d, k).polls)
  {
    FdsWithout(d.polls, k);
    var fds := Fds(d.polls);
    assert fds[k] == d.polls[k].fd;
    assert forall j :: 0 <= j < |fds| && j != k ==> fds[j] != fds[k];
  }

  /**
   A client with an event, whose neighbour before it has none, is handled and gone after a round that nothing ends
   early: only the entry behind a terminated one is passed over.
   */
  lemma {:induction false} ReadyGoes(d: Daemon, i: nat, sockfd: int, accepted: Option<int>, quits: nat -> bool, k: nat)
    requires Paired(d, sockfd) && Fresh(d, i, accepted) && 2 <= k < |d.polls| && d.polls[k].revents != 0 && i <= k
    requires i == k || k == 2 || d.polls[k - 1].revents == 0
    requires d.polls[0].revents == 0 && (accepted.Some? || d.polls[1].revents == 0)
    ensures d.polls[k].fd !in Turns(d, i, sockfd, accepted, quits).clients
    decreases |d.polls| - i + if i <= 1 then 1 else 0
  {
    hide Fresh, Remove, Reversed, Turns, Paired;
    TurnIs(d, i, sockfd, accepted, quits);
    if i == k {
      var d' := Terminated(d, k);
      TerminatedIsGone(d, sockfd, k);
      GoneStays(d', i + 1, sockfd, accepted, quits, d.polls[k].fd);
      TurnsKeep(d', i + 1, sockfd, accepted, quits);
      NotPolledNotListed(Turns(d', i + 1, sockfd, accepted, quits), sockfd, d.polls[k].fd);
    } else if d.polls[i].revents == 0 || i == 0 {
      ReadyGoes(d, i + 1, sockfd, accepted, quits, k);
    } else if i == 1 {
      ReadyGoes(Accepted(d, accepted.value), i + 1, sockfd, accepted, quits, k);
    } else {
      ReadyGoes(Terminated(d, i), i + 1, sockfd, accepted, quits, k - 1);
    }
  }

  lemma NotPolledNotListed(d: Daemon, sockfd: int, fd: int)
    requires Paired(d, sockfd) && fd !in Fds(d.polls)
    ensures fd !in d.clients
  {
    ReversedHas(Fds(d.polls)[2..], fd);
  }

  // ---- The daemon ----

  class ProbeDaemon {
    var pollfds: array?<PollFd>
    var nfds: nat
    /** In bytes. */
    var currentAlloc: nat
    /** The client list. */
    var clients: seq<int>

    ghost predicate Valid()
      reads this
    {
      if pollfds == null then nfds == 0 else nfds <= pollfds.Length && currentAlloc == pollfds.Length * POLLFD_SIZE
    }

    ghost function State(): Daemon
      reads this, pollfds
      requires Valid()
    {
      Daemon(if pollfds == null then [] else pollfds[..nfds], clients)
    }

    constructor ()
      ensures Valid() && pollfds == null && State() == Daemon([], [])
    {
      pollfds, nfds, currentAlloc, clients := null, 0, 0, [];
    }

    /** add_pollfd, with reallocate: the array is doubled when the new entry does not fit. */
    method AddPollfd(fd: int, events: int)
      requires Valid() && fd >= 0
      modifies this`pollfds, this`nfds, this`currentAlloc, pollfds
      ensures Valid() && pollfds != null && (pollfds == old(pollfds) || fresh(pollfds))
      ensures State() == Daemon(old(State()).polls + [PollFd(fd, events, 0)], old(clients))
    {
      if pollfds == null {
        pollfds := new PollFd[1](_ => PollFd(0, 0, 0));
        currentAlloc := POLLFD_SIZE;
      } else {
        var requested := (nfds + 1) * POLLFD_SIZE;
        if currentAlloc < requested {
          var more := new PollFd[2 * (nfds + 1)](_ => PollFd(0, 0, 0));
          forall j | 0 <= j < pollfds.Length {
            more[j] := pollfds[j];
          }
          pollfds, currentAlloc := more, requested * 2;
        }
      }
      pollfds[nfds] := PollFd(fd, events, 0);
      nfds := nfds + 1;
    }

    method DelPollfd(i: nat)
      requires Valid() && i < nfds
      modifies this`nfds, pollfds
      ensures Valid()
      ensures State() == Daemon(old(State()).polls[..i] + old(State()).polls[i + 1..], clients)
    {
      if i < nfds - 1 {
        forall j | i <= j < nfds - 1 {
          pollfds[j] := pollfds[j + 1];
        }
      }
      nfds := nfds - 1;
    }

    method AddClient(fd: int)
      modifies this`clients
      ensures clients == [fd] + old(clients)
    {
      clients := [fd] + clients;
    }

    /** LIST_FOREACH goes on after it has found the client. */
    method LookupClient(fd: int) returns (current: Option<int>)
      ensures current == if fd in clients then Some(fd) else None
    {
      current := None;
      var k := 0;
      while k < |clients|
        invariant k <= |clients| && current == if fd in clients[..k] then Some(fd) else None
      {
        if clients[k] == fd {
          current := Some(clients[k]);
        }
        k := k + 1;
      }
    }

    /** One client with the descriptor goes; the others stay in their order. */
    method RemoveClient(fd: int) returns (k: nat)
      requires fd in clients
      modifies this`clients
      ensures k < |old(clients)| && old(clients)[k] == fd && fd !in old(clients)[..k]
      ensures clients == old(clients)[..k] + old(clients)[k + 1..]
    {
      k := 0;
      while clients[k] != fd
        invariant k < |clients| && fd !in clients[..k]
        decreases |clients| - k
      {
        k := k + 1;
      }
      clients := clients[..k] + clients[k + 1..];
    }

    method TerminateClient(fd: int, i: nat)
      requires Valid() && i < nfds && fd in clients && State().polls[i].fd == fd
      modifies this`nfds, this`clients, pollfds
      ensures Valid() && State() == Terminated(old(State()), i)
    {
      DelPollfd(i);
      var k := RemoveClient(fd);
      RemoveBetween(old(clients)[..k], fd, old(clients)[k + 1..]);
      assert old(clients) == old(clients)[..k] + [fd] + old(clients)[k + 1..];
    }

    /** poll */
    method Poll(revents: seq<int>)
      requires Valid() && |revents| == nfds
      modifies pollfds
      ensures State() == Polled(old(State()), revents)
    {
      if pollfds != null {
        forall j | 0 <= j < nfds {
          pollfds[j] := pollfds[j].(revents := revents[j]);
        }
      }
    }

    /** One turn of the inner loop of the probe daemon. */
    method HandleEntry(i: nat, sockfd: int, accepted: Option<int>, quits: nat -> bool) returns (stop: bool)
      requires Valid() && pollfds != null && i < nfds && Paired(State(), sockfd) && Fresh(State(), i, accepted)
      requires accepted.Some? ==> accepted.value >= 0
      modifies this, pollfds
      ensures Valid() && pollfds != null && (pollfds == old(pollfds) || fresh(pollfds))
      ensures Paired(State(), sockfd)
      ensures stop ==> State() == Turns(old(State()), i, sockfd, accepted, quits)
      ensures !stop ==>
        && Fresh(State(), i + 1, accepted)
        && Turns(State(), i + 1, sockfd, accepted, quits) == Turns(old(State()), i, sockfd, accepted, quits)
        && nfds <= old(nfds) + if i == 1 then 1 else 0
    {
      hide Paired, Turns, Fresh, Remove;
      TurnIs(State(), i, sockfd, accepted, quits);
      if pollfds[0].revents != 0 && quits(i) {
        return true;
      }
      var entry := pollfds[i];
      if entry.revents == 0 {
        return false;
      }
      if entry.fd == sockfd {
        if accepted.None? {
          return true;
        }
        AddClient(accepted.value);
        AddPollfd(accepted.value, POLLIN + POLLPRI);
      } else if i != 0 {
        var current := LookupClient(entry.fd);
        TerminateClient(current.value, i);
      }
      assert nfds == |State().polls|;
      return false;
    }

    /** The inner loop. */
    method HandleEvents(sockfd: int, accepted: Option<int>, quits: nat -> bool)
      requires Valid() && Paired(State(), sockfd) && Fresh(State(), 0, accepted)
      requires accepted.Some? ==> accepted.value >= 0
      modifies this, pollfds
      ensures Valid() && pollfds != null && (pollfds == old(pollfds) || fresh(pollfds))
      ensures State() == Turns(old(State()), 0, sockfd, accepted, quits) && Paired(State(), sockfd)
    {
      assert |State().polls| >= 2;
      hide Paired, Turns, Fresh;
      ghost var goal := Turns(State(), 0, sockfd, accepted, quits);
      var i := 0;
      while i < nfds
        invariant Valid() && pollfds != null && (pollfds == old(pollfds) || fresh(pollfds))
        invariant Paired(State(), sockfd) && Fresh(State(), i, accepted)
        invariant goal == Turns(State(), i, sockfd, accepted, quits)
        decreases nfds - i + if i <= 1 then 1 else 0
      {
        var stop := HandleEntry(i, sockfd, accepted, quits);
        if stop {
          return;
        }
        i := i + 1;
      }
      NoMoreTurns(State(), i, sockfd, accepted, quits);
    }
  }

  lemma NoMoreTurns(d: Daemon, i: nat, sockfd: int, accepted: Option<int>, quits: nat -> bool)
    requires Paired(d, sockfd) && Fresh(d, i, accepted) && i >= |d.polls|
    ensures Turns(d, i, sockfd, accepted, quits) == d
  {
  }
}
