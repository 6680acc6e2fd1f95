/** The client table of server/tcp/tcp_server.cpp: accept, read and reap inside the select loop. */
module SessionTable {

  const MAX_CLIENT_NUM: nat := 4

  /** A slot of the table; the buffers and the keep-alive time play no part in the bookkeeping. */
  datatype ClientSession = ClientSession(sock: int, bUse: int, bIsActive: int, session: int)

  const CLEARED := ClientSession(0, 0, 0, 0)

  /** The global server and the descriptors that the process has open. */
  datatype Server = Server(mySocket: int, clientNum: int, client: seq<ClientSession>, open: set<int>)

  predicate Sized(s: Server) { |s.client| == MAX_CLIENT_NUM }

  // ---------- what the outside world decides in one round ----------

  datatype Errno = EINTR | EAGAIN | Other

  /** What recv and, if it returned data, the write of the answer came to for one client. */
  datatype Outcome = Outcome(bytesRead: int, recvErrno: Errno, written: int, writeErrno: Errno)

  /** `ready` is the set left by select, `accepted` the result of accept, `session` the random id. */
  datatype Input = Input(ready: set<int>, accepted: int, session: int, outcomes: seq<Outcome>)

  /** Is the connection given up after this outcome? */
  predicate Fails(o: Outcome) {
    || o.bytesRead == 0
    || (o.bytesRead == -1 && o.recvErrno == Other)
    || (o.bytesRead > 0 && o.written <= 0 && o.writeErrno == Other)
  }

  // ---------- the handlers as functions ----------

  /** The first slot from `i` on that is not in use, or MAX_CLIENT_NUM. */
  function FirstFree(client: seq<ClientSession>, i: nat): (k: nat)
    requires |client| == MAX_CLIENT_NUM && i <= MAX_CLIENT_NUM
    ensures i <= k <= MAX_CLIENT_NUM
    ensures forall j :: i <= j < k ==> client[j].bUse != 0
    ensures k < MAX_CLIENT_NUM ==> client[k].bUse == 0
    decreases MAX_CLIENT_NUM - i
  {
    if i == MAX_CLIENT_NUM || client[i].bUse == 0 then i else FirstFree(client, i + 1)
  }

  /** incomingConnectionHandler, when accept returns `fd`. A descriptor that finds no room is closed
      at once, so the open ones stay as they were. */
  function Accept(s: Server, fd: int, session: int): (r: Server)
    requires Sized(s)
    ensures Sized(r)
  {
    if fd < 0 then s
    else
      var i := FirstFree(s.client, 0);
      if i >= MAX_CLIENT_NUM then s
      else s.(client := s.client[i := ClientSession(fd, 1, 1, session)],
              clientNum := s.clientNum + 1, open := s.open + {fd})
  }

  /** incomingConnectionHandlerClient on slot `i`. */
  function Read(s: Server, i: nat, o: Outcome): (r: Server)
    requires Sized(s) && i < MAX_CLIENT_NUM
    ensures Sized(r)
  {
    if Fails(o) then s.(client := s.client[i := s.client[i].(bIsActive := -1)]) else s
  }

  /** DestroyClientSession on slot `i`, with its clamp at zero. */
  function Destroy(s: Server, i: nat): (r: Server)
    requires Sized(s) && i < MAX_CLIENT_NUM
    ensures Sized(r)
  {
    var c := s.client[i];
    if c.bUse == 0 then s
    else s.(client := s.client[i := CLEARED],
            clientNum := if s.clientNum - 1 < 0 then 0 else s.clientNum - 1,
            open := if c.sock > 0 then s.open - {c.sock} else s.open)
  }

  /** The read loop over slots 0 to n-1. */
  function ReadLoop(s: Server, inp: Input, n: nat): (r: Server)
    requires Sized(s) && n <= MAX_CLIENT_NUM && |inp.outcomes| == MAX_CLIENT_NUM
    ensures Sized(r)
  {
    if n == 0 then s
    else
      var t := ReadLoop(s, inp, n - 1);
      var c := t.client[n - 1];
      if c.bUse != 0 && c.sock in inp.ready then Read(t, n - 1, inp.outcomes[n - 1]) else t
  }

  /** The reap loop over slots 0 to n-1. */
  function ReapLoop(s: Server, n: nat): (r: Server)
    requires Sized(s) && n <= MAX_CLIENT_NUM
    ensures Sized(r)
  {
    if n == 0 then s
    else
      var t := ReapLoop(s, n - 1);
      if t.client[n - 1].bIsActive == -1 then Destroy(t, n - 1) else t
  }

  function AfterAccept(s: Server, inp: Input): (r: Server)
    requires Sized(s)
    ensures Sized(r)
  {
    if s.mySocket in inp.ready then Accept(s, inp.accepted, inp.session) else s
  }

  /** One turn of the endless loop. */
  function Round(s: Server, inp: Input): (r: Server)
    requires Sized(s) && |inp.outcomes| == MAX_CLIENT_NUM
    ensures Sized(r)
  {
    if inp.ready == {} then s
    else
      ReapLoop(ReadLoop(AfterAccept(s, inp), inp, MAX_CLIENT_NUM), MAX_CLIENT_NUM)
  }

  // ---------- the table invariant ----------

  predicate InUse(s: Server, i: int)
    requires Sized(s)
  {
    0 <= i < MAX_CLIENT_NUM && s.client[i].bUse != 0
  }

  function Used(c: ClientSession): nat { if c.bUse != 0 then 1 else 0 }

  function Count(s: Server): nat
    requires Sized(s)
  {
    Used(s.client[0]) + Used(s.client[1]) + Used(s.client[2]) + Used(s.client[3])
  }

  function Sockets(s: Server): set<int>
    requires Sized(s)
  {
    set i | 0 <= i < MAX_CLIENT_NUM && s.client[i].bUse != 0 :: s.client[i].sock
  }

  /** Holds at every point of a round: the count is right, the sockets are distinct, and with the
      listener they are exactly the open descriptors. */
  ghost predicate Consistent(s: Server) {
    && Sized(s)
    && s.mySocket > 0
    && s.clientNum == Count(s)
    && s.open == {s.mySocket} + Sockets(s)
    && (forall i :: 0 <= i < MAX_CLIENT_NUM ==>
          s.client[i] == CLEARED
          || (s.client[i].bUse == 1 && s.client[i].sock > 0 && s.client[i].sock != s.mySocket
              && s.client[i].bIsActive in {1, -1}))
    && (forall i, j :: 0 <= i < j < MAX_CLIENT_NUM && s.client[i].bUse != 0 && s.client[j].bUse != 0
          ==> s.client[i].sock != s.client[j].sock)
  }

  /** At a loop head, moreover, no slot waits to be reaped. */
  ghost predicate AtLoopHead(s: Server) {
    Consistent(s) && forall i :: 0 <= i < MAX_CLIENT_NUM ==> s.client[i].bIsActive != -1
  }

  /** What the operating system guarantees: select leaves a subset of the descriptors it was given,
      and accept returns an error or a descriptor that is not open. */
  ghost predicate Admissible(s: Server, inp: Input)
    requires Sized(s)
  {
    && |inp.outcomes| == MAX_CLIENT_NUM
    && inp.ready <= {s.mySocket} + Sockets(s)
    && (inp.accepted < 0 || (inp.accepted > 0 && inp.accepted !in s.open))
  }

  lemma CountBound(s: Server)
    requires Sized(s)
    ensures 0 <= Count(s) <= MAX_CLIENT_NUM
    ensures Count(s) == MAX_CLIENT_NUM <==> FirstFree(s.client, 0) == MAX_CLIENT_NUM
    ensures forall i :: InUse(s, i) ==> Count(s) >= 1
  {
    forall i | InUse(s, i) ensures Count(s) >= 1 {
      if i != 0 && i != 1 && i != 2 {
        assert i == 3;
      }
    }
  }

  /** Replacing slot `i` changes the count by that slot's part only. */
  lemma CountUpdate(s: Server, r: Server, i: nat, c: ClientSession)
    requires Sized(s) && i < MAX_CLIENT_NUM && r.client == s.client[i := c]
    ensures Sized(r) && Count(r) == Count(s) - Used(s.client[i]) + Used(c)
  {
  }

  lemma AcceptConsistent(s: Server, fd: int, session: int)
    requires Consistent(s) && (fd < 0 || (fd > 0 && fd !in s.open))
    ensures Consistent(Accept(s, fd, session))
  {
    var i := FirstFree(s.client, 0);
    if fd >= 0 && i < MAX_CLIENT_NUM {
      var r := Accept(s, fd, session);
      CountUpdate(s, r, i, ClientSession(fd, 1, 1, session));
      hide Count;
      assert Sockets(r) == Sockets(s) + {fd} by {
        assert forall j :: 0 <= j < MAX_CLIENT_NUM && j != i ==> r.client[j] == s.client[j];
        assert r.client[i].sock == fd && r.client[i].bUse != 0;
      }
      forall j, k | 0 <= j < k < MAX_CLIENT_NUM && r.client[j].bUse != 0 && r.client[k].bUse != 0
        ensures r.client[j].sock != r.client[k].sock
      {
        assert j != i ==> s.client[j].sock in Sockets(s);
        assert k != i ==> s.client[k].sock in Sockets(s);
      }
    }
  }

  lemma ReadConsistent(s: Server, i: nat, o: Outcome)
    requires Consistent(s) && i < MAX_CLIENT_NUM && s.client[i].bUse != 0
    ensures Consistent(Read(s, i, o))
  {
    var r := Read(s, i, o);
    if Fails(o) {
      CountUpdate(s, r, i, s.client[i].(bIsActive := -1));
      hide Count;
      assert forall j :: 0 <= j < MAX_CLIENT_NUM ==>
        r.client[j].sock == s.client[j].sock && r.client[j].bUse == s.client[j].bUse;
      assert Sockets(r) == Sockets(s);
    }
  }

  /** Reaping closes one open descriptor and never needs the clamp. */
  lemma DestroyConsistent(s: Server, i: nat)
    requires Consistent(s) && i < MAX_CLIENT_NUM && s.client[i].bIsActive == -1
    ensures Consistent(Destroy(s, i))
    ensures s.client[i].bUse == 1 && s.client[i].sock in s.open
    ensures s.clientNum >= 1 && Destroy(s, i).clientNum == s.clientNum - 1
    ensures Destroy(s, i).open == s.open - {s.client[i].sock}
  {
    var r := Destroy(s, i);
    assert s.client[i] != CLEARED;
    assert InUse(s, i);
    CountBound(s);
    CountUpdate(s, r, i, CLEARED);
    hide Count;
    var fd := s.client[i].sock;
    assert forall j :: 0 <= j < MAX_CLIENT_NUM && j != i ==> r.client[j] == s.client[j];
    assert Sockets(r) == Sockets(s) - {fd};
    assert fd in Sockets(s);
  }

  /** A session that is accepted, fails and is reaped leaves everything as it was exactly when its
      descriptor is not 0: that one is never closed. */
  lemma ReapUndoesAcceptIff(s: Server, fd: int, session: int, o: Outcome)
    requires Consistent(s) && fd >= 0 && fd !in s.open && FirstFree(s.client, 0) < MAX_CLIENT_NUM && Fails(o)
    ensures var i := FirstFree(s.client, 0);
            && (Destroy(Read(Accept(s, fd, session), i, o), i) == s <==> fd != 0)
            && (fd == 0 ==> Destroy(Read(Accept(s, fd, session), i, o), i) == s.(open := s.open + {0}))
  {
    var i := FirstFree(s.client, 0);
    var r := Destroy(Read(Accept(s, fd, session), i, o), i);
    CountBound(s);
    assert s.client[i] == CLEARED && s.clientNum >= 0;
    assert s.client[i := CLEARED] == s.client;
    assert fd == 0 ==> 0 in r.open;
    assert s.open + {fd} - {fd} == s.open;
  }

  // ---------- one round, slot by slot ----------

  /** Is slot `i` served in this round, and does its connection fail? */
  predicate Drops(s: Server, inp: Input, i: nat)
    requires Sized(s) && i < MAX_CLIENT_NUM && |inp.outcomes| == MAX_CLIENT_NUM
  {
    s.client[i].bUse != 0 && s.client[i].sock in inp.ready && Fails(inp.outcomes[i])
  }

  function Marked(s: Server, inp: Input, i: nat): ClientSession
    requires Sized(s) && i < MAX_CLIENT_NUM && |inp.outcomes| == MAX_CLIENT_NUM
  {
    if Drops(s, inp, i) then s.client[i].(bIsActive := -1) else s.client[i]
  }

  lemma {:induction false} ReadLoopConsistent(s: Server, inp: Input, n: nat)
    requires Consistent(s) && n <= MAX_CLIENT_NUM && |inp.outcomes| == MAX_CLIENT_NUM
    ensures Consistent(ReadLoop(s, inp, n))
  {
    if n > 0 {
      ReadLoopConsistent(s, inp, n - 1);
      var t := ReadLoop(s, inp, n - 1);
      var c := t.client[n - 1];
      hide Consistent;
      if c.bUse != 0 && c.sock in inp.ready {
        ReadConsistent(t, n - 1, inp.outcomes[n - 1]);
      }
    }
  }

  lemma {:induction false} ReadLoopSlots(s: Server, inp: Input, n: nat)
    requires Sized(s) && n <= MAX_CLIENT_NUM && |inp.outcomes| == MAX_CLIENT_NUM
    ensures forall i :: 0 <= i < n ==> ReadLoop(s, inp, n).client[i] == Marked(s, inp, i)
    ensures forall i :: n <= i < MAX_CLIENT_NUM ==> ReadLoop(s, inp, n).client[i] == s.client[i]
    ensures ReadLoop(s, inp, n).mySocket == s.mySocket
  {
    if n > 0 {
      ReadLoopSlots(s, inp, n - 1);
    }
  }

  lemma {:induction false} ReapLoopSlots(s: Server, n: nat)
    requires Consistent(s) && n <= MAX_CLIENT_NUM
    ensures Consistent(ReapLoop(s, n))
    ensures forall i :: 0 <= i < n ==>
              ReapLoop(s, n).client[i] == if s.client[i].bIsActive == -1 then CLEARED else s.client[i]
    ensures forall i :: n <= i < MAX_CLIENT_NUM ==> ReapLoop(s, n).client[i] == s.client[i]
    ensures ReapLoop(s, n).mySocket == s.mySocket
  {
    if n > 0 {
      ReapLoopSlots(s, n - 1);
      var t := ReapLoop(s, n - 1);
      hide Consistent;
      if t.client[n - 1].bIsActive == -1 {
        DestroyConsistent(t, n - 1);
      }
    }
  }

  /** The new connection of a round, if there is one and there is room for it. */
  predicate Admits(s: Server, inp: Input)
    requires Sized(s)
  {
    s.mySocket in inp.ready && inp.accepted >= 0 && FirstFree(s.client, 0) < MAX_CLIENT_NUM
  }

  /** The table after the accept of a round; the new connection is not among those to be read. */
  lemma AcceptSlots(s: Server, inp: Input)
    requires AtLoopHead(s) && Admissible(s, inp)
    ensures AtLoopHead(AfterAccept(s, inp))
    ensures AfterAccept(s, inp).mySocket == s.mySocket
    ensures forall i :: 0 <= i < MAX_CLIENT_NUM ==>
              && (Drops(AfterAccept(s, inp), inp, i) <==> Drops(s, inp, i))
              && AfterAccept(s, inp).client[i]
                 == if Admits(s, inp) && i == FirstFree(s.client, 0)
                      then ClientSession(inp.accepted, 1, 1, inp.session)
                    else s.client[i]
  {
    AcceptConsistent(s, inp.accepted, inp.session);
    assert inp.accepted > 0 ==> inp.accepted !in inp.ready;
    hide Count, Sockets;
  }

  /** A whole round, from the loop head: the loops come to this for each slot. A connection in use
      stays untouched unless it was ready and failed, and then its slot is cleared; the accepted
      connection takes the first free slot and is not served before the next round; all other slots
      stay clear. */
  lemma RoundSlots(s: Server, inp: Input)
    requires AtLoopHead(s) && Admissible(s, inp)
    ensures AtLoopHead(Round(s, inp))
    ensures Round(s, inp).mySocket == s.mySocket
    ensures forall i :: 0 <= i < MAX_CLIENT_NUM ==>
              Round(s, inp).client[i]
              == if Drops(s, inp, i) then CLEARED
                 else if Admits(s, inp) && i == FirstFree(s.client, 0)
                   then ClientSession(inp.accepted, 1, 1, inp.session)
                 else s.client[i]
  {
    if inp.ready != {} {
      var s1 := AfterAccept(s, inp);
      AcceptSlots(s, inp);
      hide Count, Sockets, FirstFree, Admissible, AfterAccept;
      var s2 := ReadLoop(s1, inp, MAX_CLIENT_NUM);
      ReadLoopConsistent(s1, inp, MAX_CLIENT_NUM);
      ReadLoopSlots(s1, inp, MAX_CLIENT_NUM);
      ReapLoopSlots(s2, MAX_CLIENT_NUM);
      hide Consistent, ReadLoop, ReapLoop;
    }
  }

  /** When a session that is served is kept: recv would block or was interrupted, or data came and
      the answer was written, would block or was interrupted. A result of recv below -1, which the
      code does not look at, keeps it too. Otherwise its slot is cleared and its descriptor closed. */
  lemma ServedSessionKeptIff(s: Server, inp: Input, i: nat)
    requires AtLoopHead(s) && Admissible(s, inp) && i < MAX_CLIENT_NUM
    requires s.client[i].bUse != 0 && s.client[i].sock in inp.ready
    ensures var o, r := inp.outcomes[i], Round(s, inp);
            var kept := (o.bytesRead == -1 && (o.recvErrno == EINTR || o.recvErrno == EAGAIN))
                        || (o.bytesRead > 0 && (o.written > 0 || o.writeErrno == EINTR || o.writeErrno == EAGAIN))
                        || o.bytesRead < -1;
            && (r.client[i] == s.client[i] <==> kept)
            && (s.client[i].sock in r.open <==> kept)
            && (!kept ==> r.client[i] == ClientSession(0, 0, 0, 0))
  {
    var fd, r := s.client[i].sock, Round(s, inp);
    RoundSlots(s, inp);
    assert fd in Sockets(s) && fd != r.mySocket && s.client[i] != CLEARED;
    hide Round, Count;
    if r.client[i] == s.client[i] {
      assert fd in Sockets(r);
    } else {
      forall j | 0 <= j < MAX_CLIENT_NUM && r.client[j].bUse != 0 ensures r.client[j].sock != fd {
        assert j != i;
      }
      assert fd !in Sockets(r);
    }
  }

  /** A session that is not ready is kept, whatever else happens in the round. */
  lemma IdleSessionKept(s: Server, inp: Input, i: nat)
    requires AtLoopHead(s) && Admissible(s, inp) && i < MAX_CLIENT_NUM
    requires s.client[i].bUse != 0 && s.client[i].sock !in inp.ready
    ensures Round(s, inp).client[i] == s.client[i] && s.client[i].sock in Round(s, inp).open
  {
    RoundSlots(s, inp);
    hide Round, Count;
    assert Round(s, inp).client[i].sock in Sockets(Round(s, inp));
  }

  /** What the imperative round needs of its input. */
  lemma RoundInput(s: Server, inp: Input)
    requires AtLoopHead(s) && Admissible(s, inp)
    ensures inp.accepted >= 0 ==> inp.accepted !in s.open
    ensures Consistent(AfterAccept(s, inp))
  {
    AcceptSlots(s, inp);
  }

  /** The slot that the reap loop is about to destroy is in use, and its socket is open. */
  lemma ReapsOpen(s: Server, i: nat)
    requires Consistent(s) && i < MAX_CLIENT_NUM
    requires ReapLoop(s, i).client[i].bIsActive == -1
    ensures ReapLoop(s, i).client[i].sock in ReapLoop(s, i).open
  {
    ReapLoopSlots(s, i);
    DestroyConsistent(ReapLoop(s, i), i);
  }

  // ---------- whole runs ----------

  function Rounds(s: Server, inputs: seq<Input>): (r: Server)
    requires Sized(s) && forall i :: 0 <= i < |inputs| ==> |inputs[i].outcomes| == MAX_CLIENT_NUM
    ensures Sized(r)
  {
    if inputs == [] then s else Round(Rounds(s, inputs[..|inputs| - 1]), inputs[|inputs| - 1])
  }

  /** The operating system keeps its guarantees in every round. */
  ghost predicate AlwaysAdmissible(s: Server, inputs: seq<Input>)
    requires Sized(s) && forall i :: 0 <= i < |inputs| ==> |inputs[i].outcomes| == MAX_CLIENT_NUM
  {
    forall k :: 0 <= k < |inputs| ==> Admissible(Rounds(s, inputs[..k]), inputs[k])
  }

  /** The server after start-up with a listening socket. */
  function Started(listener: int): Server { Server(listener, 0, [CLEARED, CLEARED, CLEARED, CLEARED], {listener}) }

  /** After any number of rounds the table is consistent and nothing waits to be reaped: the open
      descriptors are those of the table and the listener, so none leaks. */
  lemma {:induction false} RunConsistent(listener: int, inputs: seq<Input>)
    requires listener > 0
    requires forall i :: 0 <= i < |inputs| ==> |inputs[i].outcomes| == MAX_CLIENT_NUM
    requires AlwaysAdmissible(Started(listener), inputs)
    ensures AtLoopHead(Rounds(Started(listener), inputs))
  {
    var s := Started(listener);
    if inputs == [] {
      assert Sockets(s) == {};
    } else {
      var before, last := inputs[..|inputs| - 1], inputs[|inputs| - 1];
      forall k | 0 <= k < |before| ensures Admissible(Rounds(s, before[..k]), before[k]) {
        assert before[..k] == inputs[..k];
      }
      RunConsistent(listener, before);
      hide AtLoopHead;
      RoundSlots(Rounds(s, before), last);
    }
  }

  /** With at most slot `k` to serve, the read loop is one read; `k` may be MAX_CLIENT_NUM for none. */
  lemma {:induction false} ReadLoopOnly(s: Server, inp: Input, k: nat, n: nat)
    requires Sized(s) && |inp.outcomes| == MAX_CLIENT_NUM && k <= MAX_CLIENT_NUM && n <= MAX_CLIENT_NUM
    requires forall i :: 0 <= i < MAX_CLIENT_NUM ==>
               (s.client[i].bUse != 0 && s.client[i].sock in inp.ready <==> i == k)
    ensures ReadLoop(s, inp, n) == if k < n then Read(s, k, inp.outcomes[k]) else s
  {
    if n > 0 {
      ReadLoopOnly(s, inp, k, n - 1);
    }
  }

  /** With at most slot `k` marked, the reap loop is one reaping. */
  lemma {:induction false} ReapLoopOnly(s: Server, k: nat, n: nat)
    requires Sized(s) && k <= MAX_CLIENT_NUM && n <= MAX_CLIENT_NUM
    requires forall i :: 0 <= i < MAX_CLIENT_NUM ==> (s.client[i].bIsActive == -1 <==> i == k)
    ensures ReapLoop(s, n) == if k < n then Destroy(s, k) else s
  {
    if n > 0 {
      ReapLoopOnly(s, k, n - 1);
    }
  }

  /** A round in which only the listener is ready is the accept. */
  lemma AcceptRound(s: Server, fd: int, session: int, outcomes: seq<Outcome>)
    requires AtLoopHead(s) && |outcomes| == MAX_CLIENT_NUM
    ensures Round(s, Input({s.mySocket}, fd, session, outcomes)) == Accept(s, fd, session) || fd == s.mySocket
  {
    var inp, s1 := Input({s.mySocket}, fd, session, outcomes), Accept(s, fd, session);
    if fd != s.mySocket {
      assert s.mySocket in inp.ready;
      assert forall i :: 0 <= i < MAX_CLIENT_NUM ==>
        !(s1.client[i].bUse != 0 && s1.client[i].sock in inp.ready) && s1.client[i].bIsActive != -1;
      hide Count, Sockets, Accept;
      ReadLoopOnly(s1, inp, MAX_CLIENT_NUM, MAX_CLIENT_NUM);
      ReapLoopOnly(s1, MAX_CLIENT_NUM, MAX_CLIENT_NUM);
    }
  }

  /** A round in which only the connection in slot `k` is ready, and fails. */
  lemma FailRound(s: Server, k: nat, inp: Input)
    requires Sized(s) && k < MAX_CLIENT_NUM && |inp.outcomes| == MAX_CLIENT_NUM && Fails(inp.outcomes[k])
    requires s.client[k].bUse != 0 && inp.ready == {s.client[k].sock} && s.mySocket !in inp.ready
    requires forall i :: 0 <= i < MAX_CLIENT_NUM && i != k && s.client[i].bUse != 0 ==>
               s.client[i].sock != s.client[k].sock
    requires forall i :: 0 <= i < MAX_CLIENT_NUM ==> s.client[i].bIsActive != -1
    ensures Round(s, inp) == Destroy(Read(s, k, inp.outcomes[k]), k)
  {
    assert s.client[k].sock in inp.ready;
    ReadLoopOnly(s, inp, k, MAX_CLIENT_NUM);
    ReapLoopOnly(Read(s, k, inp.outcomes[k]), k, MAX_CLIENT_NUM);
  }

  lemma TwoRounds(s: Server, first: Input, second: Input)
    requires Sized(s) && |first.outcomes| == MAX_CLIENT_NUM && |second.outcomes| == MAX_CLIENT_NUM
    ensures Rounds(s, [first, second]) == Round(Round(s, first), second)
  {
    assert [first, second][..1] == [first] && [first][..0] == [];
    assert Rounds(s, [first]) == Round(s, first);
    hide Round;
  }

  /** A fresh descriptor is in the accepting slot only. */
  lemma FreshIsAlone(s: Server, fd: int, session: int)
    requires Consistent(s) && fd >= 0 && fd !in s.open && FirstFree(s.client, 0) < MAX_CLIENT_NUM
    ensures var s1, k := Accept(s, fd, session), FirstFree(s.client, 0);
            && fd != s.mySocket && s1.mySocket == s.mySocket
            && s1.client == s.client[k := ClientSession(fd, 1, 1, session)]
            && forall i :: 0 <= i < MAX_CLIENT_NUM && i != k && s1.client[i].bUse != 0 ==> s1.client[i].sock != fd
  {
    var s1, k := Accept(s, fd, session), FirstFree(s.client, 0);
    hide Count;
    forall i | 0 <= i < MAX_CLIENT_NUM && i != k && s1.client[i].bUse != 0 ensures s1.client[i].sock != fd {
      assert s.client[i].sock in Sockets(s);
    }
  }

  /** Two rounds of the server: a connection is accepted, and in the next round it fails. All is as
      before exactly when its descriptor is not 0; a session on descriptor 0 leaks it. */
  lemma DescriptorZeroLeaks(s: Server, fd: int, session: int, outcomes: seq<Outcome>, failing: Input)
    requires AtLoopHead(s) && FirstFree(s.client, 0) < MAX_CLIENT_NUM && fd >= 0 && fd !in s.open
    requires |outcomes| == MAX_CLIENT_NUM && |failing.outcomes| == MAX_CLIENT_NUM
    requires failing.ready == {fd} && Fails(failing.outcomes[FirstFree(s.client, 0)])
    ensures var run := [Input({s.mySocket}, fd, session, outcomes), failing];
            && (Rounds(s, run) == s <==> fd != 0)
            && (fd == 0 ==> Rounds(s, run) == s.(open := s.open + {0}))
  {
    var k := FirstFree(s.client, 0);
    var s1 := Accept(s, fd, session);
    FreshIsAlone(s, fd, session);
    assert forall i :: 0 <= i < MAX_CLIENT_NUM ==> s1.client[i].bIsActive != -1;
    assert Consistent(s);
    hide AtLoopHead, Consistent, Round, Rounds, Count, Accept, Read, Destroy, FirstFree;
    TwoRounds(s, Input({s.mySocket}, fd, session, outcomes), failing);
    assert Round(s, Input({s.mySocket}, fd, session, outcomes)) == s1 by {
      AcceptRound(s, fd, session, outcomes);
    }
    FailRound(s1, k, failing);
    ReapUndoesAcceptIff(s, fd, session, failing.outcomes[k]);
  }

  /** A connection that is accepted while there is room survives its first round; one accepted when
      the table is full is closed at once and changes nothing. */
  lemma AcceptedConnection(s: Server, inp: Input)
    requires AtLoopHead(s) && Admissible(s, inp)
    requires s.mySocket in inp.ready && inp.accepted > 0
    ensures inp.accepted in Round(s, inp).open <==> s.clientNum < MAX_CLIENT_NUM
    ensures s.clientNum < MAX_CLIENT_NUM ==>
              exists i :: 0 <= i < MAX_CLIENT_NUM
                && Round(s, inp).client[i] == ClientSession(inp.accepted, 1, 1, inp.session)
  {
    var r, k := Round(s, inp), FirstFree(s.client, 0);
    RoundSlots(s, inp);
    CountBound(s);
    hide Count, Round, FirstFree;
    if k < MAX_CLIENT_NUM {
      assert r.client[k].sock in Sockets(r);
    } else {
      forall i | 0 <= i < MAX_CLIENT_NUM && r.client[i].bUse != 0 ensures r.client[i].sock != inp.accepted {
        assert s.client[i].sock in Sockets(s);
      }
      assert inp.accepted !in Sockets(r);
    }
  }

  // ---------- the C++ functions ----------

  class MyServer {
    var mySocket: int
    var clientNum: int
    const client: array<ClientSession>
    ghost var open: set<int>

    /** main up to the loop, with the listening socket in place. */
    constructor (listener: int)
      ensures Valid() && View() == Started(listener) && fresh(client)
    {
      mySocket, clientNum := listener, 0;
      client := new ClientSession[MAX_CLIENT_NUM](_ => CLEARED);
      open := {listener};
    }

    ghost predicate Valid() { client.Length == MAX_CLIENT_NUM }

    ghost function View(): (s: Server)
      requires Valid()
      reads this, client
      ensures Sized(s)
    {
      Server(mySocket, clientNum, client[..], open)
    }

    /** comm_socket_close; a descriptor that is not open must not be closed. */
    method CommSocketClose(fd: int)
      requires fd >= 0 ==> fd in open
      modifies this`open
      ensures open == if fd < 0 then old(open) else old(open) - {fd}
    {
      if fd < 0 {
        return;
      }
      open := open - {fd};
    }

    method IncomingConnectionHandler(clientSocket: int, session: int)
      requires Valid() && (clientSocket >= 0 ==> clientSocket !in open)
      modifies this, client
      ensures Valid() && View() == Accept(old(View()), clientSocket, session)
    {
      if clientSocket < 0 {
        return;
      }
      ghost var before := View();
      open := open + {clientSocket};
      var i := 0;
      while i < MAX_CLIENT_NUM && client[i].bUse != 0
        invariant 0 <= i <= MAX_CLIENT_NUM
        invariant FirstFree(client[..], 0) == FirstFree(client[..], i)
      {
        i := i + 1;
      }
      assert i == FirstFree(before.client, 0);
      if i >= MAX_CLIENT_NUM {
        CommSocketClose(clientSocket);
        assert open == before.open;
        return;
      }
      client[i] := CLEARED;
      clientNum := clientNum + 1;
      client[i] := client[i].(sock := clientSocket);
      client[i] := client[i].(session := session);
      client[i] := client[i].(bUse := 1);
      client[i] := client[i].(bIsActive := 1);
    }

    method IncomingConnectionHandlerClient(i: nat, o: Outcome)
      requires Valid() && i < MAX_CLIENT_NUM
      modifies client
      ensures View() == Read(old(View()), i, o)
      ensures client[i].bIsActive
           == if o.bytesRead == 0
                 || (o.bytesRead == -1 && o.recvErrno == Other)
                 || (o.bytesRead > 0 && o.written <= 0 && o.writeErrno == Other) then -1
              else old(client[i]).bIsActive
      ensures client[..] == old(client[..])[i := old(client[i]).(bIsActive := client[i].bIsActive)]
    {
      if o.bytesRead <= 0 {
        if o.bytesRead == -1 && o.recvErrno != EINTR && o.recvErrno != EAGAIN {
          client[i] := client[i].(bIsActive := -1);
        } else if o.bytesRead == 0 {
          client[i] := client[i].(bIsActive := -1);
        }
        return;
      }
      if o.written <= 0 && o.writeErrno != EINTR && o.writeErrno != EAGAIN {
        client[i] := client[i].(bIsActive := -1);
      }
    }

    method DestroyClientSession(i: nat)
      requires Valid() && i < MAX_CLIENT_NUM
      requires client[i].bUse != 0 && client[i].sock > 0 ==> client[i].sock in open
      modifies this, client
      ensures Valid() && View() == Destroy(old(View()), i)
    {
      if client[i].bUse == 0 {
        return;
      }
      if client[i].sock > 0 {
        CommSocketClose(client[i].sock);
      }
      client[i] := CLEARED;
      clientNum := clientNum - 1;
      if clientNum < 0 {
        clientNum := 0;
      }
    }

    /** The loop over the sessions to be read. */
    method ReadClients(inp: Input)
      requires Valid() && |inp.outcomes| == MAX_CLIENT_NUM
      modifies client
      ensures View() == ReadLoop(old(View()), inp, MAX_CLIENT_NUM)
    {
      ghost var before := View();
      var i := 0;
      while i < MAX_CLIENT_NUM
        invariant 0 <= i <= MAX_CLIENT_NUM
        invariant View() == ReadLoop(before, inp, i)
      {
        if client[i].bUse != 0 {
          if client[i].sock in inp.ready {
            IncomingConnectionHandlerClient(i, inp.outcomes[i]);
          }
        }
        i := i + 1;
      }
    }

    /** The loop over the sessions to be reaped; every descriptor it closes is open at that moment. */
    method ReapClients()
      requires Valid() && Consistent(View())
      modifies this, client
      ensures Valid() && View() == ReapLoop(old(View()), MAX_CLIENT_NUM)
    {
      ghost var before := View();
      hide Consistent;
      var i := 0;
      while i < MAX_CLIENT_NUM
        invariant 0 <= i <= MAX_CLIENT_NUM && Valid()
        invariant View() == ReapLoop(before, i)
      {
        if client[i].bIsActive == -1 {
          ReapsOpen(before, i);
          DestroyClientSession(i);
        }
        i := i + 1;
      }
    }

    /** The body of the while loop in main. */
    method SelectRound(inp: Input)
      requires Valid() && AtLoopHead(View()) && Admissible(View(), inp)
      modifies this, client
      ensures Valid() && View() == Round(old(View()), inp) && AtLoopHead(View())
    {
      ghost var s := View();
      RoundSlots(s, inp);
      RoundInput(s, inp);
      hide AtLoopHead, Consistent;
      if inp.ready != {} {
        if mySocket in inp.ready {
          IncomingConnectionHandler(inp.accepted, inp.session);
        }
        ReadLoopConsistent(View(), inp, MAX_CLIENT_NUM);
        ReadClients(inp);
        ReapClients();
      }
    }

    /** The while loop of main, for the rounds that the outside world decides. */
    method Serve(inputs: seq<Input>)
      requires Valid() && mySocket > 0 && View() == Started(mySocket)
      requires forall i :: 0 <= i < |inputs| ==> |inputs[i].outcomes| == MAX_CLIENT_NUM
      requires AlwaysAdmissible(View(), inputs)
      modifies this, client
      ensures Valid() && View() == Rounds(old(View()), inputs) && AtLoopHead(View())
    {
      ghost var start := View();
      RunConsistent(mySocket, []);
      for n := 0 to |inputs|
        invariant Valid() && AtLoopHead(View())
        invariant View() == Rounds(start, inputs[..n])
      {
        assert inputs[..n + 1][..n] == inputs[..n];
        SelectRound(inputs[n]);
      }
      assert inputs[..|inputs|] == inputs;
    }
  }
}
