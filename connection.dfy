/**
  The connect / retry policy of the asynchronous test client, as a state
  machine driven by the completions the event loop delivers one at a time:
  the connect attempt fails, the connect attempt succeeds, or the deadline
  timer expires.  The client's recursive `connect()` becomes a transition that
  starts the next attempt.
 */
module Connection {
  import opened Wrappers

  /**
    What the connect logic knows.  `hasConnected`, `reconnectCount` and
    `connectTimeout` are the client's own fields; the others stand for the
    outstanding asynchronous operations and the socket.
   */
  datatype Conn = Conn(
    hasConnected: bool,     // has_connected_
    reconnectCount: int,    // reconnect_cnt_: 0 gives up, > 0 counts down, < 0 retries forever
    connectTimeout: nat,    // connect_timeout_, in seconds
    connecting: bool,       // an async_connect is waiting for its completion
    deadline: Option<nat>,  // the deadline timer's pending wait, armed for that many seconds
    socketOpen: bool,       // false once the deadline has closed the socket
    attempts: nat)          // async_connect calls issued so far

  /** Completions delivered by the event loop. */
  datatype Event = ConnectFailed | ConnectSucceeded | DeadlineExpired

  /** The state of a freshly constructed client: timeout 1 second, unbounded retries. */
  function Initial(): (s: Conn)
    ensures !s.hasConnected && !s.connecting && s.deadline.None? && s.attempts == 0
    ensures s.connectTimeout == 1 && s.reconnectCount == -1
  {
    Conn(false, -1, 1, false, None, true, 0)
  }

  /**
    One call of `connect()`: the deadline is armed for the configured timeout
    and an asynchronous connect is issued (which opens the socket if the
    deadline had closed it).
   */
  function Attempt(s: Conn): Conn
  {
    s.(connecting := true, deadline := Some(s.connectTimeout), socketOpen := true,
       attempts := s.attempts + 1)
  }

  /**
    Which completions can arrive.  A connect completes only while one is
    outstanding, and it cannot succeed on a socket the deadline has closed;
    the deadline expires only while a wait is pending.
   */
  predicate Enabled(s: Conn, e: Event)
  {
    match e
    case ConnectFailed => s.connecting
    case ConnectSucceeded => s.connecting && s.socketOpen
    case DeadlineExpired => s.deadline.Some?
  }

  /** The retry counter after a failed attempt, or None when the client gives up. */
  function NextCount(count: int): (r: Option<int>)
  {
    if count == 0 then None
    else if count > 0 then Some(count - 1)
    else Some(count)
  }

  /**
    The handler of each completion.  A failure clears `hasConnected`, then
    gives up, or replaces the socket and connects again with the counter as
    `NextCount` gives it.  A success sets `hasConnected` and cancels the
    deadline.  An expired deadline closes the socket.
   */
  function Step(s: Conn, e: Event): Conn
    requires Enabled(s, e)
  {
    match e
    case ConnectFailed =>
      var failed := s.(hasConnected := false, connecting := false);
      (match NextCount(s.reconnectCount)
       case None => failed
       case Some(count) => Attempt(failed.(reconnectCount := count, socketOpen := true)))
    case ConnectSucceeded =>
      s.(hasConnected := true, connecting := false, deadline := None)
    case DeadlineExpired =>
      s.(deadline := None, socketOpen := false)
  }

  /** The state after delivering `es` in order, or None if one of them cannot arrive. */
  function Run(s: Conn, es: seq<Event>): Option<Conn>
    decreases |es|
  {
    if es == [] then Some(s)
    else if !Enabled(s, es[0]) then None
    else Run(Step(s, es[0]), es[1..])
  }

  /** `k` failed attempts in a row. */
  function Failures(k: nat): (es: seq<Event>)
    ensures |es| == k && forall i :: 0 <= i < k ==> es[i] == ConnectFailed
  {
    if k == 0 then [] else [ConnectFailed] + Failures(k - 1)
  }

  // ---------------------------------------------------------------------------
  // Single steps

  /**
    A failed attempt leaves the client disconnected and either gives up for
    good (counter 0) or issues exactly one new attempt with a fresh deadline;
    a positive counter loses exactly one, a negative one is kept.
   */
  lemma FailureRetriesOrGivesUp(s: Conn)
    requires Enabled(s, ConnectFailed)
    ensures var t := Step(s, ConnectFailed);
      && !t.hasConnected
      && (s.reconnectCount == 0 <==> !t.connecting)
      && (s.reconnectCount == 0 ==> t.attempts == s.attempts && t.reconnectCount == 0)
      && (s.reconnectCount > 0 ==> t.reconnectCount == s.reconnectCount - 1)
      && (s.reconnectCount < 0 ==> t.reconnectCount == s.reconnectCount)
      && (s.reconnectCount != 0 ==>
            t.attempts == s.attempts + 1 && t.deadline == Some(s.connectTimeout) && t.socketOpen)
  {
  }

  /**
    After a success the client is connected, the deadline is cancelled and no
    completion can arrive any more: no further attempt is made.
   */
  lemma SuccessIsQuiescent(s: Conn, e: Event)
    requires Enabled(s, ConnectSucceeded)
    ensures Step(s, ConnectSucceeded).hasConnected
    ensures !Enabled(Step(s, ConnectSucceeded), e)
  {
  }

  /**
    An attempt that is still outstanding when the deadline expires can no
    longer succeed: it completes as a failure and the retry policy applies.
   */
  lemma DeadlineFailsPendingAttempt(s: Conn)
    requires s.connecting && Enabled(s, DeadlineExpired)
    ensures var t := Step(s, DeadlineExpired);
      !Enabled(t, ConnectSucceeded) && Enabled(t, ConnectFailed)
      && t.attempts == s.attempts && t.reconnectCount == s.reconnectCount
  {
  }

  // ---------------------------------------------------------------------------
  // Runs of failures

  /** While the counter lasts, each failure costs one unit of it and buys one attempt. */
  lemma {:induction false} BoundedFailures(s: Conn, k: nat)
    requires s.connecting && 0 <= k <= s.reconnectCount
    ensures Run(s, Failures(k)).Some?
    ensures var t := Run(s, Failures(k)).value;
      t.connecting && t.reconnectCount == s.reconnectCount - k && t.attempts == s.attempts + k
      && t.connectTimeout == s.connectTimeout && (k > 0 ==> !t.hasConnected)
      && (k > 0 || s.deadline == Some(s.connectTimeout) ==> t.deadline == Some(s.connectTimeout))
    decreases k
  {
    if k > 0 {
      var t := Step(s, ConnectFailed);
      assert Failures(k)[1..] == Failures(k - 1);
      BoundedFailures(t, k - 1);
    }
  }

  /**
    Retry bound: with the counter at N >= 0 when an attempt is outstanding and
    every attempt failing, exactly N + 1 attempts complete before the client
    gives up for good (counted from that attempt on): after N failures it is
    still connecting, after N + 1 no completion can arrive but a deadline.
    Giving up does not cancel the deadline: when the outstanding attempt had
    armed it, the last attempt's wait is still pending.
   */
  lemma RetryBound(s: Conn)
    requires s.connecting && s.reconnectCount >= 0
    ensures var n := s.reconnectCount;
      && Run(s, Failures(n)).Some? && Run(s, Failures(n)).value.connecting
      && Run(s, Failures(n + 1)).Some?
      && var t := Run(s, Failures(n + 1)).value;
         && !t.connecting && !t.hasConnected && t.reconnectCount == 0
         && t.attempts == s.attempts + n && t.connectTimeout == s.connectTimeout
         && !Enabled(t, ConnectFailed) && !Enabled(t, ConnectSucceeded)
         && (s.deadline == Some(s.connectTimeout) ==>
               t.deadline == Some(s.connectTimeout) && Enabled(t, DeadlineExpired))
  {
    var n := s.reconnectCount;
    BoundedFailures(s, n);
    var u := Run(s, Failures(n)).value;
    RunAppend(s, Failures(n), [ConnectFailed]);
    assert Failures(n) + [ConnectFailed] == Failures(n + 1);
    assert Run(u, [ConnectFailed]) == Some(Step(u, ConnectFailed));
  }

  /**
    From `set_reconnect_count(N)` and `connect()` on a new client, N + 1
    attempts in all; the client then gives up with the last deadline wait
    still armed, so only its expiry can still arrive.
   */
  lemma FreshClientAttempts(n: nat)
    ensures var t := Run(Attempt(Initial().(reconnectCount := n)), Failures(n + 1));
      && t.Some? && t.value.attempts == n + 1 && !t.value.connecting && !t.value.hasConnected
      && t.value.deadline == Some(t.value.connectTimeout) && t.value.connectTimeout == 1
      && forall e :: Enabled(t.value, e) <==> e == DeadlineExpired
  {
    RetryBound(Attempt(Initial().(reconnectCount := n)));
  }

  /** With a negative counter the client never gives up: after any number of failures it is connecting again. */
  lemma {:induction false} UnboundedRetry(s: Conn, k: nat)
    requires s.connecting && s.reconnectCount < 0
    ensures Run(s, Failures(k)).Some?
    ensures var t := Run(s, Failures(k)).value;
      t.connecting && t.reconnectCount == s.reconnectCount && t.attempts == s.attempts + k
    decreases k
  {
    if k > 0 {
      assert Failures(k)[1..] == Failures(k - 1);
      UnboundedRetry(Step(s, ConnectFailed), k - 1);
    }
  }

  /**
    Attempts never outrun the counter, whatever the interleaving of failures
    and expired deadlines: with a counter N >= 0, attempts + counter never
    grows, so at most N more attempts start.
   */
  lemma {:induction false} AttemptBudget(s: Conn, es: seq<Event>)
    requires s.reconnectCount >= 0
    requires forall i :: 0 <= i < |es| ==> es[i] != ConnectSucceeded
    requires Run(s, es).Some?
    ensures var t := Run(s, es).value;
      t.reconnectCount >= 0 && t.attempts + t.reconnectCount == s.attempts + s.reconnectCount
    decreases |es|
  {
    if es != [] {
      AttemptBudget(Step(s, es[0]), es[1..]);
    }
  }

  lemma {:induction false} RunAppend(s: Conn, es: seq<Event>, more: seq<Event>)
    requires Run(s, es).Some?
    ensures Run(s, es + more) == Run(Run(s, es).value, more)
    decreases |es|
  {
    if es != [] {
      assert (es + more)[0] == es[0] && (es + more)[1..] == es[1..] + more;
      RunAppend(Step(s, es[0]), es[1..], more);
    } else {
      assert es + more == more;
    }
  }
}
