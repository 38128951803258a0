/** The reconnect supervisor (start_streaming and on_close in producer.py).

    The script asks the token endpoint for a connection token; a missing or
    empty token means a fixed wait of 30 seconds and a fresh request; a token
    opens the websocket, and when that connection closes the script waits a
    fixed 10 seconds and starts over with a fresh token request. The source
    drives this by self-recursion; here it is a class whose step methods record
    every wait and every connection, and a loop over successive token results.

    The token request, the socket and the clock are external: a token result is
    an input, a close is a method call, and a sleep is a recorded `Wait`. */
module Reconnect {
  import opened Wrappers

  /** Seconds waited after a failed token request. */
  const TOKEN_RETRY_DELAY: nat := 30
  /** Seconds waited after the connection closes. */
  const RECONNECT_DELAY: nat := 10

  /** What the supervisor does: sleep, or open a connection with a token. */
  datatype Action = Wait(seconds: nat) | Connect(url: string)

  /** Either about to request a token, or running a connection. */
  datatype Phase = Authenticating | Streaming(url: string)

  /** The actions one token result leads to when its connection, if any, runs
      until it closes. */
  function Attempt(token: Option<string>): seq<Action> {
    if Truthy(token) then [Connect(token.value), Wait(RECONNECT_DELAY)] else [Wait(TOKEN_RETRY_DELAY)]
  }

  /** The actions a run of successive token results leads to. */
  function Trace(tokens: seq<Option<string>>): seq<Action> {
    if tokens == [] then [] else Attempt(tokens[0]) + Trace(tokens[1..])
  }

  /** A sequence of `n` copies of `x`. */
  function Repeat<T>(x: T, n: nat): (r: seq<T>)
    ensures |r| == n && forall i :: 0 <= i < n ==> r[i] == x
  {
    if n == 0 then [] else [x] + Repeat(x, n - 1)
  }

  /** The trace of consecutive runs is the concatenation of their traces: what
      happens after a token result never depends on how many attempts came
      before, so delays never grow. */
  lemma {:induction false} TraceAppend(a: seq<Option<string>>, b: seq<Option<string>>)
    ensures Trace(a + b) == Trace(a) + Trace(b)
  {
    if a == [] {
      assert a + b == b;
    } else {
      assert (a + b)[0] == a[0];
      assert (a + b)[1..] == a[1..] + b;
      TraceAppend(a[1..], b);
    }
  }

  /** One more token result adds exactly its own actions. */
  lemma TraceSnoc(tokens: seq<Option<string>>, token: Option<string>)
    ensures Trace(tokens + [token]) == Trace(tokens) + Attempt(token)
  {
    TraceAppend(tokens, [token]);
    assert [token][1..] == [];
  }

  /** Every wait is fixed by its cause alone: 10 seconds right after a
      connection (its close), 30 seconds otherwise (a failed token request);
      every connection is followed by its 10-second wait. */
  lemma {:induction false} WaitsAreFixed(tokens: seq<Option<string>>)
    ensures forall i :: 0 <= i < |Trace(tokens)| && Trace(tokens)[i].Wait? ==>
              Trace(tokens)[i].seconds == if i > 0 && Trace(tokens)[i - 1].Connect? then RECONNECT_DELAY else TOKEN_RETRY_DELAY
    ensures forall i :: 0 <= i < |Trace(tokens)| && Trace(tokens)[i].Connect? ==>
              i + 1 < |Trace(tokens)| && Trace(tokens)[i + 1] == Wait(RECONNECT_DELAY)
  {
    if tokens != [] {
      WaitsAreFixed(tokens[1..]);
      var head := Attempt(tokens[0]);
      var t := Trace(tokens);
      var rest := Trace(tokens[1..]);
      assert t == head + rest;
      forall i | |head| <= i < |t|
        ensures t[i] == rest[i - |head|]
      {
      }
      assert |head| < |t| ==> !t[|head| - 1].Connect?;
    }
  }

  /** Failed token requests (no token, or an empty one) followed by a good
      token give exactly one 30-second wait per failure, then the connection,
      then (once it closes) one 10-second wait. */
  lemma {:induction false} FailuresThenSuccess(fails: seq<Option<string>>, url: string)
    requires forall i :: 0 <= i < |fails| ==> !Truthy(fails[i])
    requires url != ""
    ensures Trace(fails + [Some(url)])
         == Repeat(Wait(TOKEN_RETRY_DELAY), |fails|) + [Connect(url), Wait(RECONNECT_DELAY)]
  {
    var tokens := fails + [Some(url)];
    if fails != [] {
      assert tokens[0] == fails[0];
      assert tokens[1..] == fails[1..] + [Some(url)];
      FailuresThenSuccess(fails[1..], url);
      assert Repeat(Wait(TOKEN_RETRY_DELAY), |fails|)
          == [Wait(TOKEN_RETRY_DELAY)] + Repeat(Wait(TOKEN_RETRY_DELAY), |fails| - 1);
    } else {
      assert tokens == [Some(url)];
    }
  }

  /** n connections in a row that each close give n connections, each with
      its own token and each followed by a wait, all of the same 10 seconds. */
  lemma {:induction false} ClosesGiveEqualWaits(tokens: seq<Option<string>>)
    requires forall i :: 0 <= i < |tokens| ==> Truthy(tokens[i])
    ensures |Trace(tokens)| == 2 * |tokens|
    ensures forall i :: 0 <= i < |tokens| ==>
              Truthy(tokens[i]) && Trace(tokens)[2 * i] == Connect(tokens[i].value) && Trace(tokens)[2 * i + 1] == Wait(RECONNECT_DELAY)
  {
    if tokens != [] {
      ClosesGiveEqualWaits(tokens[1..]);
      var t := Trace(tokens);
      var rest := Trace(tokens[1..]);
      assert t == Attempt(tokens[0]) + rest;
      forall i | 1 <= i < |tokens|
        ensures t[2 * i] == Connect(tokens[i].value) && t[2 * i + 1] == Wait(RECONNECT_DELAY)
      {
        assert tokens[1..][i - 1] == tokens[i];
        assert t[2 * i] == rest[2 * (i - 1)];
        assert t[2 * i + 1] == rest[2 * (i - 1) + 1];
      }
    }
  }

  /** The supervisor: its phase and the record of everything it has done.
      `requests` holds every token result received so far. */
  class Supervisor {
    var phase: Phase
    var log: seq<Action>
    ghost var requests: seq<Option<string>>

    /** The log is the trace of the token results so far; while a connection
        runs, its close and the wait after it are still to come. */
    ghost predicate Valid()
      reads this
    {
      match phase
      case Authenticating => log == Trace(requests)
      case Streaming(url) =>
        && |requests| > 0
        && requests[|requests| - 1] == Some(url) && url != ""
        && log == Trace(requests[..|requests| - 1]) + [Connect(url)]
    }

    /** The supervisor starts by requesting a token, having done nothing. */
    constructor ()
      ensures Valid() && phase == Authenticating && log == [] && requests == []
    {
      phase := Authenticating;
      log := [];
      requests := [];
    }

    /** A token request returned `token`: a missing or empty token leads to a
        30-second wait and another request; a token opens a connection. */
    method TokenResult(token: Option<string>)
      requires Valid() && phase == Authenticating
      modifies this
      ensures Valid()
      ensures requests == old(requests) + [token]
      ensures if Truthy(token)
              then phase == Streaming(token.value) && log == old(log) + [Connect(token.value)]
              else phase == Authenticating && log == old(log) + [Wait(TOKEN_RETRY_DELAY)]
    {
      TraceSnoc(requests, token);
      requests := requests + [token];
      if !Truthy(token) {
        log := log + [Wait(TOKEN_RETRY_DELAY)];
        phase := Authenticating;
      } else {
        log := log + [Connect(token.value)];
        phase := Streaming(token.value);
        assert requests[..|requests| - 1] == old(requests);
      }
    }

    /** The running connection closed: a 10-second wait, then back to
        requesting a fresh token. */
    method ConnectionClosed()
      requires Valid() && phase.Streaming?
      modifies this
      ensures Valid()
      ensures requests == old(requests)
      ensures phase == Authenticating && log == old(log) + [Wait(RECONNECT_DELAY)]
    {
      var url := phase.url;
      ghost var before := requests[..|requests| - 1];
      assert requests == before + [Some(url)];
      TraceSnoc(before, Some(url));
      log := log + [Wait(RECONNECT_DELAY)];
      phase := Authenticating;
    }

    /** One round of start_streaming: a token request and, when it gives a
        token, the connection it opens running until it closes. */
    method Round(token: Option<string>)
      requires Valid() && phase == Authenticating
      modifies this
      ensures Valid() && phase == Authenticating
      ensures requests == old(requests) + [token]
      ensures log == old(log) + Attempt(token)
    {
      TokenResult(token);
      if phase.Streaming? {
        ConnectionClosed();
      }
    }

    /** Successive rounds of start_streaming, one per token result. The
        model has no retry bound and no state that stops the retrying; the
        source's recursion depth, which does bound it, is not modelled. */
    method Run(tokens: seq<Option<string>>)
      requires Valid() && phase == Authenticating
      modifies this
      ensures Valid() && phase == Authenticating
      ensures requests == old(requests) + tokens
      ensures log == old(log) + Trace(tokens)
    {
      ghost var log0, requests0 := log, requests;
      var i := 0;
      while i < |tokens|
        invariant 0 <= i <= |tokens|
        invariant Valid() && phase == Authenticating
        invariant requests == requests0 + tokens[..i]
        invariant log == log0 + Trace(tokens[..i])
      {
        TraceSnoc(tokens[..i], tokens[i]);
        assert tokens[..i + 1] == tokens[..i] + [tokens[i]];
        Round(tokens[i]);
        i := i + 1;
      }
      assert tokens[..i] == tokens;
    }
  }
}
