/**
 * What the login sequence promises, proved about Login (and so, through
 * TelnetLogin's postcondition, about the method): the shape of the output
 * as a protocol automaton, the attempt bound, the outcome, echo pairing and
 * the verifier calls.
 */
module LoginProperties {
  import opened Wrappers
  import opened CLib
  import Tokenizer
  import opened LoginGate

  /** How many times `e` occurs in `t`. */
  function Count(t: seq<Event>, e: Event): (c: nat)
    ensures c <= |t|
    ensures c == 0 <==> e !in t
  {
    if t == [] then 0 else (if t[0] == e then 1 else 0) + Count(t[1..], e)
  }

  lemma {:induction false} CountAppend(a: seq<Event>, b: seq<Event>, e: Event)
    ensures Count(a + b, e) == Count(a, e) + Count(b, e)
  {
    if a != [] {
      assert (a + b)[0] == a[0] && (a + b)[1..] == a[1..] + b;
      CountAppend(a[1..], b, e);
    } else {
      assert a + b == b;
    }
  }

  /**
   * Where the output stands. Echo is suppressed in Suppressed, Rejected,
   * Delayed and Accepted; LoggedIn and Refused are the two ends.
   */
  datatype Phase =
    | Start | Idle | UserAsked | PassAsked | Suppressed | Rejected | Delayed | Accepted
    | LoggedIn | Refused

  /**
   * The login protocol: greeting first; each attempt is UserPrompt,
   * PassPrompt, EchoOff, then either EchoOn straight away (the password read
   * failed), or Success and EchoOn (which ends the session), or BadCred, Delay
   * exactly when a delay is configured, and EchoOn; Failure may come only
   * between attempts, and ends the session.
   */
  function Step(p: Phase, e: Event, delay: nat): Option<Phase> {
    match p
    case Start => if e == Greeting then Some(Idle) else None
    case Idle =>
      if e == UserPrompt then Some(UserAsked)
      else if e == Failure then Some(Refused)
      else None
    case UserAsked => if e == PassPrompt then Some(PassAsked) else None
    case PassAsked => if e == EchoOff then Some(Suppressed) else None
    case Suppressed =>
      if e == EchoOn then Some(Idle)
      else if e == BadCred then Some(Rejected)
      else if e == Success then Some(Accepted)
      else None
    case Rejected =>
      if delay > 0 then (if e == Delay then Some(Delayed) else None)
      else (if e == EchoOn then Some(Idle) else None)
    case Delayed => if e == EchoOn then Some(Idle) else None
    case Accepted => if e == EchoOn then Some(LoggedIn) else None
    case LoggedIn => None
    case Refused => None
  }

  /** The phase after the events `t`, or None when `t` breaks the protocol. */
  function Walk(p: Phase, t: seq<Event>, delay: nat): Option<Phase>
    decreases |t|
  {
    if t == [] then Some(p)
    else match Step(p, t[0], delay)
      case None => None
      case Some(q) => Walk(q, t[1..], delay)
  }

  lemma {:induction false} WalkAppend(p: Phase, a: seq<Event>, b: seq<Event>, delay: nat, q: Phase)
    requires Walk(p, a, delay) == Some(q)
    ensures Walk(p, a + b, delay) == Walk(q, b, delay)
    decreases |a|
  {
    if a != [] {
      assert (a + b)[0] == a[0] && (a + b)[1..] == a[1..] + b;
      WalkAppend(Step(p, a[0], delay).value, a[1..], b, delay, q);
    } else {
      assert a + b == b;
    }
  }

  /** A walk of one event is one step. */
  lemma WalkOne(p: Phase, e: Event, delay: nat)
    ensures Walk(p, [e], delay) == Step(p, e, delay)
  {
    assert [e][1..] == [];
  }

  /** 1 while the peer's echo is off, 0 otherwise. */
  function EchoSuppressed(p: Phase): nat {
    if p in {Suppressed, Rejected, Delayed, Accepted} then 1 else 0
  }

  /**
   * Along a walk of the protocol, EchoOff and EchoOn alternate: their counts
   * differ exactly by the change in whether echo is suppressed.
   */
  lemma {:induction false} WalkEchoBalance(p: Phase, t: seq<Event>, delay: nat, q: Phase)
    requires Walk(p, t, delay) == Some(q)
    ensures Count(t, EchoOff) + EchoSuppressed(p) == Count(t, EchoOn) + EchoSuppressed(q)
    decreases |t|
  {
    if t != [] {
      var p' := Step(p, t[0], delay).value;
      StepEchoBalance(p, t[0], delay, p');
      WalkEchoBalance(p', t[1..], delay, q);
    }
  }

  /** One step of the protocol changes the echo state exactly by its EchoOff or EchoOn. */
  lemma StepEchoBalance(p: Phase, e: Event, delay: nat, q: Phase)
    requires Step(p, e, delay) == Some(q)
    ensures (if e == EchoOff then 1 else 0) + EchoSuppressed(p) == (if e == EchoOn then 1 else 0) + EchoSuppressed(q)
  {
  }

  /** The rest of an attempt, run from echo off, ends in LoggedIn after a match and in Idle otherwise. */
  lemma ClosingWalk(read: bool, matched: bool, delay: nat)
    requires matched ==> read
    ensures Walk(Suppressed, Closing(read, matched, delay), delay) == Some(if matched then LoggedIn else Idle)
  {
    WalkOne(Idle, EchoOn, delay);
    WalkOne(Suppressed, EchoOn, delay);
    WalkOne(Accepted, EchoOn, delay);
    WalkOne(Delayed, EchoOn, delay);
    WalkOne(Rejected, EchoOn, delay);
    WalkOne(Suppressed, Success, delay);
    WalkOne(Suppressed, BadCred, delay);
    WalkOne(Rejected, Delay, delay);
    if !read {
    } else if matched {
      WalkAppend(Suppressed, [Success], [EchoOn], delay, Accepted);
    } else if delay > 0 {
      WalkAppend(Suppressed, [BadCred], [Delay], delay, Rejected);
      WalkAppend(Suppressed, [BadCred, Delay], [EchoOn], delay, Delayed);
    } else {
      WalkAppend(Suppressed, [BadCred], [EchoOn], delay, Rejected);
    }
  }

  /** One attempt, run from Idle, ends in LoggedIn when it matched and in Idle otherwise. */
  lemma AttemptWalk(input: Input, verify: Verifier, delay: nat, i: nat)
    ensures var a := Attempt(input, verify, delay, i);
            Walk(Idle, a.events, delay) == Some(if a.matched then LoggedIn else Idle)
  {
    var read := Read(input, 2 * i + 1).Some?;
    var matched := Matches(input, verify, i);
    WalkOne(Idle, UserPrompt, delay);
    WalkOne(UserAsked, PassPrompt, delay);
    WalkOne(PassAsked, EchoOff, delay);
    WalkAppend(Idle, [UserPrompt], [PassPrompt], delay, UserAsked);
    WalkAppend(Idle, [UserPrompt, PassPrompt], [EchoOff], delay, PassAsked);
    assert Walk(Idle, Opening, delay) == Some(Suppressed);
    WalkAppend(Idle, Opening, Closing(read, matched, delay), delay, Suppressed);
    ClosingWalk(read, matched, delay);
  }

  /** One event in front adds one to its own count and nothing to any other. */
  lemma CountCons(x: Event, t: seq<Event>, e: Event)
    ensures Count([x] + t, e) == (if x == e then 1 else 0) + Count(t, e)
  {
    assert ([x] + t)[0] == x && ([x] + t)[1..] == t;
  }

  /** The opening of every attempt holds one UserPrompt, PassPrompt and EchoOff. */
  lemma OpeningCount(e: Event)
    ensures Count(Opening, e) == (if e == UserPrompt || e == PassPrompt || e == EchoOff then 1 else 0)
  {
    assert Opening == [UserPrompt] + ([PassPrompt] + ([EchoOff] + []));
    CountCons(EchoOff, [], e);
    CountCons(PassPrompt, [EchoOff] + [], e);
    CountCons(UserPrompt, [PassPrompt] + ([EchoOff] + []), e);
  }

  /** The closing of an attempt holds one EchoOn, and what the read and the match decide. */
  lemma ClosingCount(read: bool, matched: bool, delay: nat, e: Event)
    ensures Count(Closing(read, matched, delay), e)
            == (if e == EchoOn then 1 else 0)
               + (if read && matched && e == Success then 1 else 0)
               + (if read && !matched && e == BadCred then 1 else 0)
               + (if read && !matched && delay > 0 && e == Delay then 1 else 0)
  {
    CountCons(EchoOn, [], e);
    if !read {
      assert Closing(read, matched, delay) == [EchoOn] + [];
    } else if matched {
      assert Closing(read, matched, delay) == [Success] + ([EchoOn] + []);
      CountCons(Success, [EchoOn] + [], e);
    } else if delay > 0 {
      assert Closing(read, matched, delay) == [BadCred] + ([Delay] + ([EchoOn] + []));
      CountCons(Delay, [EchoOn] + [], e);
      CountCons(BadCred, [Delay] + ([EchoOn] + []), e);
    } else {
      assert Closing(read, matched, delay) == [BadCred] + ([EchoOn] + []);
      CountCons(BadCred, [EchoOn] + [], e);
    }
  }

  /**
   * Each attempt writes one UserPrompt, PassPrompt, EchoOff and EchoOn;
   * Success once when it matches; BadCred, and Delay when one is configured,
   * once when its password was read and did not match; nothing else.
   */
  lemma AttemptCount(input: Input, verify: Verifier, delay: nat, i: nat, e: Event)
    ensures var read := Read(input, 2 * i + 1).Some?;
            var matched := Matches(input, verify, i);
            Count(Attempt(input, verify, delay, i).events, e)
            == (if e == UserPrompt || e == PassPrompt || e == EchoOff || e == EchoOn then 1 else 0)
               + (if matched && e == Success then 1 else 0)
               + (if read && !matched && e == BadCred then 1 else 0)
               + (if read && !matched && delay > 0 && e == Delay then 1 else 0)
  {
    var read := Read(input, 2 * i + 1).Some?;
    var matched := Matches(input, verify, i);
    CountAppend(Opening, Closing(read, matched, delay), e);
    OpeningCount(e);
    ClosingCount(read, matched, delay, e);
  }

  /** The first matching attempt in [i, n), or n when none of them matches. */
  function FirstMatch(input: Input, verify: Verifier, n: nat, i: nat): (f: nat)
    requires i <= n
    ensures i <= f <= n
    ensures forall j :: i <= j < f ==> !Matches(input, verify, j)
    ensures f < n ==> Matches(input, verify, f)
    decreases n - i
  {
    if i == n || Matches(input, verify, i) then i else FirstMatch(input, verify, n, i + 1)
  }

  /** How many of the attempts in [i, k) read their password successfully. */
  function PasswordReads(input: Input, i: nat, k: nat): (c: nat)
    ensures c <= if i <= k then k - i else 0
    decreases k - i
  {
    if i >= k then 0
    else (if Read(input, 2 * i + 1).Some? then 1 else 0) + PasswordReads(input, i + 1, k)
  }

  /** How many attempts run, counting from `i`: up to the first match, otherwise all of them. */
  function AttemptsFrom(input: Input, verify: Verifier, n: nat, i: nat): nat
    requires i <= n
  {
    var f := FirstMatch(input, verify, n, i);
    if f < n then f + 1 - i else n - i
  }

  /** Run from `i`: OK exactly when an attempt in [i, n) matches, the last call being the match's. */
  lemma {:induction false} RunResult(input: Input, verify: Verifier, n: nat, delay: nat, i: nat)
    requires i <= n
    ensures RunResultHolds(input, verify, n, delay, i)
    decreases n - i
  {
    if i < n {
      RunResult(input, verify, n, delay, i + 1);
      RunResultOne(input, verify, n, delay, i);
    } else {
      RunEnd(input, verify, n, delay);
    }
  }

  /** What RunResult states about Run from `i`. */
  predicate RunResultHolds(input: Input, verify: Verifier, n: nat, delay: nat, i: nat)
    requires i <= n
  {
    var o := Run(input, verify, n, delay, i);
    var f := FirstMatch(input, verify, n, i);
    && o.rc == (if f < n then OK else ERROR)
    && (f < n ==> o.calls != [] && o.calls[|o.calls| - 1] == AttemptCredentials(input, f))
  }

  lemma RunResultOne(input: Input, verify: Verifier, n: nat, delay: nat, i: nat)
    requires i < n && RunResultHolds(input, verify, n, delay, i + 1)
    ensures RunResultHolds(input, verify, n, delay, i)
  {
    if !Matches(input, verify, i) {
      AttemptsStep(input, verify, n, i);
      var o := Run(input, verify, n, delay, i);
      var rest := Run(input, verify, n, delay, i + 1);
      if FirstMatch(input, verify, n, i) < n {
        assert o.calls[|o.calls| - 1] == rest.calls[|rest.calls| - 1];
      }
    }
  }

  /** Run from `i` follows the protocol from Idle to LoggedIn after a match, to Refused otherwise. */
  lemma {:induction false} RunWalk(input: Input, verify: Verifier, n: nat, delay: nat, i: nat)
    requires i <= n
    ensures Walk(Idle, Run(input, verify, n, delay, i).trace, delay)
            == Some(if FirstMatch(input, verify, n, i) < n then LoggedIn else Refused)
    decreases n - i
  {
    if i < n {
      RunWalk(input, verify, n, delay, i + 1);
      RunWalkOne(input, verify, n, delay, i);
    } else {
      RunEnd(input, verify, n, delay);
      WalkOne(Idle, Failure, delay);
    }
  }

  lemma RunWalkOne(input: Input, verify: Verifier, n: nat, delay: nat, i: nat)
    requires i < n
    requires Walk(Idle, Run(input, verify, n, delay, i + 1).trace, delay)
             == Some(if FirstMatch(input, verify, n, i + 1) < n then LoggedIn else Refused)
    ensures Walk(Idle, Run(input, verify, n, delay, i).trace, delay)
            == Some(if FirstMatch(input, verify, n, i) < n then LoggedIn else Refused)
  {
    AttemptWalk(input, verify, delay, i);
    if !Matches(input, verify, i) {
      AttemptsStep(input, verify, n, i);
      WalkAppend(Idle, Attempt(input, verify, delay, i).events,
                 Run(input, verify, n, delay, i + 1).trace, delay, Idle);
    }
  }

  /** An attempt that does not match leaves one attempt fewer to run. */
  lemma AttemptsStep(input: Input, verify: Verifier, n: nat, i: nat)
    requires i < n && !Matches(input, verify, i)
    ensures FirstMatch(input, verify, n, i) == FirstMatch(input, verify, n, i + 1)
    ensures AttemptsFrom(input, verify, n, i) == 1 + AttemptsFrom(input, verify, n, i + 1)
  {
  }

  /** An attempt that does not match is followed in the output by the rest of the run. */
  lemma RunCountStep(input: Input, verify: Verifier, n: nat, delay: nat, i: nat, e: Event)
    requires i < n && !Matches(input, verify, i)
    ensures Count(Run(input, verify, n, delay, i).trace, e)
            == Count(Attempt(input, verify, delay, i).events, e) + Count(Run(input, verify, n, delay, i + 1).trace, e)
  {
    CountAppend(Attempt(input, verify, delay, i).events, Run(input, verify, n, delay, i + 1).trace, e);
  }

  /** Run from `i` writes one UserPrompt, PassPrompt and EchoOff per attempt it runs. */
  lemma {:induction false} RunCounts(input: Input, verify: Verifier, n: nat, delay: nat, i: nat, e: Event)
    requires i <= n && (e == UserPrompt || e == PassPrompt || e == EchoOff)
    ensures Count(Run(input, verify, n, delay, i).trace, e) == AttemptsFrom(input, verify, n, i)
    decreases n - i
  {
    if i < n {
      RunCounts(input, verify, n, delay, i + 1, e);
      RunCountsOne(input, verify, n, delay, i, e);
    } else {
      RunEnd(input, verify, n, delay);
    }
  }

  lemma RunCountsOne(input: Input, verify: Verifier, n: nat, delay: nat, i: nat, e: Event)
    requires i < n && (e == UserPrompt || e == PassPrompt || e == EchoOff)
    requires Count(Run(input, verify, n, delay, i + 1).trace, e) == AttemptsFrom(input, verify, n, i + 1)
    ensures Count(Run(input, verify, n, delay, i).trace, e) == AttemptsFrom(input, verify, n, i)
  {
    AttemptCount(input, verify, delay, i, e);
    if !Matches(input, verify, i) {
      AttemptsStep(input, verify, n, i);
      RunCountStep(input, verify, n, delay, i, e);
    }
  }

  /** Run from `i` writes Success once when it returns OK and never otherwise. */
  lemma {:induction false} RunSuccesses(input: Input, verify: Verifier, n: nat, delay: nat, i: nat)
    requires i <= n
    ensures var o := Run(input, verify, n, delay, i);
            Count(o.trace, Success) == if o.rc == OK then 1 else 0
    decreases n - i
  {
    if i < n {
      RunSuccesses(input, verify, n, delay, i + 1);
      RunSuccessesOne(input, verify, n, delay, i);
    } else {
      RunEnd(input, verify, n, delay);
    }
  }

  lemma RunSuccessesOne(input: Input, verify: Verifier, n: nat, delay: nat, i: nat)
    requires i < n
    requires var o := Run(input, verify, n, delay, i + 1);
             Count(o.trace, Success) == if o.rc == OK then 1 else 0
    ensures var o := Run(input, verify, n, delay, i);
            Count(o.trace, Success) == if o.rc == OK then 1 else 0
  {
    AttemptCount(input, verify, delay, i, Success);
    if !Matches(input, verify, i) {
      RunCountStep(input, verify, n, delay, i, Success);
    }
  }

  /** Run from `n` on: no attempt left, only the failure message. */
  lemma RunEnd(input: Input, verify: Verifier, n: nat, delay: nat)
    ensures var o := Run(input, verify, n, delay, n);
            o.rc == ERROR && o.trace == [Failure] && o.calls == []
    ensures FirstMatch(input, verify, n, n) == n && AttemptsFrom(input, verify, n, n) == 0
  {
  }

  /** Run from `i` calls the verifier once per attempt it runs that read its password. */
  lemma {:induction false} RunCalls(input: Input, verify: Verifier, n: nat, delay: nat, i: nat)
    requires i <= n
    ensures |Run(input, verify, n, delay, i).calls|
            == PasswordReads(input, i, i + AttemptsFrom(input, verify, n, i))
    decreases n - i
  {
    if i < n {
      RunCalls(input, verify, n, delay, i + 1);
      RunCallsOne(input, verify, n, delay, i);
    } else {
      RunEnd(input, verify, n, delay);
    }
  }

  lemma RunCallsOne(input: Input, verify: Verifier, n: nat, delay: nat, i: nat)
    requires i < n
    requires |Run(input, verify, n, delay, i + 1).calls|
             == PasswordReads(input, i + 1, i + 1 + AttemptsFrom(input, verify, n, i + 1))
    ensures |Run(input, verify, n, delay, i).calls|
            == PasswordReads(input, i, i + AttemptsFrom(input, verify, n, i))
  {
    if Matches(input, verify, i) {
      RunCallsMatched(input, verify, n, delay, i);
    } else {
      RunCallsStep(input, verify, n, delay, i);
    }
  }

  lemma RunCallsMatched(input: Input, verify: Verifier, n: nat, delay: nat, i: nat)
    requires i < n && Matches(input, verify, i)
    ensures |Run(input, verify, n, delay, i).calls|
            == PasswordReads(input, i, i + AttemptsFrom(input, verify, n, i))
  {
    assert AttemptsFrom(input, verify, n, i) == 1;
    PasswordStep(input, i, i + 1);
  }

  lemma RunCallsStep(input: Input, verify: Verifier, n: nat, delay: nat, i: nat)
    requires i < n && !Matches(input, verify, i)
    requires |Run(input, verify, n, delay, i + 1).calls|
             == PasswordReads(input, i + 1, i + 1 + AttemptsFrom(input, verify, n, i + 1))
    ensures |Run(input, verify, n, delay, i).calls|
            == PasswordReads(input, i, i + AttemptsFrom(input, verify, n, i))
  {
    AttemptsStep(input, verify, n, i);
    RunCallsSplit(input, verify, n, delay, i);
    PasswordStep(input, i, i + 1 + AttemptsFrom(input, verify, n, i + 1));
  }

  /** An attempt that does not match is followed in the calls by those of the rest of the run. */
  lemma RunCallsSplit(input: Input, verify: Verifier, n: nat, delay: nat, i: nat)
    requires i < n && !Matches(input, verify, i)
    ensures |Run(input, verify, n, delay, i).calls|
            == (if Read(input, 2 * i + 1).Some? then 1 else 0) + |Run(input, verify, n, delay, i + 1).calls|
  {
  }

  lemma PasswordStep(input: Input, i: nat, k: nat)
    requires i < k
    ensures PasswordReads(input, i, k) == (if Read(input, 2 * i + 1).Some? then 1 else 0) + PasswordReads(input, i + 1, k)
  {
  }

  /**
   * The result of a login sequence with `n` attempts: OK exactly when some
   * attempt matches, -1 otherwise. With f the first matching attempt, f + 1
   * attempts run after a match and all n otherwise, never more than n.
   */
  lemma LoginResult(input: Input, verify: Verifier, n: nat, delay: nat)
    ensures var o := Login(input, verify, n, delay);
            var f := FirstMatch(input, verify, n, 0);
            var k := AttemptsFrom(input, verify, n, 0);
            && (o.rc == OK || o.rc == ERROR)
            && (o.rc == OK <==> exists j :: 0 <= j < n && Matches(input, verify, j))
            && (o.rc == OK <==> f < n)
            && k <= n && (o.rc == ERROR ==> k == n)
  {
    RunResult(input, verify, n, delay, 0);
  }

  /**
   * The output of a login sequence follows the protocol of Step from the
   * greeting to its end: LoggedIn exactly when the result is OK, Refused
   * otherwise.
   */
  lemma LoginProtocol(input: Input, verify: Verifier, n: nat, delay: nat)
    ensures var o := Login(input, verify, n, delay);
            && o.trace != [] && o.trace[0] == Greeting
            && Walk(Start, o.trace, delay) == Some(if o.rc == OK then LoggedIn else Refused)
  {
    var r := Run(input, verify, n, delay, 0);
    RunResult(input, verify, n, delay, 0);
    RunWalk(input, verify, n, delay, 0);
    WalkOne(Start, Greeting, delay);
    WalkAppend(Start, [Greeting], r.trace, delay, Idle);
  }

  /**
   * The attempts of a login sequence: each that runs writes one UserPrompt,
   * one PassPrompt and one EchoOff; Success is written once after a match
   * and never otherwise.
   */
  lemma LoginCounts(input: Input, verify: Verifier, n: nat, delay: nat)
    ensures var o := Login(input, verify, n, delay);
            var k := AttemptsFrom(input, verify, n, 0);
            && Count(o.trace, UserPrompt) == k
            && Count(o.trace, PassPrompt) == k
            && Count(o.trace, EchoOff) == k
            && Count(o.trace, Success) == (if o.rc == OK then 1 else 0)
  {
    var r := Run(input, verify, n, delay, 0);
    RunCounts(input, verify, n, delay, 0, UserPrompt);
    RunCounts(input, verify, n, delay, 0, PassPrompt);
    RunCounts(input, verify, n, delay, 0, EchoOff);
    RunSuccesses(input, verify, n, delay, 0);
    GreetingCount(r.trace, UserPrompt);
    GreetingCount(r.trace, PassPrompt);
    GreetingCount(r.trace, EchoOff);
    GreetingCount(r.trace, Success);
  }

  /** The greeting does not change the count of any other event. */
  lemma GreetingCount(t: seq<Event>, e: Event)
    requires e != Greeting
    ensures Count([Greeting] + t, e) == Count(t, e)
  {
    CountAppend([Greeting], t, e);
  }

  /**
   * The verifier calls of a login sequence: one per attempt that ran and read
   * its password, the last with the matching attempt's credentials.
   */
  lemma LoginCalls(input: Input, verify: Verifier, n: nat, delay: nat)
    ensures var o := Login(input, verify, n, delay);
            var f := FirstMatch(input, verify, n, 0);
            && |o.calls| == PasswordReads(input, 0, AttemptsFrom(input, verify, n, 0))
            && (f < n ==> o.calls != [] && o.calls[|o.calls| - 1] == AttemptCredentials(input, f))
  {
    RunResult(input, verify, n, delay, 0);
    RunCalls(input, verify, n, delay, 0);
  }

  /**
   * Echo is never left off: every trace the protocol accepts from Start to
   * an end holds as many EchoOn frames as EchoOff frames. So does the output
   * of every login sequence.
   */
  lemma EchoPaired(input: Input, verify: Verifier, n: nat, delay: nat)
    ensures var o := Login(input, verify, n, delay);
            Count(o.trace, EchoOff) == Count(o.trace, EchoOn)
  {
    var o := Login(input, verify, n, delay);
    LoginProtocol(input, verify, n, delay);
    WalkEchoBalance(Start, o.trace, delay, if o.rc == OK then LoggedIn else Refused);
  }

  /**
   * A failed username read does not stop the attempt: the password is still
   * prompted for and, when it is read, the verifier gets an empty username.
   * A failed password read makes no verifier call and writes neither Success
   * nor BadCred: echo goes back on at once.
   */
  lemma ReadFailureAsymmetry(input: Input, verify: Verifier, delay: nat, i: nat)
    ensures var a := Attempt(input, verify, delay, i);
            && (Read(input, 2 * i).None? && Read(input, 2 * i + 1).Some? ==>
                  a.calls == [Credentials([], Seen(Read(input, 2 * i + 1).value))])
            && (Read(input, 2 * i + 1).None? ==>
                  a.calls == [] && !a.matched && a.events == [UserPrompt, PassPrompt, EchoOff, EchoOn])
  {
  }

  /**
   * The hazard at the strncpy into a 16-character buffer: it leaves the
   * buffer without a NUL exactly when the token has 16 or more characters,
   * and the verifier then receives all 16 characters of the buffer (a C
   * reader would run on past its end). In every case what the verifier gets
   * is the token cut to 16 characters.
   */
  lemma CredentialTruncation(line: seq<char>)
    requires NUL !in line
    ensures NUL !in StrNCpyOf(Tokenizer.Token(line), CRED_LEN) <==> |Tokenizer.Token(line)| >= CRED_LEN
    ensures Seen(line) == if |Tokenizer.Token(line)| < CRED_LEN then Tokenizer.Token(line) else Tokenizer.Token(line)[..CRED_LEN]
  {
    StrNCpyReadBack(Tokenizer.Token(line), CRED_LEN);
  }

  /**
   * In the model, where a reader of an unterminated buffer stops at its end,
   * the verifier never receives more than sizeof(username) or
   * sizeof(password) characters. A C reader of a buffer strncpy left without
   * a NUL reads on past it, which is undefined behaviour. A corollary of
   * Seen's own contract, extended to a username read that may have failed.
   */
  lemma SeenBound(line: seq<char>, r: Option<seq<char>>)
    ensures |Seen(line)| <= CRED_LEN && |UserSeen(r)| <= CRED_LEN
  {
    if r.Some? {
      assert |Seen(r.value)| <= |StrNCpyOf(Tokenizer.Token(r.value), CRED_LEN)|;
    }
  }

  /**
   * With the fixed backend, in the model, where a reader of an unterminated
   * buffer stops at its end: a configured username or password longer than
   * the 16-character buffers can never be entered, every attempt fails and
   * the login returns -1. In C the strcmp on an unterminated buffer reads
   * past it (undefined behaviour), and may then match.
   */
  lemma FixedLongCredentialRefused(input: Input, username: seq<char>, password: seq<char>, n: nat, delay: nat)
    requires |username| > CRED_LEN || |password| > CRED_LEN
    ensures Login(input, FixedVerifier(username, password), n, delay).rc == ERROR
  {
    var verify := FixedVerifier(username, password);
    forall j | 0 <= j < n
      ensures !Matches(input, verify, j)
    {
      if Read(input, 2 * j + 1).Some? {
        SeenBound(Read(input, 2 * j + 1).value, Read(input, 2 * j));
      }
    }
    LoginResult(input, verify, n, delay);
  }

  /**
   * With the fixed backend, a first attempt whose two lines carry the
   * configured username and password as tokens shorter than the buffers
   * logs in at once: one attempt runs and the login returns OK.
   */
  lemma FixedFirstAttempt(input: Input, username: seq<char>, password: seq<char>, n: nat, delay: nat)
    requires 0 < n && 2 <= |input| && input[0].Some? && input[1].Some?
    requires NUL !in input[0].value && NUL !in input[1].value
    requires Tokenizer.Token(input[0].value) == username && |username| < CRED_LEN
    requires Tokenizer.Token(input[1].value) == password && |password| < CRED_LEN
    ensures var o := Login(input, FixedVerifier(username, password), n, delay);
            o.rc == OK && AttemptsFrom(input, FixedVerifier(username, password), n, 0) == 1
  {
    FixedMatch(input, username, password);
    RunStep(input, FixedVerifier(username, password), n, delay, 0);
  }

  /** The first attempt of FixedFirstAttempt matches. */
  lemma FixedMatch(input: Input, username: seq<char>, password: seq<char>)
    requires 2 <= |input| && input[0].Some? && input[1].Some?
    requires NUL !in input[0].value && NUL !in input[1].value
    requires Tokenizer.Token(input[0].value) == username && |username| < CRED_LEN
    requires Tokenizer.Token(input[1].value) == password && |password| < CRED_LEN
    ensures Matches(input, FixedVerifier(username, password), 0)
  {
    SeenShort(input[0].value);
    SeenShort(input[1].value);
    assert AttemptCredentials(input, 0) == Credentials(username, password);
  }

  /** A token shorter than the buffer reaches the verifier unchanged. */
  lemma SeenShort(line: seq<char>)
    requires NUL !in line && |Tokenizer.Token(line)| < CRED_LEN
    ensures Seen(line) == Tokenizer.Token(line)
  {
    CredentialTruncation(line);
  }
}
