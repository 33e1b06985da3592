/**
 * nsh_telnetlogin: greets the peer, then runs up to `failCount` attempts,
 * each prompting for a username and a password (with the peer's echo turned
 * off around the password read), hands the two tokens to the credential
 * verifier, and returns OK after the first match or -1 once every attempt
 * has failed.
 *
 * The stream writes are an event trace; an echo frame appears in it as the
 * three bytes of the telnet command nsh_telnetecho writes. The reads are a sequence of fgets results,
 * None standing for a NULL return; reads past the end of the sequence are
 * NULL as at end of file. The verifier is a function parameter.
 */
module LoginGate {
  import opened Wrappers
  import opened CLib
  import opened Telnet
  import opened Tokenizer

  const OK: int := 0
  const ERROR: int := -1

  /** sizeof(username) and sizeof(password). */
  const CRED_LEN: nat := 16

  /**
   * Everything written to the output stream, message texts left opaque; a
   * Frame is one three-byte telnet command (IAC, verb, option).
   */
  datatype Event =
    | Greeting | UserPrompt | PassPrompt | Success | BadCred | Delay | Failure
    | Frame(iac: byte, verb: byte, option: byte)

  /** The frame nsh_telnetecho(TELNET_NOTUSE_ECHO) writes. */
  const EchoOff: Event := Frame(IAC, DO, ECHO_OPTION)
  /** The frame nsh_telnetecho(TELNET_USE_ECHO) writes. */
  const EchoOn: Event := Frame(IAC, WILL, ECHO_OPTION)

  /** The two strings one verifier call receives. */
  datatype Credentials = Credentials(username: seq<char>, password: seq<char>)

  /** What a login sequence (or its tail) returns, writes and asks the verifier. */
  datatype Outcome = Outcome(rc: int, trace: seq<Event>, calls: seq<Credentials>)

  type Input = seq<Option<seq<char>>>
  type Verifier = (seq<char>, seq<char>) -> bool

  /** Every line read fits the line buffer with its NUL and holds no NUL. */
  predicate ValidInput(input: Input, lineLen: nat) {
    forall k :: 0 <= k < |input| ==> input[k].Some? ==> |input[k].value| < lineLen && NUL !in input[k].value
  }

  /** The k-th fgets result: NULL once the input is exhausted. */
  function Read(input: Input, k: nat): Option<seq<char>> {
    if k < |input| then input[k] else None
  }

  /**
   * What the verifier receives for a successfully read line: the token after
   * strncpy into a 16-byte buffer, read up to its first NUL, or all 16 bytes
   * when the token was 16 characters or longer and left no NUL.
   */
  function Seen(line: seq<char>): (r: seq<char>)
    ensures |r| <= CRED_LEN && NUL !in r
  {
    CStr(StrNCpyOf(Token(line), CRED_LEN), NUL)
  }

  /** A failed username read leaves the username empty. */
  function UserSeen(r: Option<seq<char>>): seq<char> {
    match r
    case None => []
    case Some(line) => Seen(line)
  }

  /** The credentials of attempt `i`, read at 2i (username) and 2i+1 (password). */
  function AttemptCredentials(input: Input, i: nat): Credentials
    requires Read(input, 2 * i + 1).Some?
  {
    Credentials(UserSeen(Read(input, 2 * i)), Seen(Read(input, 2 * i + 1).value))
  }

  /**
   * The CONFIG_NSH_LOGIN_FIXED backend: both strcmp calls return 0 exactly
   * when the strings read from the buffers equal the configured ones.
   */
  function FixedVerifier(username: seq<char>, password: seq<char>): Verifier {
    (u: seq<char>, p: seq<char>) => p == password && u == username
  }

  /** Attempt `i` matches: its password was read and the verifier accepts. */
  predicate Matches(input: Input, verify: Verifier, i: nat) {
    Read(input, 2 * i + 1).Some? &&
    var c := AttemptCredentials(input, i);
    verify(c.username, c.password)
  }

  /** The events of attempt `i`, its verifier calls, and whether it matched. */
  datatype AttemptResult = AttemptResult(events: seq<Event>, calls: seq<Credentials>, matched: bool)

  /** What every attempt writes first: both prompts, then echo off. */
  const Opening: seq<Event> := [UserPrompt, PassPrompt, EchoOff]

  /**
   * What an attempt writes after echo off: echo on at once when the password
   * read failed; the success message and echo on after a match; otherwise
   * the bad-credentials message, the delay when one is configured, echo on.
   */
  function Closing(read: bool, matched: bool, delay: nat): (c: seq<Event>)
    ensures c != [] && c[|c| - 1] == EchoOn && EchoOff !in c
    ensures (Success in c) <==> read && matched
  {
    if !read then [EchoOn]
    else if matched then [Success, EchoOn]
    else [BadCred] + (if delay > 0 then [Delay] else []) + [EchoOn]
  }

  /**
   * Attempt `i`: at most one verifier call, made exactly when its password
   * was read, and a match only after that call; echo is back on at its end.
   */
  function Attempt(input: Input, verify: Verifier, delay: nat, i: nat): (a: AttemptResult)
    ensures |a.calls| == (if Read(input, 2 * i + 1).Some? then 1 else 0)
    ensures a.matched ==> a.calls != [] && verify(a.calls[0].username, a.calls[0].password)
    ensures a.events != [] && a.events[|a.events| - 1] == EchoOn
  {
    var read := Read(input, 2 * i + 1).Some?;
    var matched := Matches(input, verify, i);
    AttemptResult(Opening + Closing(read, matched, delay),
                  if read then [AttemptCredentials(input, i)] else [], matched)
  }

  /** The attempts from `i` on, up to `n`, and the failure message after the last. */
  function Run(input: Input, verify: Verifier, n: nat, delay: nat, i: nat): (o: Outcome)
    ensures o.rc == OK || o.rc == ERROR
    ensures o.trace != []
    decreases n - i
  {
    if i >= n then Outcome(ERROR, [Failure], [])
    else
      var a := Attempt(input, verify, delay, i);
      if a.matched then Outcome(OK, a.events, a.calls)
      else
        var rest := Run(input, verify, n, delay, i + 1);
        Outcome(rest.rc, a.events + rest.trace, a.calls + rest.calls)
  }

  /** The whole login sequence: the greeting, then the attempts. */
  function Login(input: Input, verify: Verifier, n: nat, delay: nat): (o: Outcome)
    ensures o.rc == OK || o.rc == ERROR
    ensures |o.trace| >= 2 && o.trace[0] == Greeting
  {
    var r := Run(input, verify, n, delay, 0);
    Outcome(r.rc, [Greeting] + r.trace, r.calls)
  }

  /**
   * fgets into the line buffer followed by nsh_telnettoken into a 16-character
   * credential buffer: the buffer then holds what strncpy leaves for the
   * line's token, and reads, as a C string, as Seen(line).
   */
  method ReadCredential(cn: array<char>, line: seq<char>, buffer: array<char>)
    requires |line| < cn.Length && NUL !in line
    requires buffer.Length == CRED_LEN && buffer != cn
    modifies cn, buffer
    ensures buffer[..] == StrNCpyOf(Token(line), CRED_LEN)
    ensures CStr(buffer[..], NUL) == Seen(line)
  {
    FGetsStore(cn, line);
    TelnetToken(cn, line, buffer, CRED_LEN);
    assert buffer[..] == buffer[..CRED_LEN];
  }

  /** One step of Run: the attempt at `i`, and the rest only when it did not match. */
  lemma RunStep(input: Input, verify: Verifier, n: nat, delay: nat, i: nat)
    requires i < n
    ensures var a := Attempt(input, verify, delay, i);
            var rest := Run(input, verify, n, delay, i + 1);
            Run(input, verify, n, delay, i) ==
              if a.matched then Outcome(OK, a.events, a.calls)
              else Outcome(rest.rc, a.events + rest.trace, a.calls + rest.calls)
  {
  }

  /**
   * After what is already written and called, an attempt that does not
   * match and the rest of the run give the same output and calls as the run
   * from that attempt on.
   */
  lemma RunAfter(input: Input, verify: Verifier, n: nat, delay: nat, i: nat,
                 trace: seq<Event>, calls: seq<Credentials>)
    requires i < n && !Matches(input, verify, i)
    ensures var a := Attempt(input, verify, delay, i);
            var rest := Run(input, verify, n, delay, i + 1);
            && trace + Run(input, verify, n, delay, i).trace == (trace + a.events) + rest.trace
            && calls + Run(input, verify, n, delay, i).calls == (calls + a.calls) + rest.calls
  {
    var a := Attempt(input, verify, delay, i);
    var rest := Run(input, verify, n, delay, i + 1);
    assert trace + (a.events + rest.trace) == (trace + a.events) + rest.trace;
    assert calls + (a.calls + rest.calls) == (calls + a.calls) + rest.calls;
  }

  /**
   * The username half of an attempt: the buffer is reset at index 0, and a
   * successfully read line is tokenized into it, so that it reads as
   * Seen(line), the token cut to 16 characters; a failed read leaves it
   * reading as the empty string.
   */
  method ReadUsername(cn: array<char>, username: array<char>, input: Input, i: nat)
    requires ValidInput(input, cn.Length)
    requires username.Length == CRED_LEN && username != cn
    modifies cn, username
    ensures CStr(username[..], NUL) == UserSeen(Read(input, 2 * i))
  {
    username[0] := NUL;
    var user := Read(input, 2 * i);
    if user.Some? {
      ReadCredential(cn, user.value, username);
    }
  }

  /**
   * The password half of an attempt, after echo is turned off: the buffer
   * is reset at index 0; only when the read succeeds is the verifier called,
   * with the username as it stands and Seen of the password line (its token
   * cut to 16 characters). On a match it
   * writes the success message and turns echo back on; otherwise the
   * bad-credentials message when a password was read, the delay when one is
   * configured, and echo on. It writes what Closing says.
   */
  method CheckPassword(cn: array<char>, username: array<char>, password: array<char>,
                       input: Input, verify: Verifier, failDelay: nat, i: nat)
    returns (closing: seq<Event>, called: seq<Credentials>, matched: bool)
    requires ValidInput(input, cn.Length)
    requires password.Length == CRED_LEN && password != cn && username != cn && username != password
    requires CStr(username[..], NUL) == UserSeen(Read(input, 2 * i))
    modifies cn, password
    ensures matched == Matches(input, verify, i)
    ensures closing == Closing(Read(input, 2 * i + 1).Some?, matched, failDelay)
    ensures called == if Read(input, 2 * i + 1).Some? then [AttemptCredentials(input, i)] else []
  {
    var frame: seq<byte>;
    closing, called, matched := [], [], false;
    password[0] := NUL;
    var pass := Read(input, 2 * i + 1);
    if pass.Some? {
      ghost var userBuffer := username[..];
      ReadCredential(cn, pass.value, password);
      assert username[..] == userBuffer;
      var u, p := CStr(username[..], NUL), CStr(password[..], NUL);
      called := [Credentials(u, p)];
      if verify(u, p) {
        frame := TelnetEcho(USE_ECHO);
        closing := [Success, Frame(frame[0], frame[1], frame[2])];
        matched := true;
        return;
      } else {
        closing := [BadCred];
        if failDelay > 0 {
          closing := closing + [Delay];
        }
      }
    }

    frame := TelnetEcho(USE_ECHO);
    closing := closing + [Frame(frame[0], frame[1], frame[2])];
  }

  /**
   * The body of nsh_telnetlogin's for loop, attempt `i`: prompts, reads the
   * username (a failed read leaves it empty), turns echo off, then the
   * password half. It writes, calls and decides what Attempt says.
   */
  method LoginAttempt(cn: array<char>, username: array<char>, password: array<char>,
                      input: Input, verify: Verifier, failDelay: nat, i: nat)
    returns (events: seq<Event>, called: seq<Credentials>, matched: bool)
    requires ValidInput(input, cn.Length)
    requires username.Length == CRED_LEN && password.Length == CRED_LEN
    requires username != cn && password != cn && username != password
    modifies cn, username, password
    ensures AttemptResult(events, called, matched) == Attempt(input, verify, failDelay, i)
  {
    ReadUsername(cn, username, input, i);
    var frame := TelnetEcho(NOTUSE_ECHO);
    var opening := [UserPrompt, PassPrompt, Frame(frame[0], frame[1], frame[2])];
    var closing;
    closing, called, matched := CheckPassword(cn, username, password, input, verify, failDelay, i);
    events := opening + closing;
  }

  /**
   * nsh_telnetlogin over the line buffer `cn` (pstate->cn_line, of length
   * CONFIG_NSH_LINELEN), with `failCount` for CONFIG_NSH_LOGIN_FAILCOUNT and
   * `failDelay` for CONFIG_NSH_LOGIN_FAILDELAY. The username and password
   * buffers are separate 16-character arrays; the verifier is given each as
   * a C string. Returns, writes and calls exactly what Login says.
   */
  method TelnetLogin(cn: array<char>, input: Input, verify: Verifier, failCount: nat, failDelay: nat)
    returns (rc: int, trace: seq<Event>, calls: seq<Credentials>)
    requires ValidInput(input, cn.Length)
    modifies cn
    ensures Outcome(rc, trace, calls) == Login(input, verify, failCount, failDelay)
  {
    var username := new char[CRED_LEN];
    var password := new char[CRED_LEN];
    ghost var whole := Login(input, verify, failCount, failDelay);
    trace, calls := [Greeting], [];
    var i := 0;
    while i < failCount
      invariant i <= failCount
      invariant whole.trace == trace + Run(input, verify, failCount, failDelay, i).trace
      invariant whole.calls == calls + Run(input, verify, failCount, failDelay, i).calls
      invariant whole.rc == Run(input, verify, failCount, failDelay, i).rc
    {
      RunStep(input, verify, failCount, failDelay, i);
      var events, called, matched := LoginAttempt(cn, username, password, input, verify, failDelay, i);
      if matched {
        trace, calls := trace + events, calls + called;
        rc := OK;
        return;
      }
      RunAfter(input, verify, failCount, failDelay, i, trace, calls);
      trace, calls := trace + events, calls + called;
      i := i + 1;
    }
    trace := trace + [Failure];
    rc := ERROR;
  }
}
