# NSH telnet login gate

This is a Dafny model of `apps/nshlib/nsh_telnetlogin.c`: the login gate NuttShell puts in front of a telnet session. In order, it:

1. Greets the peer.
2. Runs up to CONFIG_NSH_LOGIN_FAILCOUNT attempts. Each attempt:
   - prompts for a username and reads one line;
   - prompts for a password and turns the peer's echo off with a telnet option frame;
   - reads the second line;
   - extracts the first token of each line into a 16-character buffer (`nsh_telnettoken`);
   - hands both buffers to the credential verifier.
3. Returns 0 after the first match, and -1 with a failure message when every attempt has failed.

Files:

- `clib.dfy` (module `CLib`) models the C library behaviour the gate relies on:
  - `isspace` in the C locale;
  - reading a buffer as a C string, up to its first NUL;
  - `strncpy`, both as a function and as the in-place copy loop over arrays;
  - the buffer `fgets` leaves behind.
- `telnet.dfy` (module `Telnet`) is `nsh_telnetecho`. It fills the four-byte option buffer and writes it with `fputs`.
- `token.dfy` (module `Tokenizer`) is `nsh_telnettoken`:
  - its two scanning loops are methods over the line buffer `cn_line`, each proved against the index function it computes;
  - it stores a NUL at the end of the token in place;
  - it then copies the token with `strncpy`.
- `login.dfy` (module `LoginGate`) is `nsh_telnetlogin`:
  - `TelnetLogin` is the retry loop over the line buffer `cn`, with two 16-character arrays;
  - the loop body is factored into `LoginAttempt`, `ReadUsername`, `CheckPassword` and `ReadCredential`;
  - `LoginAttempt` and `TelnetLogin` are proved against the functions `Attempt`, `Run` and `Login`, which give the returned code, the output trace and the verifier calls; `ReadCredential`, `ReadUsername` and `CheckPassword` are proved against `StrNCpyOf`, `Seen`, `UserSeen` and `Closing`.
- `login_properties.dfy` (module `LoginProperties`) proves what the gate promises about those functions:
  - the protocol the output follows, as an automaton;
  - the attempt bound and the outcomes;
  - per-event counts and the pairing of the echo frames;
  - the asymmetry between a failed username read and a failed password read;
  - what the verifier sees when a token fills the 16-character buffer;
  - two consequences for the fixed-credential backend.

How the environment is modelled:

- **Output.** Everything written to the output stream is an event. The echo frames appear in the trace as the three bytes that actually reach the stream: IAC, a verb (WILL 251 for echo on, DO 253 for echo off) and option 1 (ECHO), as in RFC 854 and RFC 857.
- **Input.** The line reads are a sequence of `fgets` results. `None` is a NULL return, and every read past the end of the sequence also returns NULL. Attempt `i` uses reads `2i` (the username) and `2i+1` (the password).
- **Credential verifier.** It is a function parameter. It receives each buffer read as a C string.

**Bytes.** `cn_line`, `username[]` and `password[]` hold C `char` bytes. In the model each element of a `seq<char>` or `array<char>` stands for one such byte, so a "16-character buffer" means 16 bytes, and a character that takes several bytes is several elements.

What the C code does at three points:

- **Option frame.** The option buffer holds {IAC, verb, 1, 0}. `fputs` stops at the trailing zero, so exactly three bytes are written (`telnet.dfy`, `TelnetEcho`).
- **strncpy padding.** After a token shorter than the buffer, C11 `strncpy` (section 7.24.2.4) fills the rest of the buffer with NULs. `StrNCpy` does the same.
- **Unterminated buffer.** When a token has 16 or more characters, `strncpy` leaves the 16-character buffer with no NUL, and a C reader of that buffer would run past its end. The model gives the verifier all 16 characters. `CredentialTruncation` states exactly when this happens.

## Model

| member | source | states |
|---|---|---|
| CLib.CStr | apps/nshlib/nsh_telnetlogin.c:81 | a buffer read as a C string is its longest NUL-free prefix, stopped by a NUL or by the end of the buffer |
| CLib.CStrUnique | apps/nshlib/nsh_telnetlogin.c:81 | any NUL-free prefix followed by a NUL (or filling the buffer) is the buffer's C string |
| CLib.StrNCpyOf | apps/nshlib/nsh_telnetlogin.c:165 | strncpy of a string into n places: a string of n or more characters gives exactly its first n; a shorter one is copied whole and followed by NULs up to n |
| CLib.StrNCpyReadBack | apps/nshlib/nsh_telnetlogin.c:165 | the copy, read back as a C string, is the source cut to n characters, and it contains a NUL exactly when the source is shorter than n |
| CLib.StrNCpy | apps/nshlib/nsh_telnetlogin.c:165 | the copy loop writes into the first n places of the destination what StrNCpyOf gives for the source's C string, and nothing at or beyond n |
| CLib.FGetsStore | apps/nshlib/nsh_telnetlogin.c:197-198 | after a successful read, the line buffer holds the line followed by a NUL |
| Telnet.TelnetEcho | apps/nshlib/nsh_telnetlogin.c:73-83 | exactly the three bytes IAC, then WILL when echo is to be used or DO otherwise, then option 1, reach the stream; none of them is zero |
| Tokenizer.SkipSpace | apps/nshlib/nsh_telnetlogin.c:101-124 | the first index at or after i that is not whitespace: everything before it is whitespace, and it is the end of the line or a non-space character |
| Tokenizer.ScanTo | apps/nshlib/nsh_telnetlogin.c:131-157 | the first index at or after i whose character ends the token (a quotation mark when quoted, whitespace otherwise), or the end of the line |
| Tokenizer.TokenStart | apps/nshlib/nsh_telnetlogin.c:101-124 | the token starts within the line |
| Tokenizer.TokenStartSpec | apps/nshlib/nsh_telnetlogin.c:96-124 | quoted: only whitespace comes before an opening quotation mark, and the token starts right after it; unquoted: only whitespace comes before the start, and the start is the end of the line or a character that is neither whitespace nor a quotation mark |
| Tokenizer.TokenEnd | apps/nshlib/nsh_telnetlogin.c:131-157 | the token's end lies between its start and the end of the line |
| Tokenizer.FindStart | apps/nshlib/nsh_telnetlogin.c:101-124 | the first loop over the NUL-terminated buffer stops at the start, and with the quoted flag, that TokenStart gives |
| Tokenizer.FindEnd | apps/nshlib/nsh_telnetlogin.c:131-157 | the second loop stops at the terminator position that ScanTo gives for the start and flag |
| Tokenizer.TelnetToken | apps/nshlib/nsh_telnetlogin.c:89-166 | the line buffer changes only by a NUL at the token's end; the first buflen places of the destination hold strncpy of the token; nothing beyond them is written |
| Tokenizer.BlankLineEmptyToken | apps/nshlib/nsh_telnetlogin.c:101-124 | an empty or all-whitespace line gives the empty token |
| Tokenizer.UnquotedToken | apps/nshlib/nsh_telnetlogin.c:149-157 | an unquoted token holds no whitespace, in particular not the newline fgets keeps, and ends at whitespace or at the end of the line |
| Tokenizer.QuotedToken | apps/nshlib/nsh_telnetlogin.c:135-147 | a quoted token excludes the closing quotation mark, ends at one or at the end of the line, and runs to the end of the line when the quotation is never closed |
| Tokenizer.PlainExample | apps/nshlib/nsh_telnetlogin.c:149-157 | `alice extra` gives `alice` |
| Tokenizer.QuotedExample | apps/nshlib/nsh_telnetlogin.c:105-114 | `"bob smith" x` gives `bob smith` |
| Tokenizer.InnerQuoteExample | apps/nshlib/nsh_telnetlogin.c:105-122 | a quotation mark after the first character opens nothing: `ab"c d` gives `ab"c` |
| Tokenizer.OpenQuoteExample | apps/nshlib/nsh_telnetlogin.c:131-157 | an unclosed quotation runs to the end of the line, newline included |
| CLib.IsSpace | apps/nshlib/nsh_telnetlogin.c:118 | (definition) isspace in the "C" locale: space, tab, newline, vertical tab, form feed and carriage return; the same test ends an unquoted token at line 151 |
| Tokenizer.Token | apps/nshlib/nsh_telnetlogin.c:131-165 | (definition) the token is the slice of the line from TokenStart to TokenEnd, which is what strncpy copies once the NUL is stored at its end; characterised by TokenStartSpec, UnquotedToken and QuotedToken |
| LoginGate.Seen | apps/nshlib/nsh_telnetlogin.c:165 | what the verifier receives for a read line (lines 222-228): the token after strncpy into 16 places, read up to its first NUL or to the buffer's end; never longer than 16 characters and never holding a NUL |
| LoginGate.Matches | apps/nshlib/nsh_telnetlogin.c:212-231 | (definition) an attempt matches exactly when its password read succeeds and the verifier accepts the username and password it receives |
| LoginGate.FixedVerifier | apps/nshlib/nsh_telnetlogin.c:226-228 | (definition) the CONFIG_NSH_LOGIN_FIXED backend: both strcmp calls return 0, i.e. both strings equal the configured ones |
| LoginGate.Closing | apps/nshlib/nsh_telnetlogin.c:211-248 | what an attempt writes after echo off (echo on at once after a failed password read; success then echo on after a match; otherwise the bad-credentials message, the delay when configured, then echo on): it always ends with echo on, never turns echo off again, and writes the success message exactly when a password was read and matched |
| LoginGate.Attempt | apps/nshlib/nsh_telnetlogin.c:191-248 | one attempt is the opening (both prompts, echo off) followed by Closing: exactly one verifier call when the password was read and none otherwise; a match only with a call the verifier accepted; echo is back on at its end |
| LoginGate.Run | apps/nshlib/nsh_telnetlogin.c:189-255 | the attempts from i on, stopping at the first match with 0 and otherwise writing the failure message after the last and returning -1: the result is always 0 or -1, and something is always written |
| LoginGate.Login | apps/nshlib/nsh_telnetlogin.c:176-256 | the greeting followed by Run from attempt 0: the result is 0 or -1, and the output starts with the greeting and holds at least one more event |
| LoginGate.ReadCredential | apps/nshlib/nsh_telnetlogin.c:197-203 | after fgets and the tokenizer, the 16-character buffer holds exactly what strncpy leaves for the line's token, and reads back as Seen(line) |
| LoginGate.ReadUsername | apps/nshlib/nsh_telnetlogin.c:196-203 | the username buffer reads as the empty string after a failed read, and otherwise as `Seen(line)`, the line's token cut to 16 characters |
| LoginGate.CheckPassword | apps/nshlib/nsh_telnetlogin.c:211-248 | the verifier is called once, with `Seen` of each line (each token cut to 16 characters; the username empty after a failed read), only when the password read succeeds; after a match: success and echo on; otherwise the bad-credentials message (only after a read), the delay when one is configured, and echo on |
| LoginGate.LoginAttempt | apps/nshlib/nsh_telnetlogin.c:191-248 | one pass of the loop body writes, calls the verifier and decides exactly what Attempt says |
| LoginGate.TelnetLogin | apps/nshlib/nsh_telnetlogin.c:176-256 | the return code, the output trace and the verifier calls are exactly what Login gives for the reads, the verifier, the fail count and the fail delay |
| LoginProperties.WalkEchoBalance | apps/nshlib/nsh_telnetlogin.c:209-248 | along any trace the protocol accepts, EchoOff frames minus EchoOn frames equals the change in the echo-suppressed state |
| LoginProperties.ClosingWalk | apps/nshlib/nsh_telnetlogin.c:211-248 | after echo off, the rest of an attempt ends in LoggedIn after a match and back in Idle otherwise |
| LoginProperties.AttemptWalk | apps/nshlib/nsh_telnetlogin.c:191-248 | one attempt, started in Idle, follows the protocol and ends in LoggedIn exactly when it matched |
| LoginProperties.AttemptCount | apps/nshlib/nsh_telnetlogin.c:191-248 | an attempt writes one UserPrompt, PassPrompt, EchoOff and EchoOn; Success once when it matched; BadCred (and Delay when a delay is configured) once when a password was read and did not match; nothing else |
| LoginProperties.FirstMatch | apps/nshlib/nsh_telnetlogin.c:189-237 | the first matching attempt in [i, n), or n: no attempt before it matches, and it matches when below n |
| LoginProperties.PasswordReads | apps/nshlib/nsh_telnetlogin.c:211-213 | the number of attempts in a range whose password read succeeded, at most the size of the range |
| LoginProperties.RunResult | apps/nshlib/nsh_telnetlogin.c:189-255 | the remaining iterations return 0 exactly when one of them matches, and -1 otherwise; after a match, the last verifier call carries that attempt's credentials |
| LoginProperties.RunWalk | apps/nshlib/nsh_telnetlogin.c:189-255 | the output of the remaining iterations follows the protocol from Idle to LoggedIn after a match, and to Refused otherwise |
| LoginProperties.RunCounts | apps/nshlib/nsh_telnetlogin.c:189-249 | the remaining iterations write exactly one UserPrompt, PassPrompt and EchoOff per attempt that runs |
| LoginProperties.RunSuccesses | apps/nshlib/nsh_telnetlogin.c:232-237 | Success is written once when the result is 0 and never otherwise |
| LoginProperties.RunCalls | apps/nshlib/nsh_telnetlogin.c:211-246 | the verifier is called exactly once per attempt that runs and reads its password |
| LoginProperties.LoginResult | apps/nshlib/nsh_telnetlogin.c:176-256 | the result is 0 or -1; it is 0 if and only if some attempt below the fail count matches, i.e. the first match lies below it; at most fail-count attempts run, and all of them when the result is -1 |
| LoginProperties.LoginProtocol | apps/nshlib/nsh_telnetlogin.c:182-255 | the output starts with the greeting and follows the protocol to LoggedIn when the result is 0, and to Refused otherwise |
| LoginProperties.LoginCounts | apps/nshlib/nsh_telnetlogin.c:189-249 | the number of UserPrompt, PassPrompt and EchoOff events each equals the number of attempts that ran; Success appears once exactly when the result is 0 |
| LoginProperties.LoginCalls | apps/nshlib/nsh_telnetlogin.c:211-246 | one verifier call per attempt that ran and read its password; after a match, the last call carries the matching attempt's credentials |
| LoginProperties.EchoPaired | apps/nshlib/nsh_telnetlogin.c:209-248 | every echo-off frame is followed by an echo-on frame: the login's output holds as many of each |
| LoginProperties.ReadFailureAsymmetry | apps/nshlib/nsh_telnetlogin.c:196-218 | a failed username read still calls the verifier, with an empty username; a failed password read skips the verifier and the bad-credentials message and only turns echo back on |
| LoginProperties.CredentialTruncation | apps/nshlib/nsh_telnetlogin.c:165 | the 16-character buffer is left without a NUL exactly when the token has 16 or more characters; the verifier always receives the token cut to 16 characters |
| LoginProperties.FixedLongCredentialRefused | apps/nshlib/nsh_telnetlogin.c:226-228 | with the fixed backend, in the model, where a reader of an unterminated buffer stops at its end: a configured username or password longer than 16 characters can never match, and the login returns -1 |
| LoginProperties.FixedFirstAttempt | apps/nshlib/nsh_telnetlogin.c:226-237 | with the fixed backend, a first attempt whose tokens are the configured credentials, each shorter than 16 characters, logs in after exactly one attempt |

## Left out

- **Stream I/O.** `fputs`, `fflush` and `fgets` on the console streams become an event trace and a sequence of read results. Flushing, buffering and stream errors other than a NULL read are not modelled.
- **Message texts.** `g_telnetgreeting`, `g_userprompt`, `g_passwordprompt`, `g_loginsuccess`, `g_badcredentials` and `g_loginfailure` are opaque events; their texts are not modelled.
- **Fail delay.** `usleep(CONFIG_NSH_LOGIN_FAILDELAY * 1000L)` is a `Delay` event, written when the configured delay is positive. Time is not modelled.
- **Verification backends.** `passwd_verify`, `platform_user_verify` and `PASSWORD_VERIFY_MATCH` are folded into the abstract verifier parameter, which is taken to be stateless: a fixed function of the two strings. A backend whose answer depends on earlier calls (a lockout, a password file that changes between attempts) is not modelled, and LoginResult's "0 exactly when some attempt matches" relies on this. The fixed backend's two `strcmp` calls are modelled as `LoginGate.FixedVerifier`. The preprocessor choice among the backends, and the `#error` when none is configured, are not modelled.
- **fgets.** Each read result is taken as what `fgets` returns: shorter than CONFIG_NSH_LINELEN and holding no NUL byte. This is an assumption about the environment, not about callers of the gate. How `fgets` splits an over-long line across several reads is not modelled. Neither is a line containing a NUL byte, of which the tokenizer would see only the part before the NUL.
- **isspace.** It is the C locale's six whitespace characters; other locales are not modelled.
- **Unterminated buffers.** When a token fills the buffer, a C reader would read past the 16-character buffer. The model's reader stops at the buffer's end instead. What a C program would do past the end is undefined behaviour and is not modelled.
- SeenBound: holds only for the model's reader, which stops at the end of an unterminated 16-byte buffer. In C, passwd_verify or strcmp reads such a buffer past its end (undefined behaviour) and can receive more than 16 characters.
- FixedLongCredentialRefused: holds only for the same reader. In C the strcmp at line 227 reads an unterminated `password[]` into whatever memory follows it, so a configured credential of 17 or more characters might still match.
- **Unused constants.** TELNET_WONT and TELNET_DONT are defined in the source but never used, and the model does not include them.
- **The console state.** `struct console_stdio_s` appears only as its line buffer `cn_line`; its other fields are not modelled.
