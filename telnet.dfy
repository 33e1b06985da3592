/**
 * nsh_telnetecho: the telnet option frame that turns the peer's echo on or
 * off around the password read. Command codes are those of RFC 854
 * (IAC 255, WILL 251, DO 253); option 1 is ECHO (RFC 857).
 */
module Telnet {
  import opened CLib

  newtype byte = x: int | 0 <= x < 256

  const IAC: byte := 255
  const WILL: byte := 251
  const DO: byte := 253
  const ECHO_OPTION: byte := 1
  const USE_ECHO: byte := 1
  const NOTUSE_ECHO: byte := 0

  /**
   * Builds the four-byte buffer {IAC, verb, 1, 0} and writes it with fputs,
   * which stops at the NUL in the last byte: exactly three bytes reach the
   * stream. The verb is WILL when `isUse` is USE_ECHO and DO for every other
   * value, the polarity the source uses.
   */
  method TelnetEcho(isUse: byte) returns (emitted: seq<byte>)
    ensures emitted == [IAC, if isUse == USE_ECHO then WILL else DO, ECHO_OPTION]
    ensures 0 !in emitted
  {
    var optbuf := new byte[4];
    optbuf[0] := IAC;
    optbuf[1] := if isUse == USE_ECHO then WILL else DO;
    optbuf[2] := ECHO_OPTION;
    optbuf[3] := 0;
    emitted := CStr(optbuf[..], 0);
    CStrUnique(optbuf[..], 0, optbuf[..3]);
  }
}
