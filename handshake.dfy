/**
 * The opening-handshake response of websocket.go: getAccept and the
 * response text Handshake writes (section 4.2.2 of RFC 6455, as this code
 * does it). SHA-1 and base64 are library calls this model does not
 * interpret; they are passed in as functions.
 */
module Handshake {
  import opened Wrappers
  import opened Bytes

  /** The GUID appended to the client's key (main.go's wsGuid). */
  const WebSocketGuid: string := "258EAFA5-E914-47DA-95CA-C5AB0DC85B11"

  /** The header carrying the client's key, in the canonical form under
      which net/http stores and looks up "Sec-WebSocket-Key". */
  const SecWebSocketKey: string := "Sec-Websocket-Key"

  /** Everything Handshake writes before the accept token. */
  const ResponseHead: string :=
    "HTTP/1.1 101 Switching Protocols\r\n" +
    "Upgrade: websocket\r\n" +
    "Connection: Upgrade\r\n" +
    "Sec-WebSocket-Accept: "

  /** What Handshake writes after the accept token. */
  const ResponseTail: string := "\r\n\r\n"

  /** The library functions the token is built from: SHA-1 of a string's
      bytes (crypto/sha1) and standard padded base64 (encoding/base64). */
  datatype Crypto = Crypto(sha1: string -> seq<Byte>, base64: seq<Byte> -> string)

  /** base64(SHA-1(key + GUID)): the token section 4.2.2 of RFC 6455 asks for. */
  function FullAccept(key: string, c: Crypto): string
  {
    c.base64(c.sha1(key + WebSocketGuid))
  }

  /** The characters strings.TrimLeft(_, "ea") removes. */
  predicate IsTrimmed(ch: char)
  {
    ch == 'e' || ch == 'a'
  }

  /** strings.TrimLeft(s, "ea"): drops the longest prefix made only of 'e'
      and 'a'. The result is a suffix of `s`, everything dropped is 'e' or
      'a', and what is left does not start with either. */
  function TrimLeftEA(s: string): (r: string)
    ensures |r| <= |s| && r == s[|s| - |r|..]
    ensures forall i :: 0 <= i < |s| - |r| ==> IsTrimmed(s[i])
    ensures r != [] ==> !IsTrimmed(r[0])
  {
    if s != [] && IsTrimmed(s[0]) then TrimLeftEA(s[1..]) else s
  }

  /** getAccept: the full token with every leading 'e' and 'a' removed. It is
      a suffix of the full token, never starts with 'e' or 'a', and equals
      the full token exactly when that does not start with one of them. */
  function GetAccept(key: string, c: Crypto): (r: string)
    ensures var full := FullAccept(key, c);
      && |r| <= |full| && r == full[|full| - |r|..]
      && (forall i :: 0 <= i < |full| - |r| ==> IsTrimmed(full[i]))
      && (r != [] ==> !IsTrimmed(r[0]))
      && (r == full <==> full == [] || !IsTrimmed(full[0]))
  {
    TrimLeftEA(FullAccept(key, c))
  }

  /** http.Header.Get: the first value stored under `name`, or "" if none. */
  function HeaderGet(headers: map<string, seq<string>>, name: string): (v: string)
    ensures name in headers && |headers[name]| > 0 ==> v == headers[name][0]
    ensures v != "" ==> name in headers && |headers[name]| > 0 && v == headers[name][0]
  {
    if name in headers && |headers[name]| > 0 then headers[name][0] else ""
  }

  /** The bytes Handshake writes: none when the key header is missing or
      empty, otherwise the fixed 101 response carrying getAccept's token. */
  function HandshakeResponse(headers: map<string, seq<string>>, c: Crypto): (r: Option<string>)
    ensures r.None? <==> HeaderGet(headers, SecWebSocketKey) == ""
  {
    var key := HeaderGet(headers, SecWebSocketKey);
    if |key| == 0 then None
    else Some(ResponseHead + GetAccept(key, c) + ResponseTail)
  }

  /** The token Handshake put in a response: what lies between the fixed head and tail. */
  function AcceptField(response: string): string
    requires |response| >= |ResponseHead| + |ResponseTail|
  {
    response[|ResponseHead|..|response| - |ResponseTail|]
  }

  /** A response starts with the 101 status line and the fixed headers, ends
      with the blank line, and carries exactly getAccept's token between them. */
  lemma ResponseCarriesAccept(headers: map<string, seq<string>>, c: Crypto)
    requires HandshakeResponse(headers, c).Some?
    ensures var r := HandshakeResponse(headers, c).value;
      && |r| >= |ResponseHead| + |ResponseTail|
      && r[..|ResponseHead|] == ResponseHead
      && r[|r| - |ResponseTail|..] == ResponseTail
      && AcceptField(r) == GetAccept(HeaderGet(headers, SecWebSocketKey), c)
  {
    var accept := GetAccept(HeaderGet(headers, SecWebSocketKey), c);
    var r := ResponseHead + accept + ResponseTail;
    assert r[..|ResponseHead|] == ResponseHead;
    assert r[|r| - |ResponseTail|..] == ResponseTail;
    assert r[|ResponseHead|..|r| - |ResponseTail|] == accept;
  }

  /** The trimming makes the token differ from the one RFC 6455 asks for
      whenever the full token starts with 'e' or 'a'. */
  lemma AcceptShortenedByLeadingEA(key: string, c: Crypto)
    requires FullAccept(key, c) != [] && IsTrimmed(FullAccept(key, c)[0])
    ensures |GetAccept(key, c)| < |FullAccept(key, c)|
  {
  }

  /** The test vector of section 1.3 of RFC 6455: a library pair that maps
      the sample key to "s3pPLMBiTxaQ9kYGzzhZRbK+xOo=" yields that token
      unchanged, since it starts with 's'. */
  lemma RfcSampleKeyUntrimmed(c: Crypto)
    requires FullAccept("dGhlIHNhbXBsZSBub25jZQ==", c) == "s3pPLMBiTxaQ9kYGzzhZRbK+xOo="
    ensures GetAccept("dGhlIHNhbXBsZSBub25jZQ==", c) == "s3pPLMBiTxaQ9kYGzzhZRbK+xOo="
  {
  }
}
