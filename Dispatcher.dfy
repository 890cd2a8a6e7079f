/**
 * command_handler: reads the request body into the server's scratch buffer,
 * takes the command and nonce from the parsed JSON, looks the command up and
 * relays it, and answers with one of three texts.
 */
module Dispatcher {
  import opened Wrappers
  import opened HttpClient
  import Commands
  import Relay
  import Signer
  import StaticFiles

  /** Size of the scratch buffer shared by the handlers. */
  const ScratchBufSize: nat := 10240

  /** Largest value of a 32-bit size_t, the type of the declared content length. */
  const SizeMax: nat := 0xFFFF_FFFF

  const InvalidCommand: string := "Invalid command"
  const PostSucceeded: string := "Post control value successfully"
  const BadNonce: string := "Bad nonce?"
  const ContentTooLong: string := "content too long"
  const ReceiveFailed: string := "Failed to post control value"

  datatype EspErr = EspOk | EspFail

  /** A 500 response with a message (httpd_resp_send_err) or a plain 200 text (httpd_resp_sendstr). */
  datatype Reply = ServerError(message: string) | Text(message: string)

  /** The string fields the handler reads from the parsed body; None when absent or not a string. */
  datatype JsonFields = JsonFields(command: Option<string>, nonce: Option<string>)

  /** The JSON parser, which is not part of this model. */
  type Parser = string -> JsonFields

  predicate FieldsPresent(f: JsonFields) {
    f.command.Some? && f.nonce.Some?
  }

  /** The C string a character buffer holds: everything before the first NUL. */
  function UntilNul(s: string): (r: string)
    ensures |r| <= |s| && r == s[..|r|]
    ensures forall i :: 0 <= i < |r| ==> r[i] != '\0'
    ensures |r| < |s| ==> s[|r|] == '\0'
  {
    if |s| == 0 || s[0] == '\0' then [] else [s[0]] + UntilNul(s[1..])
  }

  /** A terminator after the body does not change the C string it holds. */
  lemma {:induction false} UntilNulTerminated(s: string)
    ensures UntilNul(s + ['\0']) == UntilNul(s)
  {
    if |s| > 0 && s[0] != '\0' {
      assert (s + ['\0'])[1..] == s[1..] + ['\0'];
      UntilNulTerminated(s[1..]);
    }
  }

  predicate IsReplyText(r: Reply) {
    r.Text? && (r.message == InvalidCommand || r.message == PostSucceeded || r.message == BadNonce)
  }

  /** The reply to a parsed command and the upstream requests it causes. */
  datatype Outcome = Outcome(reply: Reply, performed: seq<Outbound>)

  /**
   * The dispatcher's decision once both fields are known: "Invalid command" and
   * no request for an unknown name; otherwise the relay's outcome, "Post
   * control value successfully" when it returns 0 and "Bad nonce?" when it
   * returns 1. The reply is always one of the three fixed texts, so no token,
   * secret or signature reaches the caller.
   */
  function Dispatch(hmac: Signer.Hmac, cfg: Relay.Config, command: string, nonce: string, ms: int): (o: Outcome)
    ensures IsReplyText(o.reply) && |o.performed| <= 1
    ensures command !in Commands.AcceptedCommands ==> o == Outcome(Text(InvalidCommand), [])
    ensures command in Commands.AcceptedCommands && |nonce| > Signer.MaxNonceLength ==>
      o == Outcome(Text(BadNonce), [])
    ensures command in Commands.AcceptedCommands && |nonce| <= Signer.MaxNonceLength ==>
      && o.reply == Text(PostSucceeded)
      && o.performed == Relay.Relay(hmac, cfg, nonce, Commands.SwitchBotPostData[Commands.CommandIndex(command)], ms).performed
      && |o.performed| == 1
    ensures o.performed != [] <==> command in Commands.AcceptedCommands && |nonce| <= Signer.MaxNonceLength
  {
    var idx := Commands.CommandIndex(command);
    if idx == -1 then Outcome(Text(InvalidCommand), [])
    else
      var r := Relay.Relay(hmac, cfg, nonce, Commands.SwitchBotPostData[idx], ms);
      Outcome(Text(if r.rc == 0 then PostSucceeded else BadNonce), r.performed)
  }

  /** Two relays of one command with different nonces issue different requests. */
  lemma DistinctNoncesDistinctRequests(hmac: Signer.Hmac, cfg: Relay.Config, command: string,
                                       nonce1: string, nonce2: string, ms1: int, ms2: int)
    requires command in Commands.AcceptedCommands
    requires |nonce1| <= Signer.MaxNonceLength && |nonce2| <= Signer.MaxNonceLength && nonce1 != nonce2
    ensures Dispatch(hmac, cfg, command, nonce1, ms1).performed[0] != Dispatch(hmac, cfg, command, nonce2, ms2).performed[0]
  {
    var r1, r2 := Dispatch(hmac, cfg, command, nonce1, ms1).performed[0], Dispatch(hmac, cfg, command, nonce2, ms2).performed[0];
    assert r1.headers[Signer.NonceHeader] != r2.headers[Signer.NonceHeader];
  }

  /**
   * Three end-to-end cases: a known command with a short nonce is relayed
   * once and answered with success; an unknown command and a 41-character
   * nonce are answered without any upstream request.
   */
  lemma Scenarios(hmac: Signer.Hmac, cfg: Relay.Config, ms: int)
    ensures var o := Dispatch(hmac, cfg, "power_on", "abc123", ms);
      o.reply == Text(PostSucceeded) && |o.performed| == 1 && o.performed[0].body == Commands.SwitchBotPostData[0]
    ensures Dispatch(hmac, cfg, "teleport", "abc123", ms) == Outcome(Text(InvalidCommand), [])
    ensures Dispatch(hmac, cfg, "power_on", seq(41, _ => 'n'), ms) == Outcome(Text(BadNonce), [])
  {
    Commands.KnownNames();
    assert Commands.AcceptedCommands[0] == "power_on";
  }

  /** The server context of start_rest_server: the document root and the scratch buffer. */
  class ServerContext {
    /** The document root as strlcpy keeps it in a buffer of ESP_VFS_PATH_MAX + 1 characters. */
    const basePath: string
    const scratch: array<char>

    ghost predicate Valid()
      reads this
    {
      scratch.Length == ScratchBufSize
    }

    /** The context is allocated zero-filled and the root copied in, cut to fit its buffer. */
    constructor (basePath: string)
      ensures Valid() && fresh(scratch)
      ensures this.basePath == if |basePath| <= StaticFiles.VfsPathMax then basePath else basePath[..StaticFiles.VfsPathMax]
      ensures forall i :: 0 <= i < scratch.Length ==> scratch[i] == '\0'
    {
      this.basePath := StaticFiles.StrlCpy(basePath, StaticFiles.VfsPathMax + 1);
      scratch := new char[ScratchBufSize](_ => '\0');
    }
  }

  function Min(a: int, b: int): int {
    if a < b then a else b
  }

  /**
   * An inbound request: its declared content length and the body bytes the
   * server can still deliver, never more than the declared length.
   */
  class IncomingRequest {
    const contentLen: nat
    var pending: seq<char>

    ghost predicate Valid()
      reads this
    {
      contentLen <= SizeMax && |pending| <= contentLen
    }

    constructor (contentLen: nat, body: seq<char>)
      requires contentLen <= SizeMax && |body| <= contentLen
      ensures Valid() && this.contentLen == contentLen && pending == body
    {
      this.contentLen := contentLen;
      pending := body;
    }

    /**
     * httpd_req_recv: copies up to maxLen of the pending bytes to buf at offset
     * and returns how many, never more than remain; or returns a non-positive
     * value on a closed connection, a timeout or a socket error, consuming nothing.
     */
    method Recv(buf: array<char>, offset: nat, maxLen: nat) returns (received: int)
      requires Valid()
      requires offset + Min(maxLen, |pending|) <= buf.Length
      modifies this, buf
      ensures Valid()
      ensures received <= 0 ==> pending == old(pending) && buf[..] == old(buf[..])
      ensures received > 0 ==>
        && received <= maxLen && received <= |old(pending)|
        && buf[..offset] == old(buf[..offset])
        && buf[offset..offset + received] == old(pending)[..received]
        && buf[offset + received..] == old(buf[offset + received..])
        && pending == old(pending)[received..]
    {
      received := *;
      if received <= 0 {
        return;
      }
      var n := Min(Min(received, maxLen), |pending|);
      if n == 0 {
        return 0;
      }
      for k := 0 to n
        modifies buf
        invariant forall i :: 0 <= i < buf.Length ==>
          buf[i] == if offset <= i < offset + k then pending[i - offset] else old(buf[i])
      {
        buf[offset + k] := pending[k];
      }
      assert buf[offset..offset + n] == pending[..n];
      pending := pending[n..];
      received := n;
    }
  }

  /**
   * command_handler. A declared length of ScratchBufSize or more is refused
   * with "content too long" before anything is read. Otherwise the body is
   * received into the scratch buffer until the declared length is reached;
   * a non-positive receive ends the request with "Failed to post control
   * value". After a full body the buffer is terminated at the declared length
   * and the outcome is that of Dispatch on the parsed command and nonce, with
   * the clock read when the request is signed.
   */
  method CommandHandler(ctx: ServerContext, req: IncomingRequest, hmac: Signer.Hmac, cfg: Relay.Config,
                        parse: Parser, sec: int, usec: int)
    returns (rc: EspErr, reply: Reply, performed: seq<Outbound>)
    requires ctx.Valid() && req.Valid()
    requires Signer.ValidClock(sec, usec)
    requires req.contentLen < ScratchBufSize && |req.pending| == req.contentLen ==>
      FieldsPresent(parse(UntilNul(req.pending)))
    modifies ctx.scratch, req
    ensures req.contentLen >= ScratchBufSize ==>
      && rc == EspFail && reply == ServerError(ContentTooLong) && performed == []
      && req.pending == old(req.pending) && ctx.scratch[..] == old(ctx.scratch[..])
    ensures req.contentLen < ScratchBufSize ==>
      || (&& rc == EspFail && reply == ServerError(ReceiveFailed) && performed == []
          && exists k :: 0 <= k < req.contentLen && k <= |old(req.pending)| && req.pending == old(req.pending)[k..]
               && ctx.scratch[..k] == old(req.pending)[..k] && ctx.scratch[k..] == old(ctx.scratch[k..]))
      || (&& rc == EspOk
          && |old(req.pending)| == req.contentLen && req.pending == []
          && ctx.scratch[..req.contentLen] == old(req.pending)
          && ctx.scratch[req.contentLen] == '\0'
          && ctx.scratch[req.contentLen + 1..] == old(ctx.scratch[req.contentLen + 1..])
          && var f := parse(UntilNul(old(req.pending)));
          && Outcome(reply, performed)
             == Dispatch(hmac, cfg, f.command.value, f.nonce.value, Signer.TimeMillis(sec, usec)))
    ensures rc == EspFail ==> performed == []
  {
    var totalLen := req.contentLen;
    if !LengthAccepted(totalLen) {
      return EspFail, ServerError(ContentTooLong), [];
    }
    ghost var body := req.pending;
    var curLen := 0;
    while curLen < totalLen
      invariant req.Valid()
      invariant 0 <= curLen <= |body| <= totalLen
      invariant req.pending == body[curLen..]
      invariant ctx.scratch[..curLen] == body[..curLen]
      invariant ctx.scratch[curLen..] == old(ctx.scratch[curLen..])
    {
      ghost var before := ctx.scratch[..];
      var received := req.Recv(ctx.scratch, curLen, totalLen);
      if received <= 0 {
        assert req.pending == body[curLen..];
        return EspFail, ServerError(ReceiveFailed), [];
      }
      assert ctx.scratch[..curLen + received] == ctx.scratch[..curLen] + ctx.scratch[curLen..curLen + received];
      assert body[..curLen + received] == body[..curLen] + body[curLen..][..received];
      assert ctx.scratch[curLen + received..] == before[curLen + received..] == old(ctx.scratch[curLen..])[received..];
      curLen := curLen + received;
    }
    assert body == ctx.scratch[..totalLen];
    ghost var filled := ctx.scratch[..];
    ctx.scratch[totalLen] := '\0';
    assert ctx.scratch[..totalLen + 1] == body + ['\0'];
    assert ctx.scratch[totalLen + 1..] == filled[totalLen + 1..];
    UntilNulTerminated(body);
    var fields := parse(UntilNul(ctx.scratch[..totalLen + 1]));
    var command, nonce := fields.command.value, fields.nonce.value;

    var cmdId := Commands.DetermineCommand(command);
    if cmdId == -1 {
      reply, performed := Text(InvalidCommand), [];
    } else {
      var postData := Commands.SwitchBotPostData[cmdId];
      var relayRc, client := Relay.SwitchBotCommand(hmac, cfg, nonce, postData, sec, usec);
      performed := client.performed;
      reply := if relayRc == 0 then Text(PostSucceeded) else Text(BadNonce);
    }
    rc := EspOk;
  }

  /**
   * The length check as the handler is modelled: on the declared length
   * itself. It is the check as written with the wrapped negative lengths
   * closed off.
   */
  predicate LengthAccepted(contentLen: nat): (r: bool)
    ensures contentLen <= SizeMax ==>
      (r <==> LengthAcceptedAsWritten(contentLen) && TotalLenAsWritten(contentLen) >= 0)
  {
    contentLen < ScratchBufSize
  }

  /**
   * The conversion in the source's first line: the size_t length, 32 bits on
   * this target, assigned to an int, which keeps the low 32 bits as a
   * two's-complement value.
   */
  function TotalLenAsWritten(contentLen: nat): (t: int)
    requires contentLen <= SizeMax
    ensures -0x8000_0000 <= t < 0x8000_0000
    ensures (t - contentLen) % 0x1_0000_0000 == 0
  {
    if contentLen < 0x8000_0000 then contentLen else contentLen - 0x1_0000_0000
  }

  /** The length check as written: on the converted int. */
  predicate LengthAcceptedAsWritten(contentLen: nat): (r: bool)
    requires contentLen <= SizeMax
    ensures r <==> contentLen < ScratchBufSize || contentLen >= 0x8000_0000
  {
    TotalLenAsWritten(contentLen) < ScratchBufSize
  }

  /**
   * Every declared length of 2^31 or more passes the check as written and
   * sends the terminator to a negative index, outside the scratch buffer.
   */
  lemma LengthCheckAsWrittenAdmitsHugeLengths(contentLen: nat)
    requires 0x8000_0000 <= contentLen <= SizeMax
    ensures LengthAcceptedAsWritten(contentLen) && TotalLenAsWritten(contentLen) < 0
  {
  }

  /** The two checks agree on every length below 2^31: the corrected one only closes the wrapped case. */
  lemma LengthChecksAgreeBelowWrap(contentLen: nat)
    requires contentLen < 0x8000_0000
    ensures LengthAccepted(contentLen) == LengthAcceptedAsWritten(contentLen)
  {
  }

  /** Concrete instance: a declared length of 0xFFFFFFFF becomes -1. */
  lemma MaxLengthBecomesMinusOne()
    ensures LengthAcceptedAsWritten(SizeMax) && TotalLenAsWritten(SizeMax) == -1
    ensures !LengthAccepted(SizeMax)
  {
  }
}
