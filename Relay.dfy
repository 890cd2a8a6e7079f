/**
 * The signed client: sb_set_headers attaches the signature headers to a
 * client handle, and switch_bot_command builds one POST to the vendor API,
 * signs it and performs it once.
 */
module Relay {
  import opened Wrappers
  import opened HttpClient
  import Base64
  import Decimal
  import Signer

  const ApiHost: string := "api.switch-bot.com"
  const ContentTypeHeader: string := "Content-Type"
  const JsonContentType: string := "application/json"

  /** The build-time configuration the relay reads: API token, HMAC secret and target device. */
  datatype Config = Config(token: string, secret: string, speakerId: string)

  /** The device commands path for the configured speaker. */
  function SpeakerPath(cfg: Config): (p: string)
    ensures |p| == 14 + |cfg.speakerId| + 9
    ensures p[..14] == "/v1.1/devices/" && p[14..|p| - 9] == cfg.speakerId && p[|p| - 9..] == "/commands"
  {
    "/v1.1/devices/" + cfg.speakerId + "/commands"
  }

  /** What one relay attempt returns to the dispatcher and the requests it issued. */
  datatype RelayResult = RelayResult(rc: int, performed: seq<Outbound>)

  /**
   * The outcome of switch_bot_command for a request signed at ms milliseconds:
   * 1 and nothing sent when signing fails; otherwise 0 and exactly one POST
   * carrying the JSON content type, the four signature headers and the post
   * data. The transport's own success is not part of the outcome.
   */
  function Relay(hmac: Signer.Hmac, cfg: Config, nonce: string, postData: string, ms: int): (r: RelayResult)
    ensures r.rc == 0 || r.rc == 1
    ensures r.rc == 1 <==> |nonce| > Signer.MaxNonceLength
    ensures r.rc == 1 ==> r.performed == []
    ensures r.rc == 0 ==>
      && |r.performed| == 1
      && var req := r.performed[0];
      && req.httpMethod == Post && req.host == ApiHost && req.path == SpeakerPath(cfg)
      && req.body == postData
      && req.headers.Keys == {ContentTypeHeader, Signer.AuthorizationHeader, Signer.TimestampHeader,
                              Signer.NonceHeader, Signer.SignHeader}
      && req.headers[ContentTypeHeader] == JsonContentType
      && req.headers[Signer.AuthorizationHeader] == cfg.token
      && req.headers[Signer.NonceHeader] == nonce
      && req.headers[Signer.TimestampHeader] == Decimal.FormatInt(ms)
      && Decimal.ParseInt(req.headers[Signer.TimestampHeader]) == Some(ms)
      && req.headers[Signer.SignHeader]
         == Base64.Encode(hmac(cfg.secret, Signer.StringToSign(cfg.token, req.headers[Signer.TimestampHeader], nonce)))
      && Base64.Decode(req.headers[Signer.SignHeader])
         == Some(hmac(cfg.secret, Signer.StringToSign(cfg.token, req.headers[Signer.TimestampHeader], nonce)))
  {
    match Signer.Sign(hmac, cfg.secret, cfg.token, nonce, ms)
    case Failure(_) => RelayResult(1, [])
    case Success(h) =>
      var headers := map[ContentTypeHeader := JsonContentType] + Signer.HeaderMap(h);
      RelayResult(0, [Outbound(Post, ApiHost, SpeakerPath(cfg), headers, postData)])
  }

  lemma SignedValues(hmac: Signer.Hmac, cfg: Config, nonce: string, ms: int)
    requires |nonce| <= Signer.MaxNonceLength
    ensures var timestamp := Decimal.FormatInt(ms);
      Signer.Sign(hmac, cfg.secret, cfg.token, nonce, ms)
      == Success(Signer.SignedHeaders(cfg.token, timestamp, nonce,
                                      Base64.Encode(hmac(cfg.secret, Signer.StringToSign(cfg.token, timestamp, nonce)))))
  {
  }

  /** Setting the four headers one by one adds the header map of the signed values. */
  lemma HeaderUpdates(m: map<string, string>, h: Signer.SignedHeaders)
    ensures m[Signer.AuthorizationHeader := h.authorization][Signer.TimestampHeader := h.timestamp]
             [Signer.NonceHeader := h.nonce][Signer.SignHeader := h.sign]
            == m + Signer.HeaderMap(h)
  {
  }

  /**
   * sb_set_headers: returns 1 and leaves the client alone when the nonce is too
   * long; otherwise returns 0 after setting the four signature headers.
   */
  method SetSignedHeaders(client: Client, hmac: Signer.Hmac, cfg: Config, nonce: string, sec: int, usec: int)
    returns (rc: int)
    requires Signer.ValidClock(sec, usec)
    requires !client.cleanedUp
    modifies client
    ensures var s := Signer.Sign(hmac, cfg.secret, cfg.token, nonce, Signer.TimeMillis(sec, usec));
      && rc == (if s.Failure? then 1 else 0)
      && client.headers == (if s.Failure? then old(client.headers) else old(client.headers) + Signer.HeaderMap(s.value))
    ensures client.httpMethod == old(client.httpMethod) && client.body == old(client.body)
    ensures client.performed == old(client.performed) && !client.cleanedUp
  {
    if |nonce| > Signer.MaxNonceLength {
      return 1;
    }
    var ms := Signer.TimeMillis(sec, usec);
    var timestamp := Decimal.FormatInt(ms);
    var payload := Signer.StringToSign(cfg.token, timestamp, nonce);
    var digest := hmac(cfg.secret, payload);
    var output := Base64.Encode(digest);
    client.SetHeader(Signer.AuthorizationHeader, cfg.token);
    client.SetHeader(Signer.TimestampHeader, timestamp);
    client.SetHeader(Signer.NonceHeader, nonce);
    client.SetHeader(Signer.SignHeader, output);
    SignedValues(hmac, cfg, nonce, ms);
    HeaderUpdates(old(client.headers), Signer.SignedHeaders(cfg.token, timestamp, nonce, output));
    rc := 0;
  }

  /**
   * switch_bot_command: a fresh TLS client for the vendor host with redirects
   * disabled, method POST and a JSON content type; if signing fails it is
   * cleaned up without performing anything and the result is 1, otherwise the
   * body is set, the request is performed once and the result is 0 whatever
   * the transport reported.
   */
  method SwitchBotCommand(hmac: Signer.Hmac, cfg: Config, nonce: string, postData: string, sec: int, usec: int)
    returns (rc: int, client: Client)
    requires Signer.ValidClock(sec, usec)
    ensures fresh(client)
    ensures client.host == ApiHost && client.path == SpeakerPath(cfg)
    ensures client.overTls && !client.followRedirects && client.cleanedUp
    ensures RelayResult(rc, client.performed) == Relay(hmac, cfg, nonce, postData, Signer.TimeMillis(sec, usec))
    ensures rc == 1 ==> client.headers == map[ContentTypeHeader := JsonContentType]
  {
    client := new Client(ApiHost, SpeakerPath(cfg), true, false);
    client.SetMethod(Post);
    client.SetHeader(ContentTypeHeader, JsonContentType);
    var signed := SetSignedHeaders(client, hmac, cfg, nonce, sec, usec);
    if signed != 0 {
      client.Cleanup();
      return 1, client;
    }
    client.SetPostField(postData);
    var ok := client.Perform();
    client.Cleanup();
    rc := 0;
  }
}
