# Signed command relay of the remote hardware controller

This project models the signed command relay of an ESP32 web controller
(`main/rest_server.c`). The controller accepts `POST /api/v1/command` with a
JSON body `{"command": …, "nonce": …}`. It looks the command up in a fixed
table of nine names and signs an upstream request for the vendor's cloud API
(`api.switch-bot.com`). It sends that request once and answers the caller with
one of three texts. The model also covers the two pure helpers of the static
file handler: path composition and the content type.

Modules, one per component:

- `Wrappers`: `Option` and `Result`.
- `Base64`: the encoder of section 4 of RFC 4648, standard alphabet with `=` padding. Its decoder is the partner that proves the encoding injective.
- `Decimal`: the `%lld` rendering of the timestamp and its inverse.
- `Signer`: `time_millis`, the string `token ++ timestamp ++ nonce`, and the four header values. HMAC-SHA256 is a parameter `hmac: (key, message) -> 32 bytes`.
- `HttpClient`: the client handle as a class. It holds a header map, a method and a body. It keeps a log of the requests `perform` has issued (the "performed" record) and a cleaned-up flag.
- `Relay`: `sb_set_headers` (`SetSignedHeaders`) and `switch_bot_command` (`SwitchBotCommand`). Both are methods. `SetSignedHeaders` is proved against `Signer.Sign` and the signed header map; `SwitchBotCommand` is proved against the pure function `Relay`.
- `Commands`: the two tables and `determine_command`, with the true entry count of 9.
- `Dispatcher`: `command_handler`. The receive loop fills a 10240-character scratch `array`. The reply decision is the pure function `Dispatch`.
- `StaticFiles`: the path composition and content type table of the GET handler.

Inputs the C code reads from its environment are parameters:

- the clock (`sec`, `usec`, as `gettimeofday` gives them);
- the configuration (token, secret, speaker id);
- the HMAC function;
- the JSON parser (`parse: string -> JsonFields`, with optional `command` and `nonce`).

Nondeterminism comes from two methods whose bodies choose an arbitrary value:

- `HttpClient.Client.Perform`, the transport;
- `Dispatcher.IncomingRequest.Recv`, `httpd_req_recv`.

Behaviour of the code worth knowing:

- A transport failure or an upstream error status makes `switch_bot_command` return 0. The caller is then told "Post control value successfully".
- The length check rejects a declared length *equal to* 10240 and larger ones below 2^31 (see Findings).
- All commands share one upstream path, `/v1.1/devices/<speaker id>/commands`.
- A missing `command`/`nonce` field makes the code dereference a null item. A field that is present but not a string has a NULL `valuestring`, which goes on to `strcmp` in `determine_command` (or to the signer, for the nonce). So `CommandHandler` takes the presence of both fields as a precondition.
- The C loop bound in `determine_command` is `sizeof(acceptedCommands)`. That counts bytes, not entries, so an unknown name reads past the table. The model scans the 9 real entries instead.

## Model

| member | source | states |
|---|---|---|
| `Base64.DecodeEncode` | main/rest_server.c:108-111 | decoding the base64 text of any byte string gives that byte string back |
| `Base64.EncodeInjective` | main/rest_server.c:108-111 | different byte strings never get the same base64 text |
| `Base64.EncodeLength` | main/rest_server.c:108-111 | n bytes encode to 4 * ceil(n / 3) characters (padded groups of four) |
| `Base64.DigestLength` | main/rest_server.c:108-111 | a 32-byte digest encodes to 44 characters |
| `Base64.DigitValue` | main/rest_server.c:110 | whenever a character has a value, that character is the alphabet's digit for this value |
| `Base64.DigitRoundTrip` | main/rest_server.c:110 | every digit value maps to a character that reads back as the same value |
| `Base64.Vectors` | main/rest_server.c:110 | the encoding gives the test vectors of section 10 of RFC 4648 ("f" to "foobar") and `//79` for the bytes 255, 254, 253 |
| `Base64.Encode` | main/rest_server.c:110 | the encoding is whole groups of four characters, each a digit of the RFC 4648 alphabet or '=' |
| `Decimal.FormatInt` | main/rest_server.c:88 | the `%lld` text starts with '-' exactly for a negative number; the rest is a non-empty digit string with no leading zero |
| `Decimal.FormatNat` | main/rest_server.c:88 | the rendering is a non-empty string of decimal digits with no leading zero |
| `Decimal.ParseFormatInt` | main/rest_server.c:87-88 | reading the `%lld` text of any integer, sign included, gives the integer back |
| `Decimal.FormatNatLength` | main/rest_server.c:87-88 | a number below 10^k takes at most k digits |
| `Decimal.TimestampFits` | main/rest_server.c:87-88 | every timestamp from -10^18 (exclusive) up to the int64 maximum fits the 20-byte buffer with its terminator |
| `Signer.TimeMillis` | main/rest_server.c:71-75 | the millisecond count divided by 1000 is the seconds, and its remainder is the whole milliseconds of the microseconds |
| `Signer.StringToSign` | main/rest_server.c:90 | the string to sign is the token, then the timestamp, then the nonce, with nothing between them |
| `Signer.Sign` | main/rest_server.c:82-111 | fails exactly when the nonce is longer than 40 characters; otherwise Authorization is the token and nonce is the nonce; the timestamp is the `%lld` text of the millisecond count and parses back to it; the signature is the padded base64 text of the HMAC of `token ++ timestamp ++ nonce` under the secret, decodes back to that digest and fits the 64-byte output buffer |
| `Signer.SignatureLength` | main/rest_server.c:108-111 | a successful signature is exactly 44 characters |
| `Signer.PayloadFits` | main/rest_server.c:87-90 | with a nonce of at most 40 characters, a token of at most 99 and a timestamp above -10^18, the timestamp fits its 20-byte buffer and the string to sign fits the 160-byte buffer |
| `Signer.SignatureDeterminesDigest` | main/rest_server.c:100-111 | two equal signatures encode equal HMAC digests, so any change of digest changes the sign header |
| `HttpClient.Client.constructor` | main/rest_server.c:130-138 | a fresh handle for the given host and path is a GET with none of the headers this code sets, no body and nothing performed |
| `HttpClient.Client.SetMethod` | main/rest_server.c:139 | sets the method and changes nothing else |
| `HttpClient.Client.SetHeader` | main/rest_server.c:140 | adds or replaces one header and changes nothing else |
| `HttpClient.Client.SetPostField` | main/rest_server.c:147 | sets the body and changes nothing else |
| `HttpClient.Client.Perform` | main/rest_server.c:149 | appends to the performed log the request made of the handle's method, host, path, headers and body just before the call, changes nothing else, and its success is arbitrary |
| `HttpClient.Client.Cleanup` | main/rest_server.c:143 | marks the handle released and changes nothing else |
| `Relay.SpeakerPath` | main/rest_server.c:80 | the path is `/v1.1/devices/`, the configured speaker id and `/commands`, in that order |
| `Relay.Relay` | main/rest_server.c:125-162 | returns 1 and issues nothing exactly when the nonce is too long; otherwise returns 0 with exactly one POST to the vendor host and speaker path; of the headers this code sets it carries exactly the JSON content type and the four signature headers (the token, the `%lld` timestamp, the nonce, the base64 of the HMAC); the body is the post data |
| `Relay.HeaderUpdates` | main/rest_server.c:114-117 | setting the four headers one after another equals adding the signed header map |
| `Relay.SetSignedHeaders` | main/rest_server.c:82-120 | returns 1 and leaves the headers alone when signing fails; otherwise returns 0 with the signed header map added; method, body and performed log do not change |
| `Relay.SwitchBotCommand` | main/rest_server.c:125-162 | a fresh TLS client without redirects for the vendor host; its return code and performed log are those of `Relay`, so the result is 0 however the transport ended; on failure only the Content-Type header was set and nothing was performed; the handle is always cleaned up |
| `Commands.TablesParallel` | main/rest_server.c:213-239 | the name table and the post body table both have 9 entries |
| `Commands.IndexFrom` | main/rest_server.c:220-227 | the first position at or after the start whose name equals the input, or -1 when no later name does |
| `Commands.CommandIndex` | main/rest_server.c:220-227 | -1 exactly when the name is not accepted; otherwise a valid index holding that name |
| `Commands.DetermineCommand` | main/rest_server.c:220-227 | the loop returns the first of the 9 indices whose name equals the input exactly, or -1 if none does; the result indexes the post body table |
| `Commands.NamesDistinct` | main/rest_server.c:213-218 | no accepted name appears twice |
| `Commands.KnownNames` | main/rest_server.c:213-227 | each accepted name resolves to its own position; "teleport" and the upper-case "POWER_ON" resolve to -1 |
| `Commands.MutePayloadsIdentical` | main/rest_server.c:229-239 | mute_on and mute_off (positions 2 and 3) send the same JSON body |
| `Dispatcher.UntilNul` | main/rest_server.c:265-267 | the C string in a buffer is its longest NUL-free prefix, ended by a NUL or by the end of the buffer |
| `Dispatcher.UntilNulTerminated` | main/rest_server.c:265-267 | terminating the received body does not change the string the parser reads |
| `Dispatcher.Dispatch` | main/rest_server.c:273-283 | an unknown command gives "Invalid command" and no request; a known one with a nonce over 40 gives "Bad nonce?" and no request; otherwise "Post control value successfully" and exactly the relay's one request; the reply is always one of the three texts |
| `Dispatcher.DistinctNoncesDistinctRequests` | main/rest_server.c:273-283 | relaying one command with two different nonces issues two different requests |
| `Dispatcher.Scenarios` | main/rest_server.c:245-287 | power_on with nonce abc123 succeeds with one request carrying the power-on body; teleport is invalid with no request; a 41-character nonce gives "Bad nonce?" with no request |
| `Dispatcher.ServerContext.constructor` | main/rest_server.c:292-294 | the context holds the document root cut to its first 15 characters, as `strlcpy` into the 16-byte field keeps it, and a zero-filled scratch buffer of 10240 characters |
| `Dispatcher.IncomingRequest.constructor` | main/rest_server.c:247 | a request with a declared length and the body bytes still to be delivered |
| `Dispatcher.IncomingRequest.Recv` | main/rest_server.c:257 | a positive result copies that many pending bytes (at most the requested length, at most what remains) to the buffer at the offset, touches nothing else and consumes them; a non-positive result changes nothing |
| `Dispatcher.CommandHandler` | main/rest_server.c:245-287 | a declared length of 10240 or more is refused with "content too long" before reading, with buffer and request untouched; otherwise either a receive fails ("Failed to post control value", no request) after some k < declared length bytes were copied to the front of the buffer and consumed, the rest of the buffer unchanged; or the whole body lands in the scratch buffer, terminated at the declared length inside the buffer, the rest unchanged, and reply and requests are those of `Dispatch` on the parsed fields |
| `Dispatcher.LengthAccepted` | main/rest_server.c:247-251 | the corrected check accepts exactly what the check as written accepts minus the lengths whose int copy is negative |
| `Dispatcher.LengthAcceptedAsWritten` | main/rest_server.c:247-251 | the check as written accepts a length exactly when it is below 10240 or at least 2^31 |
| `Dispatcher.TotalLenAsWritten` | main/rest_server.c:247 | the int copy of the size_t length is in the int32 range and congruent to it modulo 2^32 |
| `Dispatcher.LengthCheckAsWrittenAdmitsHugeLengths` | main/rest_server.c:247-265 | every declared length from 2^31 up passes the check as written and yields a negative terminator index |
| `Dispatcher.LengthChecksAgreeBelowWrap` | main/rest_server.c:247-251 | below 2^31 the corrected check and the check as written agree |
| `Dispatcher.MaxLengthBecomesMinusOne` | main/rest_server.c:247-265 | a declared length of 0xFFFFFFFF passes the check as written with total length -1, and the corrected check refuses it |
| `StaticFiles.StrlCpy` | main/rest_server.c:169 | the copy is a prefix of the source of exactly size - 1 characters when the source does not fit, and the whole source when it fits |
| `StaticFiles.StrlCat` | main/rest_server.c:171-173 | the result keeps the destination and appends a prefix of the source, filling the buffer to exactly size - 1 characters when the source does not fit, and the whole source when it fits |
| `StaticFiles.FilePath` | main/rest_server.c:169-174 | the composed path always fits FILE_PATH_MAX with its terminator and starts with the document root when that fits |
| `StaticFiles.FilePathIsTruncatedTarget` | main/rest_server.c:169-174 | the composed path is `base_path ++ "/index.html"` for a URI ending in '/' and `base_path ++ uri` otherwise, cut to FILE_PATH_MAX - 1 characters; it is exactly that target whenever the target fits |
| `StaticFiles.HasExtension` | main/rest_server.c:42 | the path ends with the extension exactly when each of its last characters equals the extension's character at the same place, ignoring ASCII case |
| `StaticFiles.ContentTypeFor` | main/rest_server.c:51-68 | the type is one of the six table entries or text/plain, and text/plain only when no extension matched |
| `StaticFiles.ContentTypeIsFirstMatch` | main/rest_server.c:51-68 | the type chosen belongs to the first of .html, .js, .css, .png, .ico, .svg that the path ends with |
| `StaticFiles.ContentTypeDefault` | main/rest_server.c:51-68 | a path with none of the six extensions gets text/plain |
| `StaticFiles.HasExtensionIgnoresCase` | main/rest_server.c:42 | the extension test does not depend on the case of the path |
| `StaticFiles.ContentTypeIgnoresCase` | main/rest_server.c:42-68 | lower-casing the path never changes the content type |

## Left out

- HMAC-SHA256 itself (the mbedtls `md` calls). It is a library. The model takes it as a function parameter that returns 32 bytes and assumes nothing else about it, such as collision resistance.
- A signature that changes whenever the nonce, token, secret or timestamp change would need HMAC collision resistance. The model proves only the parts that do not: `Signer.SignatureDeterminesDigest`, `Decimal.ParseFormatInt` and `Dispatcher.DistinctNoncesDistinctRequests`.
- TLS, the server certificate and the network transport behind `esp_http_client_perform`. These are a library; `Perform` succeeds or fails arbitrarily. Status codes and content lengths are only logged by the source, so they are not modelled.
- cJSON parsing. It is a library; the parser is a parameter returning optional fields. Freeing the parse tree is not modelled.
- All logging (`ESP_LOGI`/`ESP_LOGE`). It has no effect on results.
- Reading the clock with `gettimeofday`. The seconds and microseconds are parameters.
- File streaming in `rest_common_get_handler`: open, the chunked read/send loop, and the 500 replies. These are filesystem and socket I/O. Only the path composition and the content type choice are modelled.
- `start_rest_server` handler registration, and all of `main/esp_rest_main.c`: mDNS, NetBIOS, the SPIFFS mount, SNTP and `app_main`. These are startup and configuration I/O.
- `HttpClient.Client`: the map holds only the headers this code sets. ESP-IDF's client adds User-Agent and Host itself, and Content-Length for a body; those are not modelled, so `Relay.Relay`'s exact header set is that of this code. A failed `esp_http_client_init` (a NULL handle) is not modelled either: the constructor always succeeds.
- `HttpClient.Client`: headers are a map, so the order in which the library sends them is not captured. Memory release at cleanup is reduced to a flag.
- `Dispatcher.CommandHandler` requires both JSON fields to be present strings. The source dereferences a null item otherwise.
- `Dispatcher.CommandHandler` uses the corrected length check (see Findings). With the check as written, a declared length of 2^31 or more leads to a write outside the buffer. C gives that no defined meaning, so it cannot be modelled.
- `Dispatcher.IncomingRequest.Recv` promises never to return more bytes than remain of the declared length. That limit comes from ESP-IDF's `httpd_req_recv`, which is not part of this model. The loop's bound `cur_len <= total_len` relies on it.
- `Signer.PayloadFits` states when the `sprintf` into the 160-byte buffer is safe. The model's strings are unbounded, so overflow of the C buffer for a longer token is not modelled.
- `Decimal.TimestampFits` leaves out the same kind of overflow for a timestamp at or below -10^18.
- `StaticFiles.HasExtension` treats a path shorter than the extension as not matching. The C macro would index before the start of the string.
- `StaticFiles.FilePath` requires a non-empty URI. The server always passes one starting with '/'.
- `StaticFiles` takes `FILE_PATH_MAX` as 15 + 128. The 15 is ESP-IDF's `ESP_VFS_PATH_MAX`, whose header is not part of this model.
- Strings are sequences of characters without byte encoding. NUL-free C strings are assumed for the token, secret, nonce and command: `strlen` is the sequence length.

## Findings

| source | as written | input that shows it | evidently intended | confidence | as-written member | corrected member |
|---|---|---|---|---|---|---|
| main/rest_server.c:247-265 | `int total_len = req->content_len;` copies the 32-bit `size_t` length into an `int`, and the guard `total_len >= SCRATCH_BUFSIZE` is applied to that copy | a request declaring `Content-Length: 4294967295` gives `total_len == -1`: the guard passes, the receive loop is skipped, `buf[-1] = '\0'` writes before the scratch buffer, and the parser reads whatever an earlier request left in the buffer | refuse every declared length of 10240 or more, comparing the unsigned length itself | medium, not executed | `Dispatcher.LengthCheckAsWrittenAdmitsHugeLengths` | `Dispatcher.CommandHandler` |
