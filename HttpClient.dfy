/**
 * The outbound HTTP client handle (esp_http_client) as the relay uses it: a
 * header map, a method and a body that setters change one at a time, and a
 * log of the requests perform has issued. The transport behind perform is not
 * part of this model; it may succeed or fail.
 */
module HttpClient {

  datatype HttpMethod = Get | Post

  /** One request as perform issues it. */
  datatype Outbound = Outbound(httpMethod: HttpMethod, host: string, path: string, headers: map<string, string>, body: string)

  class Client {
    const host: string
    const path: string
    const overTls: bool
    const followRedirects: bool
    var httpMethod: HttpMethod
    var headers: map<string, string>
    var body: string
    var performed: seq<Outbound>
    var cleanedUp: bool

    /**
     * esp_http_client_init: a GET with none of the headers this code sets, no
     * body and nothing performed yet. Headers the library adds by itself are
     * not part of the map.
     */
    constructor (host: string, path: string, overTls: bool, followRedirects: bool)
      ensures this.host == host && this.path == path
      ensures this.overTls == overTls && this.followRedirects == followRedirects
      ensures httpMethod == Get && headers == map[] && body == [] && performed == [] && !cleanedUp
    {
      this.host, this.path := host, path;
      this.overTls, this.followRedirects := overTls, followRedirects;
      httpMethod, headers, body, performed, cleanedUp := Get, map[], [], [], false;
    }

    /** The request perform would issue now. */
    function Request(): Outbound
      reads this
    {
      Outbound(httpMethod, host, path, headers, body)
    }

    method SetMethod(m: HttpMethod)
      requires !cleanedUp
      modifies this
      ensures httpMethod == m
      ensures headers == old(headers) && body == old(body) && performed == old(performed) && !cleanedUp
    {
      httpMethod := m;
    }

    /** Sets a header, replacing an earlier value under the same name. */
    method SetHeader(name: string, value: string)
      requires !cleanedUp
      modifies this
      ensures headers == old(headers)[name := value]
      ensures httpMethod == old(httpMethod) && body == old(body) && performed == old(performed) && !cleanedUp
    {
      headers := headers[name := value];
    }

    method SetPostField(data: string)
      requires !cleanedUp
      modifies this
      ensures body == data
      ensures httpMethod == old(httpMethod) && headers == old(headers) && performed == old(performed) && !cleanedUp
    {
      body := data;
    }

    /** Issues the current request once; whether the transport succeeded is not known in advance. */
    method Perform() returns (ok: bool)
      requires !cleanedUp
      modifies this
      ensures performed == old(performed) + [old(Request())]
      ensures httpMethod == old(httpMethod) && headers == old(headers) && body == old(body) && !cleanedUp
    {
      performed := performed + [Request()];
      ok := *;
    }

    /** Releases the handle; no setter or perform may follow. */
    method Cleanup()
      requires !cleanedUp
      modifies this
      ensures cleanedUp
      ensures httpMethod == old(httpMethod) && headers == old(headers) && body == old(body) && performed == old(performed)
    {
      cleanedUp := true;
    }
  }
}
