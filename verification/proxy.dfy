/** The mock server's proxy settings (cli/src/common/infer-proxy-config.js):
    the protocol is read off the front of the proxy base URL. */
module ProxyConfigs {
  import opened Util
  import opened Text

  datatype ProxyConfig = ProxyConfig(protocol: string, proxyBaseUrl: string)

  const ProtocolMessage := "Could not infer protocol from proxy base url, should be either \"http\" or \"https\"."

  /** `proxyBaseUrl.split("://")[0]`: the text before the first `://`. */
  function Protocol(url: string): (p: string)
    ensures |p| <= |url| && p == url[..|p|]
    ensures forall k :: 0 <= k < |p| ==> !OccursAt(url, "://", k)
    ensures |p| < |url| ==> |p| + 3 <= |url| && url[|p|..|p| + 3] == "://"
    ensures (forall k :: 0 <= k < |url| ==> !OccursAt(url, "://", k)) ==> p == url
  {
    BeforeFirst(url, "://")
  }

  /** `inferProxyConfig(proxyBaseUrl)`: no proxy for an absent or empty URL;
      otherwise an `http` or `https` protocol, or a failure. */
  function InferProxyConfig(url: Option<string>): (r: Result<Option<ProxyConfig>, string>)
    ensures url.None? || url == Some("") ==> r == Ok(None)
    ensures r.Err? ==> r.error == ProtocolMessage
    ensures r.Ok? && r.value.Some? ==> url.Some? && r.value.value.proxyBaseUrl == url.value
    ensures r.Ok? && r.value.Some? ==> r.value.value.protocol in {"http", "https"}
    ensures r.Ok? && r.value.Some? ==> r.value.value.protocol == Protocol(url.value)
    ensures url.Some? && url.value != "" ==> (r.Ok? <==> Protocol(url.value) in {"http", "https"})
  {
    match url
    case None => Ok(None)
    case Some(u) =>
      if u == "" then Ok(None)
      else
        var protocol := Protocol(u);
        if protocol != "http" && protocol != "https" then Err(ProtocolMessage)
        else Ok(Some(ProxyConfig(protocol, u)))
  }

  /** A scheme without `:` is read back as the protocol of `scheme://rest`. */
  lemma ProtocolOfScheme(scheme: string, rest: string)
    requires ':' !in scheme
    ensures Protocol(scheme + "://" + rest) == scheme
  {
    var u := scheme + "://" + rest;
    assert OccursAt(u, "://", |scheme|) by {
      assert u[|scheme|..|scheme| + 3] == "://";
    }
    forall k | 0 <= k < |scheme| ensures !OccursAt(u, "://", k) {
      assert u[k] == scheme[k];
    }
    var i := IndexOf(u, "://", 0);
    assert i == Some(|scheme|);
    assert u[..|scheme|] == scheme;
  }

  /** `http://…` and `https://…` URLs are accepted with their scheme; any other
      colon-free scheme is rejected. */
  lemma InferScheme(scheme: string, rest: string)
    requires ':' !in scheme
    ensures var r := InferProxyConfig(Some(scheme + "://" + rest));
      if scheme in {"http", "https"} then r == Ok(Some(ProxyConfig(scheme, scheme + "://" + rest)))
      else r == Err(ProtocolMessage)
  {
    ProtocolOfScheme(scheme, rest);
  }
}
