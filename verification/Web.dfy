/** URLs as the `url` library parses them, and the shape a WebID claim must have (src/webid.rs). */
module Web {
  import opened Wrappers
  import opened Errors
  import opened Ssrf

  /** A host is an address literal or a name to be resolved. */
  datatype Host = Literal(ip: IpAddr) | Name(name: string)

  datatype Url = Url(scheme: string, username: string, password: Option<string>, host: Option<Host>,
      port: Option<nat>, text: string)
  {
    predicate HasUserinfo() {
      username != "" || password.Some?
    }
  }

  /** The WebID claim: an `https:` URL without userinfo, returned unchanged. */
  function ValidateWebIdClaim(parse: string -> Option<Url>, raw: string): (r: Result<string, Reason>)
    ensures r.Ok? <==>
            && raw != "" && parse(raw).Some? && parse(raw).value.scheme == "https"
            && parse(raw).value.username == "" && parse(raw).value.password == None
    ensures r.Ok? ==> r.value == raw
  {
    if raw == "" then Err(NoWebId)
    else
      match parse(raw)
      case None => Err(BadWebId)
      case Some(url) =>
        if url.scheme != "https" then Err(BadWebId)
        else if url.HasUserinfo() then Err(BadWebId)
        else Ok(raw)
  }
}
