/** The dynamic-DNS update of `DynamicDNSRecord::update` and
    `DynamicDNSRecord::discover_ip`: choose the address to publish (the
    configured one, or the one an IP-echo service reports), send it to the
    provider's update endpoint, and turn the provider's plain-text reply into
    an address or a classified error.

    The two HTTP exchanges are not performed: each reply is an input, and an
    update reports the requests it issues next to its result, so that which
    requests happen, in which order and with which parameters is part of
    the model. */
module DynamicDns {
  import opened Wrappers
  import opened Strings
  import opened Ip

  /** The classified failures (Rust's `DynamicDNSUpdateError`). The string
      payloads are the domain name, the username, the text of an address or
      the trimmed discovery reply, as each constructor's name says. */
  datatype UpdateError =
    | FQDNNotFound(fqdn: string)
    | InvalidFQDN(fqdn: string)
    | InvalidCredentials(username: string)
    | ConflictingIPv6Record(ip: string)
    | ConflictingIPv4Record(ip: string)
    | InvalidIPAddress(ip: string)
    | UnableToParseIPAddress(text: string)
    | Unknown(fqdn: string, ip: string)

  /** Everything an update can fail with (the `anyhow::Error` it returns),
      plus the panic of the `unwrap` on a missing echoed address. */
  datatype Failure =
    | Domain(error: UpdateError)  // a DynamicDNSUpdateError
    | AddrParse                   // the provider echoed a word that is not an address
    | Transport                   // an HTTP request or reading its body failed
    | Panic                       // a success reply carried no second word

  /** The settings of one update (Rust's `DynamicDNSUpdateConfig`). */
  datatype UpdateConfig = UpdateConfig(
    username: string,
    password: string,
    ip: Option<IpAddr>,   // the address to publish, if given by hand
    url: Option<string>)  // the IP-echo service to ask, if not the default

  /** The record to keep up to date (Rust's `DynamicDNSRecord`). */
  datatype Record = Record(fqdn: string, config: UpdateConfig)

  /** What an HTTP exchange gave back: the body's text, or a transport
      failure. */
  datatype Reply = Body(text: string) | TransportError

  /** An HTTP request the update issues. A POST carries its Basic-auth
      credentials and its query parameters in order. */
  datatype Request =
    | Get(url: string)
    | Post(url: string, username: string, password: string, query: seq<(string, string)>)

  /** The requests issued, in order, and the outcome. */
  datatype Exchange = Exchange(requests: seq<Request>, result: Result<IpAddr, Failure>)

  const DefaultDiscoveryUrl: string := "https://api.ipify.org/?format=text"
  const UpdateEndpoint: string := "https://infomaniak.com/nic/update"

  /** The provider's reply when it rejects the address's structure. The two
      pieces are one sentence, written in two so that the verifier can see
      its characters. */
  const InvalidTargetReply: string :=
    "The Target field's structure " + "for a A-type entry is incorrect."

  /** The IP-echo service discovery asks. */
  function DiscoveryUrl(config: UpdateConfig): string {
    match config.url
    case Some(url) => url
    case None => DefaultDiscoveryUrl
  }

  /** Ask the IP-echo service for our address: one GET, then the reply's
      trimmed text parsed as an address. */
  function DiscoverIp(config: UpdateConfig, reply: Reply): (x: Exchange)
    ensures x.requests == [Get(DiscoveryUrl(config))]
    ensures reply.TransportError? ==> x.result == Failure(Transport)
    ensures x.result.Success? ==> reply.Body? && Text(x.result.value) == Trim(reply.text)
    ensures reply.Body? && x.result.Failure? ==>
              && x.result.error == Domain(UnableToParseIPAddress(Trim(reply.text)))
              && forall ip :: Text(ip) != Trim(reply.text)
  {
    var get := [Get(DiscoveryUrl(config))];
    match reply
    case TransportError => Exchange(get, Failure(Transport))
    case Body(text) =>
      var trimmed := Trim(text);
      ParseMeaning(trimmed);
      match Parse(trimmed)
      case Some(ip) => Exchange(get, Success(ip))
      case None => Exchange(get, Failure(Domain(UnableToParseIPAddress(trimmed))))
  }

  /** The address to publish: the configured one as it is, or else the
      discovered one. */
  function ChooseIp(config: UpdateConfig, discovery: Reply): (x: Exchange)
    ensures config.ip.Some? ==> x == Exchange([], Success(config.ip.value))
    ensures config.ip.None? ==> x.requests == [Get(DiscoveryUrl(config))]
    ensures config.ip.None? ==> x == DiscoverIp(config, discovery)
    ensures config.ip.None? && x.result.Success? ==>
              discovery.Body? && Text(x.result.value) == Trim(discovery.text)
  {
    match config.ip
    case Some(ip) => Exchange([], Success(ip))
    case None => DiscoverIp(config, discovery)
  }

  /** The update request for publishing ip as the record's address. */
  function UpdateRequest(record: Record, ip: IpAddr): Request {
    Post(UpdateEndpoint, record.config.username, record.config.password,
         [("hostname", record.fqdn), ("myip", Text(ip))])
  }

  /** A reply that reports success: the record was updated or already held
      the address. */
  predicate IsAck(body: string) {
    StartsWith(body, "good") || StartsWith(body, "nochg")
  }

  /** Interpret the provider's reply to publishing ip for fqdn. Success
      replies are recognised by prefix, before any error literal; error
      replies are matched exactly, character for character. */
  function Classify(body: string, fqdn: string, username: string, ip: IpAddr): (r: Result<IpAddr, Failure>)
    ensures r.Success? <==>
              IsAck(body) && |Words(body)| >= 2 && exists echoed :: Text(echoed) == Words(body)[1]
    ensures r.Success? ==> Text(r.value) == Words(body)[1]
    ensures r == Failure(Panic) <==> IsAck(body) && |Words(body)| < 2
    ensures r == Failure(AddrParse) <==>
              IsAck(body) && |Words(body)| >= 2 && forall echoed :: Text(echoed) != Words(body)[1]
    ensures r.Failure? && r.error.Domain? <==> !IsAck(body)
    ensures r.Failure? ==> r.error != Transport
  {
    if StartsWith(body, "good") || StartsWith(body, "nochg") then
      var words := Words(body);
      if |words| < 2 then
        Failure(Panic)
      else
        ParseMeaning(words[1]);
        match Parse(words[1])
        case Some(echoed) => Success(echoed)
        case None => Failure(AddrParse)
    else
      if body == "nohost" then Failure(Domain(FQDNNotFound(fqdn)))
      else if body == "notfqdn" then Failure(Domain(InvalidFQDN(fqdn)))
      else if body == "badauth" then Failure(Domain(InvalidCredentials(username)))
      else if body == "conflict A" then Failure(Domain(ConflictingIPv6Record(Text(ip))))
      else if body == "conflict AAAA" then Failure(Domain(ConflictingIPv4Record(Text(ip))))
      else if body == InvalidTargetReply then Failure(Domain(InvalidIPAddress(Text(ip))))
      else Failure(Domain(Unknown(fqdn, Text(ip))))
  }

  /** An address can be chosen without asking the provider anything. */
  ghost predicate Resolvable(config: UpdateConfig, discovery: Reply) {
    config.ip.Some? || (discovery.Body? && exists ip :: Text(ip) == Trim(discovery.text))
  }

  /** The text published as `myip`: the configured address's text, or else
      the trimmed discovery reply. */
  ghost function PublishedText(config: UpdateConfig, discovery: Reply): string {
    match config.ip
    case Some(ip) => Text(ip)
    case None => if discovery.Body? then Trim(discovery.text) else ""
  }

  /** The whole update (Rust's `DynamicDNSRecord::update`): choose the
      address, post it, interpret the reply. */
  function Update(record: Record, discovery: Reply, provider: Reply): (x: Exchange)
    ensures forall i :: 0 <= i < |x.requests| ==>
              (x.requests[i].Get? <==> i == 0 && record.config.ip.None?)
    ensures (exists i :: 0 <= i < |x.requests| && x.requests[i].Post?) <==>
              Resolvable(record.config, discovery)
    ensures forall i :: 0 <= i < |x.requests| && x.requests[i].Post? ==>
              && i == |x.requests| - 1
              && x.requests[i].url == UpdateEndpoint
              && x.requests[i].username == record.config.username
              && x.requests[i].password == record.config.password
              && x.requests[i].query == [("hostname", record.fqdn), ("myip", PublishedText(record.config, discovery))]
    ensures !Resolvable(record.config, discovery) ==> x.result.Failure?
    ensures record.config.ip.None? ==> |x.requests| >= 1 && x.requests[0] == Get(DiscoveryUrl(record.config))
    ensures x.result.Success? ==> provider.Body? && IsAck(provider.text)
    ensures record.config.ip.Some? && provider.Body? ==>
              x.result == Classify(provider.text, record.fqdn, record.config.username, record.config.ip.value)
    ensures Resolvable(record.config, discovery) && provider.TransportError? ==> x.result == Failure(Transport)
  {
    var chosen := ChooseIp(record.config, discovery);
    match chosen.result
    case Failure(e) => Exchange(chosen.requests, Failure(e))
    case Success(ip) =>
      var requests := chosen.requests + [UpdateRequest(record, ip)];
      assert requests[|requests| - 1].Post?;
      match provider
      case TransportError => Exchange(requests, Failure(Transport))
      case Body(text) => Exchange(requests, Classify(text, record.fqdn, record.config.username, ip))
  }
}
