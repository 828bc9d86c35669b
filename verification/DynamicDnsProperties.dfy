/** Properties of the dynamic-DNS update that relate several calls or hold
    for whole families of replies: where the published address comes from,
    which requests are issued, how the provider's reply is read,
    and a few worked scenarios. */
module DynamicDnsProperties {
  import opened Wrappers
  import opened Strings
  import opened Ip
  import opened DynamicDns

  /** The provider's error replies, as a table from reply text to what the
      provider is complaining about. */
  datatype Complaint = NoHost | NotFqdn | BadAuth | ConflictA | ConflictAAAA | BadTarget

  const ErrorReplies: map<string, Complaint> := map[
    "nohost" := NoHost,
    "notfqdn" := NotFqdn,
    "badauth" := BadAuth,
    "conflict A" := ConflictA,
    "conflict AAAA" := ConflictAAAA,
    InvalidTargetReply := BadTarget
  ]

  /** The error each complaint is reported as, with its payload. */
  function Reported(c: Complaint, fqdn: string, username: string, ipText: string): UpdateError {
    match c
    case NoHost => FQDNNotFound(fqdn)
    case NotFqdn => InvalidFQDN(fqdn)
    case BadAuth => InvalidCredentials(username)
    case ConflictA => ConflictingIPv6Record(ipText)
    case ConflictAAAA => ConflictingIPv4Record(ipText)
    case BadTarget => InvalidIPAddress(ipText)
  }

  /** The strings an error carries. */
  function Payloads(e: UpdateError): set<string> {
    match e
    case FQDNNotFound(f) => {f}
    case InvalidFQDN(f) => {f}
    case InvalidCredentials(u) => {u}
    case ConflictingIPv6Record(t) => {t}
    case ConflictingIPv4Record(t) => {t}
    case InvalidIPAddress(t) => {t}
    case UnableToParseIPAddress(t) => {t}
    case Unknown(f, t) => {f, t}
  }

  function WithPassword(record: Record, password: string): Record {
    record.(config := record.config.(password := password))
  }

  /** The same request with its credentials' password replaced. */
  function WithRequestPassword(request: Request, password: string): Request {
    match request
    case Get(_) => request
    case Post(_, _, _, _) => request.(password := password)
  }

  // ---------------------------------------------------------------------
  // Choosing the address

  /** A configured address is published as it is: the discovery reply is
      never consulted, and the only request is the update itself. */
  lemma ExplicitIpSkipsDiscovery(record: Record, d1: Reply, d2: Reply, provider: Reply)
    requires record.config.ip.Some?
    ensures Update(record, d1, provider) == Update(record, d2, provider)
    ensures Update(record, d1, provider).requests == [UpdateRequest(record, record.config.ip.value)]
  {
  }

  /** Without a configured address the first request asks the configured
      IP-echo service, or the ipify default when none is configured. */
  lemma DiscoveryAsksConfiguredService(record: Record, discovery: Reply, provider: Reply)
    requires record.config.ip.None?
    ensures |Update(record, discovery, provider).requests| >= 1
    ensures record.config.url.Some? ==>
              Update(record, discovery, provider).requests[0] == Get(record.config.url.value)
    ensures record.config.url.None? ==>
              Update(record, discovery, provider).requests[0] == Get("https://api.ipify.org/?format=text")
  {
  }

  /** A discovery reply holding an address's text, padded by any
      whitespace, publishes that address. */
  lemma {:induction false} PaddedDiscoveryIsPublished(
    record: Record, pre: string, ip: IpAddr, post: string, provider: Reply)
    requires record.config.ip.None?
    requires AllWhitespace(pre) && AllWhitespace(post)
    ensures Update(record, Body(pre + Text(ip) + post), provider).requests ==
              [Get(DiscoveryUrl(record.config)), UpdateRequest(record, ip)]
    ensures provider.Body? ==>
              Update(record, Body(pre + Text(ip) + post), provider).result ==
              Classify(provider.text, record.fqdn, record.config.username, ip)
  {
    TextIsOneWord(ip);
    TrimPadded(pre, Text(ip), post);
    ParseText(ip);
  }

  /** Without a configured address, whenever the trimmed discovery reply is
      an address's text, that address is posted and the outcome is the
      provider reply's classification for it. */
  lemma DiscoveredAddressIsPublished(record: Record, text: string, ip: IpAddr, provider: Reply)
    requires record.config.ip.None?
    requires Text(ip) == Trim(text)
    ensures Update(record, Body(text), provider).requests ==
              [Get(DiscoveryUrl(record.config)), UpdateRequest(record, ip)]
    ensures provider.Body? ==>
              Update(record, Body(text), provider).result ==
              Classify(provider.text, record.fqdn, record.config.username, ip)
  {
    var pre, post := TrimRemovesOnlyWhitespace(text);
    PaddedDiscoveryIsPublished(record, pre, ip, post, provider);
  }

  /** A discovery reply that is not an address, once trimmed, stops the
      update before the provider is contacted, and the error carries the
      trimmed reply. */
  lemma UnparseableDiscoveryStops(record: Record, body: string, provider: Reply)
    requires record.config.ip.None?
    requires forall ip :: Text(ip) != Trim(body)
    ensures Update(record, Body(body), provider) ==
              Exchange([Get(DiscoveryUrl(record.config))],
                       Failure(Domain(UnableToParseIPAddress(Trim(body)))))
  {
    ParseMeaning(Trim(body));
  }

  /** A transport failure during discovery also stops the update before the
      provider is contacted. */
  lemma DiscoveryTransportFailureStops(record: Record, provider: Reply)
    requires record.config.ip.None?
    ensures Update(record, TransportError, provider) ==
              Exchange([Get(DiscoveryUrl(record.config))], Failure(Transport))
  {
  }

  // ---------------------------------------------------------------------
  // Reading the provider's reply

  /** A success word, whitespace, then a word w: a success reply whose
      second word is w. */
  lemma {:induction false} AckReplyShape(word: string, gap: string, w: string, rest: string)
    requires StartsWith(word, "good") || StartsWith(word, "nochg")
    requires NoWhitespace(word)
    requires |gap| > 0 && AllWhitespace(gap)
    requires |w| > 0 && NoWhitespace(w)
    requires |rest| > 0 ==> IsWhitespace(rest[0])
    ensures IsAck(word + gap + w + rest)
    ensures |Words(word + gap + w + rest)| >= 2
    ensures Words(word + gap + w + rest)[0] == word
    ensures Words(word + gap + w + rest)[1] == w
  {
    var tail := gap + w + rest;
    var body := word + gap + w + rest;
    assert body == word + tail;
    assert body[..|word|] == word;
    assert IsAck(body) by {
      if StartsWith(word, "good") { assert body[..4] == word[..4]; } else { assert body[..5] == word[..5]; }
    }
    assert tail[0] == gap[0];
    WordsAfterFirst(word, tail);
    WordsCons(gap, w, rest);
    assert Words(tail)[0] == w;
  }

  /** A success reply returns the address the provider echoes as its second
      word, whatever address was requested. */
  lemma AckReturnsEchoedAddress(
    word: string, gap: string, echoed: IpAddr, rest: string,
    fqdn: string, username: string, requested: IpAddr)
    requires StartsWith(word, "good") || StartsWith(word, "nochg")
    requires NoWhitespace(word)
    requires |gap| > 0 && AllWhitespace(gap)
    requires |rest| > 0 ==> IsWhitespace(rest[0])
    ensures Classify(word + gap + Text(echoed) + rest, fqdn, username, requested) == Success(echoed)
  {
    TextIsOneWord(echoed);
    AckReplyShape(word, gap, Text(echoed), rest);
    var r := Classify(word + gap + Text(echoed) + rest, fqdn, username, requested);
    TextInjective(r.value, echoed);
  }

  /** A bare "good" carries no address: the model's stand-in for the
      `unwrap` panic. */
  lemma BareGoodPanics(fqdn: string, username: string, ip: IpAddr)
    ensures Classify("good", fqdn, username, ip) == Failure(Panic)
  {
    var s := "good";
    assert StartsWith(s, "good");
    LeadingWhitespaceUnique(s, 0);
    assert s[..4] == s;
    WordLengthUnique(s, 4);
    assert s[4..] == [];
    assert Words(s) == [s];
  }

  /** "nochg" followed by a newline carries no address either. */
  lemma NochgNewlinePanics(fqdn: string, username: string, ip: IpAddr)
    ensures Classify("nochg\n", fqdn, username, ip) == Failure(Panic)
  {
    var s := "nochg\n";
    assert s[..5] == "nochg";
    assert StartsWith(s, "nochg");
    LeadingWhitespaceUnique(s, 0);
    assert IsWhitespace(s[5]);
    WordLengthUnique(s, 5);
    assert s[5..] == "\n";
    LeadingWhitespaceUnique("\n", 1);
    assert Words("\n") == [];
    assert Words(s) == ["nochg"];
  }

  /** Every reply that does not report success is read through the error
      table: a listed reply gives its error, anything else is Unknown. */
  lemma ClassifyFollowsErrorTable(body: string, fqdn: string, username: string, ip: IpAddr)
    requires !IsAck(body)
    ensures Classify(body, fqdn, username, ip) ==
              Failure(Domain(
                if body in ErrorReplies then Reported(ErrorReplies[body], fqdn, username, Text(ip))
                else Unknown(fqdn, Text(ip))))
  {
  }

  /** A text that differs from p at some position inside both does not
      start with p. */
  lemma DiffersFromPrefix(s: string, p: string, i: nat)
    requires i < |p| && i < |s| && s[i] != p[i]
    ensures !StartsWith(s, p)
  {
    if |p| <= |s| {
      assert s[..|p|][i] == s[i];
    }
  }

  /** The provider's invalid-target sentence begins with 'T'. */
  lemma InvalidTargetReplyStart()
    ensures |InvalidTargetReply| > 0 && InvalidTargetReply[0] == 'T'
  {
  }

  /** The six error replies are distinct, and none of them reports success,
      so the success check that runs first hides none of them. */
  lemma ErrorRepliesAreReachable()
    ensures |ErrorReplies| == 6
    ensures forall body :: body in ErrorReplies ==> !IsAck(body)
  {
    DiffersFromPrefix("nohost", "good", 0);
    DiffersFromPrefix("nohost", "nochg", 2);
    DiffersFromPrefix("notfqdn", "good", 0);
    DiffersFromPrefix("notfqdn", "nochg", 2);
    DiffersFromPrefix("badauth", "good", 0);
    DiffersFromPrefix("badauth", "nochg", 0);
    DiffersFromPrefix("conflict A", "good", 0);
    DiffersFromPrefix("conflict A", "nochg", 0);
    DiffersFromPrefix("conflict AAAA", "good", 0);
    DiffersFromPrefix("conflict AAAA", "nochg", 0);
    InvalidTargetReplyStart();
    DiffersFromPrefix(InvalidTargetReply, "good", 0);
    DiffersFromPrefix(InvalidTargetReply, "nochg", 0);
    assert ErrorReplies.Keys == {"nohost", "notfqdn", "badauth", "conflict A", "conflict AAAA",
                                 InvalidTargetReply};
  }

  /** Error replies are matched exactly: a trailing newline, a change of case
      or a leading space makes a reply Unknown. */
  lemma ErrorRepliesMatchExactly(fqdn: string, username: string, ip: IpAddr)
    ensures Classify("nohost\n", fqdn, username, ip) == Failure(Domain(Unknown(fqdn, Text(ip))))
    ensures Classify("BADAUTH", fqdn, username, ip) == Failure(Domain(Unknown(fqdn, Text(ip))))
    ensures Classify(" badauth", fqdn, username, ip) == Failure(Domain(Unknown(fqdn, Text(ip))))
    ensures Classify("Good 1.2.3.4", fqdn, username, ip) == Failure(Domain(Unknown(fqdn, Text(ip))))
  {
    DiffersFromPrefix("nohost\n", "good", 0);
    DiffersFromPrefix("nohost\n", "nochg", 2);
    ClassifyFollowsErrorTable("nohost\n", fqdn, username, ip);
    DiffersFromPrefix("BADAUTH", "good", 0);
    DiffersFromPrefix("BADAUTH", "nochg", 0);
    ClassifyFollowsErrorTable("BADAUTH", fqdn, username, ip);
    DiffersFromPrefix(" badauth", "good", 0);
    DiffersFromPrefix(" badauth", "nochg", 0);
    ClassifyFollowsErrorTable(" badauth", fqdn, username, ip);
    DiffersFromPrefix("Good 1.2.3.4", "good", 0);
    DiffersFromPrefix("Good 1.2.3.4", "nochg", 0);
    ClassifyFollowsErrorTable("Good 1.2.3.4", fqdn, username, ip);
  }

  /** An error from the provider carries nothing but the domain name, the
      username and the requested address's text. */
  lemma ProviderErrorsCarryOnlyInputs(body: string, fqdn: string, username: string, ip: IpAddr)
    ensures var r := Classify(body, fqdn, username, ip);
            r.Failure? && r.error.Domain? ==> Payloads(r.error.error) <= {fqdn, username, Text(ip)}
  {
  }

  /** The password only travels in the update request: it never changes the
      outcome, and the requests differ in nothing else. */
  lemma PasswordNeverAffectsOutcome(record: Record, password: string, discovery: Reply, provider: Reply)
    ensures Update(WithPassword(record, password), discovery, provider).result ==
              Update(record, discovery, provider).result
    ensures |Update(WithPassword(record, password), discovery, provider).requests| ==
              |Update(record, discovery, provider).requests|
    ensures forall i :: 0 <= i < |Update(record, discovery, provider).requests| ==>
              Update(WithPassword(record, password), discovery, provider).requests[i] ==
                WithRequestPassword(Update(record, discovery, provider).requests[i], password)
  {
    var r2 := WithPassword(record, password);
    assert r2.fqdn == record.fqdn && r2.config.username == record.config.username;
    assert r2.config.ip == record.config.ip && r2.config.url == record.config.url;
    assert DiscoveryUrl(r2.config) == DiscoveryUrl(record.config);
    var c1, c2 := ChooseIp(record.config, discovery), ChooseIp(r2.config, discovery);
    assert c1 == c2;
    if c1.result.Success? {
      assert UpdateRequest(r2, c1.result.value) == WithRequestPassword(UpdateRequest(record, c1.result.value), password);
    }
  }

  // ---------------------------------------------------------------------
  // Worked scenarios

  /** The numerals the scenarios need. */
  lemma ExampleNumerals()
    ensures DecimalText(203) == "203" && DecimalText(113) == "113"
    ensures DecimalText(198) == "198" && DecimalText(100) == "100"
    ensures DecimalText(0) == "0" && DecimalText(5) == "5" && DecimalText(9) == "9" && DecimalText(51) == "51"
  {
    assert DecimalText(20) == "20";
    assert DecimalText(11) == "11";
    assert DecimalText(19) == "19";
    assert DecimalText(10) == "10";
  }

  lemma TextOf203_0_113_5()
    ensures Text(V4(203, 0, 113, 5)) == "203.0.113.5"
  {
    ExampleNumerals();
    TextSpelledOut(V4(203, 0, 113, 5));
  }

  lemma TextOf198_51_100_9()
    ensures Text(V4(198, 51, 100, 9)) == "198.51.100.9"
  {
    ExampleNumerals();
    TextSpelledOut(V4(198, 51, 100, 9));
  }

  /** The scenarios' replies, spelled as a word, a space and an address. */
  lemma ExampleReplies()
    ensures "good" + " " + "203.0.113.5" + [] == "good 203.0.113.5"
    ensures "nochg" + " " + "198.51.100.9" + [] == "nochg 198.51.100.9"
    ensures [] + "198.51.100.9" + "\n" == "198.51.100.9\n"
  {
  }

  /** The scenarios' provider replies echo their addresses. */
  lemma ExampleGoodReply(fqdn: string, username: string, requested: IpAddr)
    ensures Classify("good 203.0.113.5", fqdn, username, requested) == Success(V4(203, 0, 113, 5))
  {
    AckReturnsEchoedAddress("good", " ", V4(203, 0, 113, 5), [], fqdn, username, requested);
    TextOf203_0_113_5();
    ExampleReplies();
  }

  lemma ExampleNochgReply(fqdn: string, username: string, requested: IpAddr)
    ensures Classify("nochg 198.51.100.9", fqdn, username, requested) == Success(V4(198, 51, 100, 9))
  {
    AckReturnsEchoedAddress("nochg", " ", V4(198, 51, 100, 9), [], fqdn, username, requested);
    TextOf198_51_100_9();
    ExampleReplies();
  }

  /** home.example.com with 203.0.113.5 configured, and the provider
      answering "good 203.0.113.5": one request, and the address returned. */
  lemma ScenarioExplicitAddressUpdated(record: Record)
    requires record.fqdn == "home.example.com"
    requires record.config.ip == Some(V4(203, 0, 113, 5))
    ensures Update(record, TransportError, Body("good 203.0.113.5")) ==
              Exchange([Post("https://infomaniak.com/nic/update", record.config.username, record.config.password,
                             [("hostname", "home.example.com"), ("myip", "203.0.113.5")])],
                       Success(V4(203, 0, 113, 5)))
  {
    var ip := V4(203, 0, 113, 5);
    TextOf203_0_113_5();
    ExampleGoodReply(record.fqdn, record.config.username, ip);
  }

  /** No configured address, discovery answering "198.51.100.9\n" and the
      provider answering "nochg 198.51.100.9": the default service is asked,
      the trimmed address is published, and returned. */
  lemma ScenarioDiscoveredAddressUnchanged(record: Record)
    requires record.config.ip.None? && record.config.url.None?
    ensures Update(record, Body("198.51.100.9\n"), Body("nochg 198.51.100.9")) ==
              Exchange([Get("https://api.ipify.org/?format=text"),
                        Post("https://infomaniak.com/nic/update", record.config.username, record.config.password,
                             [("hostname", record.fqdn), ("myip", "198.51.100.9")])],
                       Success(V4(198, 51, 100, 9)))
  {
    var ip := V4(198, 51, 100, 9);
    TextOf198_51_100_9();
    assert AllWhitespace("\n");
    PaddedDiscoveryIsPublished(record, [], ip, "\n", Body("nochg 198.51.100.9"));
    ExampleReplies();
    ExampleNochgReply(record.fqdn, record.config.username, ip);
  }

  /** A "badauth" reply reports the username that was sent, never the
      password. */
  lemma ScenarioBadCredentials(record: Record, discovery: Reply)
    requires record.config.ip.Some?
    ensures Update(record, discovery, Body("badauth")).result ==
              Failure(Domain(InvalidCredentials(record.config.username)))
  {
    DiffersFromPrefix("badauth", "good", 0);
    DiffersFromPrefix("badauth", "nochg", 0);
    ClassifyFollowsErrorTable("badauth", record.fqdn, record.config.username, record.config.ip.value);
  }

  /** A discovery reply " nope \n" fails with the trimmed text "nope". */
  lemma ScenarioUnparseableDiscovery(record: Record, provider: Reply)
    requires record.config.ip.None?
    ensures Update(record, Body(" nope \n"), provider).result ==
              Failure(Domain(UnableToParseIPAddress("nope")))
  {
    TrimPadded(" ", "nope", " \n");
    assert " " + "nope" + " \n" == " nope \n";
    forall ip ensures Text(ip) != "nope" {
      TextAlphabet(ip);
      if |Text(ip)| > 0 {
        assert IsDigitOrDot(Text(ip)[0]);
      }
    }
    UnparseableDiscoveryStops(record, " nope \n", provider);
  }
}
