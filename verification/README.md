# iddns dynamic-DNS update, modelled in Dafny

iddns keeps an Infomaniak dynamic-DNS record up to date, and its decision logic is in
`src/lib.rs`. An update runs in three steps:

1. It chooses the address to publish. That is the configured address if there is one.
   Otherwise it asks an IP-echo service (the configured URL, or ipify by default) and parses
   the trimmed reply.
2. It POSTs the address to the provider's update endpoint with `hostname` and `myip` query
   parameters and Basic-auth credentials.
3. It reads the provider's plain-text reply:
   - a reply starting with `good` or `nochg` returns the address echoed as its second word;
   - six literal replies map to six classified errors;
   - anything else is `Unknown`.

The model keeps this logic and replaces each HTTP exchange by an input: a `Reply` that is either
a body's text or a transport failure. `DynamicDns.Update` returns the requests it issues, in
order, together with its result. That makes "which requests, in which order, with which
parameters" part of what is proved.

Modules:

- `Wrappers`: `Option` and `Result`.
- `Strings`: Rust's notion of whitespace (Unicode White_Space), plus `trim`, `split_whitespace`,
  `starts_with`, and splitting and joining on a character.
- `Ip`: IPv4 addresses with `to_string` (`Text`) and `from_str` (`Parse`). An octet is one to
  three digits, has no leading zero unless the octet is 0, and is at most 255. `Parse` and `Text` are proved inverse.
- `DynamicDns`:
  - `DynamicDNSUpdateError` (`UpdateError`);
  - the config and record structs;
  - `discover_ip` (`DiscoverIp`), the address choice (`ChooseIp`), the reply classification
    (`Classify`) and `update` (`Update`).
- `DynamicDnsProperties`: lemmas relating several calls or whole families of replies, and
  worked scenarios.

The failures of an update are `Failure.Domain(UpdateError)`, `Failure.AddrParse`,
`Failure.Transport` and `Failure.Panic`:

- `Failure.AddrParse`: the echoed word is not an address.
- `Failure.Transport`: a request or reading its body failed.
- `Failure.Panic`: the `unwrap` at `src/lib.rs:83` finds no second word.

The discovery error `UnableToParseIPAddress` carries the trimmed reply, as the code does
(`src/lib.rs:126`).

## Model

| member | source | states |
|---|---|---|
| Ip.ParseIsInverseOfText | src/lib.rs:121 | a text parses to address ip exactly when it is ip's dotted-decimal text |
| Ip.ParseText | src/lib.rs:84 | every address survives printing and parsing back |
| Ip.TextOfParsed | src/lib.rs:121 | any text that parses is the printed form of the address it parses to, so no other spelling (leading zeros, padding) is accepted |
| Ip.ParseMeaning | src/lib.rs:121-129 | parsing succeeds with the address whose text the input is, and fails only when no address has that text |
| Ip.TextInjective | src/lib.rs:77 | distinct addresses are published as distinct `myip` texts |
| Ip.TextIsOneWord | src/lib.rs:83 | an address's text is a non-empty run without whitespace, so it is one word of a reply |
| Ip.DecimalTextOfValue | src/lib.rs:84 | a numeral without a leading zero is the printed form of its value |
| Strings.TrimRemovesOnlyWhitespace | src/lib.rs:121 | trimming only removes whitespace from the two ends |
| Strings.TrimPadded | src/lib.rs:121 | text with no whitespace at either end survives any whitespace padding unchanged |
| Strings.TrimIdempotent | src/lib.rs:126 | trimming twice is trimming once |
| Strings.WordsShape | src/lib.rs:83 | words are non-empty and whitespace-free, and a text has none exactly when it is all whitespace |
| Strings.WordsCons | src/lib.rs:83 | after leading whitespace, a word ending at whitespace or at the end is the first word, and the rest follow |
| Strings.SplitJoin | src/lib.rs:121 | splitting on a separator undoes joining pieces that do not contain it |
| Strings.JoinSplit | src/lib.rs:121 | joining the pieces of a split gives back the text |
| DynamicDns.DiscoverIp | src/lib.rs:108-130 | one GET to the chosen service; a transport failure is Transport; success is the address whose text is the trimmed reply; failure is UnableToParseIPAddress of the trimmed reply, and no address has that text |
| DynamicDns.ChooseIp | src/lib.rs:65-68 | a configured address is taken as it is with no request; otherwise the outcome is discovery's, its error passed through unchanged, and any address chosen is the one whose text is the trimmed discovery reply |
| DynamicDns.Classify | src/lib.rs:82-105 | a success reply with a parseable second word returns the address with that text; a success reply without one panics; one with an unparseable word is an address-parse error; every other reply is a classified error, never a transport failure |
| DynamicDns.Update | src/lib.rs:63-106 | without a configured address the first request is a GET to the discovery service, and a GET is issued only then; a POST is issued exactly when an address could be chosen, and it is the last request; it goes to the update endpoint with the configured username and password, `hostname` = fqdn and `myip` = the chosen address's text; with a configured address the result is the provider reply's classification; a failed POST is a transport failure; success needs a success reply |
| DynamicDnsProperties.ExplicitIpSkipsDiscovery | src/lib.rs:65-68 | with a configured address the discovery reply is irrelevant, and the only request is the update for that address |
| DynamicDnsProperties.DiscoveryAsksConfiguredService | src/lib.rs:110-113 | without a configured address the first request is a GET to the configured URL, or to `https://api.ipify.org/?format=text` |
| DynamicDnsProperties.PaddedDiscoveryIsPublished | src/lib.rs:119-124 | a discovery reply holding an address's text padded with whitespace leads to exactly that address being posted, and the outcome is the provider reply's classification |
| DynamicDnsProperties.DiscoveredAddressIsPublished | src/lib.rs:65-105 | without a configured address, a discovery reply whose trimmed text is an address's text leads to the GET and then the POST of that address, and the outcome is the provider reply's classification for it |
| DynamicDnsProperties.UnparseableDiscoveryStops | src/lib.rs:121-129 | a discovery reply that is no address once trimmed stops the update after the GET with UnableToParseIPAddress of the trimmed reply |
| DynamicDnsProperties.DiscoveryTransportFailureStops | src/lib.rs:119 | a failed discovery request stops the update before the provider is contacted |
| DynamicDnsProperties.AckReplyShape | src/lib.rs:82-83 | a success word, whitespace and a word w form a success reply whose second word is w |
| DynamicDnsProperties.AckReturnsEchoedAddress | src/lib.rs:82-85 | a success reply returns the address it echoes, whatever address was requested |
| DynamicDnsProperties.BareGoodPanics | src/lib.rs:82-83 | the reply `good` carries no second word and reaches the panic |
| DynamicDnsProperties.NochgNewlinePanics | src/lib.rs:82-83 | the reply `nochg` followed by a newline carries no second word and reaches the panic |
| DynamicDnsProperties.ClassifyFollowsErrorTable | src/lib.rs:88-104 | a reply that is not a success reply gives its error from the six-entry table with the table's payload, or Unknown(fqdn, address text) |
| DynamicDnsProperties.ErrorRepliesAreReachable | src/lib.rs:82-103 | the six error literals are distinct and none starts with `good` or `nochg`, so the success check does not hide any of them |
| DynamicDnsProperties.ErrorRepliesMatchExactly | src/lib.rs:88-104 | matching has no trimming or case folding: `nohost\n`, `BADAUTH`, ` badauth` and `Good 1.2.3.4` are Unknown |
| DynamicDnsProperties.ProviderErrorsCarryOnlyInputs | src/lib.rs:88-104 | a provider error carries only the domain name, the username and the requested address's text |
| DynamicDnsProperties.PasswordNeverAffectsOutcome | src/lib.rs:76-105 | changing the password changes neither the result nor any request except the password carried in the POST |
| DynamicDnsProperties.ScenarioExplicitAddressUpdated | src/lib.rs:65-85 | with 203.0.113.5 configured and the reply `good 203.0.113.5`, the only request is the POST with `hostname` and `myip=203.0.113.5`, and the address is returned |
| DynamicDnsProperties.ScenarioDiscoveredAddressUnchanged | src/lib.rs:65-124 | with nothing configured, discovery `198.51.100.9\n` and the reply `nochg 198.51.100.9`, ipify is asked, `198.51.100.9` is posted and returned |
| DynamicDnsProperties.ScenarioBadCredentials | src/lib.rs:91-94 | a `badauth` reply reports the username that was sent |
| DynamicDnsProperties.ScenarioUnparseableDiscovery | src/lib.rs:121-128 | the discovery reply ` nope \n` fails with UnableToParseIPAddress(`nope`) |

## Left out

- HTTP transport (`reqwest` client, `send`, `text`; `src/lib.rs:71-79`, `116-119`): network I/O.
  Each reply is an input, and any failure of a request or its body is `Failure.Transport`.
- Basic-auth header encoding and query-string URL encoding: a POST records its username,
  password and query pairs as they are.
- The `#[error(...)]` message texts (`src/lib.rs:8-34`): presentation only. The error variants and
  their payloads are modelled.
- `anyhow` error wrapping: the model's `Failure` says which kind of error occurred, not how it is
  boxed. Rust's `AddrParseError` carries no text, and neither does `Failure.AddrParse`.
- The panic of `unwrap` (`src/lib.rs:83`): modelled as the result `Failure.Panic`, not as process
  termination.
- Ip.Parse: covers IPv4 dotted-decimal text only. An IPv6 text (RFC 4291, section 2.2) that Rust's
  `IpAddr::from_str` accepts is rejected here.
- DynamicDns.DiscoverIp: because of the IPv4-only parser, an IPv6 discovery reply is reported as
  UnableToParseIPAddress, where the source would publish it.
- DynamicDns.Classify: an IPv6 address echoed by the provider is read as `Failure.AddrParse`,
  for the same reason. Both conflict replies are modelled: `conflict A` (an A record update
  blocked by an existing AAAA record) and `conflict AAAA` (the reverse).
- Configured IPv6 addresses: `UpdateConfig.ip` cannot hold one, though the command line accepts
  any address (`src/main.rs:23`). So the update of an AAAA record, and with
  it a `conflict AAAA` reply to an IPv6 request, is outside the model.
- `src/main.rs`: command-line parsing and printing; no decision logic.
