# cfn-lookup-acm in Dafny

A model of the CloudFormation custom-resource handler in `cfn-lookup-acm.go`. The handler resolves a domain
name to the ARN of an existing ACM certificate. Given a provisioning event it does three things:

- A `Delete` request is answered at once with physical id `"the"`, no data and no error.
- An empty `DomainName` resource property is rejected with `DomainName not defined`. The model also rejects an
  absent one, which the code lets through (see Findings).
- Otherwise it lists the certificates and returns the ARN of the first summary whose domain name equals
  `DomainName` exactly, as data `{"CertificateArn": arn}`. When no summary has that name, it fails with
  `failed to find certificate for domain <name>`.

Modules:

- `Wrappers`: the `Option` type.
- `Acm`: the certificate summary `(domainName, certificateArn)` and the client. The client class holds the
  listing one `ListCertificates` call answers, plus a ghost count of calls.
- `Search`: the first-match search. It has a recursive specification `FirstMatch` and the loop `ScanCertificates`
  proved against it, plus lemmas on what scanning only the first page means.
- `Handler`: the event, response and outcome types. It has the request-type switch and `DomainName` check
  (`Dispatch`), the whole handler as a function (`HandlerSpec`), and the method `Handle`, which calls the client
  and runs the loop.
- `HandlerProperties`: the handler's promises, as lemmas over `HandlerSpec`.
- `AsWritten`: the handler with Go's untyped property values, used for the finding below.

The certificate-manager call is replaced by its answer. `listing` is `Some(summaries)` for the first page
returned, or `None` when loading the configuration or the call fails. In the second case `must.Return`
panics, and the model's outcome is `Aborted`. No structured "upstream unavailable" error exists in the code,
so none is modelled.

## Model

| member | source | states |
|---|---|---|
| Search.FirstMatch | cfn-lookup-acm.go:62-66 | the position found holds a summary whose domain name equals the requested one and no earlier summary does; no position means no summary has that name |
| Search.FirstMatchArn | cfn-lookup-acm.go:62-64 | a returned ARN belongs to a listed summary with exactly the requested domain name; nothing is returned iff no summary has that name |
| Search.ScanCertificates | cfn-lookup-acm.go:62-66 | the in-order loop with early return yields exactly the first match's ARN, or nothing |
| Search.FirstMatchIsFirst | cfn-lookup-acm.go:62-63 | position i is the first match iff it matches and no earlier position does |
| Search.FirstPageDecides | cfn-lookup-acm.go:61-62 | a match on the single page scanned would also be the first match of any longer listing |
| Search.LaterPageMatch | cfn-lookup-acm.go:61-62 | without a match on the first page, a full listing's first match is the later pages' first match shifted by the page length, which the single-page scan misses |
| Acm.CertificateClient.ListCertificates | cfn-lookup-acm.go:59-61 | one attempt to consult the service (configuration loading and the listing call together) answers the client's listing unchanged and adds one to the count of attempts |
| Handler.RequestTypeOf | cfn-lookup-acm.go:51-52 | the strings "Create", "Update" and "Delete", matched exactly, map to the three constants and only they do; any other string s maps to Other(s), so no constant is ever spelled as Other |
| Handler.DomainNameOf | cfn-lookup-acm.go:55 | the DomainName read is empty iff the property is absent or empty, and otherwise it is the property's value |
| Handler.Dispatch | cfn-lookup-acm.go:51-58 | the lookup is reached iff the request is not Delete and DomainName is non-empty; otherwise the response is "the" with no data, no error for Delete and "DomainName not defined" otherwise |
| Handler.HandlerError.Message | cfn-lookup-acm.go:57-67 | the error's text: "DomainName not defined", or "failed to find certificate for domain " followed by how %s prints the requested name |
| HandlerProperties.MessageIdentifiesError | cfn-lookup-acm.go:57-67 | two errors with the same text are the same error: the text tells the two kinds apart and names the requested domain |
| Handler.ScanResponse | cfn-lookup-acm.go:63-67 | physical id "the"; data `{"CertificateArn": arn}` exactly when an ARN was found, otherwise the not-found error for the requested name; never both |
| Handler.HandlerSpec | cfn-lookup-acm.go:50-68 | every returned response has id "the"; aborts only when the service is consulted and fails; Delete yields no data and no error; off Delete exactly one of data and error; data is the first match's ARN |
| Handler.Handle | cfn-lookup-acm.go:50-68 | the method's outcome equals HandlerSpec on the client's listing, and it attempts to consult the service (configuration loading, then ListCertificates) once exactly when the event passes the switch and the DomainName check, otherwise never |
| HandlerProperties.DeleteShortCircuits | cfn-lookup-acm.go:51-54 | Delete returns "the", no data, no error, whatever the properties, and does not consult the service |
| HandlerProperties.OnlyDeleteIsSpecial | cfn-lookup-acm.go:51-55 | every request type other than Delete is handled exactly as Create and reaches the DomainName check |
| HandlerProperties.DeleteStringShortCircuits | cfn-lookup-acm.go:51-55 | the wire string "Delete" yields "the" with no data and no error, and every other string is handled as Create |
| HandlerProperties.MissingDomainNameRejected | cfn-lookup-acm.go:55-58 | off Delete, an absent or empty DomainName yields "DomainName not defined" with no data and no service call |
| HandlerProperties.SuccessIsFirstMatch | cfn-lookup-acm.go:62-64 | returned data holds the ARN of a summary with exactly DomainName, and no earlier summary has that name |
| HandlerProperties.ArnComesFromListing | cfn-lookup-acm.go:63-64 | the data has the single key CertificateArn and its value is the ARN of a listed summary with the requested name |
| HandlerProperties.NotFoundIffNoMatch | cfn-lookup-acm.go:62-67 | past the check, the not-found error is returned iff no summary has the name, and the error's text ends with the name |
| HandlerProperties.DataXorError | cfn-lookup-acm.go:53-67 | every returned response has id "the", never both data and error, and off Delete one of them |
| HandlerProperties.OnlyDomainNameMatters | cfn-lookup-acm.go:55 | two events with the same request type and DomainName value have the same outcome on the same listing |
| HandlerProperties.ListingIrrelevantUnlessConsulted | cfn-lookup-acm.go:51-58 | when the service is not consulted, the outcome is the same whatever it would answer |
| HandlerProperties.UniqueMatchFound | cfn-lookup-acm.go:62-64 | the only summary with the requested name is returned wherever it stands in the list |
| HandlerProperties.MatchIsExact | cfn-lookup-acm.go:63 | a summary whose domain name is not the requested one character for character (one differing only in letter case, say) is never the match, and a listing with nothing else matching fails not-found |
| HandlerProperties.MatchIsCaseSensitive | cfn-lookup-acm.go:63 | example: "API.example.com" over a Create for "api.example.com" fails not-found |
| HandlerProperties.CreateFindsListedName | cfn-lookup-acm.go:62-64 | Create for api.example.com over [api → arn:1, www → arn:2] returns arn:1 |
| HandlerProperties.UpdateMissesUnlistedName | cfn-lookup-acm.go:62-67 | Update for missing.example.com over the same list fails not-found for that name |
| AsWritten.DomainNameValue | cfn-lookup-acm.go:55 | the untyped property value is nil exactly when DomainName is absent |
| AsWritten.HandlerAsWritten | cfn-lookup-acm.go:50-68 | the handler with interface comparisons; every returned response has id "the" |
| AsWritten.AbsentDomainNamePassesCheck | cfn-lookup-acm.go:55-67 | for every non-Delete event without DomainName, whatever other properties it carries: as written it consults the service (aborting if that fails) and fails not-found for "%!s(<nil>)"; corrected, it is rejected as "DomainName not defined" with no call |
| AsWritten.ServiceTokenOnlyCreate | cfn-lookup-acm.go:55-67 | example: a Create carrying only ServiceToken fails not-found for "%!s(<nil>)" as written |
| AsWritten.AgreesWhenDomainNamePresent | cfn-lookup-acm.go:51-67 | for a Delete (whatever its properties) or with DomainName present, the as-written and corrected handlers agree on every listing, so they differ only in the case AbsentDomainNamePassesCheck describes |

## Findings

| source | as written | input that shows it | evidently intended | confidence | as-written member | corrected member |
|---|---|---|---|---|---|---|
| cfn-lookup-acm.go:55-57 | `event.ResourceProperties` is a map from string to an untyped value. An absent key yields a nil interface, and `nil == ""` is false, so the check passes. The handler then lists the certificates, matches nothing, and fails with "failed to find certificate for domain %!s(<nil>)" | a Create event without a DomainName property | an absent DomainName is rejected as "DomainName not defined" before any service call, as an empty one is | medium (depends on the declared type of the event's property map, which is not part of this model); not executed | AsWritten.AbsentDomainNamePassesCheck | HandlerProperties.MissingDomainNameRejected |

`Handler` and everything built on it use the corrected reading: an absent property reads as `""`.
`AsWritten.AgreesWhenDomainNamePresent` shows that this changes nothing for Delete events or for events that carry a `DomainName`.

## Left out

- Process bootstrap: the `LOOKUP_ACM` / `AWS_LAMBDA_RUNTIME_API` environment gate and `lambda.Start`
  (cfn-lookup-acm.go:46-50). This is side-effecting start-up, not handler logic.
- `cfn.LambdaWrap` and the delivery of the response to CloudFormation (cfn-lookup-acm.go:50). This is protocol
  transport in a foreign library. The model ends with the triple the handler returns.
- `config.LoadDefaultConfig`, `acm.NewFromConfig` and `client.ListCertificates` as network and SDK calls
  (cfn-lookup-acm.go:59-61). They are replaced by the listing the client is built with.
- Pagination: only the first page is scanned, because the code sends no NextToken. The model scans exactly the
  given page. `Search.FirstPageDecides` and `Search.LaterPageMatch` state what that misses.
- Upstream failure is the abstract outcome `Aborted` (the `must.Return` panic). The panic's value and how the
  runtime reports it are not modelled.
- The nil-pointer dereference of a summary without a domain name (cfn-lookup-acm.go:63). Domain names are plain
  strings.
- Resource property values are modelled as strings. CloudFormation passes scalar properties as strings. A list
  or object given as `DomainName` (which equals no string) is not modelled.
- The ARN is returned in the data map as a string pointer. The model keeps the string it points to.
- `context.Context` cancellation is a runtime concern and is not modelled.
