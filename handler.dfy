/**
 * The CloudFormation custom-resource handler: the function the package hands to
 * cfn.LambdaWrap. Given the provisioning event and the certificate listing it
 * answers with a physical resource id, optional data and an optional error.
 */
module Handler {
  import opened Wrappers
  import opened Acm
  import opened Search

  /** The event's RequestType; `Other` stands for any value besides the three constants. */
  datatype RequestType = Create | Update | Delete | Other(name: string)

  /** An `Other` never carries the name of one of the three constants, which have their own spelling. */
  predicate ValidRequestType(t: RequestType) {
    t.Other? ==> t.name != "Create" && t.name != "Update" && t.name != "Delete"
  }

  /** The request types an event can carry: each wire string has one spelling. */
  type WireRequestType = t: RequestType | ValidRequestType(t) witness Create

  /** The RequestType a wire string denotes; each constant is matched exactly, anything else is kept as Other. */
  function RequestTypeOf(s: string): (t: WireRequestType)
    ensures t == Create <==> s == "Create"
    ensures t == Update <==> s == "Update"
    ensures t == Delete <==> s == "Delete"
    ensures s != "Create" && s != "Update" && s != "Delete" ==> t == Other(s)
  {
    if s == "Create" then Create
    else if s == "Update" then Update
    else if s == "Delete" then Delete
    else Other(s)
  }

  /** The part of cfn.Event the handler reads. */
  datatype Event = Event(requestType: WireRequestType, resourceProperties: map<string, string>)

  /** The two errors the handler itself returns. */
  datatype HandlerError = DomainNameNotDefined | CertificateNotFound(shown: string) {
    /** The error's text; `shown` is how the requested domain name is printed by `%s`. */
    function Message(): (m: string)
      ensures DomainNameNotDefined? ==> m == "DomainName not defined"
      ensures CertificateNotFound? ==>
        |m| == |NotFoundPrefix| + |shown| && m[..|NotFoundPrefix|] == NotFoundPrefix && m[|NotFoundPrefix|..] == shown
    {
      match this
      case DomainNameNotDefined => "DomainName not defined"
      case CertificateNotFound(shown) => NotFoundPrefix + shown
    }
  }

  /** The handler's three results: physical resource id, data (nil or a map) and error. */
  datatype Response = Response(physicalId: string, data: Option<map<string, string>>, error: Option<HandlerError>)

  /**
   * How an invocation ends: it returns a response, or it is Aborted because
   * loading the configuration or listing the certificates failed and must.Return
   * panicked.
   */
  datatype Outcome = Returned(response: Response) | Aborted

  const PhysicalId: string := "the"
  const DomainNameProperty: string := "DomainName"
  const CertificateArnKey: string := "CertificateArn"
  const NotFoundPrefix: string := "failed to find certificate for domain "

  /** The DomainName resource property; an absent one reads as the empty string. */
  function DomainNameOf(props: map<string, string>): (d: string)
    ensures d == "" <==> DomainNameProperty !in props || props[DomainNameProperty] == ""
    ensures d != "" ==> props[DomainNameProperty] == d
  {
    if DomainNameProperty in props then props[DomainNameProperty] else ""
  }

  /** What the handler does before it needs the certificate service. */
  datatype Step = Finish(response: Response) | ListAndScan(domainName: string)

  /** The request-type switch and the DomainName check. */
  function Dispatch(event: Event): (s: Step)
    ensures s.ListAndScan? <==> event.requestType != Delete && DomainNameOf(event.resourceProperties) != ""
    ensures s.ListAndScan? ==> s.domainName == DomainNameOf(event.resourceProperties)
    ensures s.Finish? ==> s.response.physicalId == PhysicalId && s.response.data.None?
    ensures s.Finish? ==> (s.response.error.None? <==> event.requestType == Delete)
    ensures s.Finish? && s.response.error.Some? ==> s.response.error.value == DomainNameNotDefined
  {
    if event.requestType == Delete then
      Finish(Response(PhysicalId, None, None))
    else
      var domainName := DomainNameOf(event.resourceProperties);
      if domainName == "" then
        Finish(Response(PhysicalId, None, Some(DomainNameNotDefined)))
      else
        ListAndScan(domainName)
  }

  /** Whether handling `event` calls the certificate service. */
  predicate Consults(event: Event) {
    Dispatch(event).ListAndScan?
  }

  /** The response once the scan for `domainName` has ended with `arn`. */
  function ScanResponse(domainName: string, arn: Option<string>): (r: Response)
    ensures r.physicalId == PhysicalId
    ensures r.data.Some? <==> r.error.None?
    ensures r.data.Some? <==> arn.Some?
    ensures arn.Some? ==> r.data.value.Keys == {CertificateArnKey} && r.data.value[CertificateArnKey] == arn.value
    ensures arn.None? ==> r.error.value == CertificateNotFound(domainName)
  {
    match arn
    case Some(a) => Response(PhysicalId, Some(map[CertificateArnKey := a]), None)
    case None => Response(PhysicalId, None, Some(CertificateNotFound(domainName)))
  }

  /** The whole handler, given what ListCertificates would answer. */
  function HandlerSpec(event: Event, listing: Option<seq<CertificateSummary>>): (o: Outcome)
    ensures o.Returned? ==> o.response.physicalId == PhysicalId
    ensures o.Aborted? <==> Consults(event) && listing.None?
    ensures event.requestType == Delete ==> o == Returned(Response(PhysicalId, None, None))
    ensures o.Returned? && event.requestType != Delete ==> (o.response.data.Some? <==> o.response.error.None?)
    ensures o.Returned? && o.response.data.Some? ==>
      listing.Some? && FirstMatchArn(listing.value, DomainNameOf(event.resourceProperties)).Some? &&
      o.response.data.value == map[CertificateArnKey := FirstMatchArn(listing.value, DomainNameOf(event.resourceProperties)).value]
  {
    match Dispatch(event)
    case Finish(r) => Returned(r)
    case ListAndScan(domainName) =>
      match listing
      case None => Aborted
      case Some(certs) => Returned(ScanResponse(domainName, FirstMatchArn(certs, domainName)))
  }

  /**
   * The handler as it runs against a client: it calls ListCertificates only
   * when the switch and the DomainName check let it through, and then scans the
   * summaries in order.
   */
  method Handle(event: Event, client: CertificateClient) returns (o: Outcome)
    modifies client
    ensures o == HandlerSpec(event, client.listing)
    ensures client.serviceCalls == old(client.serviceCalls) + (if Consults(event) then 1 else 0)
  {
    match Dispatch(event) {
      case Finish(r) =>
        o := Returned(r);
      case ListAndScan(domainName) =>
        var listing := client.ListCertificates();
        if listing.None? {
          o := Aborted;
          return;
        }
        var arn := ScanCertificates(listing.value, domainName);
        o := Returned(ScanResponse(domainName, arn));
    }
  }
}
