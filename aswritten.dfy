/**
 * The handler with the resource properties typed as the event type declares
 * them, a map from string to an untyped (interface) value. Indexing it with an
 * absent key yields nil, not "", so the DomainName check lets an absent
 * DomainName through. Handler.HandlerSpec is the corrected definition.
 */
module AsWritten {
  import opened Wrappers
  import opened Acm
  import opened Search
  import opened Handler

  /** How `%s` prints a nil interface value. */
  const NilShown: string := "%!s(<nil>)"

  /** The untyped DomainName value: None is the nil interface of an absent key. */
  function DomainNameValue(props: map<string, string>): (v: Option<string>)
    ensures v.None? <==> DomainNameProperty !in props
  {
    if DomainNameProperty in props then Some(props[DomainNameProperty]) else None
  }

  /**
   * The handler with Go's interface comparisons: only a present empty string
   * equals "", and a nil value equals no certificate's domain name, so its scan
   * finds nothing.
   */
  function HandlerAsWritten(event: Event, listing: Option<seq<CertificateSummary>>): (o: Outcome)
    ensures o.Returned? ==> o.response.physicalId == PhysicalId
  {
    if event.requestType == Delete then
      Returned(Response(PhysicalId, None, None))
    else
      var value := DomainNameValue(event.resourceProperties);
      if value == Some("") then
        Returned(Response(PhysicalId, None, Some(DomainNameNotDefined)))
      else
        match listing
        case None => Aborted
        case Some(certs) =>
          match value
          case Some(domainName) => Returned(ScanResponse(domainName, FirstMatchArn(certs, domainName)))
          case None => Returned(Response(PhysicalId, None, Some(CertificateNotFound(NilShown))))
  }

  /**
   * Any request other than Delete without DomainName (whatever else it
   * carries, ServiceToken for one): as written it calls the service and then
   * reports a certificate for "%!s(<nil>)" as not found; the corrected handler
   * rejects it as "DomainName not defined" without calling the service.
   */
  lemma AbsentDomainNamePassesCheck(event: Event, certs: seq<CertificateSummary>)
    requires event.requestType != Delete
    requires DomainNameProperty !in event.resourceProperties
    ensures HandlerAsWritten(event, None) == Aborted
    ensures HandlerAsWritten(event, Some(certs)) ==
      Returned(Response(PhysicalId, None, Some(CertificateNotFound(NilShown))))
    ensures HandlerSpec(event, Some(certs)) ==
      Returned(Response(PhysicalId, None, Some(DomainNameNotDefined)))
    ensures !Consults(event)
  {
  }

  /** Example: a Create carrying only ServiceToken. */
  lemma ServiceTokenOnlyCreate(certs: seq<CertificateSummary>)
    ensures HandlerAsWritten(Event(Create, map["ServiceToken" := "arn:aws:lambda:fn"]), Some(certs)) ==
      Returned(Response(PhysicalId, None, Some(CertificateNotFound(NilShown))))
  {
  }

  /** The correction changes nothing for a Delete or when DomainName is present. */
  lemma AgreesWhenDomainNamePresent(event: Event, listing: Option<seq<CertificateSummary>>)
    requires event.requestType == Delete || DomainNameProperty in event.resourceProperties
    ensures HandlerAsWritten(event, listing) == HandlerSpec(event, listing)
  {
  }
}
