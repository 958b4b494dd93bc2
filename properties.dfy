/**
 * What the handler promises, stated over HandlerSpec for all events and listings.
 */
module HandlerProperties {
  import opened Wrappers
  import opened Acm
  import opened Search
  import opened Handler

  /** A Delete request answers "the" with no data and no error, and never calls the service. */
  lemma DeleteShortCircuits(event: Event, listing: Option<seq<CertificateSummary>>)
    requires event.requestType == Delete
    ensures HandlerSpec(event, listing) == Returned(Response(PhysicalId, None, None))
    ensures !Consults(event)
  {
  }

  /** Only Delete is special-cased: every other request type is handled as Create is. */
  lemma OnlyDeleteIsSpecial(event: Event, listing: Option<seq<CertificateSummary>>)
    requires event.requestType != Delete
    ensures HandlerSpec(event, listing) == HandlerSpec(event.(requestType := Create), listing)
    ensures Consults(event) <==> DomainNameOf(event.resourceProperties) != ""
  {
  }

  /** The wire string "Delete" short-circuits, and no other string does. */
  lemma DeleteStringShortCircuits(s: string, props: map<string, string>, listing: Option<seq<CertificateSummary>>)
    ensures s == "Delete" ==> HandlerSpec(Event(RequestTypeOf(s), props), listing) == Returned(Response(PhysicalId, None, None))
    ensures s != "Delete" ==>
      HandlerSpec(Event(RequestTypeOf(s), props), listing) == HandlerSpec(Event(Create, props), listing)
  {
  }

  /** An absent or empty DomainName is rejected before the service is called. */
  lemma MissingDomainNameRejected(event: Event, listing: Option<seq<CertificateSummary>>)
    requires event.requestType != Delete
    requires DomainNameProperty !in event.resourceProperties || event.resourceProperties[DomainNameProperty] == ""
    ensures HandlerSpec(event, listing) == Returned(Response(PhysicalId, None, Some(DomainNameNotDefined)))
    ensures HandlerSpec(event, listing).response.error.value.Message() == "DomainName not defined"
    ensures !Consults(event)
  {
  }

  /**
   * A returned ARN is that of the first summary, in list order, whose domain
   * name equals DomainName exactly; no earlier summary has that domain name.
   */
  lemma SuccessIsFirstMatch(event: Event, certs: seq<CertificateSummary>)
    requires HandlerSpec(event, Some(certs)).Returned?
    requires HandlerSpec(event, Some(certs)).response.data.Some?
    ensures exists i ::
      && 0 <= i < |certs|
      && certs[i].domainName == DomainNameOf(event.resourceProperties)
      && HandlerSpec(event, Some(certs)).response.data.value == map[CertificateArnKey := certs[i].certificateArn]
      && forall j :: 0 <= j < i ==> certs[j].domainName != DomainNameOf(event.resourceProperties)
  {
    var domainName := DomainNameOf(event.resourceProperties);
    var i := FirstMatch(certs, domainName).value;
    assert certs[i].domainName == domainName;
  }

  /** The handler never returns an ARN that is not in the listing under the requested domain name. */
  lemma ArnComesFromListing(event: Event, certs: seq<CertificateSummary>)
    requires HandlerSpec(event, Some(certs)).Returned?
    requires HandlerSpec(event, Some(certs)).response.data.Some?
    ensures HandlerSpec(event, Some(certs)).response.data.value.Keys == {CertificateArnKey}
    ensures exists c ::
      && c in certs
      && c.domainName == DomainNameOf(event.resourceProperties)
      && c.certificateArn == HandlerSpec(event, Some(certs)).response.data.value[CertificateArnKey]
  {
  }

  /**
   * Past the DomainName check, the lookup fails with the not-found error exactly
   * when no summary carries the requested domain name, and the error's text
   * ends with that name.
   */
  lemma NotFoundIffNoMatch(event: Event, certs: seq<CertificateSummary>)
    requires Consults(event)
    ensures var domainName := DomainNameOf(event.resourceProperties);
      HandlerSpec(event, Some(certs)) == Returned(Response(PhysicalId, None, Some(CertificateNotFound(domainName))))
      <==> forall c :: c in certs ==> c.domainName != domainName
    ensures var r := HandlerSpec(event, Some(certs)).response;
      r.error.Some? ==> r.error.value.Message() == NotFoundPrefix + DomainNameOf(event.resourceProperties)
  {
  }

  /**
   * The text CloudFormation receives tells the two errors apart, and a
   * not-found text tells which name was requested.
   */
  lemma MessageIdentifiesError(e1: HandlerError, e2: HandlerError)
    requires e1.Message() == e2.Message()
    ensures e1 == e2
  {
  }

  /** Every returned response has physical id "the"; data and error are never both present, and off Delete exactly one is. */
  lemma DataXorError(event: Event, listing: Option<seq<CertificateSummary>>)
    requires HandlerSpec(event, listing).Returned?
    ensures HandlerSpec(event, listing).response.physicalId == PhysicalId
    ensures !(HandlerSpec(event, listing).response.data.Some? && HandlerSpec(event, listing).response.error.Some?)
    ensures event.requestType != Delete ==>
      (HandlerSpec(event, listing).response.data.Some? || HandlerSpec(event, listing).response.error.Some?)
  {
  }

  /** The outcome depends on the request type and the DomainName value only, not on other properties. */
  lemma OnlyDomainNameMatters(e1: Event, e2: Event, listing: Option<seq<CertificateSummary>>)
    requires e1.requestType == e2.requestType
    requires DomainNameOf(e1.resourceProperties) == DomainNameOf(e2.resourceProperties)
    ensures HandlerSpec(e1, listing) == HandlerSpec(e2, listing)
  {
  }

  /** When the service is not consulted, what it would have answered makes no difference. */
  lemma ListingIrrelevantUnlessConsulted(event: Event, l1: Option<seq<CertificateSummary>>, l2: Option<seq<CertificateSummary>>)
    requires !Consults(event)
    ensures HandlerSpec(event, l1) == HandlerSpec(event, l2)
  {
  }

  /** A certificate that is the only one with the requested name is found wherever it stands in the list. */
  lemma UniqueMatchFound(event: Event, certs: seq<CertificateSummary>, i: nat)
    requires Consults(event)
    requires i < |certs| && certs[i].domainName == DomainNameOf(event.resourceProperties)
    requires forall j :: 0 <= j < |certs| && j != i ==> certs[j].domainName != DomainNameOf(event.resourceProperties)
    ensures HandlerSpec(event, Some(certs)) ==
      Returned(Response(PhysicalId, Some(map[CertificateArnKey := certs[i].certificateArn]), None))
  {
  }

  /**
   * Matching is exact string equality: a summary whose domain name is not the
   * requested one character for character (for instance one differing only in
   * letter case) is never the match, whatever else is listed.
   */
  lemma MatchIsExact(event: Event, certs: seq<CertificateSummary>, k: nat)
    requires Consults(event)
    requires k < |certs| && certs[k].domainName != DomainNameOf(event.resourceProperties)
    ensures FirstMatch(certs, DomainNameOf(event.resourceProperties)) != Some(k)
    ensures (forall j :: 0 <= j < |certs| && j != k ==> certs[j].domainName != DomainNameOf(event.resourceProperties)) ==>
      HandlerSpec(event, Some(certs)) ==
        Returned(Response(PhysicalId, None, Some(CertificateNotFound(DomainNameOf(event.resourceProperties)))))
  {
    var domainName := DomainNameOf(event.resourceProperties);
    if forall j :: 0 <= j < |certs| && j != k ==> certs[j].domainName != domainName {
      assert forall c :: c in certs ==> c.domainName != domainName;
    }
  }

  /** Example: "API.example.com" is not a match for "api.example.com". */
  lemma MatchIsCaseSensitive()
    ensures HandlerSpec(Event(Create, map[DomainNameProperty := "api.example.com"]),
                        Some([CertificateSummary("API.example.com", "arn:1")])) ==
      Returned(Response(PhysicalId, None, Some(CertificateNotFound("api.example.com"))))
  {
  }

  /** A Create for a listed name returns the first listed ARN for it. */
  lemma CreateFindsListedName()
    ensures HandlerSpec(Event(Create, map[DomainNameProperty := "api.example.com"]),
                        Some([CertificateSummary("api.example.com", "arn:1"), CertificateSummary("www.example.com", "arn:2")])) ==
      Returned(Response(PhysicalId, Some(map[CertificateArnKey := "arn:1"]), None))
  {
  }

  /** An Update for an unlisted name fails with an error that names it. */
  lemma UpdateMissesUnlistedName()
    ensures HandlerSpec(Event(Update, map[DomainNameProperty := "missing.example.com"]),
                        Some([CertificateSummary("api.example.com", "arn:1"), CertificateSummary("www.example.com", "arn:2")])) ==
      Returned(Response(PhysicalId, None, Some(CertificateNotFound("missing.example.com"))))
  {
  }
}
