/**
 * The certificate search: a scan of the summaries in list order that stops at
 * the first one whose domain name equals the requested name exactly.
 */
module Search {
  import opened Wrappers
  import opened Acm

  /** The position of the first summary whose domain name is `domainName`, if any. */
  function FirstMatch(certs: seq<CertificateSummary>, domainName: string): (r: Option<nat>)
    ensures r.Some? ==> r.value < |certs| && certs[r.value].domainName == domainName
    ensures r.Some? ==> forall j :: 0 <= j < r.value ==> certs[j].domainName != domainName
    ensures r.None? ==> forall j :: 0 <= j < |certs| ==> certs[j].domainName != domainName
  {
    if certs == [] then None
    else if certs[0].domainName == domainName then Some(0)
    else match FirstMatch(certs[1..], domainName)
      case None => None
      case Some(i) => Some(i + 1)
  }

  /** The ARN the search returns: that of the first summary with the requested domain name. */
  function FirstMatchArn(certs: seq<CertificateSummary>, domainName: string): (r: Option<string>)
    ensures r.Some? ==> exists c :: c in certs && c.domainName == domainName && c.certificateArn == r.value
    ensures r.None? <==> forall c :: c in certs ==> c.domainName != domainName
  {
    match FirstMatch(certs, domainName)
    case None => None
    case Some(i) => Some(certs[i].certificateArn)
  }

  /** The `for ... range` loop over the summaries, with its early return. */
  method ScanCertificates(certs: seq<CertificateSummary>, domainName: string) returns (arn: Option<string>)
    ensures arn == FirstMatchArn(certs, domainName)
  {
    var i := 0;
    while i < |certs|
      invariant 0 <= i <= |certs|
      invariant forall j :: 0 <= j < i ==> certs[j].domainName != domainName
    {
      if certs[i].domainName == domainName {
        return Some(certs[i].certificateArn);
      }
      i := i + 1;
    }
    return None;
  }

  /** The first match is characterised by its two properties: it matches, and nothing before it does. */
  lemma FirstMatchIsFirst(certs: seq<CertificateSummary>, domainName: string, i: nat)
    ensures FirstMatch(certs, domainName) == Some(i) <==>
      (i < |certs| && certs[i].domainName == domainName &&
       forall j :: 0 <= j < i ==> certs[j].domainName != domainName)
  {
  }

  /**
   * Only the first page of the listing is scanned. When that page already holds a
   * match, the pages after it could not change the answer.
   */
  lemma {:induction false} FirstPageDecides(page: seq<CertificateSummary>, rest: seq<CertificateSummary>, domainName: string)
    requires FirstMatch(page, domainName).Some?
    ensures FirstMatch(page + rest, domainName) == FirstMatch(page, domainName)
  {
    var i := FirstMatch(page, domainName).value;
    assert (page + rest)[i] == page[i];
    forall j | 0 <= j < i
      ensures (page + rest)[j].domainName != domainName
    {
      assert (page + rest)[j] == page[j];
    }
    FirstMatchIsFirst(page + rest, domainName, i);
  }

  /**
   * When the first page holds no match, a full listing would find the first
   * match of the later pages, shifted by the first page's length; the
   * single-page scan reports nothing in that case.
   */
  lemma {:induction false} LaterPageMatch(page: seq<CertificateSummary>, rest: seq<CertificateSummary>, domainName: string)
    requires FirstMatch(page, domainName).None?
    ensures FirstMatch(page + rest, domainName) ==
      match FirstMatch(rest, domainName)
      case None => None
      case Some(k) => Some(|page| + k)
  {
    var all := page + rest;
    forall j | 0 <= j < |page|
      ensures all[j].domainName != domainName
    {
      assert all[j] == page[j];
    }
    match FirstMatch(rest, domainName)
    case None =>
      forall j | |page| <= j < |all|
        ensures all[j].domainName != domainName
      {
        assert all[j] == rest[j - |page|];
      }
    case Some(k) =>
      assert all[|page| + k] == rest[k];
      forall j | |page| <= j < |page| + k
        ensures all[j].domainName != domainName
      {
        assert all[j] == rest[j - |page|];
      }
      FirstMatchIsFirst(all, domainName, |page| + k);
  }
}
