/**
 * The certificate-manager side of the lookup: the summaries ListCertificates
 * returns and the client the handler calls. Only the data the handler reads is
 * modelled; the SDK call itself is replaced by the listing the client was built with.
 */
module Acm {
  import opened Wrappers

  /** One entry of CertificateSummaryList: the certificate's domain name and its ARN. */
  datatype CertificateSummary = CertificateSummary(domainName: string, certificateArn: string)

  /**
   * The certificate-manager client. `listing` is what one ListCertificates call
   * answers: the first page of certificate summaries, or None when either loading
   * the default configuration or the call itself fails. `serviceCalls` counts
   * the attempts to consult the service (loading the configuration and listing
   * the certificates, taken together), so that a caller can state when the
   * service is not consulted.
   */
  class CertificateClient {
    const listing: Option<seq<CertificateSummary>>
    ghost var serviceCalls: nat

    constructor (listing: Option<seq<CertificateSummary>>)
      ensures this.listing == listing && serviceCalls == 0
    {
      this.listing := listing;
      serviceCalls := 0;
    }

    /** One attempt to consult the service; the listing itself is never changed. */
    method ListCertificates() returns (r: Option<seq<CertificateSummary>>)
      modifies this
      ensures r == listing
      ensures serviceCalls == old(serviceCalls) + 1
    {
      serviceCalls := serviceCalls + 1;
      r := listing;
    }
  }
}
