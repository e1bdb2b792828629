/**
 * What the middleware sees of the AWS SDK: credentials, error values, the two
 * Elasticsearch Service calls (as an oracle whose answers are a parameter of
 * each request), region-scoped clients and the inputs handed to the request
 * signer. The SDK itself and the Signature Version 4 algorithm are not modelled.
 */
module Aws {
  import opened Wrappers

  /** Where a client's credentials come from. */
  datatype Credentials =
    | DefaultChain                 // the root session's default credential chain
    | AssumedRole(role: string)    // temporary STS credentials for a delegated role

  /**
   * An error returned by an SDK call: `code` is present when the error
   * implements awserr.Error, `text` is what err.Error() renders.
   */
  datatype ApiError = ApiError(code: Option<string>, text: string)

  /** DescribeElasticsearchDomain output: DomainStatus and its Endpoint may be nil. */
  datatype DomainStatus = DomainStatus(endpoint: Option<string>)
  datatype DescribeOutput = DescribeOutput(domainStatus: Option<DomainStatus>)

  /**
   * The Elasticsearch Service API as the cloud answers it at the time of a
   * request, for a client of the given region and credentials.
   */
  datatype Service = Service(
    listDomainNames: (string, Credentials) -> Result<seq<string>, ApiError>,
    describeDomain: (string, Credentials, string) -> Result<DescribeOutput, ApiError>)

  /** An elasticsearchservice client: bound to one region and one set of credentials. */
  class Client {
    const region: string
    const credentials: Credentials

    constructor (region: string, credentials: Credentials)
      ensures this.region == region && this.credentials == credentials
    {
      this.region := region;
      this.credentials := credentials;
    }
  }

  /** What v4.Signer.Sign is called with: body bytes (nil for no body), service, region, time. */
  datatype SignCall = SignCall(
    body: Option<seq<Byte>>,
    service: string,
    region: string,
    signTime: int,
    credentials: Credentials)

  newtype Byte = b: int | 0 <= b < 256
}
