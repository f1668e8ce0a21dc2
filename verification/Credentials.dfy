/** Connection credentials and the identity under which a client is cached. */
module Credentials {

  datatype Deployment = Cloud | OnPrem

  datatype Credentials = Credentials(
    user: string,
    password: string,
    region: string,
    deployment: Deployment,
    serverUrl: string,
    verifySsl: bool,
    cfId: string,
    cfSecret: string,
    authStyle: string,
    networks: seq<string>,
    caBundle: string)

  datatype Settings = Settings(
    cfId: string, cfSecret: string, verifySsl: bool, authStyle: string, networks: seq<string>, caBundle: string)

  // SHA-256 is taken to be injective, so a digest is represented by what it digests.
  datatype CacheKey = CacheKey(
    user: string, password: string, deployment: Deployment, endpoint: string, settings: Settings)

  function Endpoint(c: Credentials): string {
    if c.deployment.OnPrem? then c.serverUrl else c.region
  }

  function Key(c: Credentials): CacheKey {
    CacheKey(c.user, c.password, c.deployment, Endpoint(c),
             Settings(c.cfId, c.cfSecret, c.verifySsl, c.authStyle, c.networks, c.caBundle))
  }

  /** The same account, reached the same way: by server URL on premises and by region in the cloud. */
  ghost predicate SameLogin(a: Credentials, b: Credentials) {
    && a.user == b.user && a.password == b.password && a.deployment == b.deployment
    && (a.deployment == OnPrem ==> a.serverUrl == b.serverUrl)
    && (a.deployment == Cloud ==> a.region == b.region)
    && a.cfId == b.cfId && a.cfSecret == b.cfSecret && a.verifySsl == b.verifySsl
    && a.authStyle == b.authStyle && a.networks == b.networks && a.caBundle == b.caBundle
  }

  lemma SameKeyExactlyWhen(a: Credentials, b: Credentials)
    ensures Key(a) == Key(b) <==> SameLogin(a, b)
  {
  }
}
