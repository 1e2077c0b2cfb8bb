/** The role record shared by policy evaluation, the admin form and reconcile. */
module Roles {
  import opened Durations

  datatype Role = Role(
    name: string,
    groupClaim: string,
    allowedPrincipals: seq<string>,
    hostPatterns: seq<string>,
    spiffePatterns: seq<string>,
    maxUserCertTTLSeconds: int64,
    maxHostCertTTLSeconds: int64,
    maxX509CertTTLSeconds: int64,
    defaultExtensions: map<string, string>)

  predicate UniqueNames(roles: seq<Role>) {
    forall i, j :: 0 <= i < j < |roles| ==> roles[i].name != roles[j].name
  }

  predicate HasName(roles: seq<Role>, name: string) {
    exists i :: 0 <= i < |roles| && roles[i].name == name
  }
}
