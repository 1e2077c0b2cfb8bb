/** The X.509 builders: validation, the clamp to the issuer's expiry, and what every chain
    made by them satisfies. Keys and serials are abstract; a certificate is the fields that
    its template sets, with times cut to whole seconds by the encoding. */
module X509Engine {
  import opened Wrappers
  import opened Durations

  datatype PathLen = Unlimited | Limit(n: nat)

  datatype Certificate = Certificate(
    serial: string,
    notBefore: int,
    notAfter: int,
    publicKey: nat,
    isCA: bool,
    pathLen: PathLen)

  /** What `url.Parse` finds in a SPIFFE URI field. */
  datatype Uri = Missing | Unparsable | Parsed(spiffeScheme: bool, hasHost: bool)

  /** The three signing requests and the fields only they carry. */
  datatype Profile =
    | Workload(uri: Uri)
    | Server(hasName: bool, uri: Uri)
    | Intermediate

  /** The fields the requests share; `None` and "" stand for Go's nil and zero values. */
  datatype Params = Params(
    publicKey: Option<nat>,
    serial: string,
    validAfter: Option<int>,
    validBefore: int)

  datatype Error =
    | NoIssuer | IssuerNotCA | IssuerPathLenZero | NoPublicKey | NoSubjectName
    | BadUri | NoSerial | NoValidAfter | EmptyWindow | IssuerExpired

  function NameError(profile: Profile): Option<Error> {
    match profile
    case Workload(uri) =>
      if uri.Parsed? && uri.spiffeScheme && uri.hasHost then None else Some(BadUri)
    case Server(hasName, uri) =>
      if !hasName then Some(NoSubjectName)
      else if uri.Missing? || (uri.Parsed? && uri.spiffeScheme) then None
      else Some(BadUri)
    case Intermediate => None
  }

  /** `validate`, `validateServer` and `validateIntermediate`. */
  function Validate(profile: Profile, p: Params, issuer: Option<Certificate>): Option<Error> {
    if issuer.None? then Some(NoIssuer)
    else
      var ca := issuer.value;
      if !ca.isCA then Some(IssuerNotCA)
      else if profile.Intermediate? && ca.pathLen == Limit(0) then Some(IssuerPathLenZero)
      else if p.publicKey.None? then Some(NoPublicKey)
      else if NameError(profile).Some? then NameError(profile)
      else if p.serial == "" then Some(NoSerial)
      else if p.validAfter.None? then Some(NoValidAfter)
      else if p.validBefore <= p.validAfter.value then Some(EmptyWindow)
      else if ca.notAfter <= p.validAfter.value then Some(IssuerExpired)
      else None
  }

  /** The template a validated request fills in. */
  function Template(profile: Profile, p: Params): Certificate
    requires p.publicKey.Some? && p.validAfter.Some?
  {
    Certificate(p.serial, p.validAfter.value, p.validBefore, p.publicKey.value,
                profile.Intermediate?, if profile.Intermediate? then Limit(0) else Unlimited)
  }

  /** `signTemplate`'s clamp: a certificate never outlives its issuer. */
  function Clamp(tmpl: Certificate, ca: Certificate): Certificate {
    if tmpl.notAfter > ca.notAfter then tmpl.(notAfter := ca.notAfter) else tmpl
  }

  /** `CreateCertificate` then `ParseCertificate`: the fields survive, fractions of a second do not. */
  function Encoded(tmpl: Certificate): Certificate {
    tmpl.(notBefore := Truncate(tmpl.notBefore), notAfter := Truncate(tmpl.notAfter))
  }

  /** `SignWorkloadCert`, `SignServerCert` and `SignIntermediateCA`. */
  function Build(profile: Profile, p: Params, issuer: Option<Certificate>): Result<Certificate, Error> {
    var e := Validate(profile, p, issuer);
    if e.Some? then Err(e.value)
    else Ok(Encoded(Clamp(Template(profile, p), issuer.value)))
  }

  /** `selfSignedCA`: a minute of back-dating, ten years, and the path-length budget. */
  function SelfSignedCA(now: int, key: nat, serial: string, maxPathLen: int): Certificate {
    Encoded(Certificate(serial, now - 60 * SECOND, now + 10 * 365 * 24 * HOUR, key, true,
                        if maxPathLen <= 0 then Limit(0) else Limit(maxPathLen)))
  }

  /** What one successful build guarantees about the child against its issuer: the template
      window it is cut from is never empty (the clamp cannot invert it), the child ends no later
      than the issuer and no later than asked, and a child CA may sign no further CA. */
  lemma BuildSound(profile: Profile, p: Params, ca: Certificate)
    requires Build(profile, p, Some(ca)).Ok?
    ensures
      var tmpl := Clamp(Template(profile, p), ca);
      var cert := Build(profile, p, Some(ca)).value;
      && ca.isCA
      && tmpl.notBefore < tmpl.notAfter
      && cert.notBefore <= cert.notAfter <= ca.notAfter
      && cert.notAfter <= p.validBefore
      && (cert.isCA <==> profile.Intermediate?)
      && (cert.isCA ==> cert.pathLen == Limit(0) && ca.pathLen != Limit(0))
  {
    var tmpl := Clamp(Template(profile, p), ca);
    TruncateBounds(tmpl.notBefore, tmpl.notAfter);
    TruncateBounds(tmpl.notAfter, tmpl.notAfter);
  }

  /** A request is signed exactly when it is complete: a CA issuer still valid at its start, which may
      sign another CA if one is asked for; a key, a serial and a window; and a workload's SPIFFE URI
      with a host, or a server's name with no URI or a SPIFFE one. The certificate has the key and
      serial asked for, starts and ends in whole seconds where asked or where the issuer ends, and is
      a CA of path length 0 or no CA. */
  lemma BuiltExactly(profile: Profile, p: Params, issuer: Option<Certificate>)
    ensures
      var built := Build(profile, p, issuer);
      && (built.Ok? <==>
            && issuer.Some? && issuer.value.isCA && (profile.Intermediate? ==> issuer.value.pathLen != Limit(0))
            && p.publicKey.Some? && p.serial != ""
            && p.validAfter.Some? && p.validAfter.value < p.validBefore && p.validAfter.value < issuer.value.notAfter
            && (profile.Workload? ==> profile.uri.Parsed? && profile.uri.spiffeScheme && profile.uri.hasHost)
            && (profile.Server? ==> profile.hasName && (profile.uri.Parsed? ==> profile.uri.spiffeScheme) && !profile.uri.Unparsable?))
      && (built.Ok? ==>
            && built.value.serial == p.serial && built.value.publicKey == p.publicKey.value
            && built.value.isCA == profile.Intermediate?
            && built.value.pathLen == (if profile.Intermediate? then Limit(0) else Unlimited)
            && built.value.notBefore == Truncate(p.validAfter.value)
            && (p.validBefore <= issuer.value.notAfter ==> built.value.notAfter == Truncate(p.validBefore))
            && (p.validBefore >= issuer.value.notAfter ==> built.value.notAfter == Truncate(issuer.value.notAfter)))
  {
  }

  /** A root: its own key and serial, back-dated a minute, good for ten years of 365 days, and as many
      intermediates below it as asked, none for a negative number. */
  lemma RootExactly(now: int, key: nat, serial: string, maxPathLen: int)
    ensures
      var root := SelfSignedCA(now, key, serial, maxPathLen);
      && root.isCA && root.publicKey == key && root.serial == serial
      && (maxPathLen >= 0 ==> root.pathLen == Limit(maxPathLen)) && (maxPathLen < 0 ==> root.pathLen == Limit(0))
      && root.notBefore == Truncate(now) - 60 * SECOND && root.notAfter == Truncate(now) + 87600 * HOUR
  {
    TruncateShift(now - 60 * SECOND, 60);
    TruncateShift(now, 315360000);
    assert 315360000 * SECOND == 87600 * HOUR && now - 60 * SECOND + 60 * SECOND == now;
  }

  // -------------------------------------------------------------------------------------
  // Chains, root first
  // -------------------------------------------------------------------------------------

  ghost predicate IsSelfSigned(c: Certificate) {
    exists now: int, key: nat, serial: string, len: int :: c == SelfSignedCA(now, key, serial, len)
  }

  ghost predicate IssuedBy(c: Certificate, ca: Certificate) {
    exists profile: Profile, p: Params :: Build(profile, p, Some(ca)) == Ok(c)
  }

  /** A path in a tree made only by the builders. */
  ghost predicate BuiltChain(chain: seq<Certificate>) {
    && |chain| > 0
    && IsSelfSigned(chain[0])
    && forall i :: 0 < i < |chain| ==> IssuedBy(chain[i], chain[i - 1])
  }

  /** The basic-constraints rule of section 4.2.1.9 of RFC 5280: at most `n` intermediate
      certificates stand between a certificate limited to `n` and the last one of the path. */
  predicate PathLengthRule(chain: seq<Certificate>) {
    forall i :: 0 <= i < |chain| && chain[i].pathLen.Limit? ==> |chain| - 2 - i <= chain[i].pathLen.n
  }

  lemma {:induction false} NotAfterNonIncreasing(chain: seq<Certificate>, i: nat, j: nat)
    requires BuiltChain(chain) && i <= j < |chain|
    ensures chain[j].notAfter <= chain[i].notAfter
  {
    if i < j {
      NotAfterNonIncreasing(chain, i, j - 1);
      LinkSound(chain, j);
    }
  }

  lemma LinkSound(chain: seq<Certificate>, j: nat)
    requires BuiltChain(chain) && 0 < j < |chain|
    ensures chain[j - 1].isCA && chain[j].notBefore <= chain[j].notAfter <= chain[j - 1].notAfter
    ensures chain[j].isCA ==> chain[j].pathLen == Limit(0) && chain[j - 1].pathLen != Limit(0)
    ensures !chain[j].isCA ==> chain[j].pathLen == Unlimited
  {
    assert IssuedBy(chain[j], chain[j - 1]);
    var profile: Profile, p: Params :| Build(profile, p, Some(chain[j - 1])) == Ok(chain[j]);
    BuildSound(profile, p, chain[j - 1]);
  }

  /** No certificate stands below the children of an intermediate, so a chain has at most three. */
  lemma ChainDepth(chain: seq<Certificate>)
    requires BuiltChain(chain)
    ensures |chain| <= 3
    ensures forall i :: 2 <= i < |chain| ==> !chain[i].isCA
    ensures |chain| == 3 ==> chain[0].pathLen != Limit(0) && chain[1].pathLen == Limit(0)
  {
    if |chain| >= 3 {
      LinkSound(chain, 1);
      LinkSound(chain, 2);
      if |chain| >= 4 {
        LinkSound(chain, 3);
        assert false;
      }
    }
  }

  /** Every chain the builders can make: expiry never increases towards the leaf, every window
      is in order, only the last certificate can be a leaf, and the path-length rule holds. */
  lemma ChainSound(chain: seq<Certificate>)
    requires BuiltChain(chain)
    ensures forall i, j :: 0 <= i <= j < |chain| ==> chain[j].notAfter <= chain[i].notAfter
    ensures forall i :: 0 <= i < |chain| ==> chain[i].notBefore <= chain[i].notAfter
    ensures forall i :: 0 <= i < |chain| - 1 ==> chain[i].isCA
    ensures PathLengthRule(chain)
  {
    forall i, j | 0 <= i <= j < |chain| ensures chain[j].notAfter <= chain[i].notAfter {
      NotAfterNonIncreasing(chain, i, j);
    }
    forall j | 0 < j < |chain| ensures chain[j].notBefore <= chain[j].notAfter {
      LinkSound(chain, j);
    }
    forall i | 0 <= i < |chain| - 1 ensures chain[i].isCA {
      LinkSound(chain, i + 1);
    }
    RootWindow(chain[0]);
    ChainDepth(chain);
  }

  lemma RootWindow(c: Certificate)
    requires IsSelfSigned(c)
    ensures c.isCA && c.pathLen.Limit? && c.notBefore <= c.notAfter
  {
    var now: int, key: nat, serial: string, len: int :| c == SelfSignedCA(now, key, serial, len);
    TruncateBounds(now - 60 * SECOND, now + 10 * 365 * 24 * HOUR);
  }
}
