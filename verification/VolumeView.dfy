/** api/application.go: certificates and registries are shown to the user as such but stored as
    secret volumes. */
module VolumeView {
  import opened Model

  datatype View = View(
    name: string, hostPath: Option<string>, config: Option<Ref>, secret: Option<Ref>,
    emptyDir: Option<string>, certificate: Option<Ref>)

  datatype Registry = Registry(name: string, address: string, username: string)

  datatype SecretKind = RegistryLabel | CertificateLabel | OtherLabel
  datatype SecretRow = SecretRow(kind: SecretKind, address: string, username: string)
  type Secrets = map<string, SecretRow>

  // ----- to secrets -----

  function Hidden(v: View): Volume {
    Volume(v.name, v.hostPath, v.config,
           if v.certificate.Some? then Some(Ref(v.certificate.value.name, "")) else v.secret, v.emptyDir)
  }

  function RegistryVolume(r: Registry): Volume {
    Volume(r.name, None, None, Some(Ref(r.name, "")), None)
  }

  ghost function AllHidden(vs: seq<View>): seq<Volume> {
    seq(|vs|, i requires 0 <= i < |vs| => Hidden(vs[i]))
  }

  ghost function RegistryVolumes(rs: seq<Registry>): seq<Volume> {
    seq(|rs|, i requires 0 <= i < |rs| => RegistryVolume(rs[i]))
  }

  method TranslateSecretLikedModelsToSecrets(volumes: seq<View>, registries: seq<Registry>)
    returns (stored: seq<Volume>)
    ensures stored == AllHidden(volumes) + RegistryVolumes(registries)
  {
    stored := [];
    for k := 0 to |volumes|
      invariant |stored| == k && forall i | 0 <= i < k :: stored[i] == Hidden(volumes[i])
    {
      var v := volumes[k];
      var volume := Volume(v.name, v.hostPath, v.config, v.secret, v.emptyDir);
      if v.certificate.Some? {
        volume := volume.(secret := Some(Ref(v.certificate.value.name, "")));
      }
      stored := stored + [volume];
    }
    ghost var first := stored;
    for k := 0 to |registries|
      invariant |stored| == |first| + k && stored[..|first|] == first
      invariant forall i | 0 <= i < k :: stored[|first| + i] == RegistryVolume(registries[i])
    {
      stored := stored + [Volume(registries[k].name, None, None, Some(Ref(registries[k].name, "")), None)];
    }
  }

  // ----- and back -----

  function Unhidden(v: Volume): View {
    View(v.name, v.hostPath, v.config, v.secret, v.emptyDir, None)
  }

  function AsCertificate(v: Volume): View
    requires v.secret.Some?
  {
    View(v.name, None, None, None, None, v.secret)
  }

  /** What becomes of one stored volume: at most one volume and at most one registry. */
  function ShownVolume(secrets: Secrets, v: Volume): seq<View> {
    if v.secret.None? then [Unhidden(v)]
    else if v.secret.value.name !in secrets then []
    else match secrets[v.secret.value.name].kind
      case RegistryLabel => []
      case CertificateLabel => [AsCertificate(v)]
      case OtherLabel => [Unhidden(v)]
  }

  function ShownRegistry(secrets: Secrets, v: Volume): seq<Registry> {
    if v.secret.Some? && v.secret.value.name in secrets && secrets[v.secret.value.name].kind.RegistryLabel?
    then [Registry(v.secret.value.name, secrets[v.secret.value.name].address, secrets[v.secret.value.name].username)]
    else []
  }

  ghost function ShownVolumes(secrets: Secrets, vs: seq<Volume>): seq<View> {
    if vs == [] then [] else ShownVolumes(secrets, vs[..|vs| - 1]) + ShownVolume(secrets, vs[|vs| - 1])
  }

  ghost function ShownRegistries(secrets: Secrets, vs: seq<Volume>): seq<Registry> {
    if vs == [] then [] else ShownRegistries(secrets, vs[..|vs| - 1]) + ShownRegistry(secrets, vs[|vs| - 1])
  }

  method TranslateSecretsToSecretLikedResources(secrets: Secrets, stored: seq<Volume>)
    returns (volumes: seq<View>, registries: seq<Registry>)
    ensures volumes == ShownVolumes(secrets, stored) && registries == ShownRegistries(secrets, stored)
  {
    volumes, registries := [], [];
    for i := 0 to |stored|
      invariant volumes == ShownVolumes(secrets, stored[..i]) && registries == ShownRegistries(secrets, stored[..i])
    {
      assert stored[..i + 1][..i] == stored[..i];
      var kept, registry := TranslateSecret(secrets, stored[i]);
      volumes, registries := volumes + kept, registries + registry;
    }
    assert stored[..|stored|] == stored;
  }

  /** The body of the loop: nothing, a registry, or a volume is added. */
  method TranslateSecret(secrets: Secrets, stored: Volume) returns (volumes: seq<View>, registries: seq<Registry>)
    ensures volumes == ShownVolume(secrets, stored) && registries == ShownRegistry(secrets, stored)
  {
    var volume := Unhidden(stored);
    if stored.secret.Some? {
      var name := stored.secret.value.name;
      if name !in secrets {
        return [], [];
      }
      if secrets[name].kind.RegistryLabel? {
        return [], [Registry(name, secrets[name].address, secrets[name].username)];
      }
      if secrets[name].kind.CertificateLabel? {
        volume := View(volume.name, None, None, None, None, Some(Ref(name, stored.secret.value.version)));
      }
    }
    return [volume], [];
  }

  // ----- round trip -----

  function Erase(r: Option<Ref>): Option<Ref> {
    if r.Some? then Some(Ref(r.value.name, "")) else None
  }

  /** Volumes are compared without the versions of what they refer to. */
  function Unversioned(v: View): View {
    v.(config := Erase(v.config), secret := Erase(v.secret), certificate := Erase(v.certificate))
  }

  ghost predicate SameVolumes(vs: seq<View>, ws: seq<View>) {
    |vs| == |ws| && forall i | 0 <= i < |vs| :: Unversioned(vs[i]) == Unversioned(ws[i])
  }

  ghost predicate SameRegistries(rs: seq<Registry>, qs: seq<Registry>) {
    |rs| == |qs| && forall i | 0 <= i < |rs| :: rs[i].name == qs[i].name
  }

  /** One source where a certificate is used, and the secret behind it exists with the right label. */
  predicate Resolves(secrets: Secrets, v: View) {
    if v.certificate.Some? then
      && v.hostPath.None? && v.config.None? && v.secret.None? && v.emptyDir.None?
      && v.certificate.value.name in secrets && secrets[v.certificate.value.name].kind.CertificateLabel?
    else v.secret.Some? ==>
      v.secret.value.name in secrets && secrets[v.secret.value.name].kind.OtherLabel?
  }

  predicate RegistryResolves(secrets: Secrets, r: Registry) {
    r.name in secrets && secrets[r.name].kind.RegistryLabel?
  }

  lemma ResolvesIgnoresVersions(secrets: Secrets, v: View, w: View)
    requires Unversioned(v) == Unversioned(w)
    ensures Resolves(secrets, v) <==> Resolves(secrets, w)
  {
    assert v.name == w.name && v.hostPath == w.hostPath && v.emptyDir == w.emptyDir;
    assert Erase(v.config) == Erase(w.config) && Erase(v.secret) == Erase(w.secret);
    assert Erase(v.certificate) == Erase(w.certificate);
  }

  lemma {:induction false} VolumesConcat(secrets: Secrets, a: seq<Volume>, b: seq<Volume>)
    ensures ShownVolumes(secrets, a + b) == ShownVolumes(secrets, a) + ShownVolumes(secrets, b)
  {
    if b == [] {
      assert a + b == a;
    } else {
      var init, last := b[..|b| - 1], b[|b| - 1];
      assert (a + b)[..|a + b| - 1] == a + init;
      VolumesConcat(secrets, a, init);
    }
  }

  lemma {:induction false} RegistriesConcat(secrets: Secrets, a: seq<Volume>, b: seq<Volume>)
    ensures ShownRegistries(secrets, a + b) == ShownRegistries(secrets, a) + ShownRegistries(secrets, b)
  {
    if b == [] {
      assert a + b == a;
    } else {
      var init, last := b[..|b| - 1], b[|b| - 1];
      assert (a + b)[..|a + b| - 1] == a + init;
      RegistriesConcat(secrets, a, init);
    }
  }

  /** Whatever is shown resolves. */
  lemma {:induction false} ShownResolves(secrets: Secrets, vs: seq<Volume>)
    ensures forall i | 0 <= i < |ShownVolumes(secrets, vs)| :: Resolves(secrets, ShownVolumes(secrets, vs)[i])
    ensures forall i | 0 <= i < |ShownRegistries(secrets, vs)| ::
              RegistryResolves(secrets, ShownRegistries(secrets, vs)[i])
  {
    if vs != [] { ShownResolves(secrets, vs[..|vs| - 1]); }
  }

  ghost predicate VolumesResolve(secrets: Secrets, vs: seq<View>) {
    forall i | 0 <= i < |vs| :: Resolves(secrets, vs[i])
  }

  /** Volumes that resolve come back one for one and yield no registry. */
  lemma {:induction false} ResolvedVolumes(secrets: Secrets, vs: seq<View>)
    requires VolumesResolve(secrets, vs)
    ensures SameVolumes(ShownVolumes(secrets, AllHidden(vs)), vs) && ShownRegistries(secrets, AllHidden(vs)) == []
  {
    if vs != [] {
      var init, last := vs[..|vs| - 1], vs[|vs| - 1];
      assert vs == init + [last];
      assert VolumesResolve(secrets, init) by { assert forall i | 0 <= i < |init| :: init[i] == vs[i]; }
      ResolvedVolumes(secrets, init);
      ResolvedNext(secrets, init, last);
    }
  }

  lemma ResolvedNext(secrets: Secrets, vs: seq<View>, v: View)
    requires SameVolumes(ShownVolumes(secrets, AllHidden(vs)), vs) && ShownRegistries(secrets, AllHidden(vs)) == []
    requires Resolves(secrets, v)
    ensures SameVolumes(ShownVolumes(secrets, AllHidden(vs + [v])), vs + [v])
    ensures ShownRegistries(secrets, AllHidden(vs + [v])) == []
  {
    HiddenNext(vs, v);
    ShownNext(secrets, AllHidden(vs), Hidden(v));
    ResolvedVolume(secrets, v);
    SameVolumesNext(ShownVolumes(secrets, AllHidden(vs)), vs, ShownVolume(secrets, Hidden(v)), v);
  }

  lemma HiddenNext(vs: seq<View>, v: View)
    ensures AllHidden(vs + [v]) == AllHidden(vs) + [Hidden(v)]
  {
  }

  lemma ShownNext(secrets: Secrets, vs: seq<Volume>, v: Volume)
    ensures ShownVolumes(secrets, vs + [v]) == ShownVolumes(secrets, vs) + ShownVolume(secrets, v)
    ensures ShownRegistries(secrets, vs + [v]) == ShownRegistries(secrets, vs) + ShownRegistry(secrets, v)
  {
    assert (vs + [v])[..|vs + [v]| - 1] == vs;
  }

  lemma ResolvedVolume(secrets: Secrets, v: View)
    requires Resolves(secrets, v)
    ensures |ShownVolume(secrets, Hidden(v))| == 1 && ShownRegistry(secrets, Hidden(v)) == []
    ensures Unversioned(ShownVolume(secrets, Hidden(v))[0]) == Unversioned(v)
  {
  }

  lemma SameVolumesNext(vs: seq<View>, ws: seq<View>, shown: seq<View>, w: View)
    requires SameVolumes(vs, ws) && |shown| == 1 && Unversioned(shown[0]) == Unversioned(w)
    ensures SameVolumes(vs + shown, ws + [w])
  {
  }

  ghost predicate AllResolve(secrets: Secrets, rs: seq<Registry>) {
    forall i | 0 <= i < |rs| :: RegistryResolves(secrets, rs[i])
  }

  lemma AllResolveLast(secrets: Secrets, rs: seq<Registry>)
    requires rs != []
    ensures AllResolve(secrets, rs) <==> AllResolve(secrets, rs[..|rs| - 1]) && RegistryResolves(secrets, rs[|rs| - 1])
  {
    var init := rs[..|rs| - 1];
    if AllResolve(secrets, rs) {
      forall i | 0 <= i < |init| ensures RegistryResolves(secrets, init[i]) { assert init[i] == rs[i]; }
    }
    if AllResolve(secrets, init) && RegistryResolves(secrets, rs[|rs| - 1]) {
      forall i | 0 <= i < |rs| ensures RegistryResolves(secrets, rs[i]) {
        if i < |init| { assert init[i] == rs[i]; }
      }
    }
  }

  /** Registries come back one for one exactly when all resolve; some are missing otherwise. */
  lemma {:induction false} RegistriesCounted(secrets: Secrets, rs: seq<Registry>)
    ensures var shown := ShownRegistries(secrets, RegistryVolumes(rs));
            |shown| <= |rs| && (|shown| == |rs| <==> AllResolve(secrets, rs))
  {
    if rs != [] {
      var init := rs[..|rs| - 1];
      RegistriesCounted(secrets, init);
      assert RegistryVolumes(rs)[..|rs| - 1] == RegistryVolumes(init);
      AllResolveLast(secrets, rs);
    }
  }

  lemma {:induction false} RegistriesShown(secrets: Secrets, rs: seq<Registry>)
    requires AllResolve(secrets, rs)
    ensures ShownVolumes(secrets, RegistryVolumes(rs)) == []
    ensures SameRegistries(ShownRegistries(secrets, RegistryVolumes(rs)), rs)
  {
    if rs != [] {
      var init := rs[..|rs| - 1];
      AllResolveLast(secrets, rs);
      RegistriesShown(secrets, init);
      assert rs == init + [rs[|rs| - 1]];
      RegistriesShownNext(secrets, init, rs[|rs| - 1]);
    }
  }

  lemma RegistriesShownNext(secrets: Secrets, rs: seq<Registry>, r: Registry)
    requires ShownVolumes(secrets, RegistryVolumes(rs)) == [] && RegistryResolves(secrets, r)
    requires SameRegistries(ShownRegistries(secrets, RegistryVolumes(rs)), rs)
    ensures ShownVolumes(secrets, RegistryVolumes(rs + [r])) == []
    ensures SameRegistries(ShownRegistries(secrets, RegistryVolumes(rs + [r])), rs + [r])
  {
    var shown := ShownRegistries(secrets, RegistryVolumes(rs));
    RegistryVolumesNext(rs, r);
    ShownNext(secrets, RegistryVolumes(rs), RegistryVolume(r));
    var q := RegistryShown(secrets, RegistryVolume(r));
    SameRegistriesNext(shown, rs, q, r);
  }

  lemma RegistryVolumesNext(rs: seq<Registry>, r: Registry)
    ensures RegistryVolumes(rs + [r]) == RegistryVolumes(rs) + [RegistryVolume(r)]
  {
  }

  lemma SameRegistriesNext(rs: seq<Registry>, qs: seq<Registry>, r: Registry, q: Registry)
    requires SameRegistries(rs, qs) && r.name == q.name
    ensures SameRegistries(rs + [r], qs + [q])
  {
  }

  /** Hiding certificates and registries as secrets and showing them again gives back the same volumes
      and registries in order, up to versions and registry details, exactly when every secret they
      name exists with the label that says what it is (and certificates are a volume's only source). */
  lemma RoundTripIff(secrets: Secrets, vs: seq<View>, rs: seq<Registry>)
    ensures var stored := AllHidden(vs) + RegistryVolumes(rs);
            SameVolumes(ShownVolumes(secrets, stored), vs) && SameRegistries(ShownRegistries(secrets, stored), rs)
            <==> VolumesResolve(secrets, vs) && AllResolve(secrets, rs)
  {
    var stored := AllHidden(vs) + RegistryVolumes(rs);
    if SameVolumes(ShownVolumes(secrets, stored), vs) {
      SameVolumesResolve(secrets, stored, vs);
    }
    if VolumesResolve(secrets, vs) {
      RegistriesDecide(secrets, vs, rs);
    }
  }

  lemma SameVolumesResolve(secrets: Secrets, stored: seq<Volume>, vs: seq<View>)
    requires SameVolumes(ShownVolumes(secrets, stored), vs)
    ensures VolumesResolve(secrets, vs)
  {
    ShownResolves(secrets, stored);
    forall i | 0 <= i < |vs| ensures Resolves(secrets, vs[i]) {
      ResolvesIgnoresVersions(secrets, ShownVolumes(secrets, stored)[i], vs[i]);
    }
  }

  /** With volumes that resolve, what comes back is right exactly when the registries resolve. */
  lemma RegistriesDecide(secrets: Secrets, vs: seq<View>, rs: seq<Registry>)
    requires VolumesResolve(secrets, vs)
    ensures var stored := AllHidden(vs) + RegistryVolumes(rs);
            SameVolumes(ShownVolumes(secrets, stored), vs) && SameRegistries(ShownRegistries(secrets, stored), rs)
            <==> AllResolve(secrets, rs)
  {
    ResolvedVolumes(secrets, vs);
    VolumesConcat(secrets, AllHidden(vs), RegistryVolumes(rs));
    RegistriesConcat(secrets, AllHidden(vs), RegistryVolumes(rs));
    RegistriesCounted(secrets, rs);
    var volumes, registries := ShownVolumes(secrets, AllHidden(vs)), ShownRegistries(secrets, RegistryVolumes(rs));
    assert [] + registries == registries;
    if AllResolve(secrets, rs) {
      RegistriesShown(secrets, rs);
      assert volumes + [] == volumes;
    }
  }

  /** A registry's secret that is mounted as a plain volume comes back as a registry. */
  lemma MountedRegistryMoves(secrets: Secrets, v: View)
    requires v.certificate.None? && v.secret.Some? && v.secret.value.name in secrets
    requires secrets[v.secret.value.name].kind.RegistryLabel?
    ensures ShownVolumes(secrets, AllHidden([v])) == []
    ensures var shown := ShownRegistries(secrets, AllHidden([v]));
            |shown| == 1 && shown[0].name == v.secret.value.name
  {
    assert AllHidden([v]) == [] + [Hidden(v)];
    ShownNext(secrets, [], Hidden(v));
  }

  /** The details shown for a registry are those of its secret. */
  lemma {:induction false} RegistryDetails(secrets: Secrets, vs: seq<Volume>, i: nat)
    requires i < |ShownRegistries(secrets, vs)|
    ensures var r := ShownRegistries(secrets, vs)[i];
            r.name in secrets && r == Registry(r.name, secrets[r.name].address, secrets[r.name].username)
  {
    if vs != [] && i < |ShownRegistries(secrets, vs[..|vs| - 1])| {
      RegistryDetails(secrets, vs[..|vs| - 1], i);
    }
  }

  // ----- stored volumes, shown and hidden again -----

  /** What is stored when an app is submitted as it was shown. */
  ghost function Rehidden(secrets: Secrets, vs: seq<Volume>): seq<Volume> {
    AllHidden(ShownVolumes(secrets, vs)) + RegistryVolumes(ShownRegistries(secrets, vs))
  }

  predicate HasLabel(secrets: Secrets, v: Volume, kind: SecretKind) {
    v.secret.Some? && v.secret.value.name in secrets && secrets[v.secret.value.name].kind == kind
  }

  predicate OnlySecret(v: Volume) {
    v.hostPath.None? && v.config.None? && v.emptyDir.None?
  }

  /** The form in which a registry is stored. */
  predicate BareRegistry(v: Volume) {
    v.secret.Some? && v.name == v.secret.value.name && OnlySecret(v)
  }

  function Sources(v: Volume): Volume {
    v.(config := Erase(v.config), secret := Erase(v.secret))
  }

  ghost predicate SameSources(vs: seq<Volume>, ws: seq<Volume>) {
    |vs| == |ws| && forall i | 0 <= i < |vs| :: Sources(vs[i]) == Sources(ws[i])
  }

  ghost predicate SecretsExist(secrets: Secrets, vs: seq<Volume>) {
    forall i | 0 <= i < |vs| :: vs[i].secret.Some? ==> vs[i].secret.value.name in secrets
  }

  ghost predicate NoRegistry(secrets: Secrets, vs: seq<Volume>) {
    forall i | 0 <= i < |vs| :: !HasLabel(secrets, vs[i], RegistryLabel)
  }

  ghost predicate AllRegistries(secrets: Secrets, vs: seq<Volume>) {
    forall i | 0 <= i < |vs| :: HasLabel(secrets, vs[i], RegistryLabel)
  }

  /** Registries come last and in their own form, and certificates are a volume's only source. */
  ghost predicate Tidy(secrets: Secrets, vs: seq<Volume>) {
    && (forall i | 0 <= i < |vs| :: HasLabel(secrets, vs[i], CertificateLabel) ==> OnlySecret(vs[i]))
    && (forall i | 0 <= i < |vs| :: HasLabel(secrets, vs[i], RegistryLabel) ==> BareRegistry(vs[i]))
    && (forall i, j | 0 <= i < j < |vs| ::
          HasLabel(secrets, vs[i], RegistryLabel) ==> HasLabel(secrets, vs[j], RegistryLabel))
  }

  lemma PlainShown(secrets: Secrets, v: Volume)
    requires v.secret.Some? ==> v.secret.value.name in secrets
    requires !HasLabel(secrets, v, RegistryLabel)
    ensures |ShownVolume(secrets, v)| == 1 && ShownRegistry(secrets, v) == []
  {
  }

  /** Each volume is shown as one volume. */
  ghost predicate ShownAs(secrets: Secrets, vs: seq<Volume>, shown: seq<View>) {
    |shown| == |vs| && forall i | 0 <= i < |vs| :: ShownVolume(secrets, vs[i]) == [shown[i]]
  }

  lemma ShownAsNext(secrets: Secrets, vs: seq<Volume>, shown: seq<View>, v: Volume)
    requires ShownAs(secrets, vs, shown) && |ShownVolume(secrets, v)| == 1
    ensures ShownAs(secrets, vs + [v], shown + ShownVolume(secrets, v))
  {
  }

  lemma {:induction false} ShownPlain(secrets: Secrets, vs: seq<Volume>)
    requires SecretsExist(secrets, vs) && NoRegistry(secrets, vs)
    ensures ShownAs(secrets, vs, ShownVolumes(secrets, vs)) && ShownRegistries(secrets, vs) == []
  {
    if vs != [] {
      var init, last := vs[..|vs| - 1], vs[|vs| - 1];
      assert SecretsExist(secrets, init) && NoRegistry(secrets, init);
      ShownPlain(secrets, init);
      assert vs == init + [last] && !HasLabel(secrets, last, RegistryLabel);
      ShownPlainNext(secrets, init, last);
    }
  }

  lemma ShownPlainNext(secrets: Secrets, vs: seq<Volume>, v: Volume)
    requires ShownAs(secrets, vs, ShownVolumes(secrets, vs)) && ShownRegistries(secrets, vs) == []
    requires (v.secret.Some? ==> v.secret.value.name in secrets) && !HasLabel(secrets, v, RegistryLabel)
    ensures ShownAs(secrets, vs + [v], ShownVolumes(secrets, vs + [v])) && ShownRegistries(secrets, vs + [v]) == []
  {
    PlainShown(secrets, v);
    ShownNext(secrets, vs, v);
    ShownAsNext(secrets, vs, ShownVolumes(secrets, vs), v);
  }

  /** Each volume is shown as one registry. */
  ghost predicate Naming(vs: seq<Volume>, rs: seq<Registry>) {
    |rs| == |vs| && forall i | 0 <= i < |vs| :: vs[i].secret.Some? && rs[i].name == vs[i].secret.value.name
  }

  lemma NamingNext(vs: seq<Volume>, rs: seq<Registry>, v: Volume, r: Registry)
    requires Naming(vs, rs) && v.secret.Some? && r.name == v.secret.value.name
    ensures Naming(vs + [v], rs + [r])
  {
  }

  lemma RegistryShown(secrets: Secrets, v: Volume) returns (r: Registry)
    requires HasLabel(secrets, v, RegistryLabel)
    ensures ShownVolume(secrets, v) == [] && ShownRegistry(secrets, v) == [r]
    ensures v.secret.Some? && r.name == v.secret.value.name
  {
    r := ShownRegistry(secrets, v)[0];
  }

  lemma {:induction false} ShownOnlyRegistries(secrets: Secrets, vs: seq<Volume>)
    requires AllRegistries(secrets, vs)
    ensures ShownVolumes(secrets, vs) == [] && Naming(vs, ShownRegistries(secrets, vs))
  {
    if vs != [] {
      var init, last := vs[..|vs| - 1], vs[|vs| - 1];
      assert AllRegistries(secrets, init) && HasLabel(secrets, last, RegistryLabel);
      ShownOnlyRegistries(secrets, init);
      var r := RegistryShown(secrets, last);
      ShownNext(secrets, init, last);
      NamingNext(init, ShownRegistries(secrets, init), last, r);
      assert vs == init + [last];
    }
  }

  lemma PlainBackIff(secrets: Secrets, v: Volume)
    requires v.secret.Some? ==> v.secret.value.name in secrets
    requires !HasLabel(secrets, v, RegistryLabel)
    ensures |ShownVolume(secrets, v)| == 1
    ensures Sources(Hidden(ShownVolume(secrets, v)[0])) == Sources(v) <==>
            (HasLabel(secrets, v, CertificateLabel) ==> OnlySecret(v))
  {
  }

  lemma RegistryBackIff(v: Volume, r: Registry)
    requires v.secret.Some? && r.name == v.secret.value.name
    ensures Sources(RegistryVolume(r)) == Sources(v) <==> BareRegistry(v)
  {
  }

  /** A list whose registries come last is shown and hidden part by part. */
  lemma SplitRehidden(secrets: Secrets, a: seq<Volume>, b: seq<Volume>)
    requires SecretsExist(secrets, a) && NoRegistry(secrets, a) && AllRegistries(secrets, b)
    ensures Rehidden(secrets, a + b)
         == AllHidden(ShownVolumes(secrets, a)) + RegistryVolumes(ShownRegistries(secrets, b))
    ensures |ShownVolumes(secrets, a)| == |a| && |ShownRegistries(secrets, b)| == |b|
  {
    VolumesConcat(secrets, a, b);
    RegistriesConcat(secrets, a, b);
    ShownPlain(secrets, a);
    ShownOnlyRegistries(secrets, b);
    var volumes, registries := ShownVolumes(secrets, a), ShownRegistries(secrets, b);
    assert volumes + [] == volumes && [] + registries == registries;
  }

  ghost predicate CertificatesAlone(secrets: Secrets, vs: seq<Volume>) {
    forall i | 0 <= i < |vs| :: HasLabel(secrets, vs[i], CertificateLabel) ==> OnlySecret(vs[i])
  }

  lemma PlainsBackIff(secrets: Secrets, vs: seq<Volume>)
    requires SecretsExist(secrets, vs) && NoRegistry(secrets, vs)
    ensures SameSources(AllHidden(ShownVolumes(secrets, vs)), vs) <==> CertificatesAlone(secrets, vs)
  {
    ShownPlain(secrets, vs);
    forall i | 0 <= i < |vs|
      ensures Sources(AllHidden(ShownVolumes(secrets, vs))[i]) == Sources(vs[i]) <==>
              (HasLabel(secrets, vs[i], CertificateLabel) ==> OnlySecret(vs[i]))
    {
      PlainBackIff(secrets, vs[i]);
    }
  }

  lemma RegistriesBackIff(secrets: Secrets, vs: seq<Volume>)
    requires AllRegistries(secrets, vs)
    ensures SameSources(RegistryVolumes(ShownRegistries(secrets, vs)), vs) <==>
            forall i | 0 <= i < |vs| :: BareRegistry(vs[i])
  {
    ShownOnlyRegistries(secrets, vs);
    forall i | 0 <= i < |vs|
      ensures Sources(RegistryVolumes(ShownRegistries(secrets, vs))[i]) == Sources(vs[i]) <==> BareRegistry(vs[i])
    {
      assert HasLabel(secrets, vs[i], RegistryLabel);
      RegistryBackIff(vs[i], ShownRegistries(secrets, vs)[i]);
    }
  }

  lemma SameSourcesJoin(a: seq<Volume>, b: seq<Volume>, a': seq<Volume>, b': seq<Volume>)
    requires |a| == |a'| && |b| == |b'|
    ensures SameSources(a + b, a' + b') <==> SameSources(a, a') && SameSources(b, b')
  {
    if SameSources(a + b, a' + b') {
      forall i | 0 <= i < |a| ensures Sources(a[i]) == Sources(a'[i]) {
        assert (a + b)[i] == a[i] && (a' + b')[i] == a'[i];
      }
      forall i | 0 <= i < |b| ensures Sources(b[i]) == Sources(b'[i]) {
        assert (a + b)[|a| + i] == b[i] && (a' + b')[|a| + i] == b'[i];
      }
    }
  }

  lemma SplitSurvivesIff(secrets: Secrets, a: seq<Volume>, b: seq<Volume>)
    requires SecretsExist(secrets, a) && NoRegistry(secrets, a) && AllRegistries(secrets, b)
    ensures SameSources(Rehidden(secrets, a + b), a + b) <==>
            CertificatesAlone(secrets, a) && forall i | 0 <= i < |b| :: BareRegistry(b[i])
  {
    SplitRehidden(secrets, a, b);
    SameSourcesJoin(AllHidden(ShownVolumes(secrets, a)), RegistryVolumes(ShownRegistries(secrets, b)), a, b);
    PlainsBackIff(secrets, a);
    RegistriesBackIff(secrets, b);
  }

  lemma SameSourcesSameLabel(secrets: Secrets, v: Volume, w: Volume, kind: SecretKind)
    requires Sources(v) == Sources(w)
    ensures HasLabel(secrets, v, kind) <==> HasLabel(secrets, w, kind)
  {
    assert Erase(v.secret) == Erase(w.secret);
  }

  /** Whatever is stored so has its registries last and in their own form. */
  lemma RehiddenLabels(secrets: Secrets, vs: seq<Volume>)
    ensures NoRegistry(secrets, AllHidden(ShownVolumes(secrets, vs)))
    ensures CertificatesAlone(secrets, AllHidden(ShownVolumes(secrets, vs)))
    ensures SecretsExist(secrets, Rehidden(secrets, vs))
    ensures AllRegistries(secrets, RegistryVolumes(ShownRegistries(secrets, vs)))
    ensures forall i | 0 <= i < |ShownRegistries(secrets, vs)| ::
              BareRegistry(RegistryVolumes(ShownRegistries(secrets, vs))[i])
  {
    ShownResolves(secrets, vs);
  }

  lemma RehiddenTidy(secrets: Secrets, vs: seq<Volume>)
    ensures Tidy(secrets, Rehidden(secrets, vs)) && SecretsExist(secrets, Rehidden(secrets, vs))
  {
    RehiddenLabels(secrets, vs);
    TidyJoin(secrets, AllHidden(ShownVolumes(secrets, vs)), RegistryVolumes(ShownRegistries(secrets, vs)));
  }

  lemma TidyJoin(secrets: Secrets, a: seq<Volume>, b: seq<Volume>)
    requires NoRegistry(secrets, a) && CertificatesAlone(secrets, a)
    requires AllRegistries(secrets, b) && forall i | 0 <= i < |b| :: BareRegistry(b[i])
    ensures Tidy(secrets, a + b)
  {
    var vs := a + b;
    forall i | 0 <= i < |vs|
      ensures HasLabel(secrets, vs[i], RegistryLabel) <==> i >= |a|
      ensures HasLabel(secrets, vs[i], CertificateLabel) ==> OnlySecret(vs[i])
      ensures HasLabel(secrets, vs[i], RegistryLabel) ==> BareRegistry(vs[i])
    {
      if i < |a| { assert vs[i] == a[i]; } else { assert vs[i] == b[i - |a|]; }
    }
  }

  lemma {:induction false} TidySplit(secrets: Secrets, vs: seq<Volume>) returns (k: nat)
    requires Tidy(secrets, vs)
    ensures k <= |vs| && NoRegistry(secrets, vs[..k]) && AllRegistries(secrets, vs[k..])
  {
    k := 0;
    while k < |vs| && !HasLabel(secrets, vs[k], RegistryLabel)
      invariant k <= |vs| && NoRegistry(secrets, vs[..k])
    {
      k := k + 1;
    }
  }

  /** A stored list comes back as the same volumes in the same order, up to versions, exactly when it is tidy. */
  lemma SurvivesIff(secrets: Secrets, vs: seq<Volume>)
    requires SecretsExist(secrets, vs)
    ensures SameSources(Rehidden(secrets, vs), vs) <==> Tidy(secrets, vs)
  {
    if SameSources(Rehidden(secrets, vs), vs) { SurvivorTidy(secrets, vs); }
    if Tidy(secrets, vs) { TidySurvives(secrets, vs); }
  }

  lemma SurvivorTidy(secrets: Secrets, vs: seq<Volume>)
    requires SecretsExist(secrets, vs) && SameSources(Rehidden(secrets, vs), vs)
    ensures Tidy(secrets, vs)
  {
    var k := SurvivorSplit(secrets, vs);
    assert vs == vs[..k] + vs[k..];
    SplitSurvivesIff(secrets, vs[..k], vs[k..]);
    TidyJoin(secrets, vs[..k], vs[k..]);
  }

  lemma TidySurvives(secrets: Secrets, vs: seq<Volume>)
    requires SecretsExist(secrets, vs) && Tidy(secrets, vs)
    ensures SameSources(Rehidden(secrets, vs), vs)
  {
    var k := TidySplit(secrets, vs);
    TidyParts(secrets, vs, k);
    SplitSurvivesIff(secrets, vs[..k], vs[k..]);
    assert vs == vs[..k] + vs[k..];
  }

  lemma TidyParts(secrets: Secrets, vs: seq<Volume>, k: nat)
    requires SecretsExist(secrets, vs) && Tidy(secrets, vs) && k <= |vs| && AllRegistries(secrets, vs[k..])
    ensures SecretsExist(secrets, vs[..k]) && CertificatesAlone(secrets, vs[..k])
    ensures forall i | 0 <= i < |vs[k..]| :: BareRegistry(vs[k..][i])
  {
    forall i | 0 <= i < |vs[k..]| ensures BareRegistry(vs[k..][i]) {
      assert vs[k..][i] == vs[k + i] && HasLabel(secrets, vs[k..][i], RegistryLabel);
    }
  }

  lemma SurvivorSplit(secrets: Secrets, vs: seq<Volume>) returns (k: nat)
    requires SecretsExist(secrets, vs) && SameSources(Rehidden(secrets, vs), vs)
    ensures k <= |vs| && SecretsExist(secrets, vs[..k])
    ensures NoRegistry(secrets, vs[..k]) && AllRegistries(secrets, vs[k..])
  {
    var first, last := AllHidden(ShownVolumes(secrets, vs)), RegistryVolumes(ShownRegistries(secrets, vs));
    k := |first|;
    RehiddenLabels(secrets, vs);
    forall i | 0 <= i < k ensures !HasLabel(secrets, vs[i], RegistryLabel) {
      assert Sources((first + last)[i]) == Sources(vs[i]) && (first + last)[i] == first[i];
      SameSourcesSameLabel(secrets, first[i], vs[i], RegistryLabel);
    }
    forall i | k <= i < |vs| ensures HasLabel(secrets, vs[i], RegistryLabel) {
      assert Sources((first + last)[i]) == Sources(vs[i]) && (first + last)[i] == last[i - k];
      SameSourcesSameLabel(secrets, last[i - k], vs[i], RegistryLabel);
    }
  }

  lemma TidySame(secrets: Secrets, vs: seq<Volume>, ws: seq<Volume>)
    requires SameSources(vs, ws) && Tidy(secrets, vs)
    ensures Tidy(secrets, ws)
  {
    forall i | 0 <= i < |ws|
      ensures OnlySecret(ws[i]) <==> OnlySecret(vs[i])
      ensures BareRegistry(ws[i]) <==> BareRegistry(vs[i])
      ensures forall kind :: HasLabel(secrets, ws[i], kind) <==> HasLabel(secrets, vs[i], kind)
    {
      assert Sources(vs[i]) == Sources(ws[i]);
      SameSourcesSameShape(vs[i], ws[i]);
      forall kind ensures HasLabel(secrets, ws[i], kind) <==> HasLabel(secrets, vs[i], kind) {
        SameSourcesSameLabel(secrets, vs[i], ws[i], kind);
      }
    }
  }

  lemma SameSourcesSameShape(v: Volume, w: Volume)
    requires Sources(v) == Sources(w)
    ensures v.name == w.name && (OnlySecret(v) <==> OnlySecret(w)) && (BareRegistry(v) <==> BareRegistry(w))
  {
    assert Sources(v).name == v.name && Sources(v).hostPath == v.hostPath && Sources(v).emptyDir == v.emptyDir;
    assert Erase(v.config) == Erase(w.config) && Erase(v.secret) == Erase(w.secret);
  }
}
