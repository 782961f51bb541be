/** The PocketBase `slots` record, its patches, and the rendered config blob
    (pocketbase.go, render.go). */
module SlotStore {
  import opened Wrappers
  import opened GoStrings
  import opened Identity

  const UNCLAIMED := "unclaimed"
  const CLAIMED := "claimed"
  const SUSPENDED := "suspended"
  const LOCAL := "local"
  const SEEDLING := "seedling/v1"

  /** config_yaml by what each shape depends on; `Foreign` is text of another origin. */
  datatype Blob =
    | NoBlob
    | RealCreds(slotName: string, namespace: string, nomadToken: string, accessKey: string, secretKey: string)
    | OpaqueCreds(slotName: string, opaqueToken: string)
    | Foreign(text: string)

  datatype Slot = Slot(
    slotName: string,
    nomadTokenSecret: string,
    nomadTokenAccessor: string,
    minioAccessKey: string,
    minioSecretKey: string,
    state: string,
    credSource: string,
    opaqueTokenHash: string,
    configYAML: Blob,
    claimCode: string,
    claimedByName: string)

  /** The fields one PATCH request carries. */
  datatype Patch = Patch(
    state: Option<string>,
    nomadTokenSecret: Option<string>,
    nomadTokenAccessor: Option<string>,
    minioSecretKey: Option<string>,
    credSource: Option<string>,
    opaqueTokenHash: Option<string>,
    configYAML: Option<Blob>,
    claimedByName: Option<string>)

  const NO_FIELDS := Patch(None, None, None, None, None, None, None, None)

  function Or<T>(field: Option<T>, current: T): T {
    if field.Some? then field.value else current
  }

  /** One PATCH lands as a whole. */
  function Apply(s: Slot, p: Patch): Slot {
    s.(state := Or(p.state, s.state),
       nomadTokenSecret := Or(p.nomadTokenSecret, s.nomadTokenSecret),
       nomadTokenAccessor := Or(p.nomadTokenAccessor, s.nomadTokenAccessor),
       minioSecretKey := Or(p.minioSecretKey, s.minioSecretKey),
       credSource := Or(p.credSource, s.credSource),
       opaqueTokenHash := Or(p.opaqueTokenHash, s.opaqueTokenHash),
       configYAML := Or(p.configYAML, s.configYAML),
       claimedByName := Or(p.claimedByName, s.claimedByName))
  }

  // The patches the handlers send.

  function SuspendPatch(): Patch {
    NO_FIELDS.(state := Some(SUSPENDED))
  }

  function ReactivatePatch(secret: string, accessor: string, token: string): Patch {
    NO_FIELDS.(state := Some(CLAIMED), minioSecretKey := Some(secret),
               nomadTokenAccessor := Some(accessor), nomadTokenSecret := Some(token))
  }

  function RotatePatch(secret: string, accessor: string, token: string): Patch {
    NO_FIELDS.(minioSecretKey := Some(secret), nomadTokenAccessor := Some(accessor), nomadTokenSecret := Some(token))
  }

  function ToSeedlingPatch(hash: string): Patch {
    NO_FIELDS.(credSource := Some(SEEDLING), opaqueTokenHash := Some(hash))
  }

  function ToLocalPatch(): Patch {
    NO_FIELDS.(credSource := Some(""), opaqueTokenHash := Some(""))
  }

  /** A claim leaves cred_source alone unless the effective source is seedling/v1. */
  function ClaimPatch(name: string, hash: Option<string>): Patch {
    var p := NO_FIELDS.(state := Some(CLAIMED), claimedByName := Some(name));
    if hash.Some? then p.(credSource := Some(SEEDLING), opaqueTokenHash := hash) else p
  }

  function ConfigPatch(blob: Blob): Patch {
    NO_FIELDS.(configYAML := Some(blob))
  }

  function Normal(credSource: string): string {
    ToLower(TrimSpace(credSource))
  }

  predicate IsLocal(s: Slot) {
    Normal(s.credSource) == "" || Normal(s.credSource) == LOCAL
  }

  predicate IsSeedling(s: Slot) {
    Normal(s.credSource) == SEEDLING
  }

  /** The MinIO user of a slot. */
  function MinioUser(s: Slot): string {
    if s.minioAccessKey == "" then "slot-" + s.slotName else s.minioAccessKey
  }

  /** renderConfigYAML on a record. */
  function RenderConfig(s: Slot, group: string, opaqueToken: string): Result<Blob> {
    if IsLocal(s) then
      Ok(RealCreds(s.slotName, NamespaceForGroup(group), s.nomadTokenSecret, s.minioAccessKey, s.minioSecretKey))
    else if IsSeedling(s) then
      if opaqueToken == "" then Err else Ok(OpaqueCreds(s.slotName, opaqueToken))
    else Err
  }

  lemma NormalForms()
    ensures Normal("") == "" && Normal(SEEDLING) == SEEDLING && Normal(LOCAL) == LOCAL
  {
    assert ToLower(SEEDLING) == SEEDLING;
    assert ToLower(LOCAL) == LOCAL;
  }

  /** A source is read whatever white space is around it and whatever its case. */
  lemma NormalExact(a: string, source: string, b: string)
    requires AllSpace(a) && AllSpace(b) && Tight(source)
    ensures Normal(a + source + b) == ToLower(source)
  {
    TrimWrapped(a, source, b);
  }
}
