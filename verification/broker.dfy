/** The broker's global state and its handlers: the PocketBase table, MinIO's users and Nomad's
    tokens, updated in place by one upstream call after another.

    Each handler is proved to do to its own slot exactly what Lifecycle says, step by step, and
    nothing to any other slot.
 */
module BrokerService {
  import opened Wrappers
  import opened GoStrings
  import opened SlotStore
  import opened Lifecycle

  /** FindSlot by name: the first match. */
  function IndexByName(slots: seq<Slot>, slotName: string): (i: Option<nat>)
    ensures i.Some? ==> i.value < |slots| && slots[i.value].slotName == slotName
    ensures i.None? ==> forall k :: 0 <= k < |slots| ==> slots[k].slotName != slotName
  {
    if slots == [] then None
    else
      var front := IndexByName(slots[..|slots| - 1], slotName);
      if front.Some? then front
      else if slots[|slots| - 1].slotName == slotName then Some(|slots| - 1)
      else None
  }

  /** FindSlot by claim code among the unclaimed: the first match. */
  function IndexByClaimCode(slots: seq<Slot>, code: string): (i: Option<nat>)
    ensures i.Some? ==> i.value < |slots| && slots[i.value].claimCode == code && slots[i.value].state == UNCLAIMED
    ensures i.None? ==> forall k :: 0 <= k < |slots| ==> slots[k].claimCode != code || slots[k].state != UNCLAIMED
  {
    if slots == [] then None
    else
      var front := IndexByClaimCode(slots[..|slots| - 1], code);
      var last := slots[|slots| - 1];
      if front.Some? then front
      else if last.claimCode == code && last.state == UNCLAIMED then Some(|slots| - 1)
      else None
  }

  class Broker {
    var slots: seq<Slot>
    var minioSecrets: map<string, string>
    var minioEnabled: set<string>
    var tokens: map<string, string> // live accessor -> name of the slot it was created for

    /** What the three stores hold, slot by slot. */
    ghost var views: seq<View>

    /** The slots' names and MinIO users, which no handler changes. */
    ghost const names: seq<string>
    ghost const users: seq<string>

    static ghost predicate Owns(tokens: map<string, string>, s: Slot) {
      s.nomadTokenAccessor in tokens ==> tokens[s.nomadTokenAccessor] == s.slotName
    }

    static ghost function LiveOf(tokens: map<string, string>, slotName: string): set<string> {
      set a | a in tokens && tokens[a] == slotName
    }

    static ghost function ViewOf(s: Slot, secrets: map<string, string>, enabled: set<string>, tokens: map<string, string>): View {
      var user := MinioUser(s);
      View(s, if user in secrets then secrets[user] else "", user in enabled, LiveOf(tokens, s.slotName))
    }

    static ghost predicate UniqueNames(slots: seq<Slot>) {
      forall i, j :: 0 <= i < j < |slots| ==>
        slots[i].slotName != slots[j].slotName && MinioUser(slots[i]) != MinioUser(slots[j])
    }

    /** Slot names and MinIO users are unique, a live recorded accessor is the slot's own, and
        `views` is what the stores hold. */
    ghost predicate Valid()
      reads this
    {
      && UniqueNames(slots)
      && |views| == |slots| == |names| == |users|
      && (forall i :: 0 <= i < |slots| ==> slots[i].slotName == names[i] && MinioUser(slots[i]) == users[i])
      && (forall i :: 0 <= i < |slots| ==> Owns(tokens, slots[i]))
      && (forall i :: 0 <= i < |slots| ==> views[i] == ViewOf(slots[i], minioSecrets, minioEnabled, tokens))
    }

    // The tokens and MinIO users that belong to no slot of the table.

    ghost function OutsideTokens(): map<string, string>
      reads this`tokens
    {
      map a | a in tokens && tokens[a] !in names :: tokens[a]
    }

    ghost function OutsideSecrets(): map<string, string>
      reads this`minioSecrets
    {
      map u | u in minioSecrets && u !in users :: minioSecrets[u]
    }

    ghost function OutsideEnabled(): set<string>
      reads this`minioEnabled
    {
      set u | u in minioEnabled && u !in users
    }

    /** Nothing outside the table changed, and the tokens are at most the old ones and these. */
    twostate predicate Framed(created: set<string>)
      reads this`tokens, this`minioSecrets, this`minioEnabled
    {
      && OutsideTokens() == old(OutsideTokens()) && OutsideSecrets() == old(OutsideSecrets())
      && OutsideEnabled() == old(OutsideEnabled()) && tokens.Keys <= old(tokens.Keys) + created
    }

    /** No live token and no record has this accessor. */
    ghost predicate NewAccessor(accessor: string)
      reads this
    {
      accessor !in tokens && forall k :: 0 <= k < |slots| ==> slots[k].nomadTokenAccessor != accessor
    }

    /** Any consistent content of the three stores. */
    constructor (table: seq<Slot>, secrets: map<string, string>, enabled: set<string>, live: map<string, string>)
      requires UniqueNames(table) && forall i :: 0 <= i < |table| ==> Owns(live, table[i])
      ensures Valid() && slots == table && minioSecrets == secrets && minioEnabled == enabled && tokens == live
    {
      names := seq(|table|, i requires 0 <= i < |table| => table[i].slotName);
      users := seq(|table|, i requires 0 <= i < |table| => MinioUser(table[i]));
      slots, minioSecrets, minioEnabled, tokens := table, secrets, enabled, live;
      views := seq(|table|, i requires 0 <= i < |table| => ViewOf(table[i], secrets, enabled, live));
    }

    method FindSlotByName(slotName: string) returns (r: Option<nat>)
      ensures r == IndexByName(slots, slotName)
    {
      r := None;
      for i := 0 to |slots|
        invariant r == IndexByName(slots[..i], slotName)
      {
        assert slots[..i + 1][..i] == slots[..i];
        if r.None? && slots[i].slotName == slotName {
          r := Some(i);
        }
      }
      assert slots[..|slots|] == slots;
    }

    method FindSlotByClaimCode(code: string) returns (r: Option<nat>)
      ensures r == IndexByClaimCode(slots, code)
    {
      r := None;
      for i := 0 to |slots|
        invariant r == IndexByClaimCode(slots[..i], code)
      {
        assert slots[..i + 1][..i] == slots[..i];
        if r.None? && slots[i].claimCode == code && slots[i].state == UNCLAIMED {
          r := Some(i);
        }
      }
      assert slots[..|slots|] == slots;
    }

    // ---- Upstream calls ----

    method PatchSlot(i: nat, p: Patch, ok: bool)
      requires Valid() && i < |slots|
      requires p.nomadTokenAccessor.Some? ==> Owns(tokens, Apply(slots[i], p))
      modifies this`slots, this`views
      ensures Valid()
      ensures slots == if ok then old(slots)[i := Apply(old(slots[i]), p)] else old(slots)
      ensures views == if ok then old(views)[i := old(views)[i].(rec := Apply(old(slots[i]), p))] else old(views)
    {
      if ok {
        slots := slots[i := Apply(slots[i], p)];
        views := views[i := views[i].(rec := slots[i])];
      }
    }

    method RotateSecret(user: string, secret: string, ok: bool, ghost i: nat)
      requires Valid() && i < |slots| && user == MinioUser(slots[i])
      modifies this`minioSecrets, this`views
      ensures Valid()
      ensures Framed({})
      ensures views == if ok then old(views)[i := old(views)[i].(minioSecret := secret)] else old(views)
    {
      if ok {
        minioSecrets := minioSecrets[user := secret];
        views := views[i := views[i].(minioSecret := secret)];
        assert OutsideSecrets() == old(OutsideSecrets());
      }
    }

    method SetEnabled(user: string, enabled: bool, ok: bool, ghost i: nat)
      requires Valid() && i < |slots| && user == MinioUser(slots[i])
      modifies this`minioEnabled, this`views
      ensures Valid()
      ensures Framed({})
      ensures views == if ok then old(views)[i := old(views)[i].(minioEnabled := enabled)] else old(views)
    {
      if ok {
        minioEnabled := if enabled then minioEnabled + {user} else minioEnabled - {user};
        views := views[i := views[i].(minioEnabled := enabled)];
        assert OutsideEnabled() == old(OutsideEnabled());
      }
    }

    static lemma LiveWith(live: map<string, string>, accessor: string, owner: string, slotName: string)
      requires accessor !in live
      ensures LiveOf(live[accessor := owner], slotName) == LiveOf(live, slotName) + if slotName == owner then {accessor} else {}
    {
    }

    method CreateToken(slotName: string, accessor: string, ok: bool, ghost i: nat)
      requires Valid() && i < |slots| && slotName == slots[i].slotName && NewAccessor(accessor)
      modifies this`tokens, this`views
      ensures Valid()
      ensures tokens == if ok then old(tokens)[accessor := slotName] else old(tokens)
      ensures Framed({accessor})
      ensures views == if ok then old(views)[i := old(views)[i].(live := old(views)[i].live + {accessor})] else old(views)
    {
      if ok {
        tokens := tokens[accessor := slotName];
        views := views[i := views[i].(live := views[i].live + {accessor})];
        assert OutsideTokens() == old(OutsideTokens());
        forall j | 0 <= j < |slots| {
          LiveWith(old(tokens), accessor, slotName, slots[j].slotName);
        }
      }
    }

    method DeleteToken(accessor: string, ok: bool, ghost i: nat)
      requires Valid() && i < |slots|
      requires accessor in tokens ==> tokens[accessor] == slots[i].slotName
      modifies this`tokens, this`views
      ensures Valid()
      ensures Framed({})
      ensures views == if ok then old(views)[i := old(views)[i].(live := old(views)[i].live - {accessor})] else old(views)
    {
      if ok {
        tokens := tokens - {accessor};
        views := views[i := views[i].(live := views[i].live - {accessor})];
        assert OutsideTokens() == old(OutsideTokens());
        forall j | 0 <= j < |slots|
          ensures LiveOf(tokens, slots[j].slotName) ==
                  LiveOf(old(tokens), slots[j].slotName) - if j == i then {accessor} else {}
        {
        }
      }
    }

    // ---- Handlers ----

    method PersistSlotConfig(i: nat, e: PersistEnv, opaqueToken: string) returns (r: Result<Blob>)
      requires Valid() && i < |slots|
      modifies this`slots, this`views
      ensures Valid() && |slots| == old(|slots|)
      ensures views == old(views)[i := Persist(old(views)[i], e, opaqueToken)]
      ensures r.Ok? <==> PersistOk(old(slots[i]), e, opaqueToken)
      ensures r.Ok? ==> r.value == slots[i].configYAML
      ensures r.Ok? ==> (r.value.NoBlob? <==> old(slots[i]).configYAML.NoBlob? && IsSeedling(old(slots[i])) && opaqueToken == "")
    {
      if !e.getOk {
        return Err;
      }
      var slot := slots[i];
      if IsSeedling(slot) && opaqueToken == "" {
        return Ok(slot.configYAML);
      }
      r := RenderConfig(slot, e.group, opaqueToken);
      if r.Err? {
        return;
      }
      PatchSlot(i, ConfigPatch(r.value), e.patchOk);
      if !e.patchOk {
        r := Err;
      }
    }

    /** handleManageSuspend once the slot is found. */
    method SuspendSlot(i: nat, e: SuspendEnv) returns (status: int, ghost trail: seq<View>)
      requires Valid() && i < |slots| && e.findOk
      modifies this`minioEnabled, this`tokens, this`slots, this`views
      ensures Valid()
      ensures Framed({})
      ensures HandlerRun(status, trail) == SuspendRun(old(views)[i], e)
      ensures views == old(views)[i := After(old(views)[i], HandlerRun(status, trail))]
    {
      var slot := slots[i];
      if slot.state != CLAIMED {
        return 400, [];
      }
      ghost var v := views[i];
      SetEnabled(MinioUser(slot), false, e.minioAdmin && e.disableOk, i);
      ghost var v1 := views[i];
      assert views == old(views)[i := v1];
      if slot.nomadTokenAccessor != "" && e.nomadAdmin {
        DeleteToken(slot.nomadTokenAccessor, e.deleteOk, i);
      }
      ghost var v2 := views[i];
      assert views == old(views)[i := v2];
      PatchSlot(i, SuspendPatch(), e.patchOk);
      if !e.patchOk {
        return 500, [v1, v2];
      }
      ghost var v3 := views[i];
      assert views == old(views)[i := v3];
      return 200, [v1, v2, v3];
    }

    method HandleManageSuspend(slotName: string, e: SuspendEnv) returns (status: int, ghost trail: seq<View>)
      requires Valid()
      modifies this`minioEnabled, this`tokens, this`slots, this`views
      ensures Valid()
      ensures Framed({})
      ensures var found := IndexByName(old(slots), slotName);
              if found.Some? then
                HandlerRun(status, trail) == SuspendRun(old(views)[found.value], e) &&
                views == old(views)[found.value := After(old(views)[found.value], HandlerRun(status, trail))]
              else unchanged(this) && status == if e.findOk then 404 else 500
    {
      if !e.findOk {
        return 500, [];
      }
      var found := FindSlotByName(slotName);
      if found.None? {
        return 404, [];
      }
      status, trail := SuspendSlot(found.value, e);
    }

    /** Both a rotate and a reactivate first get a new MinIO secret, then a new Nomad token; the first
        failure stops. */
    method RenewUpstream(i: nat, secret: string, minioOk: bool, accessor: string, createOk: bool) returns (ghost v1: View, ghost v2: View)
      requires Valid() && i < |slots| && NewAccessor(accessor)
      modifies this`minioSecrets, this`tokens, this`views
      ensures Valid()
      ensures tokens == if minioOk && createOk then old(tokens)[accessor := slots[i].slotName] else old(tokens)
      ensures Framed({accessor})
      ensures v1 == if minioOk then old(views)[i].(minioSecret := secret) else old(views)[i]
      ensures v2 == if minioOk && createOk then v1.(live := v1.live + {accessor}) else v1
      ensures views == old(views)[i := v2]
    {
      RotateSecret(MinioUser(slots[i]), secret, minioOk, i);
      v1 := views[i];
      assert views == old(views)[i := v1];
      if minioOk {
        CreateToken(slots[i].slotName, accessor, createOk, i);
      }
      v2 := views[i];
    }

    /** And then record both in one patch. */
    method RenewCreds(i: nat, secret: string, minioOk: bool, accessor: string, createOk: bool, patch: Patch, patchOk: bool)
      returns (ghost v1: View, ghost v2: View, ghost v3: View)
      requires Valid() && i < |slots| && NewAccessor(accessor) && patch.nomadTokenAccessor == Some(accessor)
      modifies this`minioSecrets, this`tokens, this`slots, this`views
      ensures Valid() && |slots| == old(|slots|)
      ensures Framed({accessor})
      ensures v1 == if minioOk then old(views)[i].(minioSecret := secret) else old(views)[i]
      ensures v2 == if minioOk && createOk then v1.(live := v1.live + {accessor}) else v1
      ensures v3 == if minioOk && createOk && patchOk then v2.(rec := Apply(v2.rec, patch)) else v2
      ensures views == old(views)[i := v3]
    {
      v1, v2 := RenewUpstream(i, secret, minioOk, accessor, createOk);
      if minioOk && createOk {
        PatchSlot(i, patch, patchOk);
      }
      v3 := views[i];
    }

    /** handleManageReactivate once the slot is found. */
    method ReactivateSlot(i: nat, e: ReactivateEnv) returns (status: int, ghost trail: seq<View>)
      requires Valid() && i < |slots| && e.findOk && NewAccessor(e.accessor)
      modifies this
      ensures Valid()
      ensures Framed({e.accessor})
      ensures HandlerRun(status, trail) == ReactivateRun(old(views)[i], e)
      ensures views == old(views)[i := After(old(views)[i], HandlerRun(status, trail))]
    {
      var slot := slots[i];
      if slot.state != SUSPENDED {
        return 400, [];
      }
      if !e.admins {
        return 500, [];
      }
      SetEnabled(MinioUser(slot), true, e.enableOk, i);
      ghost var v1 := views[i];
      assert views == old(views)[i := v1];
      ghost var v2, v3, v4 := RenewCreds(i, e.secret, e.minioOk, e.accessor, e.createOk,
                                         ReactivatePatch(e.secret, e.accessor, e.token), e.patchOk);
      assert views == old(views)[i := v4];
      if !e.minioOk {
        return 500, [v1];
      }
      if !e.createOk {
        return 500, [v1, v2];
      }
      if !e.patchOk {
        return 500, [v1, v2, v3];
      }
      return 200, [v1, v2, v3, v4];
    }

    method HandleManageReactivate(slotName: string, e: ReactivateEnv) returns (status: int, ghost trail: seq<View>)
      requires Valid() && NewAccessor(e.accessor)
      modifies this
      ensures Valid()
      ensures Framed({e.accessor})
      ensures var found := IndexByName(old(slots), slotName);
              if found.Some? then
                HandlerRun(status, trail) == ReactivateRun(old(views)[found.value], e) &&
                views == old(views)[found.value := After(old(views)[found.value], HandlerRun(status, trail))]
              else unchanged(this) && status == if e.findOk then 404 else 500
    {
      if !e.findOk {
        return 500, [];
      }
      var found := FindSlotByName(slotName);
      if found.None? {
        return 404, [];
      }
      status, trail := ReactivateSlot(found.value, e);
    }

    /** handleManageRotate once the slot is found. */
    method RotateSlot(i: nat, e: RotateEnv) returns (status: int, ghost trail: seq<View>)
      requires Valid() && i < |slots| && e.findOk && NewAccessor(e.accessor)
      modifies this`minioSecrets, this`tokens, this`slots, this`views
      ensures Valid()
      ensures Framed({e.accessor})
      ensures HandlerRun(status, trail) == RotateRun(old(views)[i], e)
      ensures views == old(views)[i := After(old(views)[i], HandlerRun(status, trail))]
    {
      var slot := slots[i];
      if slot.state != CLAIMED && slot.state != SUSPENDED {
        return 400, [];
      }
      var oldAccessor := slot.nomadTokenAccessor;
      if !e.admins {
        return 500, [];
      }
      ghost var v1, v2, v3 := RenewCreds(i, e.secret, e.minioOk, e.accessor, e.createOk,
                                         RotatePatch(e.secret, e.accessor, e.token), e.patchOk);
      if !e.minioOk {
        return 500, [];
      }
      if !e.createOk {
        return 500, [v1];
      }
      if !e.patchOk {
        return 500, [v1, v2];
      }
      ghost var v4, v5 := FinishRotate(i, oldAccessor, e.deleteOk, e.persist);
      assert views == old(views)[i := v5];
      return 200, [v1, v2, v3, v4, v5];
    }

    /** The part of a rotation after its patch: revoke the old token, render the config again. */
    method FinishRotate(i: nat, oldAccessor: string, deleteOk: bool, e: PersistEnv) returns (ghost revoked: View, ghost persisted: View)
      requires Valid() && i < |slots|
      requires oldAccessor in tokens ==> tokens[oldAccessor] == slots[i].slotName
      modifies this`tokens, this`slots, this`views
      ensures Valid()
      ensures Framed({})
      ensures var v := old(views)[i];
              && revoked == (if oldAccessor != "" && deleteOk then v.(live := v.live - {oldAccessor}) else v)
              && persisted == Persist(revoked, e, "") && views == old(views)[i := persisted]
    {
      if oldAccessor != "" {
        DeleteToken(oldAccessor, deleteOk, i);
      }
      revoked := views[i];
      var blob := PersistSlotConfig(i, e, "");
      persisted := views[i];
    }

    method HandleManageRotate(slotName: string, e: RotateEnv) returns (status: int, ghost trail: seq<View>)
      requires Valid() && NewAccessor(e.accessor)
      modifies this`minioSecrets, this`tokens, this`slots, this`views
      ensures Valid()
      ensures Framed({e.accessor})
      ensures var found := IndexByName(old(slots), slotName);
              if found.Some? then
                HandlerRun(status, trail) == RotateRun(old(views)[found.value], e) &&
                views == old(views)[found.value := After(old(views)[found.value], HandlerRun(status, trail))]
              else unchanged(this) && status == if e.findOk then 404 else 500
    {
      if !e.findOk {
        return 500, [];
      }
      var found := FindSlotByName(slotName);
      if found.None? {
        return 404, [];
      }
      status, trail := RotateSlot(found.value, e);
    }

    /** Claim and flip both patch the record and then render it; without the patch there is no render. */
    method PatchAndRender(i: nat, patch: Patch, patchOk: bool, e: PersistEnv, opaqueToken: string)
      returns (blob: Result<Blob>, ghost v1: View, ghost v2: View)
      requires Valid() && i < |slots| && patch.nomadTokenAccessor.None?
      modifies this`slots, this`views
      ensures Valid() && |slots| == old(|slots|)
      ensures v1 == if patchOk then old(views)[i].(rec := Apply(old(slots[i]), patch)) else old(views)[i]
      ensures v2 == if patchOk then Persist(v1, e, opaqueToken) else v1
      ensures views == old(views)[i := v2]
      ensures blob.Ok? <==> patchOk && PersistOk(v1.rec, e, opaqueToken)
      ensures blob.Ok? ==> blob.value == slots[i].configYAML &&
                           (blob.value.NoBlob? <==> v1.rec.configYAML.NoBlob? && IsSeedling(v1.rec) && opaqueToken == "")
    {
      PatchSlot(i, patch, patchOk);
      v1 := views[i];
      assert views == old(views)[i := v1];
      blob := Err;
      if patchOk {
        blob := PersistSlotConfig(i, e, opaqueToken);
      }
      v2 := views[i];
    }

    /** handleCredSource once the slot is found. */
    method FlipSlot(hash: Hash, i: nat, e: FlipEnv) returns (status: int, opaqueToken: string, ghost trail: seq<View>)
      requires Valid() && i < |slots| && e.findOk && (Normal(e.want) == LOCAL || Normal(e.want) == SEEDLING)
      modifies this`slots, this`views
      ensures Valid()
      ensures HandlerRun(status, trail) == FlipRun(hash, old(views)[i], e)
      ensures views == old(views)[i := After(old(views)[i], HandlerRun(status, trail))]
      ensures opaqueToken == if status == 200 && trail != [] then FlipToken(e) else ""
    {
      opaqueToken := "";
      var want := Normal(e.want);
      var slot := slots[i];
      if slot.state != CLAIMED {
        return 400, "", [];
      }
      if want == CurrentSource(slot) {
        return 200, "", [];
      }
      var token := "";
      var patch := ToLocalPatch();
      if want == SEEDLING {
        if !e.mintOk {
          return 500, "", [];
        }
        token := e.token;
        patch := ToSeedlingPatch(hash(token));
      }
      assert patch == FlipPatchFor(hash, e) && token == FlipToken(e);
      var blob;
      ghost var v1, v2;
      blob, v1, v2 := PatchAndRender(i, patch, e.patchOk, e.persist, token);
      if !e.patchOk {
        return 500, "", [];
      }
      if blob.Err? {
        return 500, "", [v1, v2];
      }
      return 200, token, [v1, v2];
    }

    /** handleCredSource.  A 200 that flips to seedling/v1 hands out the new token; no other answer
        carries one. */
    method HandleCredSource(hash: Hash, slotName: string, e: FlipEnv)
      returns (status: int, opaqueToken: string, ghost trail: seq<View>)
      requires Valid()
      modifies this`slots, this`views
      ensures Valid()
      ensures var found := IndexByName(old(slots), slotName);
              if found.Some? then
                HandlerRun(status, trail) == FlipRun(hash, old(views)[found.value], e) &&
                views == old(views)[found.value := After(old(views)[found.value], HandlerRun(status, trail))]
              else unchanged(this) && trail == [] &&
                   status == if Normal(e.want) != LOCAL && Normal(e.want) != SEEDLING then 400
                             else if e.findOk then 404 else 500
      ensures opaqueToken == if status == 200 && trail != [] then FlipToken(e) else ""
    {
      trail, opaqueToken := [], "";
      var want := Normal(e.want);
      if want != LOCAL && want != SEEDLING {
        status := 400;
        return;
      }
      if !e.findOk {
        status := 500;
        return;
      }
      var found := FindSlotByName(slotName);
      if found.None? {
        status := 404;
        return;
      }
      status, opaqueToken, trail := FlipSlot(hash, found.value, e);
    }

    /** Request, then group default, then local. */
    method ResolveSource(requested: string, groupDefault: string) returns (effective: string)
      ensures effective == if Normal(requested) != "" then Normal(requested)
                           else if Normal(groupDefault) != "" then Normal(groupDefault) else LOCAL
    {
      effective := Normal(requested);
      if effective == "" {
        effective := Normal(groupDefault);
      }
      if effective == "" {
        effective := LOCAL;
      }
    }

    /** handleSlotsClaim once the slot is found: source, token, patch, render. */
    method ClaimSlot(hash: Hash, i: nat, e: ClaimEnv) returns (status: int, yaml: Option<Blob>, ghost trail: seq<View>)
      requires Valid() && i < |slots| && !BadClaimRequest(e) && e.findOk && ClaimMatches(slots[i], e)
      modifies this`slots, this`views
      ensures Valid() && |slots| == old(|slots|)
      ensures HandlerRun(status, trail) == ClaimRun(hash, old(views)[i], e)
      ensures views == old(views)[i := After(old(views)[i], HandlerRun(status, trail))]
      ensures yaml.Some? <==> status == 200
      ensures yaml.Some? ==> yaml.value == slots[i].configYAML
      ensures yaml.Some? ==> (yaml.value.NoBlob? <==> EmptyAnswer(old(slots[i]), Claim(e)))
    {
      var effective := ResolveSource(e.requested, e.groupDefault);
      var token := "";
      var patch := NO_FIELDS.(state := Some(CLAIMED), claimedByName := Some(TrimSpace(e.name)));
      if effective == SEEDLING {
        if !e.mintOk {
          return 500, None, [];
        }
        token := e.token;
        patch := patch.(credSource := Some(SEEDLING), opaqueTokenHash := Some(hash(token)));
      }
      assert patch == ClaimPatchFor(hash, e) && token == ClaimToken(e);
      var blob;
      ghost var v1, v2;
      blob, v1, v2 := PatchAndRender(i, patch, e.patchOk, e.persist, token);
      if !e.patchOk {
        return 500, None, [];
      }
      if blob.Err? {
        return 500, None, [v1, v2];
      }
      ClaimedEmpty(hash, old(slots[i]), e);
      return 200, Some(blob.value), [v1, v2];
    }

    /** handleSlotsClaim, under claimLock throughout. */
    method HandleSlotsClaim(hash: Hash, e: ClaimEnv) returns (status: int, yaml: Option<Blob>, ghost trail: seq<View>)
      requires Valid()
      modifies this`slots, this`views
      ensures Valid()
      ensures var found := IndexByClaimCode(old(slots), TrimSpace(e.code));
              if found.Some? then
                HandlerRun(status, trail) == ClaimRun(hash, old(views)[found.value], e) &&
                views == old(views)[found.value := After(old(views)[found.value], HandlerRun(status, trail))] &&
                (yaml.Some? ==> yaml.value == slots[found.value].configYAML &&
                                (yaml.value.NoBlob? <==> EmptyAnswer(old(slots)[found.value], Claim(e))))
              else unchanged(this) && status == if BadClaimRequest(e) then 400 else if e.findOk then 404 else 500
      ensures yaml.Some? <==> status == 200
    {
      trail, yaml := [], None;
      var code := TrimSpace(e.code);
      var requested := Normal(e.requested);
      if code == "" || (requested != "" && requested != LOCAL && requested != SEEDLING) {
        status := 400;
        return;
      }
      if !e.findOk {
        status := 500;
        return;
      }
      var found := FindSlotByClaimCode(code);
      if found.None? {
        status := 404;
        return;
      }
      status, yaml, trail := ClaimSlot(hash, found.value, e);
    }

    /** handleSlotsMeConfig after authentication. */
    method HandleSlotsMeConfig(slotName: string, findOk: bool, e: PersistEnv)
      returns (status: int, yaml: Option<Blob>, ghost trail: seq<View>)
      requires Valid()
      modifies this`slots, this`views
      ensures Valid()
      ensures var found := IndexByName(old(slots), slotName);
              if found.Some? then
                HandlerRun(status, trail) == ReadConfigRun(old(views)[found.value], findOk, e) &&
                views == old(views)[found.value := After(old(views)[found.value], HandlerRun(status, trail))] &&
                (yaml.Some? ==> yaml.value == slots[found.value].configYAML &&
                                (yaml.value.NoBlob? <==> EmptyAnswer(old(slots)[found.value], ReadConfig(findOk, e))))
              else unchanged(this) && status == if findOk then 404 else 500
      ensures yaml.Some? <==> status == 200
    {
      trail, yaml := [], None;
      if !findOk {
        status := 500;
        return;
      }
      var found := FindSlotByName(slotName);
      if found.None? {
        status := 404;
        return;
      }
      var i := found.value;
      if slots[i].state != CLAIMED {
        status := 403;
        return;
      }
      if !slots[i].configYAML.NoBlob? {
        status, yaml := 200, Some(slots[i].configYAML);
        return;
      }
      var blob := PersistSlotConfig(i, e, "");
      trail := trail + [views[i]];
      if blob.Err? {
        status := 500;
        return;
      }
      status, yaml := 200, Some(blob.value);
    }

    // ---- Runs ----

    /** Every value in use is among these: what the slots hold, and every live token. */
    ghost predicate Within(seen: set<Value>)
      reads this`views, this`tokens
    {
      SeenWithin(views, seen) && forall a :: a in tokens ==> Accessor(a) in seen
    }

    lemma UnseenIsNew(accessor: string, seen: set<Value>)
      requires Valid() && Within(seen) && Accessor(accessor) !in seen
      ensures NewAccessor(accessor)
    {
      forall k | 0 <= k < |slots|
        ensures slots[k].nomadTokenAccessor != accessor
      {
        assert Accessor(slots[k].nomadTokenAccessor) in Seen(views[k]);
      }
    }

    static function AccessorsIn(c: Call): set<string> {
      match c
      case Reactivate(e) => {e.accessor}
      case Rotate(e) => {e.accessor}
      case _ => {}
    }

    /** The routes that touch all three stores. */
    method ServeManage(hash: Hash, r: Request, ghost seen: set<Value>) returns (status: int)
      requires r.call.Suspend? || r.call.Reactivate? || r.call.Rotate?
      requires Valid() && Within(seen) && Issued(r.call) !! seen
      modifies this
      ensures Valid() && Framed(AccessorsIn(r.call))
      ensures views == Serve(hash, old(views), r) && status == Answer(hash, old(views), r)
    {
      assert Records(views) == slots;
      ghost var trail;
      match r.call {
        case Suspend(e) =>
          status, trail := HandleManageSuspend(r.slotName, e);
        case Reactivate(e) =>
          UnseenIsNew(e.accessor, seen);
          status, trail := HandleManageReactivate(r.slotName, e);
        case Rotate(e) =>
          UnseenIsNew(e.accessor, seen);
          status, trail := HandleManageRotate(r.slotName, e);
      }
    }

    method ServeFlip(hash: Hash, r: Request) returns (status: int)
      requires r.call.Flip? && Valid()
      modifies this`slots, this`views
      ensures Valid()
      ensures views == Serve(hash, old(views), r) && status == Answer(hash, old(views), r)
    {
      assert Records(views) == slots;
      var token;
      ghost var trail;
      status, token, trail := HandleCredSource(hash, r.slotName, r.call.flip);
    }

    /** The participants' routes. */
    method ServeSlots(hash: Hash, r: Request) returns (status: int)
      requires r.call.Claim? || r.call.ReadConfig?
      requires Valid()
      modifies this`slots, this`views
      ensures Valid()
      ensures views == Serve(hash, old(views), r) && status == Answer(hash, old(views), r)
    {
      assert Records(views) == slots;
      ghost var trail;
      match r.call {
        case Claim(e) =>
          var yaml;
          status, yaml, trail := HandleSlotsClaim(hash, e);
        case ReadConfig(findOk, e) =>
          var yaml;
          status, yaml, trail := HandleSlotsMeConfig(r.slotName, findOk, e);
      }
    }

    /** One request, routed to its handler. */
    method ServeRequest(hash: Hash, r: Request, ghost seen: set<Value>) returns (status: int)
      requires Valid() && Within(seen) && Issued(r.call) !! seen
      modifies this
      ensures Valid() && Framed(AccessorsIn(r.call))
      ensures views == Serve(hash, old(views), r) && status == Answer(hash, old(views), r)
    {
      if r.call.Suspend? || r.call.Reactivate? || r.call.Rotate? {
        status := ServeManage(hash, r, seen);
      } else if r.call.Flip? {
        status := ServeFlip(hash, r);
      } else {
        status := ServeSlots(hash, r);
      }
    }

    /** Any sequence of requests, one after the other: the stores end up as the handlers' runs say. */
    method ServeRequests(hash: Hash, requests: seq<Request>, ghost seen: set<Value>) returns (statuses: seq<int>)
      requires Valid() && Within(seen) && IssuedOnce(seen, CallsOf(requests))
      modifies this
      ensures Valid() && Within(seen + AllIssued(CallsOf(requests)))
      ensures views == ServeAll(hash, old(views), requests)
      ensures statuses == Answers(hash, old(views), requests)
    {
      statuses := [];
      ghost var was := views;
      for k := 0 to |requests|
        invariant Valid() && views == ServeAll(hash, was, requests[..k])
        invariant Within(seen + AllIssued(CallsOf(requests[..k])))
        invariant statuses == Answers(hash, was, requests[..k])
      {
        ghost var done := seen + AllIssued(CallsOf(requests[..k]));
        IssuedAt(seen, requests, k);
        ServeSeen(hash, views, requests[k], done);
        var status := ServeRequest(hash, requests[k], done);
        statuses := statuses + [status];
        ServeSnoc(hash, was, requests, k);
        AccessorsIssued(requests[k].call);
      }
      assert requests[..|requests|] == requests;
    }

    static lemma AccessorsIssued(c: Call)
      ensures forall a :: a in AccessorsIn(c) ==> Accessor(a) in Issued(c)
    {
    }
  }

  lemma ServeSnoc(hash: Hash, views: seq<View>, requests: seq<Request>, k: nat)
    requires k < |requests|
    ensures ServeAll(hash, views, requests[..k + 1]) == Serve(hash, ServeAll(hash, views, requests[..k]), requests[k])
    ensures Answers(hash, views, requests[..k + 1]) ==
            Answers(hash, views, requests[..k]) + [Answer(hash, ServeAll(hash, views, requests[..k]), requests[k])]
    ensures AllIssued(CallsOf(requests[..k + 1])) == AllIssued(CallsOf(requests[..k])) + Issued(requests[k].call)
  {
    assert requests[..k + 1][..k] == requests[..k];
    assert CallsOf(requests[..k + 1])[..k] == CallsOf(requests[..k]);
  }

  lemma {:induction false} CallsOfPrefix(requests: seq<Request>, k: nat)
    requires k <= |requests|
    ensures CallsOf(requests[..k]) == CallsOf(requests)[..k]
  {
    if k < |requests| {
      CallsOfPrefix(requests[..|requests| - 1], k);
      assert requests[..|requests| - 1][..k] == requests[..k];
    } else {
      assert requests[..k] == requests;
    }
  }

  lemma {:induction false} CallsOfAt(requests: seq<Request>, k: nat)
    requires k < |requests|
    ensures CallsOf(requests)[k] == requests[k].call
  {
    if k < |requests| - 1 {
      CallsOfAt(requests[..|requests| - 1], k);
    }
  }

  lemma IssuedAt(seen: set<Value>, requests: seq<Request>, k: nat)
    requires k < |requests| && IssuedOnce(seen, CallsOf(requests))
    ensures Issued(requests[k].call) !! (seen + AllIssued(CallsOf(requests[..k])))
  {
    CallsOfPrefix(requests, k);
    CallsOfAt(requests, k);
  }

  // ---- Whole runs of the broker ----

  /** A request that reaches a handler; a claim finds its slot by code, every other by name. */
  datatype Request = Request(slotName: string, call: Call)

  function Records(views: seq<View>): seq<Slot> {
    seq(|views|, i requires 0 <= i < |views| => views[i].rec)
  }

  /** The slot a request is about, in the records as they are when it is served. */
  function Target(views: seq<View>, r: Request): (i: Option<nat>)
    ensures i.Some? ==> i.value < |views|
  {
    if r.call.Claim? then IndexByClaimCode(Records(views), TrimSpace(r.call.claim.code))
    else IndexByName(Records(views), r.slotName)
  }

  function Serve(hash: Hash, views: seq<View>, r: Request): (after: seq<View>)
    ensures |after| == |views|
  {
    match Target(views, r)
    case None => views
    case Some(i) => views[i := After(views[i], Exec(hash, views[i], r.call))]
  }

  function ServeAll(hash: Hash, views: seq<View>, requests: seq<Request>): (after: seq<View>)
    ensures |after| == |views|
  {
    if requests == [] then views
    else Serve(hash, ServeAll(hash, views, requests[..|requests| - 1]), requests[|requests| - 1])
  }

  function CallsOf(requests: seq<Request>): (calls: seq<Call>)
    ensures |calls| == |requests|
  {
    if requests == [] then [] else CallsOf(requests[..|requests| - 1]) + [requests[|requests| - 1].call]
  }

  /** The requests of a run that were about slot i. */
  function CallsOn(hash: Hash, views: seq<View>, requests: seq<Request>, i: nat): seq<Call> {
    if requests == [] then []
    else
      var front, last := requests[..|requests| - 1], requests[|requests| - 1];
      var calls := CallsOn(hash, views, front, i);
      if Target(ServeAll(hash, views, front), last) == Some(i) then calls + [last.call] else calls
  }

  /** Requests on other slots do not matter: over a whole run each slot lives through exactly the run
      of its own requests. */
  lemma {:induction false} RunProjects(hash: Hash, views: seq<View>, requests: seq<Request>, i: nat)
    requires i < |views|
    ensures ServeAll(hash, views, requests)[i] == RunAll(hash, views[i], CallsOn(hash, views, requests, i))
  {
    if requests != [] {
      var front, last := requests[..|requests| - 1], requests[|requests| - 1];
      RunProjects(hash, views, front, i);
      RunSnoc(hash, views[i], CallsOn(hash, views, front, i), last.call);
    }
  }

  ghost predicate SeenWithin(views: seq<View>, seen: set<Value>) {
    forall i :: 0 <= i < |views| ==> Seen(views[i]) <= seen
  }

  lemma ServeSeen(hash: Hash, views: seq<View>, r: Request, seen: set<Value>)
    requires SeenWithin(views, seen)
    ensures SeenWithin(Serve(hash, views, r), seen + Issued(r.call))
  {
    var target := Target(views, r);
    if target.Some? {
      SeenGrows(hash, views[target.value], r.call);
    }
  }

  lemma {:induction false} ServeAllSeen(hash: Hash, views: seq<View>, requests: seq<Request>, seen: set<Value>)
    requires SeenWithin(views, seen)
    ensures SeenWithin(ServeAll(hash, views, requests), seen + AllIssued(CallsOf(requests)))
  {
    if requests != [] {
      var front, last := requests[..|requests| - 1], requests[|requests| - 1];
      ServeAllSeen(hash, views, front, seen);
      ServeSeen(hash, ServeAll(hash, views, front), last, seen + AllIssued(CallsOf(front)));
      assert CallsOf(requests)[..|requests| - 1] == CallsOf(front);
    }
  }

  lemma IssuedOnceSnoc(seen: set<Value>, requests: seq<Request>)
    requires requests != [] && IssuedOnce(seen, CallsOf(requests))
    ensures var front, last := requests[..|requests| - 1], requests[|requests| - 1];
            IssuedOnce(seen, CallsOf(front)) && Issued(last.call) !! (seen + AllIssued(CallsOf(front)))
  {
    var front, calls := requests[..|requests| - 1], CallsOf(requests);
    assert calls[..|front|] == CallsOf(front);
    forall k | 0 <= k < |front|
      ensures Issued(CallsOf(front)[k]) !! (seen + AllIssued(CallsOf(front)[..k]))
    {
      assert calls[..k] == CallsOf(front)[..k] && calls[k] == CallsOf(front)[k];
    }
    assert Issued(calls[|front|]) !! (seen + AllIssued(calls[..|front|]));
  }

  /** Values issued once over the whole broker are fresh for every slot at every one of its calls. */
  lemma {:induction false} EverySlotFresh(hash: Hash, views: seq<View>, requests: seq<Request>, seen: set<Value>, i: nat)
    requires i < |views| && SeenWithin(views, seen) && IssuedOnce(seen, CallsOf(requests))
    ensures FreshRun(hash, views[i], CallsOn(hash, views, requests, i))
  {
    if requests != [] {
      var front, last := requests[..|requests| - 1], requests[|requests| - 1];
      IssuedOnceSnoc(seen, requests);
      EverySlotFresh(hash, views, front, seen, i);
      if Target(ServeAll(hash, views, front), last) == Some(i) {
        ServeAllSeen(hash, views, front, seen);
        RunProjects(hash, views, front, i);
        FreshIffUnseen(ServeAll(hash, views, front)[i], last.call);
        FreshRunSnoc(hash, views[i], CallsOn(hash, views, front, i), last.call);
      }
    }
  }

  ghost predicate AllAgree(views: seq<View>) {
    forall i :: 0 <= i < |views| ==> SecretsAgree(views[i])
  }

  ghost predicate SomeLeftBehind(hash: Hash, views: seq<View>, requests: seq<Request>) {
    exists i :: 0 <= i < |views| && LeftBehind(hash, views[i], CallsOn(hash, views, requests, i))
  }

  lemma SlotAgreesExact(hash: Hash, views: seq<View>, requests: seq<Request>, seen: set<Value>, i: nat)
    requires i < |views| && SecretsAgree(views[i]) && SeenWithin(views, seen) && IssuedOnce(seen, CallsOf(requests))
    ensures SecretsAgree(ServeAll(hash, views, requests)[i]) <==>
            !LeftBehind(hash, views[i], CallsOn(hash, views, requests, i))
  {
    RunProjects(hash, views, requests, i);
    EverySlotFresh(hash, views, requests, seen, i);
    AgreementExact(hash, views[i], CallsOn(hash, views, requests, i));
  }

  /** Across the whole table, PocketBase and MinIO agree on every slot's secret exactly when no slot's
      last change of MinIO's secret was by a request that then failed. */
  lemma TableAgreesExact(hash: Hash, views: seq<View>, requests: seq<Request>, seen: set<Value>)
    requires AllAgree(views) && SeenWithin(views, seen) && IssuedOnce(seen, CallsOf(requests))
    ensures AllAgree(ServeAll(hash, views, requests)) <==> !SomeLeftBehind(hash, views, requests)
  {
    var after := ServeAll(hash, views, requests);
    if SomeLeftBehind(hash, views, requests) {
      var i :| 0 <= i < |views| && LeftBehind(hash, views[i], CallsOn(hash, views, requests, i));
      SlotAgreesExact(hash, views, requests, seen, i);
      assert !SecretsAgree(after[i]);
    } else {
      forall i | 0 <= i < |after|
        ensures SecretsAgree(after[i])
      {
        SlotAgreesExact(hash, views, requests, seen, i);
      }
    }
  }

  /** The answer to a request whose slot is not there. */
  function Unfound(c: Call): int {
    match c
    case Suspend(e) => if e.findOk then 404 else 500
    case Reactivate(e) => if e.findOk then 404 else 500
    case Rotate(e) => if e.findOk then 404 else 500
    case Claim(e) => if BadClaimRequest(e) then 400 else if e.findOk then 404 else 500
    case Flip(e) => if Normal(e.want) != LOCAL && Normal(e.want) != SEEDLING then 400 else if e.findOk then 404 else 500
    case ReadConfig(findOk, _) => if findOk then 404 else 500
  }

  function Answer(hash: Hash, views: seq<View>, r: Request): int {
    match Target(views, r)
    case None => Unfound(r.call)
    case Some(i) => Exec(hash, views[i], r.call).status
  }

  function Answers(hash: Hash, views: seq<View>, requests: seq<Request>): seq<int> {
    if requests == [] then []
    else
      var front, last := requests[..|requests| - 1], requests[|requests| - 1];
      Answers(hash, views, front) + [Answer(hash, ServeAll(hash, views, front), last)]
  }
}
