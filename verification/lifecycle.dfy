/** The slot handlers as ordered effects on three stores (claim.go, manage.go, manage_lifecycle.go,
    manage_rotate.go, slots.go), seen from one slot.

    A `View` is the slot's record together with what MinIO and Nomad hold for it.  A handler run is
    its status and the views left behind by its upstream calls, in order, so that every
    intermediate state can be talked about.  Which calls succeed, and the fresh values they return,
    are inputs.  A failed call has no effect.
 */
module Lifecycle {
  import opened Wrappers
  import opened GoStrings
  import opened SlotStore
  import opened Identity

  datatype View = View(rec: Slot, minioSecret: string, minioEnabled: bool, live: set<string>)

  datatype HandlerRun = HandlerRun(status: int, trail: seq<View>)

  function After(v: View, r: HandlerRun): View {
    if r.trail == [] then v else r.trail[|r.trail| - 1]
  }

  // ---- Inputs of the handlers ----

  datatype PersistEnv = PersistEnv(getOk: bool, group: string, patchOk: bool)

  datatype SuspendEnv = SuspendEnv(findOk: bool, minioAdmin: bool, disableOk: bool, nomadAdmin: bool, deleteOk: bool, patchOk: bool)

  datatype ReactivateEnv = ReactivateEnv(findOk: bool, admins: bool, enableOk: bool, minioOk: bool, secret: string,
                                         createOk: bool, accessor: string, token: string, patchOk: bool)

  datatype RotateEnv = RotateEnv(findOk: bool, admins: bool, minioOk: bool, secret: string, createOk: bool,
                                 accessor: string, token: string, patchOk: bool, deleteOk: bool, persist: PersistEnv)

  datatype ClaimEnv = ClaimEnv(code: string, name: string, requested: string, findOk: bool, groupDefault: string,
                               mintOk: bool, token: string, patchOk: bool, persist: PersistEnv)

  datatype FlipEnv = FlipEnv(want: string, findOk: bool, mintOk: bool, token: string, patchOk: bool, persist: PersistEnv)

  datatype Call =
    | Suspend(suspend: SuspendEnv)
    | Reactivate(reactivate: ReactivateEnv)
    | Rotate(rotate: RotateEnv)
    | Claim(claim: ClaimEnv)
    | Flip(flip: FlipEnv)
    | ReadConfig(findOk: bool, persist: PersistEnv)

  type Hash = string -> string

  // ---- The handlers ----

  /** persistSlotConfig succeeds. */
  predicate PersistOk(s: Slot, e: PersistEnv, opaqueToken: string) {
    e.getOk && ((IsSeedling(s) && opaqueToken == "") || (RenderConfig(s, e.group, opaqueToken).Ok? && e.patchOk))
  }

  /** The record persistSlotConfig leaves behind; a seedling/v1 blob is stable without its token. */
  function Persist(v: View, e: PersistEnv, opaqueToken: string): View {
    if PersistOk(v.rec, e, opaqueToken) && !(IsSeedling(v.rec) && opaqueToken == "") then
      v.(rec := Apply(v.rec, ConfigPatch(RenderConfig(v.rec, e.group, opaqueToken).value)))
    else v
  }

  function SuspendRun(v: View, e: SuspendEnv): HandlerRun {
    if !e.findOk then HandlerRun(500, [])
    else if v.rec.state != CLAIMED then HandlerRun(400, [])
    else
      var v1 := if e.minioAdmin && e.disableOk then v.(minioEnabled := false) else v;
      var acc := v.rec.nomadTokenAccessor;
      var v2 := if acc != "" && e.nomadAdmin && e.deleteOk then v1.(live := v1.live - {acc}) else v1;
      if !e.patchOk then HandlerRun(500, [v1, v2])
      else HandlerRun(200, [v1, v2, v2.(rec := Apply(v.rec, SuspendPatch()))])
  }

  function ReactivateRun(v: View, e: ReactivateEnv): HandlerRun {
    if !e.findOk then HandlerRun(500, [])
    else if v.rec.state != SUSPENDED then HandlerRun(400, [])
    else if !e.admins then HandlerRun(500, [])
    else
      var v1 := if e.enableOk then v.(minioEnabled := true) else v;
      if !e.minioOk then HandlerRun(500, [v1])
      else
        var v2 := v1.(minioSecret := e.secret);
        if !e.createOk then HandlerRun(500, [v1, v2])
        else
          var v3 := v2.(live := v2.live + {e.accessor});
          if !e.patchOk then HandlerRun(500, [v1, v2, v3])
          else HandlerRun(200, [v1, v2, v3, v3.(rec := Apply(v.rec, ReactivatePatch(e.secret, e.accessor, e.token)))])
  }

  function RotateRun(v: View, e: RotateEnv): HandlerRun {
    if !e.findOk then HandlerRun(500, [])
    else if v.rec.state != CLAIMED && v.rec.state != SUSPENDED then HandlerRun(400, [])
    else if !e.admins || !e.minioOk then HandlerRun(500, [])
    else
      var oldAccessor := v.rec.nomadTokenAccessor;
      var v1 := v.(minioSecret := e.secret);
      if !e.createOk then HandlerRun(500, [v1])
      else
        var v2 := v1.(live := v1.live + {e.accessor});
        if !e.patchOk then HandlerRun(500, [v1, v2])
        else
          var v3 := v2.(rec := Apply(v.rec, RotatePatch(e.secret, e.accessor, e.token)));
          var v4 := if oldAccessor != "" && e.deleteOk then v3.(live := v3.live - {oldAccessor}) else v3;
          HandlerRun(200, [v1, v2, v3, v4, Persist(v4, e.persist, "")])
  }

  /** The source a claim settles on: request, else group default, else local. */
  function EffectiveSource(e: ClaimEnv): string {
    if Normal(e.requested) != "" then Normal(e.requested)
    else if Normal(e.groupDefault) != "" then Normal(e.groupDefault)
    else LOCAL
  }

  predicate BadClaimRequest(e: ClaimEnv) {
    TrimSpace(e.code) == "" ||
    (Normal(e.requested) != "" && Normal(e.requested) != LOCAL && Normal(e.requested) != SEEDLING)
  }

  predicate ClaimMatches(s: Slot, e: ClaimEnv) {
    s.claimCode == TrimSpace(e.code) && s.state == UNCLAIMED
  }

  function ClaimToken(e: ClaimEnv): string {
    if EffectiveSource(e) == SEEDLING then e.token else ""
  }

  function ClaimPatchFor(hash: Hash, e: ClaimEnv): Patch {
    ClaimPatch(TrimSpace(e.name), if EffectiveSource(e) == SEEDLING then Some(hash(e.token)) else None)
  }

  function ClaimRun(hash: Hash, v: View, e: ClaimEnv): HandlerRun {
    if BadClaimRequest(e) then HandlerRun(400, [])
    else if !e.findOk then HandlerRun(500, [])
    else if !ClaimMatches(v.rec, e) then HandlerRun(404, [])
    else if EffectiveSource(e) == SEEDLING && !e.mintOk then HandlerRun(500, [])
    else if !e.patchOk then HandlerRun(500, [])
    else
      var v1 := v.(rec := Apply(v.rec, ClaimPatchFor(hash, e)));
      HandlerRun(if PersistOk(v1.rec, e.persist, ClaimToken(e)) then 200 else 500,
                 [v1, Persist(v1, e.persist, ClaimToken(e))])
  }

  function CurrentSource(s: Slot): string {
    if Normal(s.credSource) == "" then LOCAL else Normal(s.credSource)
  }

  function FlipToken(e: FlipEnv): string {
    if Normal(e.want) == SEEDLING then e.token else ""
  }

  function FlipPatchFor(hash: Hash, e: FlipEnv): Patch {
    if Normal(e.want) == SEEDLING then ToSeedlingPatch(hash(e.token)) else ToLocalPatch()
  }

  function FlipRun(hash: Hash, v: View, e: FlipEnv): HandlerRun {
    if Normal(e.want) != LOCAL && Normal(e.want) != SEEDLING then HandlerRun(400, [])
    else if !e.findOk then HandlerRun(500, [])
    else if v.rec.state != CLAIMED then HandlerRun(400, [])
    else if Normal(e.want) == CurrentSource(v.rec) then HandlerRun(200, [])
    else if (Normal(e.want) == SEEDLING && !e.mintOk) || !e.patchOk then HandlerRun(500, [])
    else
      var v1 := v.(rec := Apply(v.rec, FlipPatchFor(hash, e)));
      HandlerRun(if PersistOk(v1.rec, e.persist, FlipToken(e)) then 200 else 500,
                 [v1, Persist(v1, e.persist, FlipToken(e))])
  }

  /** handleSlotsMeConfig after authentication: renders only when nothing was rendered yet. */
  function ReadConfigRun(v: View, findOk: bool, e: PersistEnv): HandlerRun {
    if !findOk then HandlerRun(500, [])
    else if v.rec.state != CLAIMED then HandlerRun(403, [])
    else if !v.rec.configYAML.NoBlob? then HandlerRun(200, [])
    else HandlerRun(if PersistOk(v.rec, e, "") then 200 else 500, [Persist(v, e, "")])
  }

  function Exec(hash: Hash, v: View, c: Call): HandlerRun {
    match c
    case Suspend(e) => SuspendRun(v, e)
    case Reactivate(e) => ReactivateRun(v, e)
    case Rotate(e) => RotateRun(v, e)
    case Claim(e) => ClaimRun(hash, v, e)
    case Flip(e) => FlipRun(hash, v, e)
    case ReadConfig(findOk, e) => ReadConfigRun(v, findOk, e)
  }

  /** Handlers on one slot, one after the other. */
  function RunAll(hash: Hash, v: View, calls: seq<Call>): View {
    if calls == [] then v
    else
      var before := RunAll(hash, v, calls[..|calls| - 1]);
      After(before, Exec(hash, before, calls[|calls| - 1]))
  }

  lemma RunSnoc(hash: Hash, v: View, calls: seq<Call>, c: Call)
    ensures RunAll(hash, v, calls + [c]) == After(RunAll(hash, v, calls), Exec(hash, RunAll(hash, v, calls), c))
  {
    assert (calls + [c])[..|calls|] == calls;
  }

  // ---- What each handler answers, and when ----

  /** The record with these credentials and nothing else changed. */
  function Renewed(s: Slot, secret: string, accessor: string, token: string): Slot {
    s.(minioSecretKey := secret, nomadTokenAccessor := accessor, nomadTokenSecret := token)
  }

  lemma SuspendOutcome(v: View, e: SuspendEnv)
    ensures var r := SuspendRun(v, e);
            (r.status == 200 <==> e.findOk && v.rec.state == "claimed" && e.patchOk) &&
            (r.status == 400 <==> e.findOk && v.rec.state != "claimed") && r.status in {200, 400, 500} &&
            After(v, r).rec == (if r.status == 200 then v.rec.(state := "suspended") else v.rec) &&
            After(v, r).minioSecret == v.minioSecret &&
            After(v, r).live == v.live - if e.findOk && v.rec.state == "claimed" && v.rec.nomadTokenAccessor != "" && e.nomadAdmin && e.deleteOk
                                         then {v.rec.nomadTokenAccessor} else {}
  {
  }

  lemma ReactivateOutcome(v: View, e: ReactivateEnv)
    ensures var r := ReactivateRun(v, e);
            (r.status == 200 <==>
             e.findOk && v.rec.state == "suspended" && e.admins && e.minioOk && e.createOk && e.patchOk) &&
            (r.status == 400 <==> e.findOk && v.rec.state != "suspended") && r.status in {200, 400, 500} &&
            After(v, r).rec == (if r.status == 200 then Renewed(v.rec, e.secret, e.accessor, e.token).(state := "claimed") else v.rec) &&
            var rotated := e.findOk && v.rec.state == "suspended" && e.admins && e.minioOk;
            After(v, r).minioSecret == (if rotated then e.secret else v.minioSecret) &&
            After(v, r).live == v.live + if rotated && e.createOk then {e.accessor} else {}
  {
  }

  lemma RotateOutcome(v: View, e: RotateEnv)
    ensures var r := RotateRun(v, e);
            (r.status == 200 <==>
             e.findOk && v.rec.state in {"claimed", "suspended"} && e.admins && e.minioOk && e.createOk && e.patchOk) &&
            (r.status == 400 <==> e.findOk && v.rec.state !in {"claimed", "suspended"}) && r.status in {200, 400, 500} &&
            After(v, r).rec.(configYAML := v.rec.configYAML) ==
            (if r.status == 200 then Renewed(v.rec, e.secret, e.accessor, e.token) else v.rec) &&
            var rotated := e.findOk && v.rec.state in {"claimed", "suspended"} && e.admins && e.minioOk;
            After(v, r).minioSecret == (if rotated then e.secret else v.minioSecret) &&
            After(v, r).live == v.live + (if rotated && e.createOk then {e.accessor} else {}) -
                                (if r.status == 200 && v.rec.nomadTokenAccessor != "" && e.deleteOk then {v.rec.nomadTokenAccessor} else {})
  {
  }

  /** The render of a record succeeds: always when its blob is kept, with a landed patch when it has a
      source that renders, and never otherwise. */
  lemma PersistExact(s: Slot, e: PersistEnv, opaqueToken: string)
    ensures PersistOk(s, e, opaqueToken) <==>
            e.getOk && (if Normal(s.credSource) == "seedling/v1" then opaqueToken == "" || e.patchOk
                        else Normal(s.credSource) in {"", "local"} && e.patchOk)
  {
  }

  /** A config is handed out only to a claimed slot, and then whenever there is one or its render
      succeeds; for any other state the answer is 403, whatever is stored. */
  lemma ReadOutcome(v: View, findOk: bool, e: PersistEnv)
    ensures var r := ReadConfigRun(v, findOk, e);
            (r.status == 200 <==>
             findOk && v.rec.state == "claimed" && (!v.rec.configYAML.NoBlob? || PersistOk(v.rec, e, ""))) &&
            (r.status == 403 <==> findOk && v.rec.state != "claimed") && r.status in {200, 403, 500} &&
            (!v.rec.configYAML.NoBlob? ==> After(v, r) == v)
  {
  }

  /** The source a claim asks for, itself or by its group's default, is seedling/v1. */
  predicate WantsSeedling(e: ClaimEnv) {
    Normal(e.requested) == "seedling/v1" || (Normal(e.requested) == "" && Normal(e.groupDefault) == "seedling/v1")
  }

  /** A good code: it finds this record. */
  predicate CodeFits(v: View, e: ClaimEnv) {
    TrimSpace(e.code) != "" && v.rec.claimCode == TrimSpace(e.code) && v.rec.state == "unclaimed"
  }

  lemma ClaimOutcome(hash: Hash, v: View, e: ClaimEnv)
    ensures var r := ClaimRun(hash, v, e);
            var valid := TrimSpace(e.code) != "" && Normal(e.requested) in {"", "local", "seedling/v1"};
            (r.status == 400 <==> !valid) && (r.status == 404 <==> valid && e.findOk && !CodeFits(v, e)) &&
            r.status in {200, 400, 404, 500} &&
            (SourcePatched(v, Claim(e)) <==>
             valid && e.findOk && CodeFits(v, e) && (WantsSeedling(e) ==> e.mintOk) && e.patchOk)
  {
    NormalForms();
  }

  /** What a claim whose patch lands makes of the record. */
  lemma ClaimedRecord(hash: Hash, v: View, e: ClaimEnv)
    requires SourcePatched(v, Claim(e))
    ensures var s := After(v, ClaimRun(hash, v, e)).rec;
            var claimed := v.rec.(state := "claimed", claimedByName := TrimSpace(e.name));
            var patched := if WantsSeedling(e) then claimed.(credSource := "seedling/v1", opaqueTokenHash := hash(e.token)) else claimed;
            s.(configYAML := v.rec.configYAML) == patched &&
            (ClaimRun(hash, v, e).status == 200 <==> PersistOk(patched, e.persist, ClaimToken(e))) &&
            ClaimToken(e) == if WantsSeedling(e) then e.token else ""
  {
    NormalForms();
  }

  lemma FlipOutcome(hash: Hash, v: View, e: FlipEnv)
    ensures var r := FlipRun(hash, v, e);
            var valid := Normal(e.want) in {"local", "seedling/v1"};
            var there := Normal(v.rec.credSource) == Normal(e.want) || (Normal(v.rec.credSource) == "" && Normal(e.want) == "local");
            (r.status == 400 <==> !valid || (e.findOk && v.rec.state != "claimed")) && r.status in {200, 400, 500} &&
            (valid && e.findOk && v.rec.state == "claimed" && there ==> r == HandlerRun(200, [])) &&
            (SourcePatched(v, Flip(e)) <==>
             valid && e.findOk && v.rec.state == "claimed" && !there && (Normal(e.want) == "seedling/v1" ==> e.mintOk) && e.patchOk)
  {
    NormalForms();
  }

  /** What a flip whose patch lands makes of the record. */
  lemma FlippedRecord(hash: Hash, v: View, e: FlipEnv)
    requires SourcePatched(v, Flip(e))
    ensures var s := After(v, FlipRun(hash, v, e)).rec;
            s.(configYAML := v.rec.configYAML) ==
            (if Normal(e.want) == "seedling/v1" then v.rec.(credSource := "seedling/v1", opaqueTokenHash := hash(e.token))
             else v.rec.(credSource := "", opaqueTokenHash := "")) &&
            (FlipRun(hash, v, e).status == 200 <==> e.persist.getOk && (e.persist.patchOk || (Normal(e.want) != "local" && e.token == "")))
  {
    NormalForms();
  }

  // ---- The slot's state ----

  lemma StateExact(hash: Hash, v: View, c: Call)
    ensures After(v, Exec(hash, v, c)).rec.state ==
            if c.Suspend? && Exec(hash, v, c).status == 200 then "suspended"
            else if c.Reactivate? && Exec(hash, v, c).status == 200 then "claimed"
            else if c.Claim? && SourcePatched(v, c) then "claimed"
            else v.rec.state
  {
    match c {
      case Suspend(e) => SuspendOutcome(v, e);
      case Reactivate(e) => ReactivateOutcome(v, e);
      case Rotate(e) => RotateOutcome(v, e);
      case Claim(e) => ClaimState(hash, v, e);
      case Flip(e) => FlipState(hash, v, e);
      case _ =>
    }
  }

  lemma ClaimState(hash: Hash, v: View, e: ClaimEnv)
    ensures After(v, ClaimRun(hash, v, e)).rec.state == if SourcePatched(v, Claim(e)) then "claimed" else v.rec.state
  {
  }

  lemma FlipState(hash: Hash, v: View, e: FlipEnv)
    ensures After(v, FlipRun(hash, v, e)).rec.state == v.rec.state
  {
  }

  ghost predicate NeverReactivated(hash: Hash, v: View, calls: seq<Call>) {
    forall k :: 0 <= k < |calls| ==>
      !(calls[k].Reactivate? && Exec(hash, RunAll(hash, v, calls[..k]), calls[k]).status == 200)
  }

  lemma {:induction false} StaysSuspended(hash: Hash, v: View, calls: seq<Call>)
    requires v.rec.state == "suspended" && NeverReactivated(hash, v, calls)
    ensures RunAll(hash, v, calls).rec.state == "suspended"
  {
    if calls != [] {
      var front, last := calls[..|calls| - 1], calls[|calls| - 1];
      forall k | 0 <= k < |front|
        ensures !(front[k].Reactivate? && Exec(hash, RunAll(hash, v, front[..k]), front[k]).status == 200)
      {
        assert front[..k] == calls[..k];
      }
      StaysSuspended(hash, v, front);
      StateExact(hash, RunAll(hash, v, front), last);
      if last.Claim? {
        ClaimOutcome(hash, RunAll(hash, v, front), last.claim);
      }
    }
  }

  /** From a 200 suspend to the next 200 reactivate, whatever happens in between, no read of the config
      is answered with one. */
  lemma NoConfigWhileSuspended(hash: Hash, v: View, e: SuspendEnv, during: seq<Call>, findOk: bool, persist: PersistEnv)
    requires SuspendRun(v, e).status == 200 && NeverReactivated(hash, After(v, SuspendRun(v, e)), during)
    ensures ReadConfigRun(RunAll(hash, After(v, SuspendRun(v, e)), during), findOk, persist).status == if findOk then 403 else 500
  {
    SuspendOutcome(v, e);
    StaysSuspended(hash, After(v, SuspendRun(v, e)), during);
    ReadOutcome(RunAll(hash, After(v, SuspendRun(v, e)), during), findOk, persist);
  }

  // ---- The MinIO user ----

  /** A suspend past its guard whose disabling succeeds. */
  predicate DisablesUser(v: View, c: Call) {
    c.Suspend? && c.suspend.findOk && v.rec.state == "claimed" && c.suspend.minioAdmin && c.suspend.disableOk
  }

  /** A reactivate past its guard whose enabling succeeds, whatever fails later. */
  predicate EnablesUser(v: View, c: Call) {
    c.Reactivate? && c.reactivate.findOk && v.rec.state == "suspended" && c.reactivate.admins && c.reactivate.enableOk
  }

  ghost predicate AllEnabled(trail: seq<View>, enabled: bool) {
    forall i :: 0 <= i < |trail| ==> trail[i].minioEnabled == enabled
  }

  /** Exactly which calls switch the MinIO user, from their first step on. */
  lemma EnabledExact(hash: Hash, v: View, c: Call)
    ensures var enabled := if DisablesUser(v, c) then false else if EnablesUser(v, c) then true else v.minioEnabled;
            AllEnabled(Exec(hash, v, c).trail, enabled) && After(v, Exec(hash, v, c)).minioEnabled == enabled
  {
    match c {
      case Suspend(e) => SuspendEnabled(v, e);
      case Reactivate(e) => ReactivateEnabled(v, e);
      case _ =>
    }
  }

  lemma SuspendEnabled(v: View, e: SuspendEnv)
    ensures var enabled := v.minioEnabled && !DisablesUser(v, Suspend(e));
            AllEnabled(SuspendRun(v, e).trail, enabled) && After(v, SuspendRun(v, e)).minioEnabled == enabled
  {
  }

  lemma ReactivateEnabled(v: View, e: ReactivateEnv)
    ensures var enabled := v.minioEnabled || EnablesUser(v, Reactivate(e));
            AllEnabled(ReactivateRun(v, e).trail, enabled) && After(v, ReactivateRun(v, e)).minioEnabled == enabled
  {
  }

  /** The last switch of the user in a run. */
  predicate EnabledByHistory(hash: Hash, v: View, calls: seq<Call>) {
    if calls == [] then v.minioEnabled
    else
      var front, last := calls[..|calls| - 1], calls[|calls| - 1];
      var before := RunAll(hash, v, front);
      if DisablesUser(before, last) then false
      else if EnablesUser(before, last) then true
      else EnabledByHistory(hash, v, front)
  }

  lemma {:induction false} EnabledOverRuns(hash: Hash, v: View, calls: seq<Call>)
    ensures RunAll(hash, v, calls).minioEnabled <==> EnabledByHistory(hash, v, calls)
  {
    if calls != [] {
      var front, last := calls[..|calls| - 1], calls[|calls| - 1];
      EnabledOverRuns(hash, v, front);
      EnabledExact(hash, RunAll(hash, v, front), last);
    }
  }

  ghost predicate NeverEnabled(hash: Hash, v: View, calls: seq<Call>) {
    forall k :: 0 <= k < |calls| ==> !EnablesUser(RunAll(hash, v, calls[..k]), calls[k])
  }

  /** A disabled user stays disabled at every step of every call, until a reactivate enables it. */
  lemma {:induction false} DisabledThroughout(hash: Hash, v: View, calls: seq<Call>, k: nat)
    requires !v.minioEnabled && NeverEnabled(hash, v, calls) && k < |calls|
    ensures !RunAll(hash, v, calls[..k]).minioEnabled
    ensures AllEnabled(Exec(hash, RunAll(hash, v, calls[..k]), calls[k]).trail, false)
  {
    if k > 0 {
      DisabledThroughout(hash, v, calls, k - 1);
      assert calls[..k][..k - 1] == calls[..k - 1];
      EnabledExact(hash, RunAll(hash, v, calls[..k - 1]), calls[k - 1]);
    } else {
      assert calls[..0] == [];
    }
    EnabledExact(hash, RunAll(hash, v, calls[..k]), calls[k]);
  }

  // ---- Assumptions on fresh values ----

  function BlobSecret(b: Blob): string {
    if b.RealCreds? then b.secretKey else ""
  }

  function BlobToken(b: Blob): string {
    if b.OpaqueCreds? then b.opaqueToken else ""
  }

  predicate FreshSecret(v: View, secret: string) {
    secret != "" && secret != v.rec.minioSecretKey && secret != v.minioSecret && secret != BlobSecret(v.rec.configYAML)
  }

  predicate FreshAccessor(v: View, accessor: string) {
    accessor != "" && accessor !in v.live && accessor != v.rec.nomadTokenAccessor
  }

  predicate FreshToken(v: View, token: string) {
    token != "" && token != BlobToken(v.rec.configYAML)
  }

  /** What the upstreams return has not been seen by this slot. */
  predicate FreshCall(v: View, c: Call) {
    match c
    case Suspend(_) => true
    case Reactivate(e) => FreshSecret(v, e.secret) && FreshAccessor(v, e.accessor)
    case Rotate(e) => FreshSecret(v, e.secret) && FreshAccessor(v, e.accessor)
    case Claim(e) => FreshToken(v, e.token)
    case Flip(e) => FreshToken(v, e.token)
    case ReadConfig(_, _) => true
  }

  ghost predicate FreshRun(hash: Hash, v: View, calls: seq<Call>) {
    forall k :: 0 <= k < |calls| ==> FreshCall(RunAll(hash, v, calls[..k]), calls[k])
  }

  lemma FreshPrefix(hash: Hash, v: View, calls: seq<Call>)
    requires calls != [] && FreshRun(hash, v, calls)
    ensures FreshRun(hash, v, calls[..|calls| - 1])
    ensures FreshCall(RunAll(hash, v, calls[..|calls| - 1]), calls[|calls| - 1])
  {
    var front := calls[..|calls| - 1];
    forall k | 0 <= k < |front|
      ensures FreshCall(RunAll(hash, v, front[..k]), front[k])
    {
      assert front[..k] == calls[..k];
    }
  }

  lemma FreshRunSnoc(hash: Hash, v: View, calls: seq<Call>, c: Call)
    requires FreshRun(hash, v, calls) && FreshCall(RunAll(hash, v, calls), c)
    ensures FreshRun(hash, v, calls + [c])
  {
    var more := calls + [c];
    forall k | 0 <= k < |more|
      ensures FreshCall(RunAll(hash, v, more[..k]), more[k])
    {
      assert more[..k] == calls[..k];
      assert calls[..|calls|] == calls;
    }
  }

  /** The values upstreams create. */
  datatype Value = Accessor(accessor: string) | Secret(secret: string) | Opaque(token: string)

  function Issued(c: Call): set<Value> {
    match c
    case Reactivate(e) => {Secret(e.secret), Accessor(e.accessor)}
    case Rotate(e) => {Secret(e.secret), Accessor(e.accessor)}
    case Claim(e) => {Opaque(e.token)}
    case Flip(e) => {Opaque(e.token)}
    case _ => {}
  }

  /** The values that are in use for a slot, and the empty ones. */
  function Seen(v: View): set<Value> {
    {Accessor(""), Secret(""), Opaque(""),
     Accessor(v.rec.nomadTokenAccessor), Secret(v.rec.minioSecretKey), Secret(v.minioSecret),
     Secret(BlobSecret(v.rec.configYAML)), Opaque(BlobToken(v.rec.configYAML))} +
    set a | a in v.live :: Accessor(a)
  }

  lemma FreshIffUnseen(v: View, c: Call)
    ensures FreshCall(v, c) <==> Issued(c) !! Seen(v)
  {
    forall a: string
      ensures Accessor(a) in Seen(v) <==> !FreshAccessor(v, a)
      ensures Secret(a) in Seen(v) <==> !FreshSecret(v, a)
      ensures Opaque(a) in Seen(v) <==> !FreshToken(v, a)
    {
    }
    match c {
      case Reactivate(e) => assert Secret(e.secret) in Issued(c) && Accessor(e.accessor) in Issued(c);
      case Rotate(e) => assert Secret(e.secret) in Issued(c) && Accessor(e.accessor) in Issued(c);
      case Claim(e) => assert Opaque(e.token) in Issued(c);
      case Flip(e) => assert Opaque(e.token) in Issued(c);
      case _ =>
    }
  }

  /** A call brings nothing into use but what it was issued. */
  lemma SeenGrows(hash: Hash, v: View, c: Call)
    ensures Seen(After(v, Exec(hash, v, c))) <= Seen(v) + Issued(c)
  {
    match c {
      case Rotate(e) => RotateSeen(v, e);
      case Claim(e) => ClaimSeen(hash, v, e);
      case Flip(e) => FlipSeen(hash, v, e);
      case _ =>
    }
  }

  lemma PersistSeen(v: View, e: PersistEnv, opaqueToken: string)
    ensures Seen(Persist(v, e, opaqueToken)) <= Seen(v) + {Opaque(opaqueToken)}
  {
  }

  lemma RotateSeen(v: View, e: RotateEnv)
    ensures Seen(After(v, RotateRun(v, e))) <= Seen(v) + Issued(Rotate(e))
  {
    var r := RotateRun(v, e);
    if r.status == 200 {
      PersistSeen(r.trail[3], e.persist, "");
    }
  }

  lemma ClaimSeen(hash: Hash, v: View, e: ClaimEnv)
    ensures Seen(After(v, ClaimRun(hash, v, e))) <= Seen(v) + Issued(Claim(e))
  {
    var r := ClaimRun(hash, v, e);
    if r.trail != [] {
      PersistSeen(r.trail[0], e.persist, ClaimToken(e));
    }
  }

  lemma FlipSeen(hash: Hash, v: View, e: FlipEnv)
    ensures Seen(After(v, FlipRun(hash, v, e))) <= Seen(v) + Issued(Flip(e))
  {
    var r := FlipRun(hash, v, e);
    if r.trail != [] {
      PersistSeen(r.trail[0], e.persist, FlipToken(e));
    }
  }

  function AllIssued(calls: seq<Call>): set<Value> {
    if calls == [] then {} else AllIssued(calls[..|calls| - 1]) + Issued(calls[|calls| - 1])
  }

  /** Every value is issued once and was not in use at the start. */
  ghost predicate IssuedOnce(seen: set<Value>, calls: seq<Call>) {
    forall k :: 0 <= k < |calls| ==> Issued(calls[k]) !! (seen + AllIssued(calls[..k]))
  }

  lemma {:induction false} RunSeen(hash: Hash, v: View, calls: seq<Call>)
    ensures Seen(RunAll(hash, v, calls)) <= Seen(v) + AllIssued(calls)
  {
    if calls != [] {
      RunSeen(hash, v, calls[..|calls| - 1]);
      SeenGrows(hash, RunAll(hash, v, calls[..|calls| - 1]), calls[|calls| - 1]);
    }
  }

  /** Freshness at every call of a run follows from values that are issued once. */
  lemma IssuedOnceFresh(hash: Hash, v: View, calls: seq<Call>)
    requires IssuedOnce(Seen(v), calls)
    ensures FreshRun(hash, v, calls)
  {
    forall k | 0 <= k < |calls|
      ensures FreshCall(RunAll(hash, v, calls[..k]), calls[k])
    {
      RunSeen(hash, v, calls[..k]);
      FreshIffUnseen(RunAll(hash, v, calls[..k]), calls[k]);
    }
  }

  // ---- The recorded Nomad token ----

  predicate RecordedLive(v: View) {
    v.rec.nomadTokenAccessor in v.live
  }

  /** Rotate never records a dead token: recorded live before, it is live at every intermediate step
      and at every exit, whatever fails. */
  lemma RotateNeverRecordsDead(v: View, e: RotateEnv)
    requires RecordedLive(v) && FreshAccessor(v, e.accessor)
    ensures AllLive(RotateRun(v, e).trail) && RecordedLive(After(v, RotateRun(v, e)))
  {
  }

  /** A suspend past its guard deletes the recorded token, whether or not its patch lands. */
  predicate RevokesRecorded(v: View, c: Call) {
    c.Suspend? && c.suspend.findOk && v.rec.state == CLAIMED && v.rec.nomadTokenAccessor != "" &&
    c.suspend.nomadAdmin && c.suspend.deleteOk
  }

  /** The call brought a freshly created token into the record. */
  predicate RenewsCreds(hash: Hash, v: View, c: Call) {
    (c.Rotate? || c.Reactivate?) && Exec(hash, v, c).status == 200
  }

  /** Exactly which calls make the recorded token live, and which kill it.  In particular a suspend
      that answers 500 may leave a claimed slot with a dead token. */
  lemma RecordedLiveExact(hash: Hash, v: View, c: Call)
    requires FreshCall(v, c)
    ensures RecordedLive(After(v, Exec(hash, v, c))) <==>
            RenewsCreds(hash, v, c) || (RecordedLive(v) && !RevokesRecorded(v, c))
  {
    match c {
      case Rotate(e) => RotateLiveExact(v, e);
      case Reactivate(e) => ReactivateLiveExact(v, e);
      case Claim(e) => ClaimKeepsCreds(hash, v, e);
      case Flip(e) => FlipKeepsCreds(hash, v, e);
      case _ =>
    }
  }

  lemma RotateLiveExact(v: View, e: RotateEnv)
    requires FreshAccessor(v, e.accessor)
    ensures RecordedLive(After(v, RotateRun(v, e))) <==> RotateRun(v, e).status == 200 || RecordedLive(v)
  {
  }

  lemma ReactivateLiveExact(v: View, e: ReactivateEnv)
    requires FreshAccessor(v, e.accessor)
    ensures RecordedLive(After(v, ReactivateRun(v, e))) <==> ReactivateRun(v, e).status == 200 || RecordedLive(v)
  {
  }

  /** Claim and flip leave the real credentials alone, in all three stores. */
  predicate SameCreds(v: View, v': View) {
    v'.rec.nomadTokenAccessor == v.rec.nomadTokenAccessor && v'.rec.minioSecretKey == v.rec.minioSecretKey &&
    v'.rec.nomadTokenSecret == v.rec.nomadTokenSecret && v'.live == v.live && v'.minioSecret == v.minioSecret &&
    v'.minioEnabled == v.minioEnabled
  }

  lemma ClaimKeepsCreds(hash: Hash, v: View, e: ClaimEnv)
    ensures SameCreds(v, After(v, ClaimRun(hash, v, e)))
  {
  }

  lemma FlipKeepsCreds(hash: Hash, v: View, e: FlipEnv)
    ensures SameCreds(v, After(v, FlipRun(hash, v, e)))
  {
  }

  ghost predicate NeverRevoked(hash: Hash, v: View, calls: seq<Call>) {
    forall k :: 0 <= k < |calls| ==> !RevokesRecorded(RunAll(hash, v, calls[..k]), calls[k])
  }

  /** Until a suspend deletes it, a recorded token that was live stays live at every intermediate
      step of every call of a run. */
  lemma {:induction false} RecordedLiveThroughout(hash: Hash, v: View, calls: seq<Call>, k: nat)
    requires FreshRun(hash, v, calls) && NeverRevoked(hash, v, calls) && RecordedLive(v) && k < |calls|
    ensures RecordedLive(RunAll(hash, v, calls[..k]))
    ensures AllLive(Exec(hash, RunAll(hash, v, calls[..k]), calls[k]).trail)
  {
    var before := RunAll(hash, v, calls[..k]);
    if k > 0 {
      RecordedLiveThroughout(hash, v, calls, k - 1);
      assert calls[..k][..k - 1] == calls[..k - 1];
    } else {
      assert calls[..0] == [];
    }
    assert FreshCall(before, calls[k]) && !RevokesRecorded(before, calls[k]);
    LiveStep(hash, before, calls[k]);
  }

  ghost predicate AllLive(trail: seq<View>) {
    forall i :: 0 <= i < |trail| ==> RecordedLive(trail[i])
  }

  lemma ReactivateLiveStep(v: View, e: ReactivateEnv)
    requires RecordedLive(v) && FreshAccessor(v, e.accessor)
    ensures AllLive(ReactivateRun(v, e).trail)
  {
  }

  lemma LiveStep(hash: Hash, v: View, c: Call)
    requires RecordedLive(v) && FreshCall(v, c) && !RevokesRecorded(v, c)
    ensures AllLive(Exec(hash, v, c).trail)
  {
    if c.Rotate? {
      RotateNeverRecordsDead(v, c.rotate);
    } else if c.Reactivate? {
      ReactivateLiveStep(v, c.reactivate);
    }
  }

  // ---- Live tokens ----

  /** Live tokens nobody can delete any more: the record does not name them. */
  function Orphans(v: View): set<string> {
    v.live - {v.rec.nomadTokenAccessor}
  }

  /** The ways a token is orphaned: created but not recorded; replaced by a rotate that failed to
      delete it; overwritten by a reactivate while still live. */
  function Leaked(v: View, c: Call): nat {
    match c
    case Rotate(e) =>
      if e.findOk && (v.rec.state == CLAIMED || v.rec.state == SUSPENDED) && e.admins && e.minioOk && e.createOk then
        if !e.patchOk then 1
        else if RecordedLive(v) && !e.deleteOk then 1
        else 0
      else 0
    case Reactivate(e) =>
      if e.findOk && v.rec.state == SUSPENDED && e.admins && e.minioOk && e.createOk then
        if !e.patchOk then 1
        else if RecordedLive(v) then 1
        else 0
      else 0
    case _ => 0
  }

  /** What a call did to the slot's tokens, given a freshly created accessor. */
  datatype TokenMove = Untouched | Unrecorded | RecordedOver | Swapped

  ghost predicate Moved(v: View, v': View, created: string, leaked: nat, m: TokenMove) {
    var recorded := v.rec.nomadTokenAccessor;
    match m
    case Untouched => v'.live == v.live && v'.rec.nomadTokenAccessor == recorded && leaked == 0
    case Unrecorded => v'.live == v.live + {created} && v'.rec.nomadTokenAccessor == recorded && leaked == 1
    case RecordedOver =>
      v'.live == v.live + {created} && v'.rec.nomadTokenAccessor == created && leaked == (if RecordedLive(v) then 1 else 0)
    case Swapped => v'.live == v.live + {created} - {recorded} && v'.rec.nomadTokenAccessor == created && leaked == 0
  }

  lemma AddOne(s: set<string>, x: string)
    requires x !in s
    ensures |s + {x}| == |s| + 1
  {
  }

  lemma MoveCounts(v: View, v': View, created: string, leaked: nat, m: TokenMove)
    requires FreshAccessor(v, created) && "" !in v.live && Moved(v, v', created, leaked, m)
    ensures |Orphans(v')| == |Orphans(v)| + leaked && "" !in v'.live
  {
    var recorded := v.rec.nomadTokenAccessor;
    if m.Unrecorded? {
      assert Orphans(v') == Orphans(v) + {created};
      AddOne(Orphans(v), created);
    } else if m.RecordedOver? && RecordedLive(v) {
      assert Orphans(v') == Orphans(v) + {recorded};
      AddOne(Orphans(v), recorded);
    } else {
      assert Orphans(v') == Orphans(v);
    }
  }

  lemma RotateMove(v: View, e: RotateEnv) returns (m: TokenMove)
    requires "" !in v.live
    ensures Moved(v, After(v, RotateRun(v, e)), e.accessor, Leaked(v, Rotate(e)), m)
  {
    var r := RotateRun(v, e);
    if r.status == 200 {
      m := if v.rec.nomadTokenAccessor != "" && e.deleteOk then Swapped else RecordedOver;
    } else {
      m := if |r.trail| == 2 then Unrecorded else Untouched;
    }
  }

  lemma ReactivateMove(v: View, e: ReactivateEnv) returns (m: TokenMove)
    ensures Moved(v, After(v, ReactivateRun(v, e)), e.accessor, Leaked(v, Reactivate(e)), m)
  {
    var r := ReactivateRun(v, e);
    if r.status == 200 {
      m := RecordedOver;
    } else {
      m := if |r.trail| == 3 then Unrecorded else Untouched;
    }
  }

  lemma OtherLeak(hash: Hash, v: View, c: Call)
    requires !c.Rotate? && !c.Reactivate? && "" !in v.live
    ensures var v' := After(v, Exec(hash, v, c)); Orphans(v') == Orphans(v) && "" !in v'.live
  {
  }

  /** What one call leaks, exactly. */
  lemma LeakExact(hash: Hash, v: View, c: Call)
    requires FreshCall(v, c) && "" !in v.live
    ensures var v' := After(v, Exec(hash, v, c));
            |Orphans(v')| == |Orphans(v)| + Leaked(v, c) && "" !in v'.live
  {
    if c.Rotate? {
      var m := RotateMove(v, c.rotate);
      MoveCounts(v, After(v, RotateRun(v, c.rotate)), c.rotate.accessor, Leaked(v, c), m);
    } else if c.Reactivate? {
      var m := ReactivateMove(v, c.reactivate);
      MoveCounts(v, After(v, ReactivateRun(v, c.reactivate)), c.reactivate.accessor, Leaked(v, c), m);
    } else {
      OtherLeak(hash, v, c);
    }
  }

  function TotalLeaked(hash: Hash, v: View, calls: seq<Call>): nat {
    if calls == [] then 0
    else
      var front := calls[..|calls| - 1];
      TotalLeaked(hash, v, front) + Leaked(RunAll(hash, v, front), calls[|calls| - 1])
  }

  /** Token accounting over a whole run: the live tokens of a slot are its recorded one, if live,
      and exactly one per leak. */
  lemma {:induction false} TokenAccounting(hash: Hash, v: View, calls: seq<Call>)
    requires FreshRun(hash, v, calls) && "" !in v.live
    ensures var v' := RunAll(hash, v, calls);
            "" !in v'.live && |Orphans(v')| == |Orphans(v)| + TotalLeaked(hash, v, calls) &&
            |v'.live| == |Orphans(v)| + TotalLeaked(hash, v, calls) + if RecordedLive(v') then 1 else 0
  {
    if calls != [] {
      FreshPrefix(hash, v, calls);
      var front := calls[..|calls| - 1];
      TokenAccounting(hash, v, front);
      LeakExact(hash, RunAll(hash, v, front), calls[|calls| - 1]);
    }
    LiveCount(RunAll(hash, v, calls));
  }

  lemma LiveCount(v: View)
    ensures |v.live| == |Orphans(v)| + if RecordedLive(v) then 1 else 0
  {
    if RecordedLive(v) {
      assert v.live == Orphans(v) + {v.rec.nomadTokenAccessor};
    } else {
      assert v.live == Orphans(v);
    }
  }

  // ---- Agreement of the MinIO secret ----

  predicate SecretsAgree(v: View) {
    v.rec.minioSecretKey == v.minioSecret
  }

  /** RotateSecret succeeded during the call. */
  predicate ChangedMinio(v: View, c: Call) {
    match c
    case Rotate(e) => e.findOk && (v.rec.state == CLAIMED || v.rec.state == SUSPENDED) && e.admins && e.minioOk
    case Reactivate(e) => e.findOk && v.rec.state == SUSPENDED && e.admins && e.minioOk
    case _ => false
  }

  lemma AgreementStep(hash: Hash, v: View, c: Call)
    requires FreshCall(v, c)
    ensures SecretsAgree(After(v, Exec(hash, v, c))) <==>
            if ChangedMinio(v, c) then Exec(hash, v, c).status == 200 else SecretsAgree(v)
  {
    match c {
      case Rotate(e) => RotateAgreement(v, e);
      case Claim(e) => ClaimKeepsCreds(hash, v, e);
      case Flip(e) => FlipKeepsCreds(hash, v, e);
      case _ =>
    }
  }

  lemma RotateAgreement(v: View, e: RotateEnv)
    requires FreshSecret(v, e.secret)
    ensures SecretsAgree(After(v, RotateRun(v, e))) <==>
            if ChangedMinio(v, Rotate(e)) then RotateRun(v, e).status == 200 else SecretsAgree(v)
  {
  }

  /** The last call that changed MinIO's secret failed after doing so. */
  predicate LeftBehind(hash: Hash, v: View, calls: seq<Call>) {
    if calls == [] then false
    else
      var front, last := calls[..|calls| - 1], calls[|calls| - 1];
      var before := RunAll(hash, v, front);
      if ChangedMinio(before, last) then Exec(hash, before, last).status != 200
      else LeftBehind(hash, v, front)
  }

  /** The record and MinIO disagree exactly while a failed rotation is the last word; the next 200
      rotate or reactivate heals it. */
  lemma {:induction false} AgreementExact(hash: Hash, v: View, calls: seq<Call>)
    requires FreshRun(hash, v, calls) && SecretsAgree(v)
    ensures SecretsAgree(RunAll(hash, v, calls)) <==> !LeftBehind(hash, v, calls)
  {
    if calls != [] {
      FreshPrefix(hash, v, calls);
      AgreementExact(hash, v, calls[..|calls| - 1]);
      AgreementStep(hash, RunAll(hash, v, calls[..|calls| - 1]), calls[|calls| - 1]);
    }
  }

  /** A run that ends in a 200 rotate or reactivate ends with all three stores in agreement, whatever
      happened before and whatever state it started from. */
  lemma SelfHealing(hash: Hash, v: View, calls: seq<Call>, last: Call)
    requires FreshCall(RunAll(hash, v, calls), last) && RenewsCreds(hash, RunAll(hash, v, calls), last)
    ensures var v' := RunAll(hash, v, calls + [last]);
            SecretsAgree(v') && RecordedLive(v')
  {
    RunSnoc(hash, v, calls, last);
    AgreementStep(hash, RunAll(hash, v, calls), last);
    RecordedLiveExact(hash, RunAll(hash, v, calls), last);
  }

  // ---- Record atomicity ----

  /** The credential and state fields of a record. */
  function CredFields(s: Slot): (string, string, string, string, string, string) {
    (s.state, s.minioSecretKey, s.nomadTokenAccessor, s.nomadTokenSecret, s.credSource, s.opaqueTokenHash)
  }

  /** The fields a 200 answer stands for. */
  function Intended(v: View, c: Call): (string, string, string, string, string, string)
    requires c.Suspend? || c.Reactivate? || c.Rotate?
  {
    var s := v.rec;
    match c
    case Suspend(_) => (SUSPENDED, s.minioSecretKey, s.nomadTokenAccessor, s.nomadTokenSecret, s.credSource, s.opaqueTokenHash)
    case Reactivate(e) => (CLAIMED, e.secret, e.accessor, e.token, s.credSource, s.opaqueTokenHash)
    case Rotate(e) => (s.state, e.secret, e.accessor, e.token, s.credSource, s.opaqueTokenHash)
  }

  /** Suspend, reactivate and rotate are atomic on the record: a failed one changes nothing at any
      step, a successful one moves from the old fields to all the new ones at once. */
  lemma RecordAtomic(hash: Hash, v: View, c: Call)
    requires c.Suspend? || c.Reactivate? || c.Rotate?
    ensures var r := Exec(hash, v, c);
            if r.status == 200 then
              CredFields(After(v, r).rec) == Intended(v, c) &&
              forall i :: 0 <= i < |r.trail| ==>
                CredFields(r.trail[i].rec) == CredFields(v.rec) || CredFields(r.trail[i].rec) == Intended(v, c)
            else forall i :: 0 <= i < |r.trail| ==> r.trail[i].rec == v.rec
  {
  }

  /** The patch of a claim or flip lands. */
  predicate SourcePatched(v: View, c: Call) {
    match c
    case Claim(e) =>
      !BadClaimRequest(e) && e.findOk && ClaimMatches(v.rec, e) && (EffectiveSource(e) == SEEDLING ==> e.mintOk) && e.patchOk
    case Flip(e) =>
      (Normal(e.want) == LOCAL || Normal(e.want) == SEEDLING) && e.findOk && v.rec.state == CLAIMED &&
      Normal(e.want) != CurrentSource(v.rec) && (Normal(e.want) == SEEDLING ==> e.mintOk) && e.patchOk
    case _ => false
  }

  /** The render after the patch of a claim or flip succeeds. */
  predicate RenderAfterPatchOk(hash: Hash, v: View, c: Call)
    requires c.Claim? || c.Flip?
  {
    match c
    case Claim(e) => PersistOk(Apply(v.rec, ClaimPatchFor(hash, e)), e.persist, ClaimToken(e))
    case Flip(e) => PersistOk(Apply(v.rec, FlipPatchFor(hash, e)), e.persist, FlipToken(e))
  }

  /** Claim and flip are not atomic: they fail with the record changed exactly when their patch lands
      and the render after it does not. */
  lemma ClaimFlipNotAtomicExact(hash: Hash, v: View, c: Call)
    requires c.Claim? || c.Flip?
    ensures var r := Exec(hash, v, c);
            r.status != 200 && After(v, r).rec != v.rec <==> SourcePatched(v, c) && !RenderAfterPatchOk(hash, v, c)
  {
    NormalForms();
    if SourcePatched(v, c) && c.Flip? {
      assert After(v, Exec(hash, v, c)).rec.credSource != v.rec.credSource;
    }
    if SourcePatched(v, c) && c.Claim? {
      assert After(v, Exec(hash, v, c)).rec.state != v.rec.state;
    }
  }

  /** For instance a claim whose code was good is lost to a store that fails the blob's patch. */
  lemma ClaimLostExample(hash: Hash, v: View, e: ClaimEnv)
    requires v.rec.claimCode == "c0de" && v.rec.state == UNCLAIMED && v.rec.credSource == ""
    requires e == ClaimEnv("c0de", "Ada", "", true, "", true, "abco_x", true, PersistEnv(true, "g", false))
    ensures ClaimRun(hash, v, e).status == 500 && After(v, ClaimRun(hash, v, e)).rec.state == CLAIMED
  {
    NormalForms();
    assert TrimSpace("c0de") == "c0de" && TrimSpace("Ada") == "Ada";
  }

  // ---- The config blob ----

  /** The blob carries the record's current real credentials and the namespace of the slot's group. */
  predicate RealInSync(group: string, s: Slot) {
    s.configYAML == RealCreds(s.slotName, NamespaceForGroup(group), s.nomadTokenSecret, s.minioAccessKey, s.minioSecretKey)
  }

  /** The blob carries the token whose hash the record holds. */
  predicate OpaqueInSync(hash: Hash, s: Slot) {
    s.configYAML.OpaqueCreds? && s.configYAML.slotName == s.slotName && s.configYAML.opaqueToken != "" &&
    hash(s.configYAML.opaqueToken) == s.opaqueTokenHash
  }

  datatype Sync = Sync(realOk: bool, tokenOk: bool)

  function SyncOf(hash: Hash, group: string, s: Slot): Sync {
    Sync(RealInSync(group, s), OpaqueInSync(hash, s))
  }

  /** The blob is the render of the current record of a slot of that group, with a token the record
      stands for where the shape needs one. */
  ghost predicate InSync(hash: Hash, group: string, s: Slot) {
    exists token :: RenderConfig(s, group, token) == Ok(s.configYAML) && (IsSeedling(s) ==> hash(token) == s.opaqueTokenHash)
  }

  lemma InSyncShape(hash: Hash, group: string, s: Slot)
    ensures InSync(hash, group, s) <==> if IsLocal(s) then RealInSync(group, s) else IsSeedling(s) && OpaqueInSync(hash, s)
  {
    var token := BlobToken(s.configYAML);
    assert (if IsLocal(s) then RealInSync(group, s) else IsSeedling(s) && OpaqueInSync(hash, s)) ==>
        RenderConfig(s, group, token) == Ok(s.configYAML);
  }

  datatype BlobEvent = WroteReal(group: string) | WroteOpaque | CredsMoved | TokenMoved | Nothing

  /** What the call did to the blob or to what it was rendered from, from its branch alone. */
  function BlobEventOf(hash: Hash, v: View, c: Call): BlobEvent {
    match c
    case Suspend(_) => Nothing
    case Reactivate(_) => if RenewsCreds(hash, v, c) then CredsMoved else Nothing
    case Rotate(e) =>
      if !RenewsCreds(hash, v, c) then Nothing
      else if IsLocal(v.rec) && e.persist.getOk && e.persist.patchOk then WroteReal(e.persist.group)
      else CredsMoved
    case Claim(e) =>
      if !SourcePatched(v, c) then Nothing
      else if EffectiveSource(e) == SEEDLING then
        (if e.persist.getOk && e.persist.patchOk then WroteOpaque else TokenMoved)
      else if IsLocal(v.rec) && e.persist.getOk && e.persist.patchOk then WroteReal(e.persist.group)
      else Nothing
    case Flip(e) =>
      if !SourcePatched(v, c) then Nothing
      else if !(e.persist.getOk && e.persist.patchOk) then TokenMoved
      else if Normal(e.want) == SEEDLING then WroteOpaque
      else WroteReal(e.persist.group)
    case ReadConfig(findOk, e) =>
      if findOk && v.rec.state == CLAIMED && v.rec.configYAML.NoBlob? && IsLocal(v.rec) && e.getOk && e.patchOk then WroteReal(e.group)
      else Nothing
  }

  function SyncAfter(group: string, was: Sync, event: BlobEvent): Sync {
    match event
    case WroteReal(answered) => Sync(NamespaceForGroup(answered) == NamespaceForGroup(group), false)
    case WroteOpaque => Sync(false, true)
    case CredsMoved => Sync(false, was.tokenOk)
    case TokenMoved => Sync(was.realOk, false)
    case Nothing => was
  }

  /** SHA-256 in hex: no two tokens share a hash and none is empty. */
  ghost predicate GoodHash(hash: Hash) {
    (forall a, b :: hash(a) == hash(b) ==> a == b) && forall a :: hash(a) != ""
  }

  /** Some hash is good, so nothing here is proved from a contradiction. */
  lemma GoodHashExists() returns (hash: Hash)
    ensures GoodHash(hash)
  {
    hash := token => "#" + token;
    assert forall a: string :: ("#" + a)[1..] == a;
  }

  ghost predicate BlobStepOk(hash: Hash, group: string, v: View, c: Call) {
    SyncOf(hash, group, After(v, Exec(hash, v, c)).rec) == SyncAfter(group, SyncOf(hash, group, v.rec), BlobEventOf(hash, v, c))
  }

  lemma LifecycleBlobStep(hash: Hash, group: string, v: View, c: Call)
    requires (c.Suspend? || c.Reactivate? || c.ReadConfig?) && FreshCall(v, c)
    ensures BlobStepOk(hash, group, v, c)
  {
  }

  lemma RotateBlobStep(hash: Hash, group: string, v: View, e: RotateEnv)
    requires FreshCall(v, Rotate(e))
    ensures BlobStepOk(hash, group, v, Rotate(e))
  {
  }

  lemma ClaimBlobStep(hash: Hash, group: string, v: View, e: ClaimEnv)
    requires GoodHash(hash) && FreshCall(v, Claim(e))
    ensures BlobStepOk(hash, group, v, Claim(e))
  {
    if EffectiveSource(e) == SEEDLING {
      SeedlingClaimBlobStep(hash, group, v, e);
    } else {
      LocalClaimBlobStep(hash, group, v, e);
    }
  }

  lemma SeedlingClaimBlobStep(hash: Hash, group: string, v: View, e: ClaimEnv)
    requires GoodHash(hash) && FreshCall(v, Claim(e)) && EffectiveSource(e) == SEEDLING
    ensures BlobStepOk(hash, group, v, Claim(e))
  {
    NormalForms();
  }

  lemma LocalClaimBlobStep(hash: Hash, group: string, v: View, e: ClaimEnv)
    requires EffectiveSource(e) != SEEDLING
    ensures BlobStepOk(hash, group, v, Claim(e))
  {
  }

  lemma FlipBlobStep(hash: Hash, group: string, v: View, e: FlipEnv)
    requires GoodHash(hash) && FreshCall(v, Flip(e))
    ensures BlobStepOk(hash, group, v, Flip(e))
  {
    NormalForms();
  }

  lemma BlobStep(hash: Hash, group: string, v: View, c: Call)
    requires GoodHash(hash) && FreshCall(v, c)
    ensures BlobStepOk(hash, group, v, c)
  {
    match c {
      case Rotate(e) => RotateBlobStep(hash, group, v, e);
      case Claim(e) => ClaimBlobStep(hash, group, v, e);
      case Flip(e) => FlipBlobStep(hash, group, v, e);
      case _ => LifecycleBlobStep(hash, group, v, c);
    }
  }

  function SyncHistory(hash: Hash, group: string, v: View, calls: seq<Call>): Sync {
    if calls == [] then SyncOf(hash, group, v.rec)
    else
      var front := calls[..|calls| - 1];
      SyncAfter(group, SyncHistory(hash, group, v, front), BlobEventOf(hash, RunAll(hash, v, front), calls[|calls| - 1]))
  }

  lemma {:induction false} SyncIsHistory(hash: Hash, group: string, v: View, calls: seq<Call>)
    requires GoodHash(hash) && FreshRun(hash, v, calls)
    ensures SyncOf(hash, group, RunAll(hash, v, calls).rec) == SyncHistory(hash, group, v, calls)
  {
    if calls != [] {
      FreshPrefix(hash, v, calls);
      SyncIsHistory(hash, group, v, calls[..|calls| - 1]);
      BlobStep(hash, group, RunAll(hash, v, calls[..|calls| - 1]), calls[|calls| - 1]);
    }
  }

  /** Over every run the blob is the render of the current record exactly as the history of writes
      says: a reactivate or an unpersisted rotate makes a local blob stale, an unrendered flip or
      claim a seedling one, and the next successful render of the right shape, with the slot's group
      looked up right, clears it. */
  lemma BlobAgreementExact(hash: Hash, group: string, v: View, calls: seq<Call>)
    requires GoodHash(hash) && FreshRun(hash, v, calls)
    ensures var s := RunAll(hash, v, calls).rec;
            var h := SyncHistory(hash, group, v, calls);
            InSync(hash, group, s) <==> if IsLocal(s) then h.realOk else IsSeedling(s) && h.tokenOk
  {
    SyncIsHistory(hash, group, v, calls);
    InSyncShape(hash, group, RunAll(hash, v, calls).rec);
  }

  /** The opaque token a call puts into the blob it renders, "" when it has none in hand. */
  function TokenInHand(c: Call): string {
    match c
    case Claim(e) => ClaimToken(e)
    case Flip(e) => FlipToken(e)
    case _ => ""
  }

  function PersistOf(c: Call): PersistEnv
    requires c.Claim? || c.Flip? || c.Rotate?
  {
    match c
    case Claim(e) => e.persist
    case Flip(e) => e.persist
    case Rotate(e) => e.persist
  }

  /** The call answers 200 and its persist succeeded: a claim, a flip that changes the source, or a
      rotate. */
  predicate Rendered(hash: Hash, v: View, c: Call) {
    (c.Claim? || c.Flip? || c.Rotate?) && Exec(hash, v, c).status == 200 && Exec(hash, v, c).trail != [] &&
    PersistOk(After(v, Exec(hash, v, c)).rec, PersistOf(c), TokenInHand(c))
  }

  /** What such a call leaves: real credentials under the group name it was answered, or its token;
      only a seedling/v1 record whose call has no token keeps the blob and hash it had. */
  predicate Shows(hash: Hash, answered: string, token: string, was: Slot, s: Slot) {
    if IsLocal(s) then RealInSync(answered, s)
    else if token != "" then IsSeedling(s) && s.configYAML == OpaqueCreds(s.slotName, token) && s.opaqueTokenHash == hash(token)
    else IsSeedling(s) && IsSeedling(was) && s.slotName == was.slotName &&
         s.configYAML == was.configYAML && s.opaqueTokenHash == was.opaqueTokenHash
  }

  lemma ClaimShows(hash: Hash, v: View, e: ClaimEnv)
    requires Rendered(hash, v, Claim(e)) && e.token != ""
    ensures Shows(hash, e.persist.group, ClaimToken(e), v.rec, After(v, ClaimRun(hash, v, e)).rec)
  {
    NormalForms();
  }

  lemma FlipShows(hash: Hash, v: View, e: FlipEnv)
    requires Rendered(hash, v, Flip(e)) && e.token != ""
    ensures Shows(hash, e.persist.group, FlipToken(e), v.rec, After(v, FlipRun(hash, v, e)).rec)
  {
    NormalForms();
  }

  lemma RotateShows(hash: Hash, v: View, e: RotateEnv)
    requires Rendered(hash, v, Rotate(e))
    ensures Shows(hash, e.persist.group, "", v.rec, After(v, RotateRun(v, e)).rec)
  {
  }

  /** A blob so shown is in sync exactly as its group, or the blob it kept, is. */
  lemma ShownInSync(hash: Hash, group: string, answered: string, token: string, was: Slot, s: Slot)
    requires Shows(hash, answered, token, was, s)
    ensures InSync(hash, group, s) <==>
            if IsLocal(s) then NamespaceForGroup(answered) == NamespaceForGroup(group)
            else token != "" || InSync(hash, group, was)
  {
    InSyncShape(hash, group, s);
    InSyncShape(hash, group, was);
    NormalForms();
  }

  /** When does a successful render leave the blob in sync?  After any run that ends in a 200 claim or
      changing flip, or in a 200 rotate whose persist succeeded: a local blob exactly if the group
      lookup answered a name of the slot's own namespace; a seedling/v1 blob always if a token was just
      minted, and otherwise exactly if it was in sync before. */
  lemma RenderInSyncExact(hash: Hash, group: string, v: View, calls: seq<Call>, last: Call)
    requires FreshCall(RunAll(hash, v, calls), last) && Rendered(hash, RunAll(hash, v, calls), last)
    ensures var before, s := RunAll(hash, v, calls).rec, RunAll(hash, v, calls + [last]).rec;
            InSync(hash, group, s) <==>
            if IsLocal(s) then NamespaceForGroup(PersistOf(last).group) == NamespaceForGroup(group)
            else TokenInHand(last) != "" || InSync(hash, group, before)
  {
    RunSnoc(hash, v, calls, last);
    var before := RunAll(hash, v, calls);
    match last {
      case Claim(e) => ClaimShows(hash, before, e);
      case Flip(e) => FlipShows(hash, before, e);
      case Rotate(e) => RotateShows(hash, before, e);
    }
    ShownInSync(hash, group, PersistOf(last).group, TokenInHand(last), before.rec, After(before, Exec(hash, before, last)).rec);
  }

  /** A claim or read of this record that answers 200 answers with nothing: the record is on
      seedling/v1 after the patch, no token is in hand, and there is no blob the stable-blob rule could
      hand back. */
  predicate EmptyAnswer(s: Slot, c: Call) {
    s.configYAML.NoBlob? && TokenInHand(c) == "" &&
    (IsSeedling(s) || (c.Claim? && EffectiveSource(c.claim) == SEEDLING))
  }

  lemma ClaimedEmpty(hash: Hash, s: Slot, e: ClaimEnv)
    ensures var s' := Apply(s, ClaimPatchFor(hash, e));
            EmptyAnswer(s, Claim(e)) <==> s'.configYAML.NoBlob? && IsSeedling(s') && ClaimToken(e) == ""
  {
    NormalForms();
  }

  /** Every other 200 carries a config. */
  lemma EmptyAnswerExact(hash: Hash, v: View, c: Call)
    requires c.Claim? || c.ReadConfig?
    requires Exec(hash, v, c).status == 200
    ensures After(v, Exec(hash, v, c)).rec.configYAML.NoBlob? <==> EmptyAnswer(v.rec, c)
  {
    NormalForms();
  }

  /** Both happen: a seedling/v1 claim whose render failed is read back empty, and a claim for "local"
      on a record that already is on seedling/v1 answers 200 with nothing. */
  lemma EmptyConfigExamples(hash: Hash, v: View, claim: ClaimEnv, persist: PersistEnv)
    requires v.rec.state == UNCLAIMED && v.rec.claimCode == "c0de" && v.rec.configYAML.NoBlob? && persist.getOk
    requires claim == ClaimEnv("c0de", "Ada", claim.requested, true, "", true, "abco_x", true, PersistEnv(true, "g", false))
    ensures claim.requested == SEEDLING ==>
              var claimed := ClaimRun(hash, v, claim);
              var read := ReadConfigRun(After(v, claimed), true, persist);
              claimed.status == 500 && read.status == 200 && After(After(v, claimed), read).rec.configYAML.NoBlob?
    ensures claim.requested == LOCAL && v.rec.credSource == SEEDLING ==>
              var claimed := ClaimRun(hash, v, claim);
              claimed.status == 200 && After(v, claimed).rec.configYAML.NoBlob?
  {
    NormalForms();
    assert TrimSpace("c0de") == "c0de";
  }

  /** Rotate, suspend and reactivate leave the user's seedling/v1 config alone at every step. */
  lemma SeedlingBlobStable(hash: Hash, v: View, c: Call)
    requires IsSeedling(v.rec) && (c.Suspend? || c.Reactivate? || c.Rotate?)
    ensures forall i :: 0 <= i < |Exec(hash, v, c).trail| ==>
                          Exec(hash, v, c).trail[i].rec.configYAML == v.rec.configYAML && IsSeedling(Exec(hash, v, c).trail[i].rec)
  {
  }
}
