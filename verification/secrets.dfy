/** The per-slot secrets broker over Nomad Variables (secrets.go). */
module Secrets {
  import opened Wrappers
  import opened GoStrings
  import opened Identity

  const USERS_PREFIX := "abc/users/"

  function SecretPath(slotName: string, key: string): string {
    USERS_PREFIX + slotName + "/" + key
  }

  /** A key as the handlers use it: trimmed and not empty. */
  predicate IsKey(key: string) {
    key != "" && TrimSpace(key) == key
  }

  /** The name b continues a by '/' and something a key can begin with, so that b's variables lie
      among those a can name. */
  predicate Extends(a: string, b: string) {
    a + "/" <= b && (|b| == |a| + 1 || !IsSpace(b[|a| + 1]))
  }

  predicate Separate(a: string, b: string) {
    a == b || (!Extends(a, b) && !Extends(b, a))
  }

  lemma KeyEnds(key: string)
    requires key != ""
    ensures IsKey(key) <==> !IsSpace(key[0]) && !IsSpace(key[|key| - 1])
  {
    TrimLeftEnds(key);
    TrimRightEnds(TrimLeft(key));
    TrimLeftShorter(key);
    if TrimSpace(key) == key {
      assert |TrimRight(TrimLeft(key))| <= |TrimLeft(key)| <= |key|;
    }
  }

  lemma {:induction false} TrimLeftShorter(s: string)
    ensures |TrimLeft(s)| <= |s| && (|TrimLeft(s)| == |s| ==> TrimLeft(s) == s)
  {
    if s != "" && IsSpace(s[0]) {
      TrimLeftShorter(s[1..]);
    }
  }

  /** A collision of unequal names is an extension. */
  lemma CollisionExtends(a: string, k: string, b: string, k': string)
    requires IsKey(k) && |a| < |b| && a + "/" + k == b + "/" + k'
    ensures Extends(a, b)
  {
    var s := a + "/" + k;
    ShorterExtends(a, k, b, k');
    KeyEnds(k);
    assert s[..|b|] == b;
    if |b| > |a| + 1 {
      assert b[|a| + 1] == s[|a| + 1] == k[0];
    }
  }

  lemma ExtensionCollides(a: string, b: string)
    requires Extends(a, b)
    ensures exists k, k' :: IsKey(k) && IsKey(k') && SecretPath(a, k) == SecretPath(b, k')
  {
    var x := b[|a| + 1..];
    var k := x + "/k";
    assert b == a + "/" + x;
    assert |x| > 0 ==> x[0] == b[|a| + 1];
    KeyEnds(k);
    KeyEnds("k");
    assert SecretPath(a, k) == SecretPath(b, "k");
  }

  /** Two slots can share a path exactly when one name extends the other by '/'; it can be told when a
      slot is named. */
  lemma PathsCollideExact(a: string, b: string)
    requires a != b
    ensures (exists k, k' :: IsKey(k) && IsKey(k') && SecretPath(a, k) == SecretPath(b, k')) <==> !Separate(a, b)
  {
    if Extends(a, b) {
      ExtensionCollides(a, b);
    } else if Extends(b, a) {
      ExtensionCollides(b, a);
      var k, k' :| IsKey(k) && IsKey(k') && SecretPath(b, k) == SecretPath(a, k');
      assert SecretPath(a, k') == SecretPath(b, k);
    }
    forall k, k' | IsKey(k) && IsKey(k') && SecretPath(a, k) == SecretPath(b, k')
      ensures !Separate(a, b)
    {
      PathTails(a, k, b, k');
      if |a| < |b| {
        CollisionExtends(a, k, b, k');
      } else if |b| < |a| {
        CollisionExtends(b, k', a, k);
      } else {
        assert (a + "/" + k)[..|a|] == a && (b + "/" + k')[..|b|] == b;
      }
    }
  }

  lemma PathTails(a: string, k: string, b: string, k': string)
    requires SecretPath(a, k) == SecretPath(b, k')
    ensures a + "/" + k == b + "/" + k'
  {
    var n := |USERS_PREFIX|;
    assert SecretPath(a, k)[n..] == a + "/" + k && SecretPath(b, k')[n..] == b + "/" + k';
  }

  /** Distinct slots and keys never share a path, as long as their names are separate. */
  lemma KeyPathInjective(slot: string, key: string, slot': string, key': string)
    requires IsKey(key) && IsKey(key') && Separate(slot, slot')
    requires SecretPath(slot, key) == SecretPath(slot', key')
    ensures slot == slot' && key == key'
  {
    if slot != slot' {
      PathsCollideExact(slot, slot');
    }
    PathInjective(slot, key, slot', key');
  }

  /** Whatever the keys, trimmed or not, when neither name extends the other by '/'. */
  lemma PathInjective(slot: string, key: string, slot': string, key': string)
    requires !(slot + "/" <= slot') && !(slot' + "/" <= slot)
    requires SecretPath(slot, key) == SecretPath(slot', key')
    ensures slot == slot' && key == key'
  {
    PathTails(slot, key, slot', key');
    if |slot| < |slot'| {
      ShorterExtends(slot, key, slot', key');
    } else if |slot'| < |slot| {
      ShorterExtends(slot', key', slot, key);
    } else {
      var s := slot + "/" + key;
      assert s[..|slot|] == slot && s[..|slot'|] == slot';
      assert s[|slot| + 1..] == key && s[|slot'| + 1..] == key';
    }
  }

  lemma ShorterExtends(a: string, k: string, b: string, k': string)
    requires |a| < |b| && a + "/" + k == b + "/" + k'
    ensures a + "/" <= b
  {
    var s := a + "/" + k;
    assert s[..|a| + 1] == a + "/" && s[..|b|] == b;
    assert b[..|a| + 1] == s[..|a| + 1];
  }

  /** Only a name with '/' in it is ever not separate from another. */
  lemma CollisionNeedsSlash(a: string, b: string)
    ensures !Separate(a, b) ==> '/' in a || '/' in b
  {
    if Extends(a, b) {
      assert b[|a|] == (a + "/")[|a|] == '/';
    }
    if Extends(b, a) {
      assert a[|b|] == (b + "/")[|b|] == '/';
    }
  }

  /** For instance "a/b" extends "a". */
  lemma SlashCollides()
    ensures SecretPath("a/b", "c") == SecretPath("a", "b/c")
  {
    assert SecretPath("a/b", "c") == "abc/users/a/b/c";
    assert SecretPath("a", "b/c") == "abc/users/a/b/c";
  }

  /** The namespace half of secretsNamespaceAndPath; `group` is the slot's resolved group name. */
  function SecretNamespace(group: string, groupOverride: string): string {
    var name := if TrimSpace(groupOverride) == "" then group else TrimSpace(groupOverride);
    if name == "" then "default" else NamespaceForGroup(name)
  }

  /** The override reaches the namespace /auth/secrets/get reads. */
  predicate OverrideVisible(group: string, groupOverride: string) {
    var o := TrimSpace(groupOverride);
    o == "" || (group != "" && TrimPrefix(o, NS_PREFIX) == TrimPrefix(group, NS_PREFIX))
  }

  lemma OverrideVisibleExact(group: string, groupOverride: string)
    ensures SecretNamespace(group, groupOverride) == SecretNamespace(group, "") <==> OverrideVisible(group, groupOverride)
  {
    SameNamespace(TrimSpace(groupOverride), group);
  }

  /** A decoded JSON value: a string, null, or anything else with its encoding. */
  datatype Json = JString(text: string) | JNull | JOther(encoding: string)

  function Stringify(v: Json): string {
    match v
    case JString(text) => text
    case JNull => ""
    case JOther(encoding) => encoding
  }

  datatype SlotCaller = SlotCaller(slotName: string, group: string)

  datatype PutRequest = PutRequest(caller: SlotCaller, key: string, groupOverride: string, value: Option<Json>, storeOk: bool)

  datatype GetResult = Found(value: string) | NotFound | BadRequest | ReadFailed

  type Variables = map<(string, string), string>

  /** The variable a request addresses. */
  function Address(caller: SlotCaller, key: string, groupOverride: string): (string, string) {
    (SecretNamespace(caller.group, groupOverride), SecretPath(caller.slotName, TrimSpace(key)))
  }

  /** The store after a put, and the status. */
  function AfterPut(vars: Variables, r: PutRequest): (Variables, int) {
    if TrimSpace(r.key) == "" || r.value.None? then (vars, 400)
    else if !r.storeOk then (vars, 500)
    else (vars[Address(r.caller, r.key, r.groupOverride) := Stringify(r.value.value)], 200)
  }

  function Lookup(vars: Variables, caller: SlotCaller, key: string): GetResult {
    if TrimSpace(key) == "" then BadRequest
    else
      var a := Address(caller, key, "");
      if a in vars then Found(vars[a]) else NotFound
  }

  class SecretsBroker {
    var vars: Variables

    constructor ()
      ensures vars == map[]
    {
      vars := map[];
    }

    method HandleSecretsPut(r: PutRequest) returns (status: int)
      modifies this
      ensures (vars, status) == AfterPut(old(vars), r)
    {
      var key := TrimSpace(r.key);
      if key == "" || r.value.None? {
        return 400;
      }
      if !r.storeOk {
        return 500;
      }
      var ns := SecretNamespace(r.caller.group, r.groupOverride);
      vars := vars[(ns, SecretPath(r.caller.slotName, key)) := Stringify(r.value.value)];
      return 200;
    }

    method HandleSecretsGet(caller: SlotCaller, key: string, storeOk: bool) returns (res: GetResult)
      ensures res == if TrimSpace(key) != "" && !storeOk then ReadFailed else Lookup(vars, caller, key)
    {
      var k := TrimSpace(key);
      if k == "" {
        return BadRequest;
      }
      if !storeOk {
        return ReadFailed;
      }
      var a := (SecretNamespace(caller.group, ""), SecretPath(caller.slotName, k));
      res := if a in vars then Found(vars[a]) else NotFound;
    }
  }

  function PutAll(vars: Variables, rs: seq<PutRequest>): Variables {
    if rs == [] then vars else AfterPut(PutAll(vars, rs[..|rs| - 1]), rs[|rs| - 1]).0
  }

  /** Where a slot's variables live: under its own name, in the namespace of the group it resolves to,
      or in "default" when there is none. */
  lemma AddressExact(caller: SlotCaller, key: string, groupOverride: string)
    ensures var (ns, path) := Address(caller, key, groupOverride);
            var group := if TrimSpace(groupOverride) == "" then caller.group else TrimSpace(groupOverride);
            path == "abc/users/" + caller.slotName + "/" + TrimSpace(key) &&
            (group == "" ==> ns == "default") &&
            (group != "" ==> "su-" <= ns && (ns == group || ns == "su-" + group) && ns != "default")
  {
    SameNamespace(if TrimSpace(groupOverride) == "" then caller.group else TrimSpace(groupOverride), "");
  }

  /** When a put answers what, and that only a 200 writes. */
  lemma PutExact(vars: Variables, r: PutRequest)
    ensures var (after, status) := AfterPut(vars, r);
            (status == 200 <==> TrimSpace(r.key) != "" && r.value.Some? && r.storeOk) &&
            (status == 400 <==> TrimSpace(r.key) == "" || r.value.None?) &&
            (status != 200 ==> after == vars && status in {400, 500})
  {
  }

  /** What a get answers, by the variable at the slot's own address. */
  lemma GetExact(vars: Variables, caller: SlotCaller, key: string)
    ensures var r, a := Lookup(vars, caller, key), Address(caller, key, "");
            (r.BadRequest? <==> TrimSpace(key) == "") &&
            (r.NotFound? <==> TrimSpace(key) != "" && a !in vars) &&
            (forall value :: r == Found(value) <==> TrimSpace(key) != "" && a in vars && vars[a] == value)
  {
  }

  /** What a get of a just put value answers: a string as it is, null as nothing, anything else as its
      encoding. */
  lemma PutThenGetValue(vars: Variables, r: PutRequest)
    requires AfterPut(vars, r).1 == 200 && TrimSpace(r.groupOverride) == ""
    ensures Lookup(AfterPut(vars, r).0, r.caller, r.key) ==
            match r.value.value
            case JString(text) => Found(text)
            case JNull => Found("")
            case JOther(encoding) => Found(encoding)
  {
    PutThenGet(vars, r, []);
    assert PutAll(AfterPut(vars, r).0, []) == AfterPut(vars, r).0;
  }

  /** The request comes from another slot or goes to another key or namespace. */
  predicate Elsewhere(r: PutRequest, caller: SlotCaller, key: string) {
    r.caller.slotName != caller.slotName || TrimSpace(r.key) != TrimSpace(key) ||
    SecretNamespace(r.caller.group, r.groupOverride) != SecretNamespace(caller.group, "")
  }

  lemma {:induction false} OthersDoNotInterfere(vars: Variables, rs: seq<PutRequest>, caller: SlotCaller, key: string)
    requires forall i :: 0 <= i < |rs| ==> Separate(rs[i].caller.slotName, caller.slotName) && Elsewhere(rs[i], caller, key)
    ensures Lookup(PutAll(vars, rs), caller, key) == Lookup(vars, caller, key)
  {
    if rs != [] {
      var r := rs[|rs| - 1];
      OthersDoNotInterfere(vars, rs[..|rs| - 1], caller, key);
      assert Elsewhere(r, caller, key);
      TrimIdempotent(r.key);
      TrimIdempotent(key);
      if IsKey(TrimSpace(r.key)) && IsKey(TrimSpace(key)) && Address(r.caller, r.key, r.groupOverride) == Address(caller, key, "") {
        KeyPathInjective(r.caller.slotName, TrimSpace(r.key), caller.slotName, TrimSpace(key));
      }
    }
  }

  /** One put by another slot of the same namespace can change what a slot reads exactly when their
      names are not separate. */
  lemma InterferenceExact(caller: SlotCaller, other: SlotCaller)
    requires caller.slotName != other.slotName && SecretNamespace(caller.group, "") == SecretNamespace(other.group, "")
    ensures (exists vars, key, r :: Disturbs(vars, caller, key, other, r)) <==> !Separate(other.slotName, caller.slotName)
  {
    if !Separate(other.slotName, caller.slotName) {
      PathsCollideExact(caller.slotName, other.slotName);
      var k, k' :| IsKey(k) && IsKey(k') && SecretPath(caller.slotName, k) == SecretPath(other.slotName, k');
      assert Disturbs(map[], caller, k, other, PutRequest(other, k', "", Some(JNull), true));
    }
    forall vars, key, r | Disturbs(vars, caller, key, other, r)
      ensures !Separate(other.slotName, caller.slotName)
    {
      OnePutElsewhere(vars, caller, key, r);
    }
  }

  lemma OnePutElsewhere(vars: Variables, caller: SlotCaller, key: string, r: PutRequest)
    requires r.caller.slotName != caller.slotName
    ensures Separate(r.caller.slotName, caller.slotName) ==> Lookup(AfterPut(vars, r).0, caller, key) == Lookup(vars, caller, key)
  {
    assert [r][..0] == [];
    assert PutAll(vars, [r]) == AfterPut(vars, r).0;
    if Separate(r.caller.slotName, caller.slotName) {
      OthersDoNotInterfere(vars, [r], caller, key);
    }
  }

  predicate Disturbs(vars: Variables, caller: SlotCaller, key: string, other: SlotCaller, r: PutRequest) {
    r.caller == other && Lookup(AfterPut(vars, r).0, caller, key) != Lookup(vars, caller, key)
  }

  /** What a slot put is what it gets, after any puts by others or elsewhere, exactly when the
      override it used is visible; otherwise the put changes nothing the slot can read. */
  lemma PutThenGet(vars: Variables, r: PutRequest, rs: seq<PutRequest>)
    requires AfterPut(vars, r).1 == 200
    requires forall i :: 0 <= i < |rs| ==> Separate(rs[i].caller.slotName, r.caller.slotName) && Elsewhere(rs[i], r.caller, r.key)
    ensures Lookup(PutAll(AfterPut(vars, r).0, rs), r.caller, r.key) ==
            if OverrideVisible(r.caller.group, r.groupOverride) then Found(Stringify(r.value.value))
            else Lookup(vars, r.caller, r.key)
  {
    OthersDoNotInterfere(AfterPut(vars, r).0, rs, r.caller, r.key);
    OverrideVisibleExact(r.caller.group, r.groupOverride);
  }
}
