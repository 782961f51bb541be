/** Caller identity and group derivation (identity.go, verify.go, naming.go). */
module Identity {
  import opened GoStrings

  const NS_PREFIX := "su-"

  /** namespaceForGroup: the prefix is added once. */
  function NamespaceForGroup(group: string): string {
    if HasPrefix(group, NS_PREFIX) then group else NS_PREFIX + group
  }

  /** Two group names share a namespace exactly when they agree up to one optional prefix. */
  lemma SameNamespace(a: string, b: string)
    ensures NamespaceForGroup(a) == NamespaceForGroup(b) <==> TrimPrefix(a, NS_PREFIX) == TrimPrefix(b, NS_PREFIX)
    ensures NamespaceForGroup(NamespaceForGroup(a)) == NamespaceForGroup(a)
    ensures NamespaceForGroup(a) != "default"
    ensures NamespaceForGroup(a) == "su-" + TrimPrefix(a, NS_PREFIX) && (a == TrimPrefix(a, NS_PREFIX) || a == "su-" + TrimPrefix(a, NS_PREFIX))
  {
    assert forall s :: NamespaceForGroup(s) == NS_PREFIX + TrimPrefix(s, NS_PREFIX) by {
      forall s
        ensures NamespaceForGroup(s) == NS_PREFIX + TrimPrefix(s, NS_PREFIX)
      {
        if HasPrefix(s, NS_PREFIX) {
          assert s == s[..3] + s[3..];
        }
      }
    }
    var x, y := TrimPrefix(a, NS_PREFIX), TrimPrefix(b, NS_PREFIX);
    assert (NS_PREFIX + x)[3..] == x && (NS_PREFIX + y)[3..] == y;
    assert NamespaceForGroup(a)[0] == 's';
  }

  // ---- Two derivations of one identity ----

  /** The parts of a token introspection that are read; `roles` holds the role names. */
  datatype TokenSelf = TokenSelf(name: string, kind: string, namespace: string, policies: seq<string>, roles: seq<string>)

  datatype Caller = Caller(user: string, group: string, namespace: string, policies: string)

  predicate IsManagement(info: TokenSelf) {
    info.kind == "management"
  }

  /** The namespace guess of nomadIdentity, by slicing. */
  function GuessBySlicing(group: string): string {
    if HasPrefix(group, "member-") then group[|"member-"|..]
    else if HasSuffix(group, "-pool") then group[..|group| - |"-pool"|]
    else if HasSuffix(group, "-admin") then group[..|group| - |"-admin"|]
    else if HasSuffix(group, "-member") then group[..|group| - |"-member"|]
    else group
  }

  /** The namespace guess of nomadIdentityHeaders, by trimming. */
  function GuessByTrimming(group: string): string {
    if HasPrefix(group, "member-") then TrimPrefix(group, "member-")
    else if HasSuffix(group, "-pool") then TrimSuffix(group, "-pool")
    else if HasSuffix(group, "-admin") then TrimSuffix(group, "-admin")
    else if HasSuffix(group, "-member") then TrimSuffix(group, "-member")
    else group
  }

  /** The first policy or else the first role, by nomadIdentity. */
  function GroupAndPolicies(info: TokenSelf): (string, string) {
    if |info.policies| > 0 then (info.policies[0], Join(info.policies, ","))
    else if |info.roles| > 0 then (TrimPrefix(info.roles[0], "r-"), "role:" + info.roles[0])
    else ("unknown", "")
  }

  /** And by nomadIdentityHeaders. */
  function HeaderGroupAndPolicies(info: TokenSelf): (string, string) {
    if |info.policies| > 0 then (info.policies[0], Join(info.policies, ","))
    else if |info.roles| > 0 then
      var roleName := if info.roles[0] == "" then "unknown" else info.roles[0];
      (if HasPrefix(roleName, "r-") then roleName[2..] else roleName, "role:" + roleName)
    else ("unknown", "")
  }

  lemma GroupsAndPoliciesAgree(info: TokenSelf)
    ensures GroupAndPolicies(info) == HeaderGroupAndPolicies(info) <==>
            !(info.policies == [] && info.roles != [] && info.roles[0] == "")
    ensures info.policies == [] && info.roles != [] && info.roles[0] == "" ==>
              GroupAndPolicies(info).0 == "" && HeaderGroupAndPolicies(info) == ("unknown", "role:unknown")
  {
    NotRolePrefixed("unknown");
    assert "role:" + "unknown" == "role:unknown";
    assert TrimPrefix("", "r-") == "";
  }

  lemma NotRolePrefixed(u: string)
    requires u == "unknown"
    ensures !HasPrefix(u, "r-")
  {
    assert u[0] == 'u' && "r-"[0] == 'r';
  }

  /** nomadIdentity. */
  function NomadIdentity(info: TokenSelf): Caller {
    var name := if info.name == "" then "anonymous" else info.name;
    if IsManagement(info) then Caller(name, "admin", "*", "management")
    else
      var (group, policyStr) := GroupAndPolicies(info);
      Caller(name, group, if info.namespace == "" then GuessBySlicing(group) else info.namespace, policyStr)
  }

  /** The values of nomadIdentityHeaders. */
  datatype AuthHeaders = AuthHeaders(xAuthUser: string, xAuthGroup: string, xAuthNamespace: string,
                                     xAuthPolicies: string, xAuthType: string)

  /** nomadIdentityHeaders. */
  function NomadIdentityHeaders(info: TokenSelf): AuthHeaders {
    var name := if info.name == "" then "anonymous" else info.name;
    var kind := if info.kind == "" then "client" else info.kind;
    if kind == "management" then AuthHeaders(name, "admin", "*", "management", kind)
    else
      var (group, policyStr) := HeaderGroupAndPolicies(info);
      AuthHeaders(name, group, if info.namespace == "" then GuessByTrimming(group) else info.namespace, policyStr, kind)
  }

  function HeaderCaller(h: AuthHeaders): Caller {
    Caller(h.xAuthUser, h.xAuthGroup, h.xAuthNamespace, h.xAuthPolicies)
  }

  lemma GuessesAgree(group: string)
    ensures GuessBySlicing(group) == GuessByTrimming(group)
  {
  }

  /** The type header, and the other headers in the corner where the derivations differ. */
  lemma HeadersExact(info: TokenSelf)
    ensures var h := NomadIdentityHeaders(info);
            h.xAuthType == (if info.kind == "" then "client" else info.kind) &&
            (info.kind != "management" && info.policies == [] && info.roles != [] && info.roles[0] == "" ==>
               h.xAuthUser == NomadIdentity(info).user && h.xAuthPolicies == "role:unknown" && h.xAuthGroup == "unknown" &&
               if info.namespace == "" then Guesses(h.xAuthGroup, h.xAuthNamespace) else h.xAuthNamespace == info.namespace)
  {
    var h := NomadIdentityHeaders(info);
    GuessesAgree(h.xAuthGroup);
    GuessExact(h.xAuthGroup, h.xAuthNamespace);
    GroupsAndPoliciesAgree(info);
  }

  /** The two derivations agree exactly outside one corner: a client token without policies whose
      first role has no name. */
  lemma IdentitiesAgreeExact(info: TokenSelf)
    ensures HeaderCaller(NomadIdentityHeaders(info)) == NomadIdentity(info) <==>
            !(!IsManagement(info) && info.policies == [] && info.roles != [] && info.roles[0] == "")
  {
    var id, h := NomadIdentity(info), NomadIdentityHeaders(info);
    GuessesAgree(id.group);
    GroupsAndPoliciesAgree(info);
  }

  /** The namespace guessed for a group: "member-" off its front, or else one of three suffixes off its
      end, or else the group itself. */
  predicate Guesses(group: string, ns: string) {
    group == "member-" + ns ||
    (!("member-" <= group) &&
     (group == ns + "-pool" || group == ns + "-admin" || group == ns + "-member" || (group == ns && !Suffixed(group))))
  }

  lemma GuessExact(group: string, ns: string)
    ensures GuessBySlicing(group) == ns <==> Guesses(group, ns)
  {
    PrefixTaken(group, "member-", ns);
    SuffixesExclude(group);
    SuffixTaken(group, ns, "-pool");
    SuffixTaken(group, ns, "-admin");
    SuffixTaken(group, ns, "-member");
  }

  /** Who a token is, with everything written out. */
  lemma NomadIdentityExact(info: TokenSelf)
    ensures var id := NomadIdentity(info);
            && id.user == (if info.name == "" then "anonymous" else info.name)
            && (info.kind == "management" ==> id.group == "admin" && id.namespace == "*" && id.policies == "management")
            && (info.kind != "management" ==>
                  (if info.namespace == "" then Guesses(id.group, id.namespace) else id.namespace == info.namespace) &&
                  (info.policies != [] ==> id.group == info.policies[0]) &&
                  (info.policies != [] && (forall i :: 0 <= i < |info.policies| ==> ',' !in info.policies[i]) ==>
                     Split(id.policies, ',') == info.policies) &&
                  (info.policies == [] && info.roles != [] ==>
                     id.policies == "role:" + info.roles[0] &&
                     (info.roles[0] == "r-" + id.group || (info.roles[0] == id.group && !("r-" <= id.group)))) &&
                  (info.policies == [] && info.roles == [] ==> id.group == "unknown" && id.policies == ""))
  {
    var id := NomadIdentity(info);
    GuessExact(id.group, GuessBySlicing(id.group));
    if info.kind != "management" {
      if info.policies != [] {
        SplitExact(id.policies, ',', info.policies);
      } else if info.roles != [] {
        PrefixTaken(info.roles[0], "r-", id.group);
      }
    }
  }

  // ---- Groups ----

  predicate LexLess(a: string, b: string) {
    b != [] && (a == [] || a[0] < b[0] || (a[0] == b[0] && LexLess(a[1..], b[1..])))
  }

  lemma {:induction false} LexTotal(a: string, b: string)
    ensures a == b || LexLess(a, b) || LexLess(b, a)
  {
    if a != [] && b != [] && a[0] == b[0] {
      LexTotal(a[1..], b[1..]);
      assert a == [a[0]] + a[1..] && b == [b[0]] + b[1..];
    }
  }

  lemma {:induction false} LexTransitive(a: string, b: string, c: string)
    requires LexLess(a, b) && LexLess(b, c)
    ensures LexLess(a, c)
  {
    if a != [] && a[0] == b[0] == c[0] {
      LexTransitive(a[1..], b[1..], c[1..]);
    }
  }

  lemma {:induction false} LexIrreflexive(a: string)
    ensures !LexLess(a, a)
  {
    if a != [] {
      LexIrreflexive(a[1..]);
    }
  }

  /** The order of sort.Strings: a proper prefix comes first, otherwise the first difference decides. */
  lemma {:induction false} LexLessExact(a: string, b: string)
    ensures LexLess(a, b) <==> a < b || exists n :: DiffersAt(a, b, n) && a[n] < b[n]
  {
    if a != "" && b != "" && a[0] == b[0] {
      LexLessExact(a[1..], b[1..]);
      assert a == [a[0]] + a[1..] && b == [b[0]] + b[1..];
      assert a < b <==> a[1..] < b[1..];
      if n :| DiffersAt(a[1..], b[1..], n) && a[1..][n] < b[1..][n] {
        assert a[..n + 1] == [a[0]] + a[1..][..n] && b[..n + 1] == [b[0]] + b[1..][..n];
        assert DiffersAt(a, b, n + 1);
      }
      if n :| DiffersAt(a, b, n) && a[n] < b[n] {
        assert a[1..][..n - 1] == a[..n][1..] && b[1..][..n - 1] == b[..n][1..];
        assert DiffersAt(a[1..], b[1..], n - 1);
      }
    } else if a != "" && b != "" && a[0] < b[0] {
      assert DiffersAt(a, b, 0);
    } else if a != "" && b != "" {
      forall n | DiffersAt(a, b, n)
        ensures n == 0
      {
        if n > 0 {
          DiffersLater(a, b, n);
        }
      }
    }
  }

  lemma DiffersLater(a: string, b: string, n: int)
    requires DiffersAt(a, b, n) && n > 0
    ensures a[0] == b[0]
  {
    assert a[..n][0] == b[..n][0];
  }

  /** n is the first position where a and b differ. */
  predicate DiffersAt(a: string, b: string, n: int) {
    0 <= n < |a| && n < |b| && a[..n] == b[..n] && a[n] != b[n]
  }

  ghost predicate StrictlySorted(s: seq<string>) {
    forall i, j :: 0 <= i < j < |s| ==> LexLess(s[i], s[j])
  }

  function Elements(s: seq<string>): set<string> {
    set x | x in s
  }

  /** The group of a policy without "member-" in front. */
  function GroupOfBase(base: string): string {
    if HasPrefix(base, NS_PREFIX) then
      var inner := TrimPrefix(base, NS_PREFIX);
      if HasSuffix(inner, "-pool") then TrimSuffix(inner, "-pool")
      else if HasSuffix(inner, "-admin") then TrimSuffix(inner, "-admin")
      else if HasSuffix(inner, "-member") then TrimSuffix(inner, "-member")
      else inner
    else base
  }

  /** The group a policy names, "" when it names none. */
  function GroupOf(policy: string): string {
    var p := TrimSpace(policy);
    if p == "" || HasPrefix(p, "role:") then "" else GroupOfBase(TrimPrefix(p, "member-"))
  }

  /** What is left of a trimmed policy once an optional "member-" is taken off its front. */
  ghost predicate Base(policy: string, base: string) {
    policy == "member-" + base || (policy == base && !("member-" <= base))
  }

  predicate Suffixed(inner: string) {
    HasSuffix(inner, "-pool") || HasSuffix(inner, "-admin") || HasSuffix(inner, "-member")
  }

  /** A base that names g: "su-", g, and one of three suffixes or none; or plain g. */
  predicate BaseNames(base: string, g: string) {
    base == "su-" + g + "-pool" || base == "su-" + g + "-admin" || base == "su-" + g + "-member" ||
    (base == "su-" + g && !Suffixed(g)) || (base == g && !("su-" <= g))
  }

  /** A trimmed policy names g. */
  ghost predicate Names(policy: string, g: string) {
    g != "" && !("role:" <= policy) && exists base :: Base(policy, base) && BaseNames(base, g)
  }

  lemma SuffixesExclude(inner: string)
    ensures HasSuffix(inner, "-pool") ==> !HasSuffix(inner, "-admin") && !HasSuffix(inner, "-member")
    ensures HasSuffix(inner, "-admin") ==> !HasSuffix(inner, "-member")
  {
    if HasSuffix(inner, "-pool") {
      assert inner[|inner| - 1] == inner[|inner| - 5..][4] == 'l';
    }
    if HasSuffix(inner, "-admin") {
      assert inner[|inner| - 1] == inner[|inner| - 6..][5] == 'n';
    }
    if HasSuffix(inner, "-member") {
      assert inner[|inner| - 1] == inner[|inner| - 7..][6] == 'r';
    }
  }

  lemma SuffixTaken(inner: string, g: string, suffix: string)
    ensures HasSuffix(inner, suffix) && TrimSuffix(inner, suffix) == g <==> inner == g + suffix
  {
    if inner == g + suffix {
      assert inner[|inner| - |suffix|..] == suffix && inner[..|inner| - |suffix|] == g;
    }
    if HasSuffix(inner, suffix) {
      assert inner == inner[..|inner| - |suffix|] + inner[|inner| - |suffix|..];
    }
  }

  lemma PrefixTaken(s: string, p: string, rest: string)
    ensures HasPrefix(s, p) && TrimPrefix(s, p) == rest <==> s == p + rest
  {
    if s == p + rest {
      assert s[|p|..] == rest;
    }
    if HasPrefix(s, p) {
      assert s == p + s[|p|..];
    }
  }

  lemma InnerNames(inner: string, g: string)
    ensures GroupOfBase("su-" + inner) == g <==>
            inner == g + "-pool" || inner == g + "-admin" || inner == g + "-member" || (inner == g && !Suffixed(g))
  {
    PrefixTaken("su-" + inner, NS_PREFIX, inner);
    SuffixesExclude(inner);
    SuffixTaken(inner, g, "-pool");
    SuffixTaken(inner, g, "-admin");
    SuffixTaken(inner, g, "-member");
  }

  lemma SuBaseNames(inner: string, g: string)
    ensures BaseNames("su-" + inner, g) <==>
            inner == g + "-pool" || inner == g + "-admin" || inner == g + "-member" || (inner == g && !Suffixed(g))
  {
    Cancel("su-", inner, g + "-pool");
    Cancel("su-", inner, g + "-admin");
    Cancel("su-", inner, g + "-member");
    Cancel("su-", inner, g);
    assert forall x, y :: "su-" + x + y == "su-" + (x + y);
    assert "su-" <= "su-" + inner;
  }

  lemma BaseNamesExact(base: string, g: string)
    ensures GroupOfBase(base) == g <==> BaseNames(base, g)
  {
    if "su-" <= base {
      var inner := base[3..];
      assert base == "su-" + inner;
      InnerNames(inner, g);
      SuBaseNames(inner, g);
    } else if BaseNames(base, g) {
      assert base == g;
    }
  }

  lemma Cancel(p: string, a: string, b: string)
    ensures p + a == p + b <==> a == b
  {
    assert (p + a)[|p|..] == a && (p + b)[|p|..] == b;
  }

  /** A policy names a group exactly when, trimmed, it has one of the written-out shapes for it. */
  lemma GroupOfExact(policy: string, g: string)
    requires g != ""
    ensures GroupOf(policy) == g <==> Names(TrimSpace(policy), g)
  {
    var p := TrimSpace(policy);
    var base := TrimPrefix(p, "member-");
    PrefixTaken(p, "member-", base);
    BaseNamesExact(base, g);
    if b :| Base(p, b) && BaseNames(b, g) {
      PrefixTaken(p, "member-", b);
      BaseNamesExact(b, g);
    }
    if p != "" {
      assert Base(p, base) || "member-" <= base;
    }
  }

  /** The groups reported for a policy string are those some comma-separated piece of it names. */
  lemma GroupsExact(groups: seq<string>, policyStr: string, g: string)
    requires IsGroupList(groups, policyStr)
    ensures g in groups <==> g != "" && exists p :: p in Split(policyStr, ',') && Names(TrimSpace(p), g)
  {
    assert g in groups <==> g in Elements(groups);
    if g in groups {
      var p :| p in Split(policyStr, ',') && GroupOf(p) != "" && GroupOf(p) == g;
      GroupOfExact(p, g);
    }
    if p :| g != "" && p in Split(policyStr, ',') && Names(TrimSpace(p), g) {
      GroupOfExact(p, g);
    }
  }

  /** The groups a list of policies names. */
  function GroupSet(policies: seq<string>): set<string> {
    set p | p in policies && GroupOf(p) != "" :: GroupOf(p)
  }

  lemma ElementsSnoc(s: seq<string>, x: string)
    ensures Elements(s + [x]) == Elements(s) + {x}
  {
  }

  lemma GroupSetSnoc(policies: seq<string>, p: string)
    ensures GroupSet(policies + [p]) == GroupSet(policies) + if GroupOf(p) == "" then {} else {GroupOf(p)}
  {
    forall g
      ensures g in GroupSet(policies + [p]) <==> g in GroupSet(policies) || (g == GroupOf(p) && g != "")
    {
      assert forall q :: q in policies + [p] <==> q in policies || q == p;
    }
  }

  /** Insertion into a sorted list, as sort.Strings would place it. */
  method InsertSorted(sorted: seq<string>, g: string) returns (r: seq<string>)
    requires StrictlySorted(sorted) && g !in sorted
    ensures StrictlySorted(r) && Elements(r) == Elements(sorted) + {g}
  {
    var i := 0;
    while i < |sorted| && LexLess(sorted[i], g)
      invariant 0 <= i <= |sorted|
      invariant forall k :: 0 <= k < i ==> LexLess(sorted[k], g)
    {
      i := i + 1;
    }
    r := sorted[..i] + [g] + sorted[i..];
    forall k | i <= k < |sorted|
      ensures LexLess(g, sorted[k])
    {
      LexTotal(sorted[i], g);
      if k > i {
        LexTransitive(g, sorted[i], sorted[k]);
      }
    }
  }

  method SortStrings(groups: seq<string>) returns (r: seq<string>)
    requires forall i, j :: 0 <= i < j < |groups| ==> groups[i] != groups[j]
    ensures StrictlySorted(r) && Elements(r) == Elements(groups)
  {
    r := [];
    for i := 0 to |groups|
      invariant StrictlySorted(r) && Elements(r) == Elements(groups[..i])
    {
      var g := groups[i];
      assert g !in Elements(groups[..i]);
      assert forall x :: x in r ==> x in Elements(r);
      r := InsertSorted(r, g);
      assert groups[..i + 1] == groups[..i] + [g];
    }
    assert groups[..|groups|] == groups;
  }

  /** The groups in order of first appearance, once each. */
  method CollectGroups(policies: seq<string>) returns (groups: seq<string>)
    ensures Elements(groups) == GroupSet(policies)
    ensures forall a, b :: 0 <= a < b < |groups| ==> groups[a] != groups[b]
  {
    var seen: set<string> := {};
    groups := [];
    for i := 0 to |policies|
      invariant seen == Elements(groups) == GroupSet(policies[..i])
      invariant forall a, b :: 0 <= a < b < |groups| ==> groups[a] != groups[b]
    {
      assert policies[..i + 1] == policies[..i] + [policies[i]];
      GroupSetSnoc(policies[..i], policies[i]);
      var g := GroupOf(policies[i]);
      if g != "" && g !in seen {
        assert forall a :: 0 <= a < |groups| ==> groups[a] in Elements(groups);
        ElementsSnoc(groups, g);
        seen := seen + {g};
        groups := groups + [g];
      }
    }
    assert policies[..|policies|] == policies;
  }

  /** groupsFromPolicies: strictly sorted, and exactly the groups the policies name. */
  method GroupsFromPolicies(policyStr: string) returns (groups: seq<string>)
    ensures policyStr == "management" ==> groups == ["*"]
    ensures policyStr != "management" ==> IsGroupList(groups, policyStr)
  {
    if policyStr == "management" {
      return ["*"];
    }
    groups := CollectGroups(Split(policyStr, ','));
    groups := SortStrings(groups);
  }

  /** A strictly sorted list is determined by its elements, so the result above is unique. */
  lemma {:induction false} SortedDetermined(a: seq<string>, b: seq<string>)
    requires StrictlySorted(a) && StrictlySorted(b) && Elements(a) == Elements(b)
    ensures a == b
  {
    NonEmptyElements(a);
    NonEmptyElements(b);
    if a != [] {
      assert a[0] in Elements(b);
      var i :| 0 <= i < |b| && b[i] == a[0];
      assert b[0] in Elements(a);
      var j :| 0 <= j < |a| && a[j] == b[0];
      if i > 0 && j > 0 {
        LexTransitive(a[0], b[0], a[0]);
      }
      LexIrreflexive(a[0]);
      assert a[0] == b[0];
      TailElements(a);
      TailElements(b);
      SortedDetermined(a[1..], b[1..]);
    }
  }

  lemma NonEmptyElements(a: seq<string>)
    ensures a == [] <==> Elements(a) == {}
  {
    if a != [] {
      assert a[0] in Elements(a);
    }
  }

  lemma TailElements(a: seq<string>)
    requires a != [] && StrictlySorted(a)
    ensures StrictlySorted(a[1..]) && Elements(a[1..]) == Elements(a) - {a[0]}
  {
    LexIrreflexive(a[0]);
    assert forall i :: 1 <= i < |a| ==> LexLess(a[0], a[i]);
    forall x | x in Elements(a) - {a[0]}
      ensures x in a[1..]
    {
      var i :| 0 <= i < |a| && a[i] == x;
      assert a[1..][i - 1] == x;
    }
  }

  function Trimmed(policies: seq<string>): set<string> {
    set p | p in policies :: TrimSpace(p)
  }

  lemma {:induction false} TrimLeftEnds(s: string)
    ensures TrimLeft(s) != [] ==> !IsSpace(TrimLeft(s)[0])
  {
    if s != [] && IsSpace(s[0]) {
      TrimLeftEnds(s[1..]);
    }
  }

  lemma {:induction false} TrimRightEnds(s: string)
    ensures TrimRight(s) != [] ==> !IsSpace(TrimRight(s)[|TrimRight(s)| - 1])
    ensures TrimRight(s) <= s
  {
    if s != [] && IsSpace(s[|s| - 1]) {
      TrimRightEnds(s[..|s| - 1]);
    }
  }

  lemma TrimIdempotent(s: string)
    ensures TrimSpace(TrimSpace(s)) == TrimSpace(s)
  {
    TrimLeftEnds(s);
    TrimRightEnds(TrimLeft(s));
  }

  lemma GroupOfTrimmed(p: string)
    ensures GroupOf(TrimSpace(p)) == GroupOf(p)
  {
    TrimIdempotent(p);
  }

  lemma GroupsByTrimmed(a: seq<string>, b: seq<string>)
    requires Trimmed(a) <= Trimmed(b)
    ensures GroupSet(a) <= GroupSet(b)
  {
    forall g | g in GroupSet(a)
      ensures g in GroupSet(b)
    {
      var p :| p in a && GroupOf(p) == g && g != "";
      assert TrimSpace(p) in Trimmed(a);
      var q :| q in b && TrimSpace(q) == TrimSpace(p);
      GroupOfTrimmed(p);
      GroupOfTrimmed(q);
    }
  }

  /** What groupsFromPolicies promises of its result. */
  ghost predicate IsGroupList(groups: seq<string>, policyStr: string) {
    StrictlySorted(groups) && Elements(groups) == GroupSet(Split(policyStr, ','))
  }

  /** The result is canonical: it depends on the set of trimmed policies only, not on their order,
      repetition or spacing, and never holds an empty name. */
  lemma GroupsCanonical(a: string, b: string, ga: seq<string>, gb: seq<string>)
    requires IsGroupList(ga, a) && IsGroupList(gb, b)
    requires Trimmed(Split(a, ',')) == Trimmed(Split(b, ','))
    ensures ga == gb && "" !in ga
  {
    GroupsByTrimmed(Split(a, ','), Split(b, ','));
    GroupsByTrimmed(Split(b, ','), Split(a, ','));
    SortedDetermined(ga, gb);
    assert forall x :: x in ga ==> x in Elements(ga);
  }

  /** Concatenating two policy lists gives the sorted union of their groups. */
  lemma GroupsUnion(a: string, b: string, ga: seq<string>, gb: seq<string>, both: seq<string>)
    requires IsGroupList(ga, a) && IsGroupList(gb, b)
    ensures IsGroupList(both, a + [','] + b) <==> StrictlySorted(both) && Elements(both) == Elements(ga) + Elements(gb)
  {
    SplitConcat(a, b, ',');
  }
}
