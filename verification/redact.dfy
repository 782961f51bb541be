/** The exact-value secret scrub of the log handler (redact.go). */
module Redact {
  import opened GoStrings

  const MARKER := "[REDACTED:secret]"
  const MIN_SECRET_LEN := 6

  /** Go's strings.ReplaceAll for a non-empty pattern: leftmost, non-overlapping. */
  function ReplaceAll(s: string, pat: string, rep: string): string
    requires pat != ""
  {
    if |s| < |pat| then s
    else if s[..|pat|] == pat then rep + ReplaceAll(s[|pat|..], pat, rep)
    else [s[0]] + ReplaceAll(s[1..], pat, rep)
  }

  type Secret = s: string | s != "" witness "secret"

  function ScrubWith(s: string, secrets: seq<Secret>): string {
    if secrets == [] then s
    else ReplaceAll(ScrubWith(s, secrets[..|secrets| - 1]), secrets[|secrets| - 1], MARKER)
  }

  /** scrubHandler.scrub. */
  method Scrub(s: string, secrets: seq<Secret>) returns (r: string)
    ensures r == ScrubWith(s, secrets)
  {
    r := s;
    for i := 0 to |secrets|
      invariant r == ScrubWith(s, secrets[..i])
    {
      r := ReplaceAll(r, secrets[i], MARKER);
      assert secrets[..i + 1][..i] == secrets[..i];
    }
    assert secrets[..|secrets|] == secrets;
  }

  /** The end of k could be the start of a marker. */
  ghost predicate EndsInMarker(k: string) {
    exists j :: 0 < j <= |k| && j <= |MARKER| && k[|k| - j..] == MARKER[..j]
  }

  /** The start of k could be the end of a marker. */
  ghost predicate StartsInMarker(k: string) {
    exists j :: 0 < j <= |k| && j <= |MARKER| && k[..j] == MARKER[|MARKER| - j..]
  }

  /** An occurrence of k could share only part of itself with a marker. */
  ghost predicate Straddles(k: string) {
    EndsInMarker(k) || StartsInMarker(k) || Contains(k, MARKER)
  }

  /** Only a secret with a bracket straddles: the marker starts and ends with one. */
  lemma StraddlesByBracket(k: string)
    ensures Straddles(k) ==> '[' in k || ']' in k
  {
    if j :| 0 < j <= |k| && j <= |MARKER| && k[|k| - j..] == MARKER[..j] {
      assert k[|k| - j] == k[|k| - j..][0] == '[';
    }
    if j :| 0 < j <= |k| && j <= |MARKER| && k[..j] == MARKER[|MARKER| - j..] {
      assert k[j - 1] == k[..j][j - 1] == ']';
    }
    if i :| OccursAt(k, MARKER, i) {
      assert k[i] == k[i..i + |MARKER|][0] == '[';
    }
  }

  // ---- Occurrences ----

  lemma OccursInTail(s: string, k: string, i: int, n: nat)
    requires n <= i && OccursAt(s, k, i)
    ensures Contains(s[n..], k)
  {
    assert s[n..][i - n..i - n + |k|] == s[i..i + |k|];
    assert OccursAt(s[n..], k, i - n);
  }

  lemma TailOccurs(s: string, k: string, n: nat)
    requires n <= |s| && Contains(s[n..], k)
    ensures Contains(s, k)
  {
    var i :| OccursAt(s[n..], k, i);
    assert s[n..][i..i + |k|] == s[n + i..n + i + |k|];
    assert OccursAt(s, k, n + i);
  }

  lemma PrefixOccurs(s: string, k: string)
    requires k <= s
    ensures Contains(s, k)
  {
    assert s[0..0 + |k|] == s[..|k|] == k;
    assert OccursAt(s, k, 0);
  }

  /** pat does not occur in s before position n. */
  ghost predicate NoneBefore(s: string, pat: string, n: int) {
    forall p :: 0 <= p < n ==> !OccursAt(s, pat, p)
  }

  /** Replacing pat between a proper front u and a proper end r of k puts k together: k occurs in
      u + MARKER + r, and the scan meets pat right after u.  There are finitely many u and r. */
  ghost predicate Completes(pat: string, k: string, u: string, r: string) {
    && u < k
    && |r| < |k| && k[|k| - |r|..] == r
    && NoneBefore(u + pat, pat, |u|)
    && Contains(u + MARKER + r, k)
  }

  lemma OccursInDrop(s: string, pat: string, n: nat, p: int)
    requires n <= |s| && 0 <= p
    ensures OccursAt(s[n..], pat, p) <==> OccursAt(s, pat, n + p)
  {
    if p + |pat| <= |s| - n {
      assert s[n..][p..p + |pat|] == s[n + p..n + p + |pat|];
    }
  }

  lemma OccursInFront(s: string, pat: string)
    ensures OccursAt(s, pat, 0) <==> pat <= s
  {
    if |pat| <= |s| {
      assert s[0..0 + |pat|] == s[..|pat|];
    }
  }

  lemma NoneBeforeDrop(s: string, pat: string, n: nat, m: int)
    requires n <= |s| && NoneBefore(s, pat, n + m)
    ensures NoneBefore(s[n..], pat, m)
  {
    forall p | 0 <= p < m
      ensures !OccursAt(s[n..], pat, p)
    {
      OccursInDrop(s, pat, n, p);
    }
  }

  lemma NoneBeforeSnoc(s: string, pat: string, n: nat)
    requires s != "" && !(pat <= s) && NoneBefore(s[1..], pat, n)
    ensures NoneBefore(s, pat, n + 1)
  {
    OccursInFront(s, pat);
    forall p | 1 <= p < n + 1
      ensures !OccursAt(s, pat, p)
    {
      OccursInDrop(s, pat, 1, p - 1);
    }
  }

  lemma NoneBeforePrefix(s: string, t: string, pat: string, n: int)
    requires t <= s && NoneBefore(s, pat, n)
    ensures NoneBefore(t, pat, n)
  {
    forall p | 0 <= p < n
      ensures !OccursAt(t, pat, p)
    {
      if OccursAt(t, pat, p) {
        assert s[p..p + |pat|] == t[p..p + |pat|];
        assert OccursAt(s, pat, p);
      }
    }
  }

  /** The scan of s passes over f[..n], replaces pat there, and what follows in f could be a marker. */
  ghost predicate MeetsMarker(s: string, pat: string, f: string, n: int) {
    0 <= n < |f| && f[..n] + pat <= s && NoneBefore(s, pat, n) && (f[n..] <= MARKER || MARKER <= f[n..])
  }

  lemma MeetsMarkerSnoc(s: string, pat: string, f: string, m: int)
    requires s != "" && f != "" && f[0] == s[0] && !(pat <= s) && MeetsMarker(s[1..], pat, f[1..], m)
    ensures MeetsMarker(s, pat, f, m + 1)
  {
    assert f[..m + 1] == [f[0]] + f[1..][..m] && f[m + 1..] == f[1..][m..];
    assert s == [s[0]] + s[1..] && f[..m + 1] + pat == [f[0]] + (f[1..][..m] + pat);
    NoneBeforeSnoc(s, pat, m);
  }

  /** A front of the output is a front of the input, or meets a marker. */
  lemma {:induction false} FrontOrigin(s: string, pat: string, f: string) returns (n: int)
    requires pat != "" && f <= ReplaceAll(s, pat, MARKER)
    ensures f <= s || MeetsMarker(s, pat, f, n)
    decreases |s|
  {
    n := 0;
    if f != "" && |s| >= |pat| {
      var out := ReplaceAll(s, pat, MARKER);
      if s[..|pat|] == pat {
        assert f[..0] + pat <= s && f[0..] == f;
      } else {
        assert out[1..] == ReplaceAll(s[1..], pat, MARKER) && f[1..] <= out[1..];
        var m := FrontOrigin(s[1..], pat, f[1..]);
        if f[1..] <= s[1..] {
          assert f == [f[0]] + f[1..] && s == [s[0]] + s[1..];
        } else {
          n := m + 1;
          assert !(pat <= s);
          MeetsMarkerSnoc(s, pat, f, m);
        }
      }
    }
  }

  lemma Overlaid(m: string, k: string, n: nat, r: string)
    requires n <= |k|
    requires (k[n..] <= m && r == "") || (m <= k[n..] && r == k[n + |m|..])
    ensures k <= k[..n] + m + r
  {
    var u, v := k[..n], k[n..];
    assert k == u + v;
    if v <= m && r == "" {
      assert u + v <= u + m;
    } else {
      assert v == m + r;
      assert u + v == u + m + r;
    }
  }

  /** A front of k followed by the start of a marker completes it. */
  lemma FrontCompletes(pat: string, k: string, n: nat)
    requires n < |k| && NoneBefore(k[..n] + pat, pat, n) && (k[n..] <= MARKER || MARKER <= k[n..])
    ensures exists u, r :: Completes(pat, k, u, r)
  {
    var r := if MARKER <= k[n..] then k[n + |MARKER|..] else "";
    Overlaid(MARKER, k, n, r);
    PrefixOccurs(k[..n] + MARKER + r, k);
    assert Completes(pat, k, k[..n], r);
  }

  lemma CompletedBy(m: string, k: string, j: nat)
    requires j <= |k| && j <= |m| && k[..j] == m[|m| - j..]
    ensures Contains(m + k[j..], k)
  {
    var out, i := m + k[j..], |m| - j;
    assert out[i..i + |k|] == m[i..] + k[j..];
    assert k == k[..j] + k[j..];
    assert OccursAt(out, k, i);
  }

  lemma OccursSpan(m: string, rest: string, k: string, i: nat)
    requires i < |m| && OccursAt(m + rest, k, i)
    ensures if i + |k| <= |m| then OccursAt(m, k, i) else k[..|m| - i] == m[|m| - (|m| - i)..]
  {
    var s := m + rest;
    if i + |k| <= |m| {
      assert s[i..i + |k|] == m[i..i + |k|];
    } else {
      assert forall j :: 0 <= j < |m| - i ==> k[j] == s[i..i + |k|][j] == m[i + j];
    }
  }

  lemma StartsWithin(rest: string, k: string, i: int)
    requires k != "" && 0 <= i && OccursAt(MARKER + rest, k, i) && |rest| < |k|
    ensures Contains(MARKER, k) || StartsInMarker(k)
  {
    OccursSpan(MARKER, rest, k, i);
  }

  lemma PartCompletes(pat: string, k: string)
    requires k != "" && Contains(MARKER, k)
    ensures Completes(pat, k, "", "")
  {
    assert "" + MARKER + "" == MARKER;
  }

  lemma StartCompletes(pat: string, k: string, j: nat)
    requires 0 < j <= |k| && j <= |MARKER| && k[..j] == MARKER[|MARKER| - j..]
    ensures Completes(pat, k, "", k[j..])
  {
    CompletedBy(MARKER, k, j);
    assert "" + MARKER + k[j..] == MARKER + k[j..];
  }

  /** What starts within a marker is completed by it alone or with its own end. */
  lemma MarkerEdge(pat: string, rest: string, k: string, i: int)
    requires k != "" && 0 <= i < |MARKER| && OccursAt(MARKER + rest, k, i)
    ensures exists r :: Completes(pat, k, "", r)
  {
    OccursSpan(MARKER, rest, k, i);
    if i + |k| <= |MARKER| {
      PartCompletes(pat, k);
    } else {
      StartCompletes(pat, k, |MARKER| - i);
    }
  }

  ghost predicate NeverCompletes(pat: string, k: string) {
    forall u, r :: !Completes(pat, k, u, r)
  }

  /** Replacing one secret neither leaves it in nor brings another one back, unless it completes it. */
  lemma {:induction false} ReplaceHides(s: string, pat: string, k: string)
    requires pat != "" && k != "" && NeverCompletes(pat, k)
    requires k == pat || !Contains(s, k)
    ensures !Contains(ReplaceAll(s, pat, MARKER), k)
    decreases |s|
  {
    var out := ReplaceAll(s, pat, MARKER);
    if i :| OccursAt(out, k, i) {
      if |s| < |pat| {
        assert Contains(s, k);
        assert false;
      } else if s[..|pat|] == pat {
        var rest := ReplaceAll(s[|pat|..], pat, MARKER);
        if i < |MARKER| {
          MarkerEdge(pat, rest, k, i);
        } else {
          OccursInTail(out, k, i, |MARKER|);
          assert out[|MARKER|..] == rest;
          if k != pat && Contains(s[|pat|..], k) {
            TailOccurs(s, k, |pat|);
          }
          ReplaceHides(s[|pat|..], pat, k);
        }
      } else if i == 0 {
        NotInFront(s, pat, k);
      } else {
        OccursInTail(out, k, i, 1);
        assert out[1..] == ReplaceAll(s[1..], pat, MARKER);
        if k != pat && Contains(s[1..], k) {
          TailOccurs(s, k, 1);
        }
        ReplaceHides(s[1..], pat, k);
      }
    }
  }

  lemma NotInFront(s: string, pat: string, k: string)
    requires pat != "" && k != "" && NeverCompletes(pat, k) && !(pat <= s)
    requires k == pat || !Contains(s, k)
    ensures !OccursAt(ReplaceAll(s, pat, MARKER), k, 0)
  {
    var out := ReplaceAll(s, pat, MARKER);
    if OccursAt(out, k, 0) {
      assert k == out[0..0 + |k|] == out[..|k|];
      var n := FrontOrigin(s, pat, k);
      if k <= s {
        PrefixOccurs(s, k);
      } else {
        NoneBeforePrefix(s, k[..n] + pat, pat, n);
        FrontCompletes(pat, k, n);
      }
    }
  }

  /** No secret in the list completes itself or one before it. */
  ghost predicate Sound(secrets: seq<Secret>) {
    forall i, m :: 0 <= i <= m < |secrets| ==> NeverCompletes(secrets[m], secrets[i])
  }

  /** The secrets that were processed stay out, whatever is replaced afterwards. */
  lemma {:induction false} ScrubHides(s: string, secrets: seq<Secret>, i: nat)
    requires i < |secrets| && Sound(secrets)
    ensures !Contains(ScrubWith(s, secrets), secrets[i])
  {
    var n := |secrets| - 1;
    if i < n {
      assert Sound(secrets[..n]);
      ScrubHides(s, secrets[..n], i);
    }
    assert NeverCompletes(secrets[n], secrets[i]);
    ReplaceHides(ScrubWith(s, secrets[..n]), secrets[n], secrets[i]);
  }

  lemma {:induction false} ReplaceNothing(s: string, pat: string)
    requires pat != "" && !Contains(s, pat)
    ensures ReplaceAll(s, pat, MARKER) == s
    decreases |s|
  {
    if |s| >= |pat| {
      assert s[..|pat|] == s[0..0 + |pat|];
      assert !OccursAt(s, pat, 0);
      if Contains(s[1..], pat) {
        TailOccurs(s, pat, 1);
      }
      ReplaceNothing(s[1..], pat);
      assert s == [s[0]] + s[1..];
    }
  }

  /** Text without secrets passes unchanged. */
  lemma {:induction false} ScrubKeepsClean(s: string, secrets: seq<Secret>)
    requires Clean(s, secrets)
    ensures ScrubWith(s, secrets) == s
  {
    if secrets != [] {
      assert forall k: Secret :: k in secrets[..|secrets| - 1] ==> k in secrets;
      ScrubKeepsClean(s, secrets[..|secrets| - 1]);
      ReplaceNothing(s, secrets[|secrets| - 1]);
    }
  }

  // ---- When the guarantee fails ----

  lemma {:induction false} ReplaceMarks(s: string, pat: string)
    requires pat != "" && Contains(s, pat)
    ensures Contains(ReplaceAll(s, pat, MARKER), MARKER)
    decreases |s|
  {
    var i :| OccursAt(s, pat, i);
    var out := ReplaceAll(s, pat, MARKER);
    if s[..|pat|] == pat {
      assert out[0..0 + |MARKER|] == MARKER;
      assert OccursAt(out, MARKER, 0);
    } else {
      assert i > 0;
      OccursInTail(s, pat, i, 1);
      ReplaceMarks(s[1..], pat);
      assert out[1..] == ReplaceAll(s[1..], pat, MARKER);
      TailOccurs(out, MARKER, 1);
    }
  }

  lemma ContainsTrans(s: string, m: string, k: string)
    requires Contains(s, m) && Contains(m, k)
    ensures Contains(s, k)
  {
    var i :| OccursAt(s, m, i);
    var j :| OccursAt(m, k, j);
    forall t | 0 <= t < |k|
      ensures s[i + j + t] == k[t]
    {
      assert k[t] == m[j..j + |k|][t] == m[j + t] == s[i..i + |m|][j + t];
    }
    assert s[i + j..i + j + |k|] == k;
    assert OccursAt(s, k, i + j);
  }

  /** A secret that is part of the marker text is printed by the very act of scrubbing it. */
  lemma {:induction false} MarkerSurvives(s: string, secrets: seq<Secret>, k: Secret)
    requires Contains(MARKER, k) && Contains(s, k)
    ensures Contains(ScrubWith(s, secrets), k)
  {
    if secrets != [] {
      var n := |secrets| - 1;
      MarkerSurvives(s, secrets[..n], k);
      var before := ScrubWith(s, secrets[..n]);
      if Contains(before, secrets[n]) {
        ReplaceMarks(before, secrets[n]);
        ContainsTrans(ReplaceAll(before, secrets[n], MARKER), MARKER, k);
      } else {
        ReplaceNothing(before, secrets[n]);
      }
    }
  }

  ghost predicate Clean(text: string, secrets: seq<Secret>) {
    forall k: Secret :: k in secrets ==> !Contains(text, k)
  }

  /** Where a secret completes another, nothing else in the list gets in the way: the text it does it
      in holds no earlier secret, and what comes out no later one. */
  ghost predicate Detached(secrets: seq<Secret>) {
    forall i, m, u, r :: 0 <= i <= m < |secrets| && Completes(secrets[m], secrets[i], u, r) ==>
      Clean(u + secrets[m] + r, secrets[..m]) && !Contains(r, secrets[m]) && Clean(u + MARKER + r, secrets[m + 1..])
  }

  lemma NotThereYet(u: string, pat: string, r: string)
    requires u != "" && NoneBefore(u + pat, pat, |u|)
    ensures !(pat <= u + pat + r) && NoneBefore(u[1..] + pat, pat, |u| - 1)
  {
    OccursInFront(u + pat, pat);
    assert (u + pat + r)[..|pat|] == (u + pat)[..|pat|];
    NoneBeforeDrop(u + pat, pat, 1, |u| - 1);
    assert (u + pat)[1..] == u[1..] + pat;
  }

  /** The scan passes over u, replaces the match after it, and goes on behind the match. */
  lemma {:induction false} ScanTo(u: string, pat: string, r: string, rep: string)
    requires pat != "" && NoneBefore(u + pat, pat, |u|)
    ensures ReplaceAll(u + pat + r, pat, rep) == u + rep + ReplaceAll(r, pat, rep)
    decreases |u|
  {
    var s, rest := u + pat + r, ReplaceAll(r, pat, rep);
    if u == "" {
      assert s == pat + r && s[|pat|..] == r;
    } else {
      NotThereYet(u, pat, r);
      ScanTo(u[1..], pat, r, rep);
      assert s[1..] == u[1..] + pat + r;
      assert [u[0]] + (u[1..] + rep + rest) == u + rep + rest;
    }
  }

  lemma {:induction false} ScrubFrom(s: string, secrets: seq<Secret>, m: nat)
    requires m <= |secrets| && Clean(ScrubWith(s, secrets[..m]), secrets[m..])
    ensures ScrubWith(s, secrets) == ScrubWith(s, secrets[..m])
  {
    var n := |secrets| - 1;
    if m == |secrets| {
      assert secrets[..m] == secrets;
    } else {
      assert secrets[..n][..m] == secrets[..m];
      assert forall k: Secret :: k in secrets[..n][m..] ==> k in secrets[m..];
      ScrubFrom(s, secrets[..n], m);
      assert secrets[m..][n - m] == secrets[n];
      ReplaceNothing(ScrubWith(s, secrets[..m]), secrets[n]);
    }
  }

  lemma CompletedSurvives(secrets: seq<Secret>, i: nat, m: nat, u: string, r: string)
    requires i <= m < |secrets| && Detached(secrets) && Completes(secrets[m], secrets[i], u, r)
    ensures Contains(ScrubWith(u + secrets[m] + r, secrets), secrets[i])
  {
    var s := u + secrets[m] + r;
    ScrubKeepsClean(s, secrets[..m]);
    ReplaceNothing(r, secrets[m]);
    ScanTo(u, secrets[m], r, MARKER);
    assert secrets[..m + 1][..m] == secrets[..m];
    assert ScrubWith(s, secrets[..m + 1]) == u + MARKER + r;
    ScrubFrom(s, secrets, m + 1);
  }

  /** A secret list without completions lets no secret reach the log, whatever the text. */
  lemma NoSecretSurvives(s: string, secrets: seq<Secret>)
    requires Sound(secrets)
    ensures Clean(ScrubWith(s, secrets), secrets)
  {
    forall k: Secret | k in secrets
      ensures !Contains(ScrubWith(s, secrets), k)
    {
      var i :| 0 <= i < |secrets| && secrets[i] == k;
      ScrubHides(s, secrets, i);
    }
  }

  /** Exactly when does no secret ever reach the log?  Precisely when no secret completes itself or an
      earlier one, as long as no third secret interferes with the completion. */
  lemma NoSecretSurvivesExact(secrets: seq<Secret>)
    requires Clean(MARKER, secrets) ==> Detached(secrets)
    ensures (forall s :: Clean(ScrubWith(s, secrets), secrets)) <==> Sound(secrets)
  {
    if Sound(secrets) {
      forall s
        ensures Clean(ScrubWith(s, secrets), secrets)
      {
        NoSecretSurvives(s, secrets);
      }
    } else {
      var s := LeakingText(secrets);
    }
  }

  lemma UnsoundPair(secrets: seq<Secret>) returns (i: nat, m: nat, u: string, r: string)
    requires !Sound(secrets)
    ensures i <= m < |secrets| && Completes(secrets[m], secrets[i], u, r)
  {
    i, m :| 0 <= i <= m < |secrets| && !NeverCompletes(secrets[m], secrets[i]);
    u, r :| Completes(secrets[m], secrets[i], u, r);
  }

  lemma MarkerPartLeaks(secrets: seq<Secret>) returns (s: string)
    requires !Clean(MARKER, secrets)
    ensures !Clean(ScrubWith(s, secrets), secrets)
  {
    var k: Secret :| k in secrets && Contains(MARKER, k);
    s := k;
    PrefixOccurs(k, k);
    MarkerSurvives(k, secrets, k);
  }

  lemma LeakingText(secrets: seq<Secret>) returns (s: string)
    requires !Sound(secrets) && (Clean(MARKER, secrets) ==> Detached(secrets))
    ensures !Clean(ScrubWith(s, secrets), secrets)
  {
    if !Clean(MARKER, secrets) {
      s := MarkerPartLeaks(secrets);
    } else {
      var i, m, u, r := UnsoundPair(secrets);
      s := u + secrets[m] + r;
      CompletedSurvives(secrets, i, m, u, r);
      assert secrets[i] in secrets;
    }
  }

  lemma ScrubOne(s: string, k: Secret)
    ensures ScrubWith(s, [k]) == ReplaceAll(s, k, MARKER)
  {
    var secrets: seq<Secret> := [k];
    assert secrets[..0] == [];
  }

  /** For one secret, whatever it is, with nothing assumed: it never survives its own replacement
      precisely when it does not complete itself. */
  lemma LoneSecretExact(k: Secret)
    ensures (forall s :: !Contains(ReplaceAll(s, k, MARKER), k)) <==> NeverCompletes(k, k)
  {
    if NeverCompletes(k, k) {
      forall s
        ensures !Contains(ReplaceAll(s, k, MARKER), k)
      {
        ReplaceHides(s, k, k);
      }
    } else {
      var u, r :| Completes(k, k, u, r);
      assert ReplaceAll(r, k, MARKER) == r;
      ScanTo(u, k, r, MARKER);
      assert Contains(ReplaceAll(u + k + r, k, MARKER), k);
    }
  }

  /** An occurrence of k that starts i characters into u has an end that meets the marker. */
  lemma FrontShape(pat: string, k: string, u: string, r: string, i: nat)
    requires u < k && NoneBefore(u + pat, pat, |u|) && i < |u| && OccursAt(u + MARKER + r, k, i)
    ensures EndMeetsMarker(pat, k, |u| - i)
  {
    var n := |u| - i;
    assert u + MARKER + r == u + (MARKER + r);
    OccursAcross(u, MARKER + r, k, i);
    PrefixComparable(k[n..], MARKER, r);
    assert (u + pat)[i..] == k[..n] + pat;
    NoneBeforeDrop(u + pat, pat, i, n);
  }

  lemma OccursAcross(u: string, w: string, k: string, i: nat)
    requires i < |u| < |k| && OccursAt(u + w, k, i)
    ensures k[..|u| - i] == u[i..] && k[|u| - i..] <= w
  {
    var out, n := u + w, |u| - i;
    assert forall j :: 0 <= j < |k| ==> k[j] == out[i..i + |k|][j] == out[i + j];
    assert forall j :: 0 <= j < n ==> k[..n][j] == u[i..][j];
    assert forall j :: 0 <= j < |k| - n ==> k[n..][j] == w[j];
  }

  lemma PrefixComparable(a: string, m: string, r: string)
    requires a <= m + r
    ensures a <= m || m <= a
  {
    if |a| <= |m| {
      assert a == (m + r)[..|a|] == m[..|a|];
    } else {
      assert a[..|m|] == (m + r)[..|a|][..|m|] == m;
    }
  }

  lemma CompletionShape(pat: string, k: string, u: string, r: string)
    requires Completes(pat, k, u, r)
    ensures Contains(MARKER, k) || StartsInMarker(k) || exists n :: EndMeetsMarker(pat, k, n)
  {
    var i :| OccursAt(u + MARKER + r, k, i);
    if i < |u| {
      FrontShape(pat, k, u, r, i);
    } else {
      OccursInDrop(u + MARKER + r, k, |u|, i - |u|);
      assert (u + MARKER + r)[|u|..] == MARKER + r;
      StartsWithin(r, k, i - |u|);
    }
  }

  /** From position n on, k could be the start of a marker or of more, and a marker put there by
      replacing pat would stay there. */
  ghost predicate EndMeetsMarker(pat: string, k: string, n: int) {
    0 <= n < |k| && (k[n..] <= MARKER || MARKER <= k[n..]) && NoneBefore(k[..n] + pat, pat, n)
  }

  /** Which secrets are ever completed, said of the secret alone: parts of the marker, secrets that
      start as the marker ends, and secrets with an end that meets one. */
  lemma CompletesShape(pat: string, k: string)
    requires k != ""
    ensures NeverCompletes(pat, k) <==>
            !Contains(MARKER, k) && !StartsInMarker(k) && forall n :: !EndMeetsMarker(pat, k, n)
  {
    if NeverCompletes(pat, k) {
      if Contains(MARKER, k) {
        PartCompletes(pat, k);
      }
      if j :| 0 < j <= |k| && j <= |MARKER| && k[..j] == MARKER[|MARKER| - j..] {
        StartCompletes(pat, k, j);
      }
      forall n
        ensures !EndMeetsMarker(pat, k, n)
      {
        if EndMeetsMarker(pat, k, n) {
          FrontCompletes(pat, k, n);
        }
      }
    } else {
      var u, r :| Completes(pat, k, u, r);
      CompletionShape(pat, k, u, r);
    }
  }

  /** A secret without brackets, or whose brackets never straddle a marker, is completed by nothing
      unless it is part of the marker. */
  lemma ApartNeverCompletes(pat: string, k: string)
    requires k != "" && !Straddles(k) && !Contains(MARKER, k)
    ensures NeverCompletes(pat, k)
  {
    CompletesShape(pat, k);
    forall n | EndMeetsMarker(pat, k, n)
      ensures false
    {
      EndMeetsStraddles(pat, k, n);
    }
  }

  lemma EndMeetsStraddles(pat: string, k: string, n: int)
    requires EndMeetsMarker(pat, k, n)
    ensures Straddles(k)
  {
    if k[n..] <= MARKER {
      assert k[|k| - (|k| - n)..] == MARKER[..|k| - n];
    } else {
      assert k[n..n + |MARKER|] == k[n..][..|MARKER|];
      assert OccursAt(k, MARKER, n);
    }
  }

  /** A lone secret that starts as the marker ends always fails: the marker itself completes it. */
  lemma StartsInMarkerSurvives(k: Secret)
    requires StartsInMarker(k)
    ensures exists s :: Contains(ScrubWith(s, [k]), k)
  {
    CompletesShape(k, k);
    LoneSecretExact(k);
    var s :| Contains(ReplaceAll(s, k, MARKER), k);
    ScrubOne(s, k);
    assert Contains(ScrubWith(s, [k]), k);
  }

  lemma SkipChar(s: string, pat: string, i: nat)
    requires i < |pat| <= |s| && s[i] != pat[i]
    ensures ReplaceAll(s, pat, MARKER) == [s[0]] + ReplaceAll(s[1..], pat, MARKER)
  {
    assert s[..|pat|][i] == s[i];
  }

  lemma WholeReplaced(pat: string)
    requires pat != ""
    ensures ReplaceAll(pat, pat, MARKER) == MARKER
  {
    assert pat[..|pat|] == pat && pat[|pat|..] == "";
    assert MARKER + "" == MARKER;
  }

  /** And one that ends as the marker starts can: the marker completes "key[RED". */
  lemma BracketCounterexample()
    ensures Contains(ScrubWith("keykey[RED", ["key[RED"]), "key[RED")
  {
    var s, k := "keykey[RED", "key[RED";
    SkipChar(s, k, 3);
    SkipChar("eykey[RED", k, 0);
    SkipChar("ykey[RED", k, 0);
    assert s[1..] == "eykey[RED" && "eykey[RED"[1..] == "ykey[RED" && "ykey[RED"[1..] == k;
    WholeReplaced(k);
    var out := ReplaceAll(s, k, MARKER);
    assert out == "key" + MARKER;
    PrefixOccurs(out, k);
    ScrubOne(s, k);
  }

  lemma OccursChar(s: string, k: string, i: int, j: nat)
    requires OccursAt(s, k, i) && j < |k|
    ensures s[i + j] == k[j]
  {
    assert s[i..i + |k|][j] == s[i + j];
  }

  lemma SecondChar(k: string, n: nat)
    requires n + 1 < |k| && (k[n..] <= MARKER || MARKER <= k[n..])
    ensures k[n + 1] == MARKER[1]
  {
    assert k[n..][1] == k[n + 1];
  }

  /** Two or more opening brackets never complete themselves: the scan takes them too early. */
  lemma BracketRunAlone(k: string)
    requires |k| >= 2 && forall i :: 0 <= i < |k| ==> k[i] == '['
    ensures NeverCompletes(k, k)
  {
    assert forall i :: 0 < i < |MARKER| ==> MARKER[i] != '[';
    CompletesShape(k, k);
    forall i | OccursAt(MARKER, k, i)
      ensures false
    {
      OccursChar(MARKER, k, i, 1);
    }
    assert forall j :: 0 < j <= |k| && j <= |MARKER| ==> k[..j][j - 1] != MARKER[|MARKER| - j..][j - 1];
    forall n | EndMeetsMarker(k, k, n)
      ensures false
    {
      if n == |k| - 1 {
        assert (k[..n] + k)[0..|k|] == k;
        assert OccursAt(k[..n] + k, k, 0);
      } else {
        SecondChar(k, n);
      }
    }
  }

  lemma TokenAlone(k: string)
    requires k == "token1"
    ensures NeverCompletes(k, k)
  {
    StraddlesByBracket(k);
    assert '1' !in MARKER && k[5] == '1';
    forall i | OccursAt(MARKER, k, i)
      ensures false
    {
      OccursChar(MARKER, k, i, 5);
    }
    ApartNeverCompletes(k, k);
  }

  /** Secrets that are safe alone need not be safe together: replacing "token1" completes the run of
      brackets that was replaced before it. */
  lemma SafeAloneNotTogether(k: Secret, pat: Secret)
    requires k == "[[[[[[[" && pat == "token1"
    ensures NeverCompletes(k, k) && NeverCompletes(pat, pat)
    ensures Contains(ScrubWith(k[..6] + pat, [k, pat]), k)
  {
    BracketRunAlone(k);
    TokenAlone(pat);
    var s, secrets: seq<Secret> := k[..6] + pat, [k, pat];
    forall i | OccursAt(s, k, i)
      ensures false
    {
      OccursChar(s, k, i, 6);
    }
    ScrubOne(s, k);
    ReplaceNothing(s, k);
    forall p | 0 <= p < 6 && OccursAt(s, pat, p)
      ensures false
    {
      OccursChar(s, pat, p, 0);
    }
    ScanTo(k[..6], pat, "", MARKER);
    assert secrets[..1] == [k] && s + "" == s;
    var out := k[..6] + MARKER + "";
    assert ScrubWith(s, secrets) == out;
    assert k <= out;
    PrefixOccurs(out, k);
  }

  // ---- The secret list ----

  /** The secrets in order of first appearance: trimmed, long enough, once each. */
  function Usable(secrets: seq<string>): (r: seq<Secret>) {
    if secrets == [] then []
    else
      var before := Usable(secrets[..|secrets| - 1]);
      var s := TrimSpace(secrets[|secrets| - 1]);
      if |s| >= MIN_SECRET_LEN && s !in before then before + [s] else before
  }

  /** Where a secret belongs in a longest-first list: after every secret at least as long. */
  function InsertByLength(sorted: seq<Secret>, s: Secret): (r: seq<Secret>) {
    if sorted == [] || |sorted[|sorted| - 1]| >= |s| then sorted + [s]
    else InsertByLength(sorted[..|sorted| - 1], s) + [sorted[|sorted| - 1]]
  }

  /** Stable sort, longest first. */
  function ByLength(secrets: seq<Secret>): (r: seq<Secret>) {
    if secrets == [] then []
    else InsertByLength(ByLength(secrets[..|secrets| - 1]), secrets[|secrets| - 1])
  }

  ghost predicate LongestFirst(s: seq<Secret>) {
    forall i, j :: 0 <= i < j < |s| ==> |s[i]| >= |s[j]|
  }

  ghost predicate NoDuplicates(s: seq<Secret>) {
    forall i, j :: 0 <= i < j < |s| ==> s[i] != s[j]
  }

  lemma {:induction false} InsertKeeps(sorted: seq<Secret>, s: Secret)
    ensures multiset(InsertByLength(sorted, s)) == multiset(sorted) + multiset{s}
  {
    if sorted != [] && |sorted[|sorted| - 1]| < |s| {
      InsertKeeps(sorted[..|sorted| - 1], s);
      assert sorted == sorted[..|sorted| - 1] + [sorted[|sorted| - 1]];
    }
  }

  lemma {:induction false} InsertSorts(sorted: seq<Secret>, s: Secret)
    requires LongestFirst(sorted)
    ensures LongestFirst(InsertByLength(sorted, s))
  {
    if sorted != [] && |sorted[|sorted| - 1]| < |s| {
      var front, last := sorted[..|sorted| - 1], sorted[|sorted| - 1];
      InsertSorts(front, s);
      InsertKeeps(front, s);
      var r := InsertByLength(front, s);
      forall i | 0 <= i < |r|
        ensures |r[i]| >= |last|
      {
        assert r[i] in multiset(front) + multiset{s};
        assert r[i] in multiset(front) ==> r[i] in front;
      }
    }
  }

  lemma {:induction false} InsertStable(sorted: seq<Secret>, s: Secret, n: nat)
    requires LongestFirst(sorted)
    ensures OfLength(InsertByLength(sorted, s), n) == OfLength(sorted, n) + if |s| == n then [s] else []
  {
    var r := InsertByLength(sorted, s);
    if sorted == [] || |sorted[|sorted| - 1]| >= |s| {
      assert r[..|sorted|] == sorted;
    } else {
      var front, last := sorted[..|sorted| - 1], sorted[|sorted| - 1];
      InsertStable(front, s, n);
      var r' := InsertByLength(front, s);
      assert r[..|r'|] == r';
    }
  }

  /** The secrets of one length, in order: what a stable sort keeps. */
  function OfLength(s: seq<Secret>, n: nat): seq<Secret> {
    if s == [] then []
    else OfLength(s[..|s| - 1], n) + if |s[|s| - 1]| == n then [s[|s| - 1]] else []
  }

  /** The sort orders by length and keeps the secrets. */
  lemma {:induction false} ByLengthSorts(s: seq<Secret>)
    ensures LongestFirst(ByLength(s)) && multiset(ByLength(s)) == multiset(s)
  {
    if s != [] {
      var front, last := s[..|s| - 1], s[|s| - 1];
      ByLengthSorts(front);
      InsertKeeps(ByLength(front), last);
      InsertSorts(ByLength(front), last);
      assert s == front + [last];
    }
  }

  /** The sort keeps the order among secrets of one length. */
  lemma {:induction false} ByLengthStable(s: seq<Secret>, n: nat)
    ensures OfLength(ByLength(s), n) == OfLength(s, n)
  {
    if s != [] {
      var front, last := s[..|s| - 1], s[|s| - 1];
      ByLengthStable(front, n);
      ByLengthSorts(front);
      InsertStable(ByLength(front), last, n);
    }
  }

  /** Some entry of the list trims to `k`. */
  ghost predicate Listed(secrets: seq<string>, k: string) {
    exists i :: 0 <= i < |secrets| && TrimSpace(secrets[i]) == k
  }

  lemma ListedSnoc(front: seq<string>, last: string, k: string)
    ensures Listed(front + [last], k) <==> Listed(front, k) || TrimSpace(last) == k
  {
    var all := front + [last];
    if i :| 0 <= i < |front| && TrimSpace(front[i]) == k {
      assert TrimSpace(all[i]) == k;
    }
    assert TrimSpace(all[|front|]) == TrimSpace(last);
  }

  lemma {:induction false} UsableProperties(secrets: seq<string>)
    ensures NoDuplicates(Usable(secrets))
    ensures forall k: Secret :: k in Usable(secrets) <==> |k| >= MIN_SECRET_LEN && Listed(secrets, k)
  {
    if secrets != [] {
      var front, last := secrets[..|secrets| - 1], secrets[|secrets| - 1];
      UsableProperties(front);
      assert secrets == front + [last];
      forall k: Secret
        ensures k in Usable(secrets) <==> |k| >= MIN_SECRET_LEN && Listed(secrets, k)
      {
        ListedSnoc(front, last, k);
      }
    }
  }

  /** Where a secret is first listed. */
  function FirstListed(secrets: seq<string>, k: string): nat {
    if secrets == [] || TrimSpace(secrets[0]) == k then 0 else 1 + FirstListed(secrets[1..], k)
  }

  lemma {:induction false} FirstListedSnoc(front: seq<string>, last: string, k: string)
    ensures FirstListed(front, k) <= |front| && (FirstListed(front, k) < |front| <==> Listed(front, k))
    ensures FirstListed(front + [last], k) ==
            if Listed(front, k) then FirstListed(front, k) else if TrimSpace(last) == k then |front| else |front| + 1
  {
    if front == [] {
      assert front + [last] == [last];
    } else {
      assert (front + [last])[1..] == front[1..] + [last];
      FirstListedSnoc(front[1..], last, k);
      if TrimSpace(front[0]) == k {
        assert Listed(front, k);
      } else {
        assert Listed(front, k) <==> Listed(front[1..], k) by {
          if i :| 0 <= i < |front| && TrimSpace(front[i]) == k {
            assert TrimSpace(front[1..][i - 1]) == k;
          }
          if i :| 0 <= i < |front[1..]| && TrimSpace(front[1..][i]) == k {
            assert TrimSpace(front[i + 1]) == k;
          }
        }
      }
    }
  }

  /** The kept secrets stand in the order they were first listed in, before they are sorted. */
  lemma {:induction false} UsableInOrder(secrets: seq<string>, i: nat, j: nat)
    requires i < j < |Usable(secrets)|
    ensures FirstListed(secrets, Usable(secrets)[i]) < FirstListed(secrets, Usable(secrets)[j])
  {
    var front, last := secrets[..|secrets| - 1], secrets[|secrets| - 1];
    var u := Usable(secrets);
    assert secrets == front + [last];
    UsableProperties(front);
    FirstListedSnoc(front, last, u[i]);
    FirstListedSnoc(front, last, u[j]);
    if j < |Usable(front)| {
      UsableInOrder(front, i, j);
    } else {
      assert u[i] in Usable(front);
    }
  }

  /** wrapScrub's list. An empty list means the inner handler is returned unwrapped. */
  method WrapScrub(secrets: seq<string>) returns (keep: seq<Secret>)
    ensures keep == ByLength(Usable(secrets))
    ensures LongestFirst(keep) && NoDuplicates(keep)
    ensures forall k: Secret :: k in keep <==> |k| >= 6 && Listed(secrets, k)
  {
    var seen: set<string> := {};
    var found: seq<Secret> := [];
    for i := 0 to |secrets|
      invariant found == Usable(secrets[..i])
      invariant forall s: string :: s in seen <==> s in found
    {
      assert secrets[..i + 1][..i] == secrets[..i];
      var s := TrimSpace(secrets[i]);
      if |s| >= MIN_SECRET_LEN && s !in seen {
        seen := seen + {s};
        found := found + [s];
      }
    }
    assert secrets[..|secrets|] == secrets;
    keep := SortByLength(found);
    UsableProperties(secrets);
    ByLengthSorts(found);
    SameElements(keep, found);
  }

  /** From the raw list to the log: no entry of at least six bytes after trimming ever shows, whatever
      the text, when the kept list is sound. */
  lemma NothingListedSurvives(secrets: seq<string>, s: string, k: string)
    requires Sound(ByLength(Usable(secrets)))
    requires |k| >= 6 && Listed(secrets, k)
    ensures !Contains(ScrubWith(s, ByLength(Usable(secrets))), k)
  {
    var keep := ByLength(Usable(secrets));
    UsableProperties(secrets);
    ByLengthSorts(Usable(secrets));
    assert k in multiset(keep);
    NoSecretSurvives(s, keep);
  }

  /** What occurs in k and is as long is k. */
  lemma LongerNotWithin(k: string, p: string)
    ensures Contains(k, p) && |p| >= |k| ==> p == k
  {
    if i :| OccursAt(k, p, i) && |p| >= |k| {
      assert k[i..i + |p|] == k;
    }
  }

  /** What longest-first buys: a secret is replaced whole.  None of its bytes is left behind by the
      replacement of a shorter secret inside it. */
  lemma LongestFirstReplacesWhole(secrets: seq<Secret>, k: Secret)
    requires LongestFirst(secrets) && NoDuplicates(secrets) && k in secrets && Clean(MARKER, secrets)
    ensures ScrubWith(k, secrets) == "[REDACTED:secret]"
  {
    var i :| 0 <= i < |secrets| && secrets[i] == k;
    forall p: Secret | p in secrets[..i]
      ensures !Contains(k, p)
    {
      LongerNotWithin(k, p);
    }
    ScrubKeepsClean(k, secrets[..i]);
    WholeReplaced(k);
    assert secrets[..i + 1][..i] == secrets[..i];
    assert ScrubWith(k, secrets[..i + 1]) == MARKER;
    ScrubFrom(k, secrets, i + 1);
  }

  /** Shortest first, the rest of a longer secret is left behind. */
  lemma ShortestFirstLeaks(p: Secret, k: Secret)
    requires p < k && !Contains(k[|p|..], p) && !Contains(MARKER + k[|p|..], k)
    ensures ScrubWith(k, [p, k]) == MARKER + k[|p|..]
  {
    var secrets: seq<Secret> := [p, k];
    assert secrets[..1] == [p];
    ScrubOne(k, p);
    assert k[..|p|] == p;
    ReplaceNothing(k[|p|..], p);
    ReplaceNothing(MARKER + k[|p|..], k);
  }

  lemma SameElements(a: seq<Secret>, b: seq<Secret>)
    requires multiset(a) == multiset(b) && NoDuplicates(b)
    ensures NoDuplicates(a) && forall k :: k in a <==> k in b
  {
    forall k
      ensures k in a <==> k in b
    {
      assert k in a <==> k in multiset(a);
      assert k in b <==> k in multiset(b);
    }
    forall i, j | 0 <= i < j < |a|
      ensures a[i] != a[j]
    {
      if a[i] == a[j] {
        assert a == a[..j] + [a[j]] + a[j + 1..];
        assert a[i] in a[..j];
        assert multiset(a)[a[i]] >= 2;
        OnceEach(b, a[i]);
      }
    }
  }

  lemma {:induction false} OnceEach(b: seq<Secret>, k: Secret)
    requires NoDuplicates(b)
    ensures multiset(b)[k] <= 1
  {
    if b != [] {
      assert b == b[..|b| - 1] + [b[|b| - 1]];
      OnceEach(b[..|b| - 1], k);
      if b[|b| - 1] == k {
        assert k !in b[..|b| - 1];
      }
    }
  }

  /** Insertion sort, stable, longest first. */
  method SortByLength(found: seq<Secret>) returns (keep: seq<Secret>)
    ensures keep == ByLength(found)
  {
    keep := [];
    for i := 0 to |found|
      invariant keep == ByLength(found[..i])
    {
      assert found[..i + 1][..i] == found[..i];
      keep := InsertByLength(keep, found[i]);
    }
    assert found[..|found|] == found;
  }

  // ---- Attribute trees ----

  /** slog attributes: groups nest, strings are scrubbed, every other kind passes through. */
  datatype Value = Str(text: string) | Group(attrs: seq<Attr>) | Other(repr: string)
  datatype Attr = Attr(key: string, value: Value)

  function ScrubAttr(a: Attr, secrets: seq<Secret>): (r: Attr) {
    match a.value
    case Str(text) => Attr(a.key, Str(ScrubWith(text, secrets)))
    case Group(sub) => Attr(a.key, Group(seq(|sub|, i requires 0 <= i < |sub| => ScrubAttr(sub[i], secrets))))
    case Other(_) => a
  }

  /** Every string leaf of the attribute satisfies `ok`. */
  ghost predicate AllLeaves(a: Attr, ok: string -> bool) {
    match a.value
    case Str(text) => ok(text)
    case Group(sub) => forall i :: 0 <= i < |sub| ==> AllLeaves(sub[i], ok)
    case Other(_) => true
  }

  /** The string leaves of an attribute, from first to last. */
  function Leaves(a: Attr): seq<string> {
    match a.value
    case Str(text) => [text]
    case Group(sub) => LeavesOf(sub)
    case Other(_) => []
  }

  function LeavesOf(sub: seq<Attr>): seq<string> {
    if sub == [] then [] else Leaves(sub[0]) + LeavesOf(sub[1..])
  }

  function ScrubEach(texts: seq<string>, secrets: seq<Secret>): seq<string> {
    seq(|texts|, i requires 0 <= i < |texts| => ScrubWith(texts[i], secrets))
  }

  function ScrubAttrs(sub: seq<Attr>, secrets: seq<Secret>): seq<Attr> {
    seq(|sub|, i requires 0 <= i < |sub| => ScrubAttr(sub[i], secrets))
  }

  /** Keys, kinds and nesting are the same, and so is every value that is not text. */
  ghost predicate SameShape(a: Attr, b: Attr) {
    a.key == b.key &&
    match (a.value, b.value)
    case (Str(_), Str(_)) => true
    case (Group(x), Group(y)) => |x| == |y| && forall i :: 0 <= i < |x| ==> SameShape(x[i], y[i])
    case (Other(x), Other(y)) => x == y
    case _ => false
  }

  /** Scrubbing an attribute scrubs each of its string leaves and changes nothing else of it. */
  lemma {:induction false} ScrubAttrExact(a: Attr, secrets: seq<Secret>)
    ensures Leaves(ScrubAttr(a, secrets)) == ScrubEach(Leaves(a), secrets)
    ensures SameShape(a, ScrubAttr(a, secrets))
    decreases a, 0
  {
    if a.value.Group? {
      var sub := a.value.attrs;
      ScrubAttrsExact(sub, secrets);
      assert ScrubAttr(a, secrets).value.attrs == ScrubAttrs(sub, secrets);
      forall i | 0 <= i < |sub|
        ensures SameShape(sub[i], ScrubAttr(sub[i], secrets))
      {
        ScrubAttrExact(sub[i], secrets);
      }
    }
  }

  lemma {:induction false} ScrubAttrsExact(sub: seq<Attr>, secrets: seq<Secret>)
    ensures LeavesOf(ScrubAttrs(sub, secrets)) == ScrubEach(LeavesOf(sub), secrets)
    decreases sub
  {
    if sub != [] {
      ScrubAttrExact(sub[0], secrets);
      ScrubAttrsExact(sub[1..], secrets);
      assert ScrubAttrs(sub, secrets)[1..] == ScrubAttrs(sub[1..], secrets);
    }
  }

  /** No secret survives in any string leaf, at any depth of grouping. */
  lemma {:induction false} ScrubAttrHides(a: Attr, secrets: seq<Secret>, ok: string -> bool)
    requires Sound(secrets)
    requires forall text :: ok(text) <==> Clean(text, secrets)
    ensures AllLeaves(ScrubAttr(a, secrets), ok)
    decreases a
  {
    match a.value
    case Str(text) =>
      NoSecretSurvives(text, secrets);
    case Group(sub) =>
      forall i | 0 <= i < |sub|
        ensures AllLeaves(ScrubAttr(sub[i], secrets), ok)
      {
        ScrubAttrHides(sub[i], secrets, ok);
      }
    case Other(_) =>
  }

  /** And exactly then: some attribute leaks whenever the list is not sound. */
  lemma ScrubAttrHidesExact(secrets: seq<Secret>, ok: string -> bool)
    requires Clean(MARKER, secrets) ==> Detached(secrets)
    requires forall text :: ok(text) <==> Clean(text, secrets)
    ensures (forall a :: AllLeaves(ScrubAttr(a, secrets), ok)) <==> Sound(secrets)
  {
    if Sound(secrets) {
      forall a
        ensures AllLeaves(ScrubAttr(a, secrets), ok)
      {
        ScrubAttrHides(a, secrets, ok);
      }
    } else {
      var s := LeakingText(secrets);
      var a := Attr("", Str(s));
      assert ScrubAttr(a, secrets).value == Str(ScrubWith(s, secrets));
      assert !AllLeaves(ScrubAttr(a, secrets), ok);
    }
  }

  /** An attribute without secrets in its leaves is logged as it is. */
  lemma {:induction false} ScrubAttrKeepsClean(a: Attr, secrets: seq<Secret>, ok: string -> bool)
    requires forall text :: ok(text) <==> Clean(text, secrets)
    requires AllLeaves(a, ok)
    ensures ScrubAttr(a, secrets) == a
    decreases a
  {
    match a.value
    case Str(text) =>
      ScrubKeepsClean(text, secrets);
    case Group(sub) =>
      forall i | 0 <= i < |sub|
        ensures ScrubAttr(sub[i], secrets) == sub[i]
      {
        ScrubAttrKeepsClean(sub[i], secrets, ok);
      }
    case Other(_) =>
  }

  // ---- Sensitive keys ----

  const SENSITIVE_KEYS: set<string> := {
    "password", "pass", "passwd", "private_key", "pem", "secret", "secret_key", "access_token", "upload_token",
    "token", "bearer_token", "auth_key", "tailscale_auth_key", "ts_authkey", "credential", "credentials",
    "session_secret", "nomad_token", "claim_code", "opaque_token", "cookie", "authorization"
  }

  const MASKED := Str("[REDACTED]")

  /** scrubAttr of the inner handler; `redactValue` stands for its value patterns. */
  function RedactAttr(a: Attr, redactValue: string -> string): Attr {
    if ToLower(a.key) in SENSITIVE_KEYS then Attr(a.key, MASKED)
    else
      match a.value
      case Str(text) => Attr(a.key, Str(redactValue(text)))
      case Group(sub) => Attr(a.key, Group(seq(|sub|, i requires 0 <= i < |sub| => RedactAttr(sub[i], redactValue))))
      case Other(_) => a
  }

  /** Every attribute with a sensitive key, at any depth, shows nothing. */
  ghost predicate KeysMasked(a: Attr) {
    && (ToLower(a.key) in SENSITIVE_KEYS ==> a.value == MASKED)
    && (a.value.Group? ==> forall i :: 0 <= i < |a.value.attrs| ==> KeysMasked(a.value.attrs[i]))
  }

  /** The keys whose values are never shown, in any case, and what is shown instead. */
  lemma SensitiveKeysExact(a: Attr, redactValue: string -> string)
    ensures ToLower(a.key) in SENSITIVE_KEYS <==>
            ToLower(a.key) in ["password", "pass", "passwd", "private_key", "pem", "secret", "secret_key", "access_token",
                               "upload_token", "token", "bearer_token", "auth_key", "tailscale_auth_key", "ts_authkey",
                               "credential", "credentials", "session_secret", "nomad_token", "claim_code", "opaque_token",
                               "cookie", "authorization"]
    ensures ToLower(a.key) in SENSITIVE_KEYS ==> RedactAttr(a, redactValue) == Attr(a.key, Str("[REDACTED]"))
  {
  }

  /** Whatever the value patterns establish holds of every string leaf, and of what stands for a
      masked value, at any depth. */
  lemma {:induction false} RedactedLeaves(a: Attr, redactValue: string -> string, ok: string -> bool)
    requires ok("[REDACTED]") && forall text :: ok(redactValue(text))
    ensures AllLeaves(RedactAttr(a, redactValue), ok)
    decreases a
  {
    if a.value.Group? && ToLower(a.key) !in SENSITIVE_KEYS {
      var sub := a.value.attrs;
      forall i | 0 <= i < |sub|
        ensures AllLeaves(RedactAttr(sub[i], redactValue), ok)
      {
        RedactedLeaves(sub[i], redactValue, ok);
      }
    }
  }

  /** Where no key is sensitive and the value patterns find nothing, nothing is changed. */
  lemma {:induction false} RedactKeepsPlain(a: Attr, redactValue: string -> string)
    requires NoSensitiveKey(a) && forall text :: redactValue(text) == text
    ensures RedactAttr(a, redactValue) == a
    decreases a
  {
    if a.value.Group? {
      var sub := a.value.attrs;
      forall i | 0 <= i < |sub|
        ensures RedactAttr(sub[i], redactValue) == sub[i]
      {
        RedactKeepsPlain(sub[i], redactValue);
      }
    }
  }

  ghost predicate NoSensitiveKey(a: Attr) {
    ToLower(a.key) !in SENSITIVE_KEYS && (a.value.Group? ==> forall i :: 0 <= i < |a.value.attrs| ==> NoSensitiveKey(a.value.attrs[i]))
  }

  /** Whatever the value patterns do, and whatever the outer scrub did before, no attribute under a
      sensitive key keeps its value, groups included. */
  lemma {:induction false} SensitiveKeysMasked(a: Attr, secrets: seq<Secret>, redactValue: string -> string)
    ensures KeysMasked(RedactAttr(ScrubAttr(a, secrets), redactValue))
    decreases a
  {
    if a.value.Group? && ToLower(a.key) !in SENSITIVE_KEYS {
      var sub := a.value.attrs;
      forall i | 0 <= i < |sub|
        ensures KeysMasked(RedactAttr(ScrubAttr(sub[i], secrets), redactValue))
      {
        SensitiveKeysMasked(sub[i], secrets, redactValue);
      }
    }
  }
}
