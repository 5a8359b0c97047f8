/**
 Endpoint claims across deployments (rust/crates/sutra-channels/src/endpoint_claims.rs): the key that says who
 owns a deployment, and the search for endpoints that two owners claim.
 */
module EndpointClaims {
  import opened Basics
  import opened Text

  // ---- who owns a deployment -----------------------------------------------

  const UNLABELED: string := "unlabeled"

  function Utf8Width(c: char): (n: nat)
    ensures n >= 1
  {
    var code := c as int;
    if code < 0x80 then 1 else if code < 0x800 then 2 else if code < 0x10000 then 3 else 4
  }

  /** The length of a text in UTF-8 bytes. */
  function Utf8Length(s: string): nat {
    if s == "" then 0 else Utf8Length(s[..|s| - 1]) + Utf8Width(s[|s| - 1])
  }

  predicate IsUnlabeled(tenant: string, mod: string) {
    tenant == UNLABELED || mod == UNLABELED
  }

  function Labeled(tenant: string, mod: string): string {
    NatText(Utf8Length(tenant)) + ":" + tenant + "/" + mod
  }

  function DeploymentOwner(tenant: string, mod: string, deploymentId: string): string {
    if IsUnlabeled(tenant, mod) then "unlabeled:" + deploymentId else Labeled(tenant, mod)
  }

  /** A longer prefix takes more bytes. */
  lemma {:induction false} PrefixLengthRises(s: string, i: nat, j: nat)
    requires i < j <= |s|
    ensures Utf8Length(s[..i]) < Utf8Length(s[..j])
    decreases j
  {
    assert s[..j][..j - 1] == s[..j - 1];
    if i < j - 1 {
      PrefixLengthRises(s, i, j - 1);
    }
  }

  lemma SameLengthPrefix(s: string, i: nat, j: nat)
    requires i <= |s| && j <= |s| && Utf8Length(s[..i]) == Utf8Length(s[..j])
    ensures i == j
  {
    if i < j {
      PrefixLengthRises(s, i, j);
    } else if j < i {
      PrefixLengthRises(s, j, i);
    }
  }

  /** The digits before the first colon can be told from what follows it. */
  lemma DigitsSplit(a: string, b: string, x: string, y: string)
    requires AllDigits(a) && AllDigits(b) && a + ":" + x == b + ":" + y
    ensures a == b && x == y
  {
    var s := a + ":" + x;
    var t := b + ":" + y;
    assert forall k :: 0 <= k < |a| ==> s[k] == a[k] && s[k] != ':';
    assert forall k :: 0 <= k < |b| ==> t[k] == b[k] && t[k] != ':';
    assert s[|a|] == ':' && t[|b|] == ':';
    assert |a| == |b|;
    assert a == s[..|a|] && b == t[..|b|];
    assert x == s[|a| + 1..] && y == t[|b| + 1..];
  }

  lemma LabeledInjective(t: string, m: string, u: string, n: string)
    ensures Labeled(t, m) == Labeled(u, n) ==> t == u && m == n
  {
    if Labeled(t, m) == Labeled(u, n) {
      var x, y := t + "/" + m, u + "/" + n;
      var a, b := NatText(Utf8Length(t)), NatText(Utf8Length(u));
      assert Labeled(t, m) == a + ":" + x && Labeled(u, n) == b + ":" + y;
      DigitsSplit(a, b, x, y);
      NatTextInjective(Utf8Length(t), Utf8Length(u));
      assert x[..|t|] == t && y[..|u|] == u;
      SameLengthPrefix(x, |t|, |u|);
      assert m == x[|t| + 1..] && n == y[|u| + 1..];
    }
  }

  lemma LabeledIsNotUnlabeled(t: string, m: string, id: string)
    ensures Labeled(t, m) != "unlabeled:" + id
  {
    var digits := NatText(Utf8Length(t));
    assert Labeled(t, m)[0] == digits[0] && IsDigit(digits[0]);
    assert ("unlabeled:" + id)[0] == 'u';
  }

  lemma UnlabeledInjective(a: string, b: string)
    ensures "unlabeled:" + a == "unlabeled:" + b ==> a == b
  {
    var s, t := "unlabeled:" + a, "unlabeled:" + b;
    assert a == s[10..] && b == t[10..];
  }

  /** Two keys are equal exactly for one tenant and module, or for one unlabelled deployment. */
  lemma OwnerKeyIff(t: string, m: string, d: string, u: string, n: string, e: string)
    ensures DeploymentOwner(t, m, d) == DeploymentOwner(u, n, e) <==>
            if t == "unlabeled" || m == "unlabeled" then (u == "unlabeled" || n == "unlabeled") && d == e
            else u != "unlabeled" && n != "unlabeled" && t == u && m == n
  {
    LabeledInjective(t, m, u, n);
    LabeledIsNotUnlabeled(t, m, e);
    LabeledIsNotUnlabeled(u, n, d);
    UnlabeledInjective(d, e);
  }

  // ---- claims --------------------------------------------------------------

  datatype Sharing = Exclusive | Broadcast | ExclusiveToNewDeployments

  datatype Key = Key(transport: string, identity: string)

  datatype Claim = Claim(deploymentId: string, name: string, owner: string, channel: string, key: Key, sharing: Sharing)

  datatype Collision = Collision(key: Key, holder: Claim, claimant: Claim)

  predicate KeyBelow(a: Key, b: Key) {
    Below(a.transport, b.transport) || (a.transport == b.transport && Below(a.identity, b.identity))
  }

  function Group(endpoints: seq<Claim>, key: Key): seq<Claim> {
    if endpoints == [] then []
    else
      var c := endpoints[|endpoints| - 1];
      Group(endpoints[..|endpoints| - 1], key) + if c.key == key then [c] else []
  }

  lemma {:induction false} GroupMembers(endpoints: seq<Claim>, key: Key, c: Claim)
    ensures c in Group(endpoints, key) <==> c in endpoints && c.key == key
  {
    if endpoints != [] {
      var front, last := endpoints[..|endpoints| - 1], endpoints[|endpoints| - 1];
      assert endpoints == front + [last];
      GroupMembers(front, key, c);
    }
  }

  /** The claims on an endpoint are all of them, in the order given. */
  lemma {:induction false} GroupInOrder(endpoints: seq<Claim>, key: Key, on: Claim -> bool) returns (at: seq<nat>)
    requires forall c :: on(c) <==> c.key == key
    ensures Picks(endpoints, at, Group(endpoints, key)) && Elems(at) == Where(endpoints, on)
  {
    if endpoints == [] {
      at := [];
    } else {
      var front, c := endpoints[..|endpoints| - 1], endpoints[|endpoints| - 1];
      at := GroupInOrder(front, key, on);
      at := PickWhere(front, at, Group(front, key), endpoints, c, on);
    }
  }

  lemma GroupIndices(endpoints: seq<Claim>, key: Key) returns (at: seq<nat>)
    ensures Picks(endpoints, at, Group(endpoints, key))
    ensures forall i: nat :: i in at <==> i < |endpoints| && endpoints[i].key == key
  {
    var on := (c: Claim) => c.key == key;
    at := GroupInOrder(endpoints, key, on);
    assert forall i: nat :: i in at <==> i in Where(endpoints, on);
  }

  predicate AllBroadcast(claims: seq<Claim>) {
    forall i :: 0 <= i < |claims| ==> claims[i].sharing == Broadcast
  }

  /** The deployments named so far on one endpoint, its holder first, and the claims reported against the holder. */
  datatype Report = Report(named: seq<string>, claimants: seq<Claim>)

  function Scan(claims: seq<Claim>): Report
    requires claims != []
  {
    if |claims| == 1 then Report([claims[0].deploymentId], [])
    else
      var r, c := Scan(claims[..|claims| - 1]), claims[|claims| - 1];
      if c.deploymentId in r.named || c.owner == claims[0].owner then r
      else Report(r.named + [c.deploymentId], r.claimants + [c])
  }

  function GroupCollisions(key: Key, claims: seq<Claim>): seq<Collision>
    requires claims != []
  {
    if AllBroadcast(claims) then []
    else
      var found := Scan(claims).claimants;
      seq(|found|, i requires 0 <= i < |found| => Collision(key, claims[0], found[i]))
  }

  // ---- one endpoint --------------------------------------------------------

  /** A claim by another deployment of another owner than the holder's. */
  predicate IsForeign(holder: Claim, c: Claim) {
    c.deploymentId != holder.deploymentId && c.owner != holder.owner
  }

  /** The deployment claims the endpoint for another owner than the holder's. */
  ghost predicate ForeignBy(claims: seq<Claim>, id: string)
    requires claims != []
  {
    exists k :: 0 <= k < |claims| && claims[k].deploymentId == id && IsForeign(claims[0], claims[k])
  }

  ghost predicate Named(claims: seq<Claim>, id: string)
    requires claims != []
  {
    id == claims[0].deploymentId || ForeignBy(claims, id)
  }

  function DeploymentIds(claims: seq<Claim>): seq<string> {
    seq(|claims|, i requires 0 <= i < |claims| => claims[i].deploymentId)
  }

  lemma {:induction false} ScanNames(claims: seq<Claim>, id: string)
    requires claims != []
    ensures id in Scan(claims).named <==> Named(claims, id)
  {
    if |claims| > 1 {
      var front, c := claims[..|claims| - 1], claims[|claims| - 1];
      ScanNames(front, id);
      ScanNames(front, c.deploymentId);
      assert Named(front, claims[0].deploymentId);
    }
  }

  /** The reported claims: of foreign deployments only, each deployment named once, in the order of the claims. */
  lemma {:induction false} ScanReports(claims: seq<Claim>)
    requires claims != []
    ensures var r := Scan(claims);
            && r.named == [claims[0].deploymentId] + DeploymentIds(r.claimants) && Distinct(r.named)
            && forall c :: c in r.claimants ==> c in claims && IsForeign(claims[0], c)
  {
    if |claims| > 1 {
      var front, c := claims[..|claims| - 1], claims[|claims| - 1];
      ScanReports(front);
      var r := Scan(front);
      assert DeploymentIds(r.claimants + [c]) == DeploymentIds(r.claimants) + [c.deploymentId];
      assert r.named[0] == claims[0].deploymentId;
    }
  }

  lemma AfterFirst(named: seq<string>, first: string, ids: seq<string>, id: string)
    requires named == [first] + ids && Distinct(named)
    ensures Distinct(ids) && (id in ids <==> id in named && id != first)
  {
    assert named[0] == first;
    forall i | 0 <= i < |ids|
      ensures ids[i] == named[i + 1] && ids[i] != first
    {
      assert named[0] != named[i + 1];
    }
  }

  /** Each foreign deployment on the endpoint is reported, and reported exactly once. */
  lemma ReportedOnce(claims: seq<Claim>, id: string)
    requires claims != []
    ensures Distinct(DeploymentIds(Scan(claims).claimants))
    ensures id in DeploymentIds(Scan(claims).claimants) <==> ForeignBy(claims, id)
  {
    ScanReports(claims);
    ScanNames(claims, id);
    AfterFirst(Scan(claims).named, claims[0].deploymentId, DeploymentIds(Scan(claims).claimants), id);
  }

  /** Two deployments of two owners. */
  predicate Clash(a: Claim, b: Claim) {
    a.deploymentId != b.deploymentId && a.owner != b.owner
  }

  ghost predicate NoClash(claims: seq<Claim>) {
    forall i, j :: 0 <= i < |claims| && 0 <= j < |claims| ==> !Clash(claims[i], claims[j])
  }

  lemma ScanEmptyIff(claims: seq<Claim>)
    requires claims != []
    ensures Scan(claims).claimants == [] <==> forall k :: 0 <= k < |claims| ==> !IsForeign(claims[0], claims[k])
  {
    var ids := DeploymentIds(Scan(claims).claimants);
    if Scan(claims).claimants != [] {
      ReportedOnce(claims, ids[0]);
      assert ids[0] in ids;
    }
    forall k | 0 <= k < |claims| && IsForeign(claims[0], claims[k])
      ensures Scan(claims).claimants != []
    {
      ReportedOnce(claims, claims[k].deploymentId);
    }
  }

  /**
   The holder's deployment claims the endpoint for a second owner, and its first owner claims it through another
   deployment; and nobody else does.
   */
  ghost predicate HolderSplit(claims: seq<Claim>)
    requires claims != []
  {
    && (forall k :: 0 <= k < |claims| ==> !IsForeign(claims[0], claims[k]))
    && (exists i :: 0 <= i < |claims| && claims[i].owner != claims[0].owner)
    && (exists j :: 0 <= j < |claims| && claims[j].deploymentId != claims[0].deploymentId)
  }

  /** Comparing with the first holder agrees with comparing every pair exactly when the holder is not split that way. */
  lemma FirstHolderIsPairwiseIff(claims: seq<Claim>)
    requires claims != []
    ensures (Scan(claims).claimants == [] <==> NoClash(claims)) <==> !HolderSplit(claims)
  {
    ScanEmptyIff(claims);
    if HolderSplit(claims) {
      var i :| 0 <= i < |claims| && claims[i].owner != claims[0].owner;
      var j :| 0 <= j < |claims| && claims[j].deploymentId != claims[0].deploymentId;
      assert !IsForeign(claims[0], claims[i]) && !IsForeign(claims[0], claims[j]);
      assert Clash(claims[i], claims[j]);
    }
    forall k | 0 <= k < |claims| && IsForeign(claims[0], claims[k])
      ensures !NoClash(claims)
    {
      assert Clash(claims[0], claims[k]);
    }
  }

  /** A deployment id determines its owner. */
  ghost predicate IdDeterminesOwner(claims: seq<Claim>) {
    forall i, j :: 0 <= i < |claims| && 0 <= j < |claims| && claims[i].deploymentId == claims[j].deploymentId ==>
      claims[i].owner == claims[j].owner
  }

  lemma SplitExample()
    ensures var a := Claim("d1", "", "o1", "", Key("", ""), Exclusive);
            var claims := [a, a.(owner := "o2"), a.(deploymentId := "d2")];
            Scan(claims).claimants == [] && !NoClash(claims)
  {
    var a := Claim("d1", "", "o1", "", Key("", ""), Exclusive);
    var claims := [a, a.(owner := "o2"), a.(deploymentId := "d2")];
    assert "d1"[1] != "d2"[1] && "o1"[1] != "o2"[1];
    assert HolderSplit(claims) by {
      assert claims[1].owner != claims[0].owner && claims[2].deploymentId != claims[0].deploymentId;
    }
    ScanEmptyIff(claims);
    FirstHolderIsPairwiseIff(claims);
  }

  // ---- all endpoints -------------------------------------------------------

  lemma KeyBelowTotal(a: Key, b: Key)
    ensures a == b || KeyBelow(a, b) || KeyBelow(b, a)
  {
    BelowTotal(a.transport, b.transport);
    BelowTotal(a.identity, b.identity);
  }

  lemma KeyBelowTransitive(a: Key, b: Key, c: Key)
    requires KeyBelow(a, b) && KeyBelow(b, c)
    ensures KeyBelow(a, c)
  {
    if Below(a.transport, b.transport) && Below(b.transport, c.transport) {
      BelowTransitive(a.transport, b.transport, c.transport);
    }
    if Below(a.identity, b.identity) && Below(b.identity, c.identity) {
      BelowTransitive(a.identity, b.identity, c.identity);
    }
  }

  /** A key put in its place among ascending keys, once. */
  function InsertKey(key: Key, keys: seq<Key>): (r: seq<Key>)
    ensures forall k :: k in r <==> k == key || k in keys
  {
    if keys == [] then [key]
    else if keys[0] == key then keys
    else if KeyBelow(keys[0], key) then
      var rest := InsertKey(key, keys[1..]);
      assert forall k :: k in keys <==> k == keys[0] || k in keys[1..];
      [keys[0]] + rest
    else [key] + keys
  }

  /** The endpoints claimed, in key order. */
  function Keys(endpoints: seq<Claim>): seq<Key> {
    if endpoints == [] then [] else InsertKey(endpoints[|endpoints| - 1].key, Keys(endpoints[..|endpoints| - 1]))
  }

  ghost predicate AscendingKeys(keys: seq<Key>) {
    forall i, j :: 0 <= i < j < |keys| ==> KeyBelow(keys[i], keys[j])
  }

  lemma {:induction false} InsertKeyAscending(key: Key, keys: seq<Key>)
    requires AscendingKeys(keys)
    ensures AscendingKeys(InsertKey(key, keys))
  {
    if keys != [] && keys[0] != key {
      if KeyBelow(keys[0], key) {
        InsertKeyAscending(key, keys[1..]);
        var rest := InsertKey(key, keys[1..]);
        assert forall k :: k in rest ==> KeyBelow(keys[0], k);
      } else {
        KeyBelowTotal(key, keys[0]);
        forall k | k in keys
          ensures KeyBelow(key, k)
        {
          var i :| 0 <= i < |keys| && keys[i] == k;
          if i > 0 {
            KeyBelowTransitive(key, keys[0], k);
          }
        }
      }
    }
  }

  /** The endpoints are looked at in ascending order, so each once. */
  lemma {:induction false} KeysAscending(endpoints: seq<Claim>)
    ensures AscendingKeys(Keys(endpoints))
    ensures forall k :: k in Keys(endpoints) <==> exists c :: c in endpoints && c.key == k
    ensures forall i, j :: 0 <= i < j < |Keys(endpoints)| ==>
              var a, b := Keys(endpoints)[i], Keys(endpoints)[j];
              Below(a.transport, b.transport) || (a.transport == b.transport && Below(a.identity, b.identity))
  {
    if endpoints != [] {
      var front := endpoints[..|endpoints| - 1];
      KeysAscending(front);
      InsertKeyAscending(endpoints[|endpoints| - 1].key, Keys(front));
      assert endpoints == front + [endpoints[|endpoints| - 1]];
    }
  }

  function CollisionsOn(endpoints: seq<Claim>, key: Key): seq<Collision> {
    if Group(endpoints, key) == [] then [] else GroupCollisions(key, Group(endpoints, key))
  }

  function AllCollisions(endpoints: seq<Claim>, keys: seq<Key>): seq<Collision> {
    if keys == [] then []
    else AllCollisions(endpoints, keys[..|keys| - 1]) + CollisionsOn(endpoints, keys[|keys| - 1])
  }

  function Collisions(endpoints: seq<Claim>): seq<Collision> {
    AllCollisions(endpoints, Keys(endpoints))
  }

  lemma {:induction false} NothingIff(endpoints: seq<Claim>, keys: seq<Key>)
    ensures AllCollisions(endpoints, keys) == [] <==> forall k :: k in keys ==> CollisionsOn(endpoints, k) == []
  {
    if keys != [] {
      var front, last := keys[..|keys| - 1], keys[|keys| - 1];
      assert forall k :: k in keys <==> k in front || k == last by {
        assert keys == front + [last];
      }
      NothingIff(endpoints, front);
    }
  }

  /** Nobody claims the endpoint for less than broadcast. */
  ghost predicate BroadcastOnly(endpoints: seq<Claim>, key: Key) {
    forall c :: c in endpoints && c.key == key ==> c.sharing == Broadcast
  }

  lemma BroadcastIff(endpoints: seq<Claim>, key: Key)
    ensures AllBroadcast(Group(endpoints, key)) <==> BroadcastOnly(endpoints, key)
  {
    var claims := Group(endpoints, key);
    forall c
      ensures c in claims <==> c in endpoints && c.key == key
    {
      GroupMembers(endpoints, key, c);
    }
    if AllBroadcast(claims) {
      forall c | c in endpoints && c.key == key
        ensures c.sharing == Broadcast
      {
        var i :| 0 <= i < |claims| && claims[i] == c;
      }
    } else {
      var i :| 0 <= i < |claims| && claims[i].sharing != Broadcast;
      assert claims[i] in claims;
    }
  }

  /** What the pairwise rule says of a list of claims: no two owners on an endpoint that is not all broadcast. */
  ghost predicate PairwiseClear(endpoints: seq<Claim>) {
    forall a, b :: a in endpoints && b in endpoints && a.key == b.key && a.deploymentId != b.deploymentId && a.owner != b.owner ==>
      BroadcastOnly(endpoints, a.key)
  }

  lemma GroupDetermines(endpoints: seq<Claim>, key: Key)
    requires IdDeterminesOwner(endpoints)
    ensures IdDeterminesOwner(Group(endpoints, key))
  {
    var claims := Group(endpoints, key);
    forall i, j | 0 <= i < |claims| && 0 <= j < |claims| && claims[i].deploymentId == claims[j].deploymentId
      ensures claims[i].owner == claims[j].owner
    {
      GroupMembers(endpoints, key, claims[i]);
      GroupMembers(endpoints, key, claims[j]);
    }
  }

  lemma GroupClear(endpoints: seq<Claim>, key: Key)
    requires IdDeterminesOwner(endpoints)
    ensures CollisionsOn(endpoints, key) == [] <==> ClearOn(endpoints, key)
  {
    var claims := Group(endpoints, key);
    if claims != [] {
      GroupDetermines(endpoints, key);
      FirstHolderIsPairwiseIff(claims);
    }
  }

  ghost predicate ClearOn(endpoints: seq<Claim>, key: Key) {
    AllBroadcast(Group(endpoints, key)) || NoClash(Group(endpoints, key))
  }

  lemma ClashIsGrouped(endpoints: seq<Claim>, a: Claim, b: Claim)
    requires a in endpoints && b in endpoints && a.key == b.key && Clash(a, b)
    ensures !NoClash(Group(endpoints, a.key))
  {
    var claims := Group(endpoints, a.key);
    GroupMembers(endpoints, a.key, a);
    GroupMembers(endpoints, a.key, b);
    var i :| 0 <= i < |claims| && claims[i] == a;
    var j :| 0 <= j < |claims| && claims[j] == b;
  }

  lemma PairwiseOn(endpoints: seq<Claim>, key: Key)
    requires PairwiseClear(endpoints)
    ensures ClearOn(endpoints, key)
  {
    var claims := Group(endpoints, key);
    if !NoClash(claims) {
      var i, j :| 0 <= i < |claims| && 0 <= j < |claims| && Clash(claims[i], claims[j]);
      GroupMembers(endpoints, key, claims[i]);
      GroupMembers(endpoints, key, claims[j]);
      BroadcastIff(endpoints, key);
    }
  }

  lemma ClearIsPairwise(endpoints: seq<Claim>)
    requires forall k :: k in Keys(endpoints) ==> ClearOn(endpoints, k)
    ensures PairwiseClear(endpoints)
  {
    forall a, b | a in endpoints && b in endpoints && a.key == b.key && Clash(a, b)
      ensures BroadcastOnly(endpoints, a.key)
    {
      BroadcastIff(endpoints, a.key);
      AbsentIsEmpty(endpoints, a.key);
      ClashIsGrouped(endpoints, a, b);
      assert ClearOn(endpoints, a.key);
    }
  }

  /** When a deployment id determines its owner, nothing is found exactly when the pairwise rule is clear. */
  lemma FoundIffPairwise(endpoints: seq<Claim>)
    requires IdDeterminesOwner(endpoints)
    ensures Collisions(endpoints) == [] <==> PairwiseClear(endpoints)
  {
    var keys := Keys(endpoints);
    NothingIff(endpoints, keys);
    forall k | k in keys
      ensures CollisionsOn(endpoints, k) == [] <==> ClearOn(endpoints, k)
    {
      GroupClear(endpoints, k);
    }
    if Collisions(endpoints) == [] {
      ClearIsPairwise(endpoints);
    }
    if PairwiseClear(endpoints) {
      forall k | k in keys
        ensures ClearOn(endpoints, k)
      {
        PairwiseOn(endpoints, k);
      }
    }
  }

  // ---- each offender once --------------------------------------------------

  /** No deployment is reported twice on one endpoint. */
  ghost predicate OncePerEndpoint(out: seq<Collision>) {
    forall i, j :: 0 <= i < j < |out| ==>
      out[i].key != out[j].key || out[i].claimant.deploymentId != out[j].claimant.deploymentId
  }

  ghost predicate Reports(out: seq<Collision>, key: Key, id: string) {
    exists i :: 0 <= i < |out| && out[i].key == key && out[i].claimant.deploymentId == id
  }

  /** The endpoint is not all broadcast and the deployment claims it for another owner than its first claimant. */
  ghost predicate Offends(endpoints: seq<Claim>, key: Key, id: string) {
    var claims := Group(endpoints, key);
    !AllBroadcast(claims) && claims != [] && ForeignBy(claims, id)
  }

  lemma CollisionsOnEndpoint(endpoints: seq<Claim>, key: Key, id: string)
    ensures var out := CollisionsOn(endpoints, key);
            && OncePerEndpoint(out) && (forall i :: 0 <= i < |out| ==> out[i].key == key)
            && (Reports(out, key, id) <==> Offends(endpoints, key, id))
  {
    var claims, out := Group(endpoints, key), CollisionsOn(endpoints, key);
    if claims != [] && !AllBroadcast(claims) {
      var ids := DeploymentIds(Scan(claims).claimants);
      ReportedOnce(claims, id);
      assert |out| == |ids| && forall i :: 0 <= i < |out| ==> out[i].claimant.deploymentId == ids[i];
      if id in ids {
        var i :| 0 <= i < |ids| && ids[i] == id;
        assert out[i].claimant.deploymentId == id;
      }
    }
  }

  lemma ReportsConcat(a: seq<Collision>, b: seq<Collision>, key: Key, id: string)
    ensures Reports(a + b, key, id) <==> Reports(a, key, id) || Reports(b, key, id)
  {
    var c := a + b;
    if Reports(a, key, id) {
      var i :| 0 <= i < |a| && a[i].key == key && a[i].claimant.deploymentId == id;
      assert c[i] == a[i];
    }
    if Reports(b, key, id) {
      var i :| 0 <= i < |b| && b[i].key == key && b[i].claimant.deploymentId == id;
      assert c[|a| + i] == b[i];
    }
  }

  lemma {:induction false} AllOnce(endpoints: seq<Claim>, keys: seq<Key>, key: Key, id: string)
    requires AscendingKeys(keys)
    ensures var out := AllCollisions(endpoints, keys);
            && OncePerEndpoint(out) && (forall i :: 0 <= i < |out| ==> out[i].key in keys)
            && (Reports(out, key, id) <==> key in keys && Offends(endpoints, key, id))
  {
    if keys != [] {
      var front, last := keys[..|keys| - 1], keys[|keys| - 1];
      assert keys == front + [last];
      AllOnce(endpoints, front, key, id);
      CollisionsOnEndpoint(endpoints, last, id);
      ReportsConcat(AllCollisions(endpoints, front), CollisionsOn(endpoints, last), key, id);
      LastKeyIsNew(keys);
    }
  }

  lemma LastKeyIsNew(keys: seq<Key>)
    requires AscendingKeys(keys) && keys != []
    ensures keys[|keys| - 1] !in keys[..|keys| - 1]
  {
    var last := keys[|keys| - 1];
    BelowAsymmetric(last.transport, last.transport);
    BelowAsymmetric(last.identity, last.identity);
    assert forall i :: 0 <= i < |keys| - 1 ==> KeyBelow(keys[i], last);
  }

  /** Exactly the offending deployments are reported, each once per endpoint. */
  lemma OffendersReportedOnce(endpoints: seq<Claim>, key: Key, id: string)
    ensures OncePerEndpoint(Collisions(endpoints))
    ensures Reports(Collisions(endpoints), key, id) <==> Offends(endpoints, key, id)
  {
    var keys := Keys(endpoints);
    KeysAscending(endpoints);
    AllOnce(endpoints, keys, key, id);
    AbsentIsEmpty(endpoints, key);
  }

  // ---- what a collision says -----------------------------------------------

  /** Claim `h` is the first on its endpoint, and `k` the first one there by its deployment for another owner than `h`'s. */
  ghost predicate HeldAgainst(claims: seq<Claim>, h: nat, k: nat)
    requires h < |claims| && k < |claims|
  {
    var holder, claimant := claims[h], claims[k];
    && claimant.key == holder.key && claimant.deploymentId != holder.deploymentId && claimant.owner != holder.owner
    && (forall j :: 0 <= j < h ==> claims[j].key != holder.key)
    && (forall j :: 0 <= j < k && claims[j].key == holder.key && claims[j].deploymentId == claimant.deploymentId ==>
          claims[j].owner == holder.owner)
  }

  /** A claim reported in a scan is its deployment's first foreign one. */
  lemma {:induction false} ScanFirst(claims: seq<Claim>, c: Claim) returns (k: nat)
    requires claims != [] && c in Scan(claims).claimants
    ensures 0 < k < |claims| && claims[k] == c && IsForeign(claims[0], c)
    ensures forall j :: 0 <= j < k && claims[j].deploymentId == c.deploymentId ==> claims[j].owner == claims[0].owner
  {
    var front, last := claims[..|claims| - 1], claims[|claims| - 1];
    if c in Scan(front).claimants {
      k := ScanFirst(front, c);
    } else {
      k := |claims| - 1;
      ScanReports(front);
      ScanNames(front, c.deploymentId);
      assert c.deploymentId != claims[0].deploymentId by {
        assert Named(front, claims[0].deploymentId);
        ScanNames(front, claims[0].deploymentId);
      }
      assert forall j :: 0 <= j < k ==> front[j] == claims[j];
    }
  }

  lemma HolderIsFirst(endpoints: seq<Claim>, key: Key, claims: seq<Claim>, at: seq<nat>, k: nat)
    requires Picks(endpoints, at, claims) && forall i: nat :: i in at <==> i < |endpoints| && endpoints[i].key == key
    requires 0 < k < |claims| && IsForeign(claims[0], claims[k])
    requires forall j :: 0 <= j < k && claims[j].deploymentId == claims[k].deploymentId ==> claims[j].owner == claims[0].owner
    ensures HeldAgainst(endpoints, at[0], at[k])
  {
    assert at[0] in at && at[k] in at;
    forall j: nat | j < at[k] && endpoints[j].key == key
      ensures exists i :: 0 <= i < k && at[i] == j
    {
      assert j in at;
      var i :| 0 <= i < |at| && at[i] == j;
    }
    forall j: nat | j in at
      ensures at[0] <= j
    {
      var i :| 0 <= i < |at| && at[i] == j;
    }
  }

  /** Every collision names the endpoint's first claim as the holder, and its deployment's first foreign claim against it. */
  lemma CollisionOnEndpoint(endpoints: seq<Claim>, key: Key, i: nat) returns (h: nat, k: nat)
    requires i < |CollisionsOn(endpoints, key)|
    ensures h < |endpoints| && k < |endpoints| && HeldAgainst(endpoints, h, k) && !BroadcastOnly(endpoints, key)
    ensures CollisionsOn(endpoints, key)[i] == Collision(key, endpoints[h], endpoints[k]) && endpoints[h].key == key
  {
    var claims := Group(endpoints, key);
    var at := GroupIndices(endpoints, key);
    BroadcastIff(endpoints, key);
    var c := Scan(claims).claimants[i];
    var m := ScanFirst(claims, c);
    HolderIsFirst(endpoints, key, claims, at, m);
    assert at[0] in at;
    h, k := at[0], at[m];
  }

  lemma {:induction false} CollisionIs(endpoints: seq<Claim>, keys: seq<Key>, i: nat) returns (h: nat, k: nat)
    requires i < |AllCollisions(endpoints, keys)|
    ensures h < |endpoints| && k < |endpoints| && HeldAgainst(endpoints, h, k) && !BroadcastOnly(endpoints, endpoints[h].key)
    ensures AllCollisions(endpoints, keys)[i] == Collision(endpoints[h].key, endpoints[h], endpoints[k])
  {
    var front, last := keys[..|keys| - 1], keys[|keys| - 1];
    var before := AllCollisions(endpoints, front);
    if i < |before| {
      h, k := CollisionIs(endpoints, front, i);
    } else {
      h, k := CollisionOnEndpoint(endpoints, last, i - |before|);
    }
  }

  /** On fields: who offends on an endpoint. */
  lemma OffendsIff(endpoints: seq<Claim>, key: Key, id: string)
    ensures Offends(endpoints, key, id) <==>
            && !BroadcastOnly(endpoints, key)
            && exists h, k :: 0 <= h < |endpoints| && 0 <= k < |endpoints| && HeldAgainst(endpoints, h, k)
                              && endpoints[h].key == key && endpoints[k].deploymentId == id
  {
    CollisionsOnEndpoint(endpoints, key, id);
    BroadcastIff(endpoints, key);
    if Offends(endpoints, key, id) {
      var out := CollisionsOn(endpoints, key);
      var i :| 0 <= i < |out| && out[i].key == key && out[i].claimant.deploymentId == id;
      var h, k := CollisionOnEndpoint(endpoints, key, i);
    }
    forall h: nat, k: nat | h < |endpoints| && k < |endpoints| && HeldAgainst(endpoints, h, k) && endpoints[h].key == key
                            && endpoints[k].deploymentId == id && !BroadcastOnly(endpoints, key)
      ensures Offends(endpoints, key, id)
    {
      HeldAgainstOffends(endpoints, key, h, k);
    }
  }

  lemma HeldAgainstOffends(endpoints: seq<Claim>, key: Key, h: nat, k: nat)
    requires h < |endpoints| && k < |endpoints| && HeldAgainst(endpoints, h, k) && endpoints[h].key == key
    ensures var claims := Group(endpoints, key); claims != [] && ForeignBy(claims, endpoints[k].deploymentId)
  {
    var claims := Group(endpoints, key);
    var at := GroupIndices(endpoints, key);
    assert h in at && k in at;
    var a :| 0 <= a < |at| && at[a] == h;
    var b :| 0 <= b < |at| && at[b] == k;
    assert at[0] in at;
    assert a == 0;
  }

  // ---- the loops of the source ---------------------------------------------

  lemma ScanStep(claims: seq<Claim>, i: nat)
    requires 1 <= i < |claims|
    ensures var r, c := Scan(claims[..i]), claims[i];
            Scan(claims[..i + 1]) ==
            if c.deploymentId in r.named || c.owner == claims[0].owner then r
            else Report(r.named + [c.deploymentId], r.claimants + [c])
  {
    assert claims[..i + 1][..i] == claims[..i];
  }

  method ReportGroup(key: Key, claims: seq<Claim>) returns (out: seq<Collision>)
    requires claims != []
    ensures out == GroupCollisions(key, claims)
  {
    if AllBroadcast(claims) {
      return [];
    }
    var holder := claims[0];
    var named := [holder.deploymentId];
    out := [];
    ghost var found: seq<Claim> := [];
    for i := 1 to |claims|
      invariant Scan(claims[..i]) == Report(named, found)
      invariant |out| == |found| && forall k :: 0 <= k < |out| ==> out[k] == Collision(key, holder, found[k])
    {
      ScanStep(claims, i);
      if claims[i].deploymentId !in named && claims[i].owner != holder.owner {
        named := named + [claims[i].deploymentId];
        out := out + [Collision(key, holder, claims[i])];
        found := found + [claims[i]];
      }
    }
    assert claims[..|claims|] == claims;
  }

  ghost predicate Grouped(groups: map<Key, seq<Claim>>, endpoints: seq<Claim>) {
    && (forall k :: k in groups <==> k in Keys(endpoints))
    && (forall k :: k in groups ==> groups[k] == Group(endpoints, k))
  }

  function Put(groups: map<Key, seq<Claim>>, c: Claim): map<Key, seq<Claim>> {
    groups[c.key := (if c.key in groups then groups[c.key] else []) + [c]]
  }

  lemma GroupedStep(groups: map<Key, seq<Claim>>, endpoints: seq<Claim>, i: nat)
    requires i < |endpoints| && Grouped(groups, endpoints[..i])
    ensures Keys(endpoints[..i + 1]) == InsertKey(endpoints[i].key, Keys(endpoints[..i]))
    ensures Grouped(Put(groups, endpoints[i]), endpoints[..i + 1])
  {
    var before, c := endpoints[..i], endpoints[i];
    assert endpoints[..i + 1][..i] == before;
    forall k | k in Put(groups, c)
      ensures Put(groups, c)[k] == Group(endpoints[..i + 1], k)
    {
      AbsentIsEmpty(before, c.key);
    }
  }

  method GroupByEndpoint(endpoints: seq<Claim>) returns (keys: seq<Key>, groups: map<Key, seq<Claim>>)
    ensures keys == Keys(endpoints) && Grouped(groups, endpoints)
  {
    keys, groups := [], map[];
    for i := 0 to |endpoints|
      invariant keys == Keys(endpoints[..i]) && Grouped(groups, endpoints[..i])
    {
      var c := endpoints[i];
      GroupedStep(groups, endpoints, i);
      groups := Put(groups, c);
      keys := InsertKey(c.key, keys);
    }
    assert endpoints[..|endpoints|] == endpoints;
  }

  lemma {:induction false} AbsentIsEmpty(endpoints: seq<Claim>, key: Key)
    ensures key in Keys(endpoints) <==> Group(endpoints, key) != []
  {
    if endpoints != [] {
      AbsentIsEmpty(endpoints[..|endpoints| - 1], key);
    }
  }

  lemma CollisionsMore(endpoints: seq<Claim>, keys: seq<Key>, i: nat)
    requires i < |keys|
    ensures AllCollisions(endpoints, keys[..i + 1]) == AllCollisions(endpoints, keys[..i]) + CollisionsOn(endpoints, keys[i])
  {
    assert keys[..i + 1][..i] == keys[..i];
  }

  method FindEndpointCollisions(endpoints: seq<Claim>) returns (out: seq<Collision>)
    ensures out == Collisions(endpoints)
  {
    var keys, groups := GroupByEndpoint(endpoints);
    out := [];
    for i := 0 to |keys|
      invariant out == AllCollisions(endpoints, keys[..i])
    {
      CollisionsMore(endpoints, keys, i);
      AbsentIsEmpty(endpoints, keys[i]);
      var group := ReportGroup(keys[i], groups[keys[i]]);
      out := out + group;
    }
    assert keys[..|keys|] == keys;
  }
}
