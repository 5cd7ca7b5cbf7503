/** When the tenant-qualified keys of different scopes stay apart, and when the
    two ways of clearing a tenant from the in-memory layer agree. */
module TenantKeys {
  import opened Common
  import opened L1Spec

  predicate ColonFree(s: string) {
    ':' !in s
  }

  /** A tenant id without a colon, or no tenant and a key without a colon. */
  predicate WellScoped(key: string, tenant: Option<string>) {
    match tenant
    case Some(t) => t != "" && ColonFree(t)
    case None => ColonFree(key)
  }

  lemma QualifiedAt(t: string, key: string)
    ensures (t + ":" + key)[..|t|] == t
    ensures (t + ":" + key)[|t|] == ':'
    ensures (t + ":" + key)[|t| + 1..] == key
    ensures t + ":" <= t + ":" + key
  {
  }

  /** Two tenants' keys never meet exactly when neither id extends the other by a colon. */
  lemma TenantsApart(t1: string, t2: string)
    requires t1 != "" && t2 != "" && t1 != t2
    ensures (forall k1, k2 :: MakeKey(k1, Some(t1)) != MakeKey(k2, Some(t2)))
       <==> !(t1 + ":" <= t2) && !(t2 + ":" <= t1)
  {
    if t1 + ":" <= t2 {
      CollideWhenExtended(t1, t2);
    }
    if t2 + ":" <= t1 {
      CollideWhenExtended(t2, t1);
    }
    if !(t1 + ":" <= t2) && !(t2 + ":" <= t1) {
      forall k1, k2 ensures MakeKey(k1, Some(t1)) != MakeKey(k2, Some(t2)) {
        ApartWhenNotExtended(t1, k1, t2, k2);
      }
    }
  }

  lemma CollideWhenExtended(t1: string, t2: string)
    requires t1 != "" && t1 + ":" <= t2
    ensures MakeKey(t2[|t1| + 1..] + ":", Some(t1)) == MakeKey("", Some(t2))
  {
    var rest := t2[|t1| + 1..];
    assert t2 == t1 + ":" + rest;
    assert t1 + ":" + (rest + ":") == t2 + ":" + "";
  }

  lemma ApartWhenNotExtended(t1: string, k1: string, t2: string, k2: string)
    requires t1 != "" && t2 != "" && t1 != t2
    requires !(t1 + ":" <= t2) && !(t2 + ":" <= t1)
    ensures MakeKey(k1, Some(t1)) != MakeKey(k2, Some(t2))
  {
    QualifiedAt(t1, k1);
    QualifiedAt(t2, k2);
  }

  lemma ExtensionHasColon(a: string, b: string)
    requires a + ":" <= b
    ensures !ColonFree(b)
  {
    assert b[|a|] == (a + ":")[|a|] == ':';
  }

  /** On well-scoped arguments the full key determines key and tenant. */
  lemma MakeKeyInjective(k1: string, t1: Option<string>, k2: string, t2: Option<string>)
    requires WellScoped(k1, t1) && WellScoped(k2, t2)
    requires MakeKey(k1, t1) == MakeKey(k2, t2)
    ensures k1 == k2 && t1 == t2
  {
    match (t1, t2) {
      case (Some(a), Some(b)) =>
        if a != b {
          if a + ":" <= b { ExtensionHasColon(a, b); }
          if b + ":" <= a { ExtensionHasColon(b, a); }
          ApartWhenNotExtended(a, k1, b, k2);
        }
        QualifiedAt(a, k1);
        QualifiedAt(b, k2);
      case (Some(a), None) =>
        QualifiedAt(a, k1);
      case (None, Some(b)) =>
        QualifiedAt(b, k2);
      case (None, None) =>
    }
  }

  /** Every entry sits under the full key of some well-scoped key and its own tenant. */
  ghost predicate Scoped(s: L1) {
    forall k :: k in s.cache ==> exists key :: WellScoped(key, s.cache[k].tenant) && k == MakeKey(key, s.cache[k].tenant)
  }

  /** In a well-scoped cache, clearing by key prefix and clearing by entry field
      remove the same entries and leave the same order of the rest. */
  lemma ClearsAgree(s: L1, tenant: string)
    requires Scoped(s) && tenant != "" && ColonFree(tenant)
    ensures TenantPrefixKeys(s, tenant) == TenantFieldKeys(s, tenant)
    ensures Discard(s, TenantPrefixKeys(s, tenant)) == Discard(s, TenantFieldKeys(s, tenant))
  {
    forall k | k in s.cache
      ensures tenant + ":" <= k <==> s.cache[k].tenant == Some(tenant)
    {
      var t := s.cache[k].tenant;
      var key :| WellScoped(key, t) && k == MakeKey(key, t);
      if t == Some(tenant) {
        QualifiedAt(tenant, key);
      }
      if tenant + ":" <= k {
        var rest := k[|tenant| + 1..];
        assert k == tenant + ":" + rest;
        MakeKeyInjective(key, t, rest, Some(tenant));
      }
    }
  }

  /** Clearing a tenant either way touches no other scope: there every lookup answers
      as before. */
  lemma ClearKeepsOthers(s: L1, tenant: string, key: string, other: Option<string>, now: real)
    requires Scoped(s) && tenant != "" && ColonFree(tenant) && WellScoped(key, other) && other != Some(tenant)
    ensures Get(Discard(s, TenantFieldKeys(s, tenant)), MakeKey(key, other), now).1 == Get(s, MakeKey(key, other), now).1
    ensures Get(Discard(s, TenantPrefixKeys(s, tenant)), MakeKey(key, other), now).1 == Get(s, MakeKey(key, other), now).1
  {
    var full := MakeKey(key, other);
    ClearsAgree(s, tenant);
    if tenant + ":" <= full {
      assert full == tenant + ":" + full[|tenant| + 1..];
      MakeKeyInjective(key, other, full[|tenant| + 1..], Some(tenant));
    }
    assert full !in TenantPrefixKeys(s, tenant);
  }

  lemma DiscardKeepsScoped(s: L1, keys: set<string>)
    requires Scoped(s)
    ensures Scoped(Discard(s, keys))
  {
    var s' := Discard(s, keys);
    forall x | x in s'.cache
      ensures exists y :: WellScoped(y, s'.cache[x].tenant) && x == MakeKey(y, s'.cache[x].tenant)
    {
      assert s'.cache[x] == s.cache[x];
    }
  }

  lemma SetKeepsScoped(s: L1, key: string, v: Value, ttl: Option<real>, tenant: Option<string>, now: real)
    requires Scoped(s) && WellScoped(key, tenant)
    ensures Scoped(Set(s, MakeKey(key, tenant), v, ttl, tenant, now))
  {
    var k := MakeKey(key, tenant);
    var s' := Set(s, k, v, ttl, tenant, now);
    forall x | x in s'.cache
      ensures exists y :: WellScoped(y, s'.cache[x].tenant) && x == MakeKey(y, s'.cache[x].tenant)
    {
      if x == k {
        assert WellScoped(key, s'.cache[x].tenant);
      } else {
        assert s'.cache[x] == s.cache[x];
      }
    }
  }

  lemma GetKeepsScoped(s: L1, k: string, now: real)
    requires Scoped(s)
    ensures Scoped(Get(s, k, now).0)
  {
    var s' := Get(s, k, now).0;
    forall x | x in s'.cache
      ensures exists y :: WellScoped(y, s'.cache[x].tenant) && x == MakeKey(y, s'.cache[x].tenant)
    {
      assert s'.cache[x].tenant == s.cache[x].tenant;
    }
  }

  /** A tenant id with a colon breaks isolation: clearing `a` by prefix also drops
      an entry of the different tenant `a:b`, which the field-based clear keeps. */
  lemma ColonBreaksClearing()
    ensures var s := Set(Empty(10, 60.0), MakeKey("k", Some("a:b")), Data("v"), None, Some("a:b"), 0.0);
      MakeKey("k", Some("a:b")) in TenantPrefixKeys(s, "a") && TenantFieldKeys(s, "a") == {}
  {
    var k := MakeKey("k", Some("a:b"));
    var s0 := Empty(10, 60.0);
    var s := Set(s0, k, Data("v"), None, Some("a:b"), 0.0);
    var stored := Store(s0, k, NewEntry(s0, k, Data("v"), None, Some("a:b"), 0.0));
    assert stored.cache.Keys == {k};
    assert |stored.cache| == |stored.cache.Keys| == 1;
    assert s == stored;
    assert "a" + ":" <= k;
    assert forall x | x in s.cache :: x == k;
  }
}
