/** Permissions travel in tokens as `resource:action` strings; the gateway side compares strings. */
module PermissionCodec {
  import opened Roles

  function Encode(resource: string, action: string): string
  {
    resource + ":" + action
  }

  predicate ColonFree(s: string)
  {
    forall i | 0 <= i < |s| :: s[i] != ':'
  }

  method PermissionStrings(permissions: seq<Permission>) returns (strs: seq<string>)
    ensures |strs| == |permissions|
    ensures forall i | 0 <= i < |strs| :: strs[i] == Encode(permissions[i].resource, permissions[i].action)
  {
    strs := [];
    for i := 0 to |permissions|
      invariant |strs| == i
      invariant forall j | 0 <= j < i :: strs[j] == Encode(permissions[j].resource, permissions[j].action)
    {
      strs := strs + [permissions[i].resource + ":" + permissions[i].action];
    }
  }

  method HasPermission(strs: seq<string>, resource: string, action: string) returns (has: bool)
    ensures has <==> Encode(resource, action) in strs || "*:*" in strs
  {
    var required := resource + ":" + action;
    for i := 0 to |strs|
      invariant forall j | 0 <= j < i :: strs[j] != required && strs[j] != "*:*"
    {
      if strs[i] == required || strs[i] == "*:*" {
        return true;
      }
    }
    return false;
  }

  method HasRole(roles: seq<string>, role: string) returns (has: bool)
    ensures has <==> role in roles
  {
    for i := 0 to |roles|
      invariant forall j | 0 <= j < i :: roles[j] != role
    {
      if roles[i] == role {
        return true;
      }
    }
    return false;
  }

  // ---------- When two permissions share a string ----------

  /** `longer` splits the same string at a later colon than `shorter`. */
  predicate SplitsLater(r1: string, a1: string, r2: string, a2: string)
  {
    |r1| < |r2| && r2[..|r1|] == r1 && r2[|r1|] == ':' && a1 == r2[|r1| + 1..] + ":" + a2
  }

  lemma SplitsLaterShare(r1: string, a1: string, r2: string, a2: string)
    requires SplitsLater(r1, a1, r2, a2)
    ensures Encode(r1, a1) == Encode(r2, a2)
  {
    assert r2 == r1 + ":" + r2[|r1| + 1..];
  }

  lemma ShorterSplit(r1: string, a1: string, r2: string, a2: string)
    requires Encode(r1, a1) == Encode(r2, a2) && |r1| < |r2|
    ensures SplitsLater(r1, a1, r2, a2)
  {
    var s, t := Encode(r1, a1), Encode(r2, a2);
    assert r2[..|r1|] == t[..|r1|] == s[..|r1|] == r1;
    assert r2[|r1|] == t[|r1|] == s[|r1|] == ':';
    assert a1 == s[|r1| + 1..];
    assert t[|r1| + 1..] == r2[|r1| + 1..] + ":" + a2;
  }

  /** Exactly which permissions are encoded alike: equal ones, and those that split one string at
      two different colons. */
  lemma EncodingCollisions(r1: string, a1: string, r2: string, a2: string)
    ensures Encode(r1, a1) == Encode(r2, a2) <==>
            (r1 == r2 && a1 == a2) || SplitsLater(r1, a1, r2, a2) || SplitsLater(r2, a2, r1, a1)
  {
    if Encode(r1, a1) == Encode(r2, a2) {
      if |r1| < |r2| {
        ShorterSplit(r1, a1, r2, a2);
      } else if |r2| < |r1| {
        ShorterSplit(r2, a2, r1, a1);
      } else {
        var s := Encode(r1, a1);
        assert r1 == s[..|r1|] == r2 && a1 == s[|r1| + 1..] == a2;
      }
    }
    if SplitsLater(r1, a1, r2, a2) { SplitsLaterShare(r1, a1, r2, a2); }
    if SplitsLater(r2, a2, r1, a1) { SplitsLaterShare(r2, a2, r1, a1); }
  }

  lemma ColonFreeEncodingInjective(r1: string, a1: string, r2: string, a2: string)
    requires ColonFree(r1) && ColonFree(r2)
    ensures Encode(r1, a1) == Encode(r2, a2) <==> r1 == r2 && a1 == a2
  {
    EncodingCollisions(r1, a1, r2, a2);
  }

  lemma StarHasNoColon(before: string, after: string)
    ensures before + ":" + after != "*"
  {
    assert (before + ":" + after)[|before|] == ':';
  }

  lemma OnlyTheWildcardPairEncodesAsWildcard(resource: string, action: string)
    ensures Encode(resource, action) == "*:*" <==> resource == "*" && action == "*"
  {
    assert Encode("*", "*") == "*:*";
    EncodingCollisions(resource, action, "*", "*");
    if |resource| >= 2 {
      StarHasNoColon(resource[2..], action);
    }
  }

  // ---------- The token check against the permissions themselves ----------

  /** What `HasPermission` answers on the strings of these permissions. */
  predicate TokenGrants(permissions: seq<Permission>, resource: string, action: string)
  {
    exists i | 0 <= i < |permissions| ::
      Encode(permissions[i].resource, permissions[i].action) == Encode(resource, action) ||
      Encode(permissions[i].resource, permissions[i].action) == "*:*"
  }

  predicate HasPair(permissions: seq<Permission>, resource: string, action: string)
  {
    exists i | 0 <= i < |permissions| :: permissions[i].resource == resource && permissions[i].action == action
  }

  predicate PairGrants(permissions: seq<Permission>, resource: string, action: string)
  {
    HasPair(permissions, resource, action) || HasPair(permissions, "*", "*")
  }

  /** For colon-free resources the token check grants exactly the permissions the list contains. */
  lemma TokenCheckAgrees(permissions: seq<Permission>, resource: string, action: string)
    requires ColonFree(resource) && forall i | 0 <= i < |permissions| :: ColonFree(permissions[i].resource)
    ensures TokenGrants(permissions, resource, action) <==> PairGrants(permissions, resource, action)
  {
    forall i | 0 <= i < |permissions|
      ensures Encode(permissions[i].resource, permissions[i].action) == Encode(resource, action) <==>
              permissions[i].resource == resource && permissions[i].action == action
      ensures Encode(permissions[i].resource, permissions[i].action) == "*:*" <==>
              permissions[i].resource == "*" && permissions[i].action == "*"
    {
      ColonFreeEncodingInjective(permissions[i].resource, permissions[i].action, resource, action);
      OnlyTheWildcardPairEncodesAsWildcard(permissions[i].resource, permissions[i].action);
    }
  }

  /** Every way of splitting a listed permission's string at a colon is a listed permission. */
  predicate SplitClosed(permissions: seq<Permission>)
  {
    forall i, k | 0 <= i < |permissions| &&
                  0 <= k < |Encode(permissions[i].resource, permissions[i].action)| &&
                  Encode(permissions[i].resource, permissions[i].action)[k] == ':' ::
      HasPair(permissions, Encode(permissions[i].resource, permissions[i].action)[..k],
                           Encode(permissions[i].resource, permissions[i].action)[k + 1..])
  }

  /** Over all queries, colons included, the token check is right exactly when the list is closed
      under re-splitting its strings, or holds the wildcard. */
  lemma TokenCheckRightEverywhere(permissions: seq<Permission>)
    ensures (forall resource, action ::
               TokenGrants(permissions, resource, action) <==> PairGrants(permissions, resource, action))
            <==> SplitClosed(permissions) || HasPair(permissions, "*", "*")
  {
    forall i | 0 <= i < |permissions|
      ensures Encode(permissions[i].resource, permissions[i].action) == "*:*" <==>
              permissions[i].resource == "*" && permissions[i].action == "*"
    {
      OnlyTheWildcardPairEncodesAsWildcard(permissions[i].resource, permissions[i].action);
    }
    if SplitClosed(permissions) || HasPair(permissions, "*", "*") {
      forall resource, action
        ensures TokenGrants(permissions, resource, action) <==> PairGrants(permissions, resource, action)
      {
        if TokenGrants(permissions, resource, action) && !HasPair(permissions, "*", "*") {
          var i :| 0 <= i < |permissions| &&
            Encode(permissions[i].resource, permissions[i].action) == Encode(resource, action);
          var s := Encode(permissions[i].resource, permissions[i].action);
          assert s[|resource|] == ':' && s[..|resource|] == resource && s[|resource| + 1..] == action;
        }
      }
    } else {
      var i, k :| 0 <= i < |permissions| &&
        0 <= k < |Encode(permissions[i].resource, permissions[i].action)| &&
        Encode(permissions[i].resource, permissions[i].action)[k] == ':' &&
        !HasPair(permissions, Encode(permissions[i].resource, permissions[i].action)[..k],
                              Encode(permissions[i].resource, permissions[i].action)[k + 1..]);
      var s := Encode(permissions[i].resource, permissions[i].action);
      assert Encode(s[..k], s[k + 1..]) == s;
      assert TokenGrants(permissions, s[..k], s[k + 1..]) && !PairGrants(permissions, s[..k], s[k + 1..]);
    }
  }
}
