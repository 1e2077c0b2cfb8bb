/** The in-memory role store: the plain list and the by-group index rebuilt beside it. */
module RoleIndex {
  import opened Wrappers
  import opened Roles

  datatype StoreError = NameRequired | Exists | NotFound

  /** The order-preserving filter of the list by one group claim. */
  function ForGroup(all: seq<Role>, g: string): seq<Role> {
    if all == [] then []
    else
      var last := all[|all| - 1];
      ForGroup(all[..|all| - 1], g) + (if last.groupClaim == g then [last] else [])
  }

  /** The roles of a caller's groups, each group counted at its first mention. */
  function RolesFor(all: seq<Role>, groups: seq<string>): seq<Role> {
    if groups == [] then []
    else
      var n := |groups| - 1;
      RolesFor(all, groups[..n]) + (if groups[n] in groups[..n] then [] else ForGroup(all, groups[n]))
  }

  function Bucket(byGroup: map<string, seq<Role>>, g: string): seq<Role> {
    if g in byGroup then byGroup[g] else []
  }

  ghost predicate IsIndex(byGroup: map<string, seq<Role>>, all: seq<Role>) {
    forall g :: Bucket(byGroup, g) == ForGroup(all, g)
  }

  lemma {:induction false} ForGroupCount(all: seq<Role>, g: string, r: Role)
    ensures multiset(ForGroup(all, g))[r] == if r.groupClaim == g then multiset(all)[r] else 0
  {
    if all != [] {
      ForGroupCount(all[..|all| - 1], g, r);
      assert all == all[..|all| - 1] + [all[|all| - 1]];
    }
  }

  /** A lookup returns exactly the roles whose claim is among the groups, each as often as the
      table holds it: naming a group twice repeats nothing. */
  lemma {:induction false} RolesForExact(all: seq<Role>, groups: seq<string>, r: Role)
    ensures multiset(RolesFor(all, groups))[r] == if r.groupClaim in groups then multiset(all)[r] else 0
  {
    if groups != [] {
      var n := |groups| - 1;
      RolesForExact(all, groups[..n], r);
      ForGroupCount(all, groups[n], r);
      assert groups == groups[..n] + [groups[n]];
    }
  }

  /** A group's roles stand in the list's order. */
  lemma {:induction false} ForGroupConcat(a: seq<Role>, b: seq<Role>, g: string)
    ensures ForGroup(a + b, g) == ForGroup(a, g) + ForGroup(b, g)
    decreases |b|
  {
    if b == [] {
      assert a + b == a;
    } else {
      ForGroupConcat(a, b[..|b| - 1], g);
      assert (a + b)[..|a + b| - 1] == a + b[..|b| - 1] && (a + b)[|a + b| - 1] == b[|b| - 1];
    }
  }

  lemma {:induction false} RolesForSnoc(all: seq<Role>, groups: seq<string>, g: string)
    ensures RolesFor(all, groups + [g]) == RolesFor(all, groups) + (if g in groups then [] else ForGroup(all, g))
  {
    assert (groups + [g])[..|groups + [g]| - 1] == groups;
  }

  lemma {:induction false} NamedAgain(all: seq<Role>, groups: seq<string>, g: string)
    requires g in groups
    ensures RolesFor(all, groups + [g]) == RolesFor(all, groups)
  {
    RolesForSnoc(all, groups, g);
  }

  /** Groups named again add nothing. */
  lemma {:induction false} RolesForRepeated(all: seq<Role>, a: seq<string>, b: seq<string>)
    requires forall g :: g in b ==> g in a
    ensures RolesFor(all, a + b) == RolesFor(all, a)
    decreases |b|
  {
    if b == [] {
      assert a + b == a;
    } else {
      var front, g := b[..|b| - 1], b[|b| - 1];
      RolesForRepeated(all, a, front);
      assert b == front + [g] && g in b;
      NamedAgain(all, a + front, g);
      ConcatAssoc(a, front, [g]);
    }
  }

  /** New groups' roles follow, in the order the groups are named. */
  lemma {:induction false} RolesForConcat(all: seq<Role>, a: seq<string>, b: seq<string>)
    requires forall g :: g in b ==> g !in a
    ensures RolesFor(all, a + b) == RolesFor(all, a) + RolesFor(all, b)
    decreases |b|
  {
    if b == [] {
      assert a + b == a;
    } else {
      var front, g := b[..|b| - 1], b[|b| - 1];
      RolesForConcat(all, a, front);
      RolesForSnoc(all, a + front, g);
      RolesForSnoc(all, front, g);
      assert b == front + [g] && g in b && (g in a + front <==> g in front);
      ConcatAssoc(a, front, [g]);
      ConcatAssoc(RolesFor(all, a), RolesFor(all, front), if g in front then [] else ForGroup(all, g));
    }
  }

  /** The same as membership: which roles a caller in these groups has. */
  lemma {:induction false} RolesForMembers(all: seq<Role>, groups: seq<string>)
    ensures forall r :: r in RolesFor(all, groups) <==> r in all && r.groupClaim in groups
  {
    forall r ensures r in RolesFor(all, groups) <==> r in all && r.groupClaim in groups {
      RolesForExact(all, groups, r);
      assert r in RolesFor(all, groups) <==> r in multiset(RolesFor(all, groups));
      assert r in all <==> r in multiset(all);
    }
  }

  /** Builds the by-group index in one pass, as `replace` and `replaceLocked` both do. */
  method BuildIndex(roles: seq<Role>) returns (idx: map<string, seq<Role>>)
    ensures IsIndex(idx, roles)
  {
    idx := map[];
    for i := 0 to |roles|
      invariant IsIndex(idx, roles[..i])
    {
      var r := roles[i];
      assert roles[..i + 1][..i] == roles[..i];
      idx := idx[r.groupClaim := Bucket(idx, r.groupClaim) + [r]];
    }
    assert roles[..|roles|] == roles;
  }

  predicate FirstNamed(all: seq<Role>, name: string, i: int) {
    0 <= i < |all| && all[i].name == name && forall k :: 0 <= k < i ==> all[k].name != name
  }

  /** The position of the first role of that name, or -1. */
  method FindName(all: seq<Role>, name: string) returns (idx: int)
    ensures -1 <= idx < |all|
    ensures idx == -1 <==> !HasName(all, name)
    ensures idx >= 0 ==> FirstNamed(all, name, idx)
  {
    for i := 0 to |all|
      invariant forall k :: 0 <= k < i ==> all[k].name != name
    {
      if all[i].name == name {
        return i;
      }
    }
    idx := -1;
  }

  class InMemoryStore {
    var byGroup: map<string, seq<Role>>
    var all: seq<Role>

    ghost predicate Valid()
      reads this
    {
      IsIndex(byGroup, all)
    }

    constructor (roles: seq<Role>)
      ensures Valid() && all == roles
    {
      var idx := BuildIndex(roles);
      byGroup := idx;
      all := roles;
    }

    method ReplaceAll(roles: seq<Role>)
      modifies this
      ensures Valid() && all == roles
    {
      byGroup := BuildIndex(roles);
      all := roles;
    }

    method Add(role: Role) returns (r: Result<(), StoreError>)
      requires Valid()
      modifies this
      ensures Valid()
      ensures r.Ok? <==> role.name != "" && !HasName(old(all), role.name)
      ensures all == if r.Ok? then old(all) + [role] else old(all)
      ensures UniqueNames(old(all)) ==> UniqueNames(all)
    {
      if role.name == "" {
        return Err(NameRequired);
      }
      var idx := FindName(all, role.name);
      if idx >= 0 {
        return Err(Exists);
      }
      ReplaceAll(all + [role]);
      r := Ok(());
    }

    /** A rename succeeds only into a free name; the role keeps its place in the list. */
    method Replace(oldName: string, newRole: Role) returns (r: Result<(), StoreError>)
      requires Valid()
      modifies this
      ensures Valid()
      ensures r.Ok? <==> newRole.name != "" && HasName(old(all), oldName)
                         && (newRole.name == oldName || !HasName(old(all), newRole.name))
      ensures r.Err? ==> all == old(all)
      ensures r.Ok? ==> exists i :: FirstNamed(old(all), oldName, i) && all == old(all)[i := newRole]
      ensures UniqueNames(old(all)) ==> UniqueNames(all)
    {
      if newRole.name == "" {
        return Err(NameRequired);
      }
      var idx := FindName(all, oldName);
      if idx < 0 {
        return Err(NotFound);
      }
      if newRole.name != oldName {
        var clash := FindName(all, newRole.name);
        if clash >= 0 {
          return Err(Exists);
        }
      }
      ReplaceAll(all[idx := newRole]);
      r := Ok(());
    }

    method Delete(name: string) returns (r: Result<(), StoreError>)
      requires Valid()
      modifies this
      ensures Valid()
      ensures r.Ok? <==> HasName(old(all), name)
      ensures r.Err? ==> all == old(all)
      ensures r.Ok? ==> exists i :: FirstNamed(old(all), name, i) && all == old(all)[..i] + old(all)[i + 1..]
      ensures UniqueNames(old(all)) ==> UniqueNames(all) && !HasName(all, name)
    {
      var idx := FindName(all, name);
      if idx < 0 {
        return Err(NotFound);
      }
      ReplaceAll(all[..idx] + all[idx + 1..]);
      r := Ok(());
    }

    /** Walks the groups once, skipping those already seen, and reads the index only. */
    method RolesForGroups(groups: seq<string>) returns (out: seq<Role>)
      requires Valid()
      ensures out == RolesFor(all, groups)
      ensures forall r :: r in out <==> r in all && r.groupClaim in groups
    {
      out := [];
      var seen: set<string> := {};
      for i := 0 to |groups|
        invariant out == RolesFor(all, groups[..i])
        invariant forall g :: g in seen <==> g in groups[..i]
      {
        assert groups[..i + 1][..i] == groups[..i];
        if groups[i] !in seen {
          seen := seen + {groups[i]};
          out := out + Bucket(byGroup, groups[i]);
        }
      }
      assert groups[..|groups|] == groups;
      RolesForMembers(all, groups);
    }
  }
}
