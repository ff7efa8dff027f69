/**
 * The colour-role bookkeeping of the `Colors` cog in colors.py: which roles
 * are colour roles and under which key, get-or-create of the shared role
 * for a colour, the recomputation of a member's role list by `set_color`,
 * and the sweep of `purgecolors`.
 *
 * The server's colour roles, as the role cache lists and finds them, are
 * the `roles` field of a `RoleCache`; a member's role list is the `roles`
 * field of a `Member`. Role ids are handed out by the server; here they
 * come from a counter.
 */
module ColorRoles {
  import opened Wrappers
  import opened ColorCodec

  /** A server role: its id, its name, and the colour it was created with. */
  datatype Role = Role(id: nat, name: string, color: Color)

  // ---------------------------------------------------------------- ROLE_REGEX

  /** `ROLE_REGEX.fullmatch(name)`: the prefix, `#`, and six hex digits of either case. */
  predicate IsColorRoleName(prefix: string, name: string)
  {
    |name| == |prefix| + 7 && name[..|prefix|] == prefix && name[|prefix|] == '#' &&
    IsHexString(name[|prefix| + 1..])
  }

  /** `is_color_role`. */
  predicate IsColorRole(prefix: string, role: Role)
  {
    IsColorRoleName(prefix, role.name)
  }

  /** `key_for_role`: the `#xxxxxx` part of a colour role's name, lower-cased; None for other roles. */
  function KeyForRole(prefix: string, role: Role): (k: Option<string>)
    ensures k.Some? <==> IsColorRole(prefix, role)
    ensures k.Some? ==> |k.value| == 7 && k.value[0] == '#' && IsLowerHexString(k.value[1..])
  {
    if IsColorRole(prefix, role) then
      var k := Lower(role.name[|prefix|..]);
      assert k[1..] == Lower(role.name[|prefix| + 1..]);
      Some(k)
    else None
  }

  /**
   * A colour role is exactly a role named by the prefix and a
   * seven-character code that starts with `#` and that `hex2color` accepts.
   */
  lemma ColorRoleCode(prefix: string, role: Role)
    ensures IsColorRole(prefix, role) <==>
              |role.name| == |prefix| + 7 && role.name[..|prefix|] == prefix &&
              role.name[|prefix|] == '#' && Hex2Color(role.name[|prefix|..]).Ok?
  {
    if |role.name| == |prefix| + 7 {
      var code := role.name[|prefix|..];
      assert code[0] == '#' ==> StripHash(code) == code[1..] == role.name[|prefix| + 1..];
    }
  }

  /**
   * The key of a colour role is the `str` of the colour its name encodes, so
   * a role named with upper-case digits is found under the lower-case key.
   */
  lemma KeyIsFormat(prefix: string, role: Role)
    requires IsColorRole(prefix, role)
    ensures var code := role.name[|prefix|..];
            Hex2Color(code).Ok? && KeyForRole(prefix, role) == Some(Format(Hex2Color(code).value))
  {
    var code := role.name[|prefix|..];
    var digits := role.name[|prefix| + 1..];
    assert code == "#" + digits;
    FormatHex2Color(digits);
    Hex2ColorLower(code);
    assert Lower(code) == "#" + Lower(digits);
  }

  /** A role named as `role_for_color` names it is a colour role whose key is `str(color)`. */
  lemma FormatNameKey(prefix: string, c: Color, id: nat)
    ensures IsColorRole(prefix, Role(id, prefix + Format(c), c))
    ensures KeyForRole(prefix, Role(id, prefix + Format(c), c)) == Some(Format(c))
  {
    var name := prefix + Format(c);
    var f := Format(c);
    assert name[..|prefix|] == prefix;
    assert name[|prefix|..] == f;
    assert name[|prefix| + 1..] == f[1..];
    assert IsHexString(f[1..]) by {
      forall i | 0 <= i < 6 ensures IsHexDigit(f[1..][i]) { assert IsLowerHexDigit(f[1..][i]); }
    }
    assert Lower(f) == f;
  }

  // ---------------------------------------------------------------- role lists

  /** Ids are unique in a list of roles, as in every list the server gives. */
  predicate UniqueIds(rs: seq<Role>)
  {
    forall i, j | 0 <= i < j < |rs| :: rs[i].id != rs[j].id
  }

  /** The colour roles of a list, in order. */
  function ColorRolesOf(prefix: string, rs: seq<Role>): seq<Role>
  {
    if rs == [] then []
    else (if IsColorRole(prefix, rs[0]) then [rs[0]] else []) + ColorRolesOf(prefix, rs[1..])
  }

  /** The other roles of a list, in order. */
  function OtherRolesOf(prefix: string, rs: seq<Role>): seq<Role>
  {
    if rs == [] then []
    else (if IsColorRole(prefix, rs[0]) then [] else [rs[0]]) + OtherRolesOf(prefix, rs[1..])
  }

  /** `set(r.id for r in old_roles)` for `old_roles = filter(is_color_role, rs)`. */
  function ColorIds(prefix: string, rs: seq<Role>): set<nat>
  {
    set r | r in rs && IsColorRole(prefix, r) :: r.id
  }

  /** `[r for r in rs if r.id not in ids]`. */
  function WithoutIds(rs: seq<Role>, ids: set<nat>): (t: seq<Role>)
    ensures |t| <= |rs|
  {
    if rs == [] then []
    else (if rs[0].id in ids then [] else [rs[0]]) + WithoutIds(rs[1..], ids)
  }

  /** A member's roles after `set_color(member, server, None)`: `remove_roles` of the colour roles. */
  function ResetRoles(prefix: string, rs: seq<Role>): seq<Role>
  {
    WithoutIds(rs, ColorIds(prefix, rs))
  }

  /** A member's roles after `set_color` with a colour whose role is `newRole`. */
  function AssignedRoles(prefix: string, rs: seq<Role>, newRole: Role): seq<Role>
  {
    WithoutIds(rs, ColorIds(prefix, rs)) + [newRole]
  }

  /** Which roles the two halves of a list hold. */
  lemma {:induction false} ColorRolesMember(prefix: string, rs: seq<Role>, r: Role)
    ensures r in ColorRolesOf(prefix, rs) <==> r in rs && IsColorRole(prefix, r)
    ensures r in OtherRolesOf(prefix, rs) <==> r in rs && !IsColorRole(prefix, r)
  {
    if rs != [] {
      assert rs == [rs[0]] + rs[1..];
      ColorRolesMember(prefix, rs[1..], r);
    }
  }

  /** `WithoutIds` keeps exactly the roles whose id is not listed. */
  lemma {:induction false} WithoutIdsMember(rs: seq<Role>, ids: set<nat>, r: Role)
    ensures r in WithoutIds(rs, ids) <==> r in rs && r.id !in ids
  {
    if rs != [] {
      assert rs == [rs[0]] + rs[1..];
      WithoutIdsMember(rs[1..], ids, r);
    }
  }

  lemma ColorRolesAppend(prefix: string, a: seq<Role>, b: seq<Role>)
    ensures ColorRolesOf(prefix, a + b) == ColorRolesOf(prefix, a) + ColorRolesOf(prefix, b)
    ensures OtherRolesOf(prefix, a + b) == OtherRolesOf(prefix, a) + OtherRolesOf(prefix, b)
  {
    ColorHalfAppend(prefix, a, b);
    OtherHalfAppend(prefix, a, b);
  }

  lemma {:induction false} ColorHalfAppend(prefix: string, a: seq<Role>, b: seq<Role>)
    ensures ColorRolesOf(prefix, a + b) == ColorRolesOf(prefix, a) + ColorRolesOf(prefix, b)
  {
    if a == [] {
      assert a + b == b;
    } else {
      var x, ab := a[0], a + b;
      assert ab[0] == x && ab[1..] == a[1..] + b;
      var cx := if IsColorRole(prefix, x) then [x] else [];
      assert ColorRolesOf(prefix, ab) == cx + ColorRolesOf(prefix, a[1..] + b);
      assert ColorRolesOf(prefix, a) == cx + ColorRolesOf(prefix, a[1..]);
      ColorHalfAppend(prefix, a[1..], b);
      assert cx + (ColorRolesOf(prefix, a[1..]) + ColorRolesOf(prefix, b)) ==
             (cx + ColorRolesOf(prefix, a[1..])) + ColorRolesOf(prefix, b);
    }
  }

  lemma {:induction false} OtherHalfAppend(prefix: string, a: seq<Role>, b: seq<Role>)
    ensures OtherRolesOf(prefix, a + b) == OtherRolesOf(prefix, a) + OtherRolesOf(prefix, b)
  {
    if a == [] {
      assert a + b == b;
    } else {
      var x, ab := a[0], a + b;
      assert ab[0] == x && ab[1..] == a[1..] + b;
      var ox := if IsColorRole(prefix, x) then [] else [x];
      assert OtherRolesOf(prefix, ab) == ox + OtherRolesOf(prefix, a[1..] + b);
      assert OtherRolesOf(prefix, a) == ox + OtherRolesOf(prefix, a[1..]);
      OtherHalfAppend(prefix, a[1..], b);
      assert ox + (OtherRolesOf(prefix, a[1..]) + OtherRolesOf(prefix, b)) ==
             (ox + OtherRolesOf(prefix, a[1..])) + OtherRolesOf(prefix, b);
    }
  }

  /** Dropping the ids of all colour roles leaves no colour role. */
  lemma {:induction false} NoColorLeft(prefix: string, rs: seq<Role>, ids: set<nat>)
    requires forall r | r in rs && IsColorRole(prefix, r) :: r.id in ids
    ensures ColorRolesOf(prefix, WithoutIds(rs, ids)) == []
  {
    if rs != [] {
      assert rs[0] in rs;
      NoColorLeft(prefix, rs[1..], ids);
      var rest := WithoutIds(rs[1..], ids);
      if rs[0].id !in ids {
        assert WithoutIds(rs, ids) == [rs[0]] + rest;
        ColorRolesAppend(prefix, [rs[0]], rest);
        assert [rs[0]][1..] == [];
      } else {
        assert WithoutIds(rs, ids) == rest;
      }
    }
  }

  /** Dropping the ids of exactly the colour roles keeps every other role, in order. */
  lemma {:induction false} WithoutColorIds(prefix: string, rs: seq<Role>, ids: set<nat>)
    requires forall r | r in rs :: r.id in ids <==> IsColorRole(prefix, r)
    ensures WithoutIds(rs, ids) == OtherRolesOf(prefix, rs)
  {
    if rs != [] {
      assert rs[0] in rs;
      WithoutColorIds(prefix, rs[1..], ids);
    }
  }

  /** After a reset the member holds no colour role; with unique ids every other role stays, in order. */
  lemma ResetRolesSpec(prefix: string, rs: seq<Role>)
    ensures ColorRolesOf(prefix, ResetRoles(prefix, rs)) == []
    ensures UniqueIds(rs) ==> ResetRoles(prefix, rs) == OtherRolesOf(prefix, rs)
  {
    var ids := ColorIds(prefix, rs);
    NoColorLeft(prefix, rs, ids);
    if UniqueIds(rs) {
      forall r | r in rs ensures r.id in ids <==> IsColorRole(prefix, r) {
        if r.id in ids {
          var q :| q in rs && IsColorRole(prefix, q) && q.id == r.id;
          var i :| 0 <= i < |rs| && rs[i] == r;
          var j :| 0 <= j < |rs| && rs[j] == q;
          assert i == j;
        }
      }
      WithoutColorIds(prefix, rs, ids);
    }
  }

  /**
   * After an assign the member holds exactly one colour role, the new one,
   * exactly once, last; with unique ids the other roles stay, in order.
   */
  lemma AssignedRolesSpec(prefix: string, rs: seq<Role>, newRole: Role)
    requires IsColorRole(prefix, newRole)
    ensures var t := AssignedRoles(prefix, rs, newRole);
            ColorRolesOf(prefix, t) == [newRole] &&
            multiset(t)[newRole] == 1 &&
            OtherRolesOf(prefix, t) == OtherRolesOf(prefix, ResetRoles(prefix, rs))
    ensures UniqueIds(rs) ==> AssignedRoles(prefix, rs, newRole) == OtherRolesOf(prefix, rs) + [newRole]
  {
    var kept := ResetRoles(prefix, rs);
    ResetRolesSpec(prefix, rs);
    ColorRolesAppend(prefix, kept, [newRole]);
    assert [newRole][1..] == [];
    WithoutIdsMember(rs, ColorIds(prefix, rs), newRole);
    assert newRole !in kept;
    assert multiset(kept)[newRole] == 0;
  }

  // ---------------------------------------------------------------- purgecolors

  /** The roles of `rs` some member holds, in order: what the sweep keeps. */
  function Kept(rs: seq<Role>, held: set<nat>): seq<Role>
  {
    if rs == [] then []
    else (if rs[0].id in held then [rs[0]] else []) + Kept(rs[1..], held)
  }

  /** The roles of `rs` no member holds, in order: what the sweep deletes. */
  function Purged(rs: seq<Role>, held: set<nat>): seq<Role>
  {
    WithoutIds(rs, held)
  }

  /** The sweep keeps exactly the held roles and deletes exactly the others. */
  lemma {:induction false} PurgeMember(rs: seq<Role>, held: set<nat>, r: Role)
    ensures r in Kept(rs, held) <==> r in rs && r.id in held
    ensures r in Purged(rs, held) <==> r in rs && r.id !in held
  {
    WithoutIdsMember(rs, held, r);
    if rs != [] {
      assert rs == [rs[0]] + rs[1..];
      PurgeMember(rs[1..], held, r);
    }
  }

  /** Every role is either kept or deleted, so the deleted count is at most the number of colour roles. */
  lemma {:induction false} KeptPurgedSplit(rs: seq<Role>, held: set<nat>)
    ensures |Kept(rs, held)| + |Purged(rs, held)| == |rs|
  {
    if rs != [] {
      KeptPurgedSplit(rs[1..], held);
    }
  }

  lemma KeptAppend(a: seq<Role>, b: seq<Role>, held: set<nat>)
    ensures Kept(a + b, held) == Kept(a, held) + Kept(b, held)
    ensures Purged(a + b, held) == Purged(a, held) + Purged(b, held)
  {
    KeptHalfAppend(a, b, held);
    WithoutIdsAppend(a, b, held);
  }

  lemma {:induction false} KeptHalfAppend(a: seq<Role>, b: seq<Role>, held: set<nat>)
    ensures Kept(a + b, held) == Kept(a, held) + Kept(b, held)
  {
    if a == [] {
      assert a + b == b;
    } else {
      var x, ab := a[0], a + b;
      assert ab[0] == x && ab[1..] == a[1..] + b;
      var kx := if x.id in held then [x] else [];
      assert Kept(ab, held) == kx + Kept(a[1..] + b, held);
      assert Kept(a, held) == kx + Kept(a[1..], held);
      KeptHalfAppend(a[1..], b, held);
      assert kx + (Kept(a[1..], held) + Kept(b, held)) == (kx + Kept(a[1..], held)) + Kept(b, held);
    }
  }

  lemma {:induction false} WithoutAbsentIds(rs: seq<Role>, ids: set<nat>)
    requires forall r | r in rs :: r.id !in ids
    ensures WithoutIds(rs, ids) == rs
  {
    if rs != [] {
      assert rs[0] in rs;
      WithoutAbsentIds(rs[1..], ids);
    }
  }

  lemma {:induction false} KeptUniqueIds(rs: seq<Role>, held: set<nat>)
    requires UniqueIds(rs)
    ensures UniqueIds(Kept(rs, held))
  {
    if rs != [] {
      var rest := Kept(rs[1..], held);
      KeptUniqueIds(rs[1..], held);
      forall j | 0 <= j < |rest| ensures rest[j].id != rs[0].id {
        PurgeMember(rs[1..], held, rest[j]);
        var k :| 0 <= k < |rs[1..]| && rs[1..][k] == rest[j];
        assert rs[k + 1] == rest[j];
      }
    }
  }

  /** Looking at role `i` of the snapshot extends what is kept or what is deleted by that role. */
  lemma SweepAppend(snapshot: seq<Role>, i: nat, held: set<nat>)
    requires i < |snapshot|
    ensures var x := snapshot[i];
            Kept(snapshot[..i + 1], held) == Kept(snapshot[..i], held) + (if x.id in held then [x] else []) &&
            Purged(snapshot[..i + 1], held) == Purged(snapshot[..i], held) + (if x.id in held then [] else [x])
  {
    var x := snapshot[i];
    assert snapshot[..i + 1] == snapshot[..i] + [x];
    KeptAppend(snapshot[..i], [x], held);
    assert [x][1..] == [];
  }

  /** The registry once the sweep has looked at the first `i` roles of the snapshot. */
  function SweepState(snapshot: seq<Role>, i: nat, held: set<nat>): seq<Role>
    requires i <= |snapshot|
  {
    Kept(snapshot[..i], held) + snapshot[i..]
  }

  /**
   * One step of the sweep: with `current` the registry after looking at the
   * first `i` roles of the snapshot, keeping role `i` (held) or deleting it
   * (unheld) gives the registry after `i + 1` roles.
   */
  lemma SweepStep(snapshot: seq<Role>, i: nat, held: set<nat>, current: seq<Role>)
    requires UniqueIds(snapshot) && i < |snapshot|
    requires current == SweepState(snapshot, i, held)
    ensures snapshot[i].id in held ==> current == SweepState(snapshot, i + 1, held)
    ensures snapshot[i].id !in held ==> WithoutIds(current, {snapshot[i].id}) == SweepState(snapshot, i + 1, held)
    ensures |Purged(snapshot[..i + 1], held)| == |Purged(snapshot[..i], held)| + (if snapshot[i].id in held then 0 else 1)
  {
    var x := snapshot[i];
    var k := Kept(snapshot[..i], held);
    var rest := snapshot[i + 1..];
    SweepAppend(snapshot, i, held);
    assert snapshot[i..] == [x] + rest;
    if x.id in held {
      assert k + ([x] + rest) == (k + [x]) + rest;
    } else {
      DeleteStep(snapshot, i, held);
      assert k + [] == k;
    }
  }

  /** What the sweep keeps of a valid cache is a valid cache. */
  lemma KeptValid(prefix: string, rs: seq<Role>, held: set<nat>, nextId: nat)
    requires UniqueIds(rs)
    requires forall i | 0 <= i < |rs| :: IsColorRole(prefix, rs[i]) && rs[i].id < nextId
    ensures UniqueIds(Kept(rs, held))
    ensures forall i | 0 <= i < |Kept(rs, held)| :: IsColorRole(prefix, Kept(rs, held)[i]) && Kept(rs, held)[i].id < nextId
  {
    var t := Kept(rs, held);
    KeptUniqueIds(rs, held);
    forall k | 0 <= k < |t| ensures IsColorRole(prefix, t[k]) && t[k].id < nextId {
      PurgeMember(rs, held, t[k]);
    }
  }

  /** Removing the id of a role no other role of the list shares drops just that role. */
  lemma RemoveOne(a: seq<Role>, x: Role, rest: seq<Role>)
    requires forall r | r in a :: r.id != x.id
    requires forall r | r in rest :: r.id != x.id
    ensures WithoutIds(a + ([x] + rest), {x.id}) == a + rest
  {
    var ids := {x.id};
    WithoutAbsentIds(a, ids);
    WithoutAbsentIds(rest, ids);
    assert WithoutIds([x] + rest, ids) == WithoutIds(rest, ids) by {
      assert ([x] + rest)[0] == x;
      assert ([x] + rest)[1..] == rest;
    }
    WithoutIdsAppend(a, [x] + rest, ids);
  }

  /** One step of the sweep: deleting role `i` of the snapshot by its id. */
  lemma DeleteStep(snapshot: seq<Role>, i: nat, held: set<nat>)
    requires UniqueIds(snapshot) && i < |snapshot|
    ensures WithoutIds(Kept(snapshot[..i], held) + snapshot[i..], {snapshot[i].id}) ==
            Kept(snapshot[..i], held) + snapshot[i + 1..]
  {
    var a := Kept(snapshot[..i], held);
    var x := snapshot[i];
    var rest := snapshot[i + 1..];
    forall r | r in a ensures r.id != x.id {
      PurgeMember(snapshot[..i], held, r);
      var j :| 0 <= j < i && snapshot[..i][j] == r;
      assert snapshot[j] == r;
    }
    forall r | r in rest ensures r.id != x.id {
      var j :| 0 <= j < |rest| && rest[j] == r;
      assert snapshot[i + 1 + j] == r;
    }
    assert snapshot[i..] == [x] + rest;
    RemoveOne(a, x, rest);
  }

  lemma {:induction false} WithoutIdsAppend(a: seq<Role>, b: seq<Role>, ids: set<nat>)
    ensures WithoutIds(a + b, ids) == WithoutIds(a, ids) + WithoutIds(b, ids)
  {
    if a == [] {
      assert a + b == b;
    } else {
      var x := a[0];
      assert (a + b)[0] == x && (a + b)[1..] == a[1..] + b;
      WithoutIdsAppend(a[1..], b, ids);
      var wx := if x.id in ids then [] else [x];
      assert WithoutIds(a + b, ids) == wx + WithoutIds(a[1..] + b, ids);
    }
  }

  /** No two roles of the list share a key. */
  predicate DistinctKeys(prefix: string, rs: seq<Role>)
  {
    forall i, j | 0 <= i < j < |rs| :: KeyForRole(prefix, rs[i]) != KeyForRole(prefix, rs[j])
  }

  /** The sweep deletes roles but never makes two keys equal. */
  lemma {:induction false} KeptDistinctKeys(prefix: string, rs: seq<Role>, held: set<nat>)
    requires DistinctKeys(prefix, rs)
    ensures DistinctKeys(prefix, Kept(rs, held))
  {
    if rs != [] {
      var tail := rs[1..];
      TailDistinctKeys(prefix, rs);
      KeptDistinctKeys(prefix, tail, held);
      var rest := Kept(tail, held);
      forall j | 0 <= j < |rest| ensures KeyForRole(prefix, rest[j]) != KeyForRole(prefix, rs[0]) {
        PurgeMember(tail, held, rest[j]);
        var k :| 0 <= k < |tail| && tail[k] == rest[j];
        assert rs[k + 1] == rest[j];
      }
      if rs[0].id in held {
        ConsDistinctKeys(prefix, rs[0], rest);
      }
    }
  }

  lemma TailDistinctKeys(prefix: string, rs: seq<Role>)
    requires rs != [] && DistinctKeys(prefix, rs)
    ensures DistinctKeys(prefix, rs[1..])
  {
    var tail := rs[1..];
    forall i, j | 0 <= i < j < |tail| ensures KeyForRole(prefix, tail[i]) != KeyForRole(prefix, tail[j]) {
      assert tail[i] == rs[i + 1] && tail[j] == rs[j + 1];
    }
  }

  lemma ConsDistinctKeys(prefix: string, x: Role, rest: seq<Role>)
    requires DistinctKeys(prefix, rest)
    requires forall j | 0 <= j < |rest| :: KeyForRole(prefix, rest[j]) != KeyForRole(prefix, x)
    ensures DistinctKeys(prefix, [x] + rest)
  {
    var t := [x] + rest;
    forall i, j | 0 <= i < j < |t| ensures KeyForRole(prefix, t[i]) != KeyForRole(prefix, t[j]) {
      assert t[j] == rest[j - 1];
      if i > 0 {
        assert t[i] == rest[i - 1];
      }
    }
  }

  /** A member: `member.roles` is what `replace_roles` and `remove_roles` overwrite. */
  class Member {
    var roles: seq<Role>

    constructor (roles: seq<Role>)
      ensures this.roles == roles
    {
      this.roles := roles;
    }
  }

  /** `set(role.id for member in members for role in member.roles)`. */
  function HeldIds(members: seq<Member>): set<nat>
    reads members
  {
    set i, r | 0 <= i < |members| && r in members[i].roles :: r.id
  }

  /** An id is held exactly when some member holds a role with that id. */
  lemma HeldIdsMember(members: seq<Member>, id: nat)
    ensures id in HeldIds(members) <==> exists m, r | m in members && r in m.roles :: r.id == id
  {
    if exists m, r | m in members && r in m.roles :: r.id == id {
      var m, r :| m in members && r in m.roles && r.id == id;
      var i :| 0 <= i < |members| && members[i] == m;
    }
  }

  /** The server's colour roles, as the role cache lists (`all_roles`) and finds (`get_role`) them. */
  class RoleCache {
    const prefix: string
    var roles: seq<Role>
    var nextId: nat

    ghost predicate Valid()
      reads this
    {
      UniqueIds(roles) &&
      forall i | 0 <= i < |roles| :: IsColorRole(prefix, roles[i]) && roles[i].id < nextId
    }

    /** No two colour roles share a key: what sequential get-or-create keeps. */
    ghost predicate UniqueKeys()
      reads this
    {
      DistinctKeys(prefix, roles)
    }

    constructor (prefix: string)
      ensures Valid() && UniqueKeys()
      ensures this.prefix == prefix && roles == [] && nextId == 0
    {
      this.prefix := prefix;
      roles := [];
      nextId := 0;
    }

    /** `get_role(server, key)`: the first colour role whose key is `key`. */
    function GetRole(key: string): (r: Option<Role>)
      reads this
      ensures r.Some? ==> r.value in roles && KeyForRole(prefix, r.value) == Some(key)
      ensures r.None? ==> forall i | 0 <= i < |roles| :: KeyForRole(prefix, roles[i]) != Some(key)
    {
      FindKey(prefix, roles, key)
    }

    /**
     * `role_for_color`: the role whose key is `str(color)`, created as
     * `ROLE_PREFIX + str(color)` when there is none; an existing role is
     * reused and the cache left as it was.
     */
    method RoleForColor(c: Color) returns (role: Role)
      requires Valid()
      modifies this
      ensures Valid()
      ensures role in roles && IsColorRole(prefix, role) && KeyForRole(prefix, role) == Some(Format(c))
      ensures old(GetRole(Format(c))).Some? ==>
                role == old(GetRole(Format(c))).value && roles == old(roles) && nextId == old(nextId)
      ensures old(GetRole(Format(c))).None? ==>
                role == Role(old(nextId), prefix + Format(c), c) &&
                roles == old(roles) + [role] && nextId == old(nextId) + 1
      ensures old(UniqueKeys()) ==> UniqueKeys()
    {
      var existing := GetRole(Format(c));
      if existing.Some? {
        role := existing.value;
      } else {
        // The server creates the role, named after the colour, under a fresh id.
        role := Role(nextId, prefix + Format(c), c);
        FormatNameKey(prefix, c, nextId);
        roles := roles + [role];
        nextId := nextId + 1;
      }
    }

    /**
     * `set_color`: with no colour, the member's colour roles are removed;
     * with a colour, its role (got or created) replaces them, appended after
     * the member's other roles. `given` names the role given.
     */
    method SetColor(member: Member, color: Option<Color>) returns (ghost given: Option<Role>)
      requires Valid()
      modifies this, member
      ensures Valid()
      ensures given.Some? <==> color.Some?
      ensures color.None? ==>
                member.roles == ResetRoles(prefix, old(member.roles)) &&
                roles == old(roles) && nextId == old(nextId)
      ensures color.Some? ==>
                member.roles == AssignedRoles(prefix, old(member.roles), given.value) &&
                given.value in roles && IsColorRole(prefix, given.value) &&
                KeyForRole(prefix, given.value) == Some(Format(color.value))
      ensures color.Some? && old(GetRole(Format(color.value))).Some? ==>
                given == old(GetRole(Format(color.value))) && roles == old(roles) && nextId == old(nextId)
      ensures color.Some? && old(GetRole(Format(color.value))).None? ==>
                given == Some(Role(old(nextId), prefix + Format(color.value), color.value)) &&
                roles == old(roles) + [given.value] && nextId == old(nextId) + 1
      ensures old(UniqueKeys()) ==> UniqueKeys()
    {
      var oldRoles := ColorRolesOf(prefix, member.roles);
      var oldIds := set r | r in oldRoles :: r.id;
      assert oldIds == ColorIds(prefix, member.roles) by {
        forall r ensures r in oldRoles <==> r in member.roles && IsColorRole(prefix, r) {
          ColorRolesMember(prefix, member.roles, r);
        }
      }
      if color.None? {
        member.roles := WithoutIds(member.roles, oldIds);
        given := None;
      } else {
        var newRole := RoleForColor(color.value);
        member.roles := WithoutIds(member.roles, oldIds) + [newRole];
        given := Some(newRole);
      }
    }

    /**
     * `purgecolors`: every colour role whose id no member holds is deleted;
     * `deleted` counts the deletions.
     */
    method PurgeColors(members: seq<Member>) returns (deleted: nat)
      requires Valid()
      modifies this
      ensures Valid()
      ensures roles == Kept(old(roles), HeldIds(members))
      ensures deleted == |Purged(old(roles), HeldIds(members))|
      ensures nextId == old(nextId)
      ensures old(UniqueKeys()) ==> UniqueKeys()
    {
      var used := HeldIds(members);
      ghost var colorRoles := roles;
      deleted := Sweep(used);
      KeptValid(prefix, colorRoles, used, nextId);
      if DistinctKeys(prefix, colorRoles) {
        KeptDistinctKeys(prefix, colorRoles, used);
      }
    }

    /** The loop of `purgecolors` over a snapshot of the colour roles, given the ids members hold. */
    method Sweep(used: set<nat>) returns (deleted: nat)
      requires UniqueIds(roles)
      modifies this
      ensures roles == Kept(old(roles), used)
      ensures deleted == |Purged(old(roles), used)|
      ensures nextId == old(nextId)
    {
      var colorRoles := roles;
      deleted := 0;
      assert colorRoles[..0] == [] && colorRoles[0..] == colorRoles;
      for i := 0 to |colorRoles|
        invariant roles == SweepState(colorRoles, i, used)
        invariant deleted == |Purged(colorRoles[..i], used)|
        invariant nextId == old(nextId)
      {
        var gone := SweepRole(colorRoles, i, used);
        if gone {
          deleted := deleted + 1;
        }
      }
      assert colorRoles[..|colorRoles|] == colorRoles;
    }

    /** One iteration of the sweep: role `i` of the snapshot is deleted when no member holds it. */
    method SweepRole(snapshot: seq<Role>, i: nat, used: set<nat>) returns (gone: bool)
      requires UniqueIds(snapshot) && i < |snapshot|
      requires roles == SweepState(snapshot, i, used)
      modifies this
      ensures gone <==> snapshot[i].id !in used
      ensures |Purged(snapshot[..i + 1], used)| == |Purged(snapshot[..i], used)| + (if gone then 1 else 0)
      ensures roles == SweepState(snapshot, i + 1, used) && nextId == old(nextId)
    {
      var role := snapshot[i];
      SweepStep(snapshot, i, used, roles);
      gone := role.id !in used;
      if gone {
        // The server deletes the role.
        roles := WithoutIds(roles, {role.id});
      }
    }
  }

  /** The first role of `rs` whose key is `key`. */
  function FindKey(prefix: string, rs: seq<Role>, key: string): (r: Option<Role>)
    ensures r.Some? ==> r.value in rs && KeyForRole(prefix, r.value) == Some(key)
    ensures r.None? ==> forall i | 0 <= i < |rs| :: KeyForRole(prefix, rs[i]) != Some(key)
  {
    if rs == [] then None
    else if KeyForRole(prefix, rs[0]) == Some(key) then Some(rs[0])
    else
      var r := FindKey(prefix, rs[1..], key);
      assert r.None? ==> forall i | 1 <= i < |rs| :: rs[i] == rs[1..][i - 1];
      r
  }

  /** What the sweep deletes: exactly the unheld roles; a held role is never deleted. */
  lemma PurgeSpec(rs: seq<Role>, members: seq<Member>, m: Member, r: Role)
    requires m in members && r in m.roles
    ensures r !in Purged(rs, HeldIds(members))
    ensures |Purged(rs, HeldIds(members))| <= |rs|
  {
    var i :| 0 <= i < |members| && members[i] == m;
    assert r.id in HeldIds(members);
    PurgeMember(rs, HeldIds(members), r);
    KeptPurgedSplit(rs, HeldIds(members));
  }

  /**
   * Two members asking for the same new colour share one role; once both
   * reset, the sweep deletes it.
   */
  method SharedRoleScenario(c: Color)
  {
    var cache := new RoleCache("");
    var alice := new Member([]);
    var bob := new Member([]);
    ghost var first := cache.SetColor(alice, Some(c));
    SingleRoleReset(first.value);
    assert cache.roles == [first.value] && alice.roles == [first.value];
    assert cache.GetRole(Format(c)) == first;
    ghost var second := cache.SetColor(bob, Some(c));
    assert first == second && cache.roles == [first.value];
    ResetThenSweep(cache, alice, bob, first.value);
  }

  /** Both holders of the cache's only role reset their colour; the sweep then deletes that role. */
  method ResetThenSweep(cache: RoleCache, alice: Member, bob: Member, ghost r: Role)
    requires cache.Valid() && cache.prefix == "" && cache.roles == [r]
    requires alice != bob && alice.roles == [r] && bob.roles == [r]
    modifies cache, alice, bob
  {
    ghost var none := cache.SetColor(alice, None);
    none := cache.SetColor(bob, None);
    SingleRoleReset(r);
    var members := [alice, bob];
    NothingHeld([r], members);
    var deleted := cache.PurgeColors(members);
    assert deleted == 1 && cache.roles == [];
  }

  /** A member whose only role is a colour role is left with no roles by a reset. */
  lemma SingleRoleReset(r: Role)
    requires IsColorRole("", r)
    ensures AssignedRoles("", [], r) == [r] && ResetRoles("", [r]) == []
  {
    assert ColorIds("", [r]) == {r.id};
  }

  /** When no member holds a role, the sweep deletes them all. */
  lemma NothingHeld(rs: seq<Role>, members: seq<Member>)
    requires forall i | 0 <= i < |members| :: members[i].roles == []
    ensures HeldIds(members) == {}
    ensures Kept(rs, HeldIds(members)) == [] && |Purged(rs, HeldIds(members))| == |rs|
  {
    KeptPurgedSplit(rs, {});
    KeptNone(rs);
  }

  lemma {:induction false} KeptNone(rs: seq<Role>)
    ensures Kept(rs, {}) == []
  {
    if rs != [] {
      KeptNone(rs[1..]);
    }
  }
}
