/** The scope claim of an access token: a space-delimited list in which every
    role of the user contributes `ROLE_<name>` followed immediately by the
    names of that role's permissions, roles in their iteration order. */
module ScopeBuilder {
  import opened Wrappers

  datatype Permission = Permission(name: string)

  /** A role; its permission collection may be null. */
  datatype Role = Role(name: string, permissions: Option<seq<Permission>>)

  /** Prefix that marks a role token as a granted authority. */
  const RolePrefix := "ROLE_"

  /** The delimiter of the scope string. */
  const Delimiter := ' '

  /** A null collection and an empty one both contribute nothing. */
  function Elements<T>(c: Option<seq<T>>): seq<T> {
    if c.Some? then c.value else []
  }

  function PermissionNames(ps: seq<Permission>): seq<string> {
    seq(|ps|, k requires 0 <= k < |ps| => ps[k].name)
  }

  /** The tokens one role contributes: its prefixed name, then its permissions. */
  function RoleTokens(r: Role): seq<string> {
    [RolePrefix + r.name] + PermissionNames(Elements(r.permissions))
  }

  /** The tokens of a list of roles, role by role in iteration order. */
  function ScopeTokens(roles: seq<Role>): seq<string> {
    if roles == [] then [] else RoleTokens(roles[0]) + ScopeTokens(roles[1..])
  }

  /** What a StringJoiner with delimiter " " and no prefix or suffix yields. */
  function Join(parts: seq<string>): string {
    if parts == [] then ""
    else if |parts| == 1 then parts[0]
    else parts[0] + [Delimiter] + Join(parts[1..])
  }

  /** The scope string of a user whose role collection may be null. */
  function Scope(roles: Option<seq<Role>>): string {
    Join(ScopeTokens(Elements(roles)))
  }

  /** The segments of `s` between delimiters, empty segments included. */
  function Split(s: string): (r: seq<string>)
    ensures |r| >= 1
  {
    if s == [] then [""]
    else
      var rest := Split(s[1..]);
      if s[0] == Delimiter then [""] + rest
      else [[s[0]] + rest[0]] + rest[1..]
  }

  predicate SpaceFree(s: string) {
    Delimiter !in s
  }

  /** No role name and no permission name contains the delimiter. */
  predicate NamesSpaceFree(roles: seq<Role>) {
    forall k :: 0 <= k < |roles| ==>
      SpaceFree(roles[k].name) &&
      forall p :: p in Elements(roles[k].permissions) ==> SpaceFree(p.name)
  }

  /** The scope builder: a StringJoiner filled by nested loops over the
      roles and, for each role, its permissions. */
  method BuildScope(roles: Option<seq<Role>>) returns (scope: string)
    ensures scope == Scope(roles)
  {
    var joiner: seq<string> := [];
    if roles.Some? && roles.value != [] {
      var rs := roles.value;
      var i := 0;
      while i < |rs|
        invariant 0 <= i <= |rs|
        invariant joiner == ScopeTokens(rs[..i])
      {
        var role := rs[i];
        joiner := joiner + [RolePrefix + role.name];
        if role.permissions.Some? && role.permissions.value != [] {
          var ps := role.permissions.value;
          var j := 0;
          while j < |ps|
            invariant 0 <= j <= |ps|
            invariant joiner == ScopeTokens(rs[..i]) + [RolePrefix + role.name] + PermissionNames(ps[..j])
          {
            assert PermissionNames(ps[..j + 1]) == PermissionNames(ps[..j]) + [ps[j].name];
            joiner := joiner + [ps[j].name];
            j := j + 1;
          }
          assert ps[..j] == ps;
        }
        assert joiner == ScopeTokens(rs[..i]) + RoleTokens(role);
        assert rs[..i + 1] == rs[..i] + [role];
        ScopeTokensSnoc(rs[..i], role);
        i := i + 1;
      }
      assert rs[..i] == rs;
    }
    scope := Join(joiner);
  }

  /** The tokens of two role lists in a row are the tokens of each, in order. */
  lemma {:induction false} ScopeTokensAppend(a: seq<Role>, b: seq<Role>)
    ensures ScopeTokens(a + b) == ScopeTokens(a) + ScopeTokens(b)
  {
    if a == [] {
      assert a + b == b;
    } else {
      assert (a + b)[1..] == a[1..] + b;
      ScopeTokensAppend(a[1..], b);
    }
  }

  lemma {:induction false} ScopeTokensSnoc(roles: seq<Role>, r: Role)
    ensures ScopeTokens(roles + [r]) == ScopeTokens(roles) + RoleTokens(r)
  {
    ScopeTokensAppend(roles, [r]);
    assert [r][1..] == [];
    assert ScopeTokens([r]) == RoleTokens(r) + ScopeTokens([]);
  }

  /** Role `i` contributes its prefixed name followed immediately by its
      permission names, after every earlier role and before every later one. */
  lemma {:induction false} RoleTokensInPlace(roles: seq<Role>, i: nat)
    requires i < |roles|
    ensures ScopeTokens(roles) == ScopeTokens(roles[..i]) + RoleTokens(roles[i]) + ScopeTokens(roles[i + 1..])
  {
    var before, r, after := roles[..i], roles[i], roles[i + 1..];
    assert roles == (before + [r]) + after;
    ScopeTokensAppend(before + [r], after);
    ScopeTokensSnoc(before, r);
  }

  /** The scope is empty exactly when the role collection is null or empty. */
  lemma ScopeEmptyIffNoRoles(roles: Option<seq<Role>>)
    ensures Scope(roles) == "" <==> Elements(roles) == []
  {
    var rs := Elements(roles);
    if rs != [] {
      var ts := ScopeTokens(rs);
      assert ts[0] == RolePrefix + rs[0].name;
      assert |ts| == 1 || Join(ts) == ts[0] + [Delimiter] + Join(ts[1..]);
    }
  }

  /** Splitting at the delimiter undoes joining, when no part holds one. */
  lemma {:induction false} SplitJoin(parts: seq<string>)
    requires parts != []
    requires forall k :: 0 <= k < |parts| ==> SpaceFree(parts[k])
    ensures Split(Join(parts)) == parts
  {
    if |parts| == 1 {
      SplitSpaceFree(parts[0]);
    } else {
      SplitJoin(parts[1..]);
      SplitAtFirstDelimiter(parts[0], Join(parts[1..]));
    }
  }

  lemma {:induction false} SplitSpaceFree(a: string)
    requires SpaceFree(a)
    ensures Split(a) == [a]
  {
    if a != [] {
      assert SpaceFree(a[1..]) by { assert forall c :: c in a[1..] ==> c in a; }
      SplitSpaceFree(a[1..]);
      assert [a[0]] + a[1..] == a;
    }
  }

  lemma {:induction false} SplitAtFirstDelimiter(a: string, b: string)
    requires SpaceFree(a)
    ensures Split(a + [Delimiter] + b) == [a] + Split(b)
  {
    var s := a + [Delimiter] + b;
    if a == [] {
      assert s[1..] == b;
    } else {
      assert s[1..] == a[1..] + [Delimiter] + b;
      SplitAtFirstDelimiter(a[1..], b);
      assert [a[0]] + a[1..] == a;
    }
  }

  lemma {:induction false} ScopeTokensSpaceFree(roles: seq<Role>)
    requires NamesSpaceFree(roles)
    ensures forall k :: 0 <= k < |ScopeTokens(roles)| ==> SpaceFree(ScopeTokens(roles)[k])
  {
    if roles != [] {
      var r := roles[0];
      assert SpaceFree(r.name);
      assert SpaceFree(RolePrefix);
      assert SpaceFree(RolePrefix + r.name);
      var ps := Elements(r.permissions);
      assert forall k :: 0 <= k < |ps| ==> ps[k] in ps;
      assert NamesSpaceFree(roles[1..]) by {
        forall k | 0 <= k < |roles[1..]|
          ensures SpaceFree(roles[1..][k].name)
          ensures forall p :: p in Elements(roles[1..][k].permissions) ==> SpaceFree(p.name)
        {
          assert roles[1..][k] == roles[k + 1];
        }
      }
      ScopeTokensSpaceFree(roles[1..]);
    }
  }

  /** The scope string is unambiguous: for a user with at least one role and
      no delimiter inside any name, splitting it at spaces recovers exactly
      the role and permission tokens in order. */
  lemma ScopeRoundTrip(roles: Option<seq<Role>>)
    requires Elements(roles) != []
    requires NamesSpaceFree(Elements(roles))
    ensures Split(Scope(roles)) == ScopeTokens(Elements(roles))
  {
    ScopeTokensSpaceFree(Elements(roles));
    SplitJoin(ScopeTokens(Elements(roles)));
  }

  lemma JoinCons(first: string, rest: seq<string>)
    requires rest != []
    ensures Join([first] + rest) == first + [Delimiter] + Join(rest)
  {
    assert ([first] + rest)[1..] == rest;
  }

  lemma ExampleTokens(admin: Role, viewer: Role)
    requires admin == Role("ADMIN", Some([Permission("USER_CREATE"), Permission("USER_DELETE")]))
    requires viewer == Role("VIEWER", None)
    ensures ScopeTokens([admin, viewer]) == ["ROLE_ADMIN"] + (["USER_CREATE"] + (["USER_DELETE"] + ["ROLE_VIEWER"]))
  {
    assert RolePrefix + viewer.name == "ROLE_VIEWER";
    assert PermissionNames(Elements(viewer.permissions)) == [];
    assert RoleTokens(viewer) == ["ROLE_VIEWER"] + [];
    assert [admin, viewer][1..] == [viewer];
    assert ScopeTokens([viewer]) == ["ROLE_VIEWER"];
    assert RolePrefix + admin.name == "ROLE_ADMIN";
    assert PermissionNames(Elements(admin.permissions)) == ["USER_CREATE", "USER_DELETE"];
    assert RoleTokens(admin) == ["ROLE_ADMIN"] + ["USER_CREATE", "USER_DELETE"];
  }

  lemma ExampleLiteral()
    ensures "ROLE_ADMIN" + " " + ("USER_CREATE" + " " + ("USER_DELETE" + " " + "ROLE_VIEWER"))
      == "ROLE_ADMIN USER_CREATE USER_DELETE ROLE_VIEWER"
  {
  }

  lemma ExampleJoin(s: string)
    requires s == Join(["ROLE_ADMIN"] + (["USER_CREATE"] + (["USER_DELETE"] + ["ROLE_VIEWER"])))
    ensures s == "ROLE_ADMIN USER_CREATE USER_DELETE ROLE_VIEWER"
  {
    JoinCons("USER_DELETE", ["ROLE_VIEWER"]);
    JoinCons("USER_CREATE", ["USER_DELETE"] + ["ROLE_VIEWER"]);
    JoinCons("ROLE_ADMIN", ["USER_CREATE"] + (["USER_DELETE"] + ["ROLE_VIEWER"]));
    assert [Delimiter] == " ";
    assert s == "ROLE_ADMIN" + " " + ("USER_CREATE" + " " + ("USER_DELETE" + " " + "ROLE_VIEWER"));
    ExampleLiteral();
  }

  /** A role with two permissions followed by a role without any. */
  lemma ScopeExample()
    ensures Scope(Some([
      Role("ADMIN", Some([Permission("USER_CREATE"), Permission("USER_DELETE")])),
      Role("VIEWER", None)])) == "ROLE_ADMIN USER_CREATE USER_DELETE ROLE_VIEWER"
  {
    var roles := [Role("ADMIN", Some([Permission("USER_CREATE"), Permission("USER_DELETE")])), Role("VIEWER", None)];
    ExampleTokens(roles[0], roles[1]);
    assert roles == [roles[0], roles[1]];
    ExampleJoin(Scope(Some(roles)));
  }
}
