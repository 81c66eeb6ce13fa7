/**
 * CustomUserDetailsService: loads a user by name and maps it to Spring
 * Security's user record. Names, passwords and flags are found by probing
 * the entity's getters, by name, in a fixed order; an object is therefore
 * seen only through its getters (Model.Obj).
 */
module CustomUserDetails {
  import opened Wrappers
  import opened JavaText
  import opened Model

  /** What loadUserByUsername throws. */
  datatype LoadError = UsernameNotFound | IllegalState

  /** Spring Security's User: the authorities are kept as a set. */
  datatype SpringUser = SpringUser(username: string, password: string, authorities: set<string>,
                                   disabled: bool, accountLocked: bool)

  const USERNAME_GETTERS: seq<string> := ["getUsername", "getLogin", "getEmail", "getUserName"]
  const PASSWORD_GETTERS: seq<string> := ["getPassword", "getPasswordHash", "getHashedPassword", "getPwdHash"]
  const ENABLED_GETTERS: seq<string> := ["isEnabled", "getEnabled", "isActive", "getActive", "isAccountEnabled"]
  const NON_LOCKED_GETTER: string := "isAccountNonLocked"
  const LOCKED_GETTERS: seq<string> := ["isLocked", "getLocked", "isAccountLocked"]
  const ROLE_NAME_GETTERS: seq<string> := ["getCodeName", "getCode", "getKey", "getRoleName", "getName"]
  const AUTHORITY_NAME_GETTERS: seq<string> := ["getCodeName", "getCode", "getKey", "getAuthority", "getValue", "getName"]
  const ROLE_PREFIX: string := "ROLE_"

  /* ---------- reflective reads ---------- */

  /** v.toString() for a non-null value. */
  function ToJavaString(v: Value): Option<string> {
    match v
    case Null => None
    case Str(s) => Some(s)
    case Bool(b) => Some(if b then "true" else "false")
    case Other(text) => Some(text)
  }

  /** invokeString: a missing getter or one that throws gives null. */
  function InvokeString(target: Obj, name: string): (r: Option<string>)
    ensures r.None? <==> name !in target || target[name].Threw? || target[name].v.Null?
    ensures r.Some? && target[name].v.Str? ==> r.value == target[name].v.s
  {
    if name !in target || target[name].Threw? then None else ToJavaString(target[name].v)
  }

  /** invokeBoolean: a Boolean as is, any other non-null value through
      Boolean.valueOf(toString()). */
  function InvokeBoolean(target: Obj, name: string): (r: Option<bool>)
    ensures r.None? <==> name !in target || target[name].Threw? || target[name].v.Null?
    ensures r.Some? && target[name].v.Bool? ==> r.value == target[name].v.b
    ensures r.Some? && !target[name].v.Bool? ==>
              (r.value <==> IsTrueIgnoringCase(ToJavaString(target[name].v).value))
  {
    if name !in target || target[name].Threw? then None
    else match target[name].v
      case Null => None
      case Bool(b) => Some(b)
      case Str(s) => Some(IsTrueIgnoringCase(s))
      case Other(text) => Some(IsTrueIgnoringCase(text))
  }

  /** A string is read as true only when it spells "true" in any case: "TRUE"
      and "True" give true, "yes", "1" and "truee" give false. */
  lemma BooleanValueOfExamples(target: Obj)
    requires target == map["a" := Returned(Str("TRUE")), "b" := Returned(Other("True")),
                            "c" := Returned(Str("yes")), "d" := Returned(Other("1")),
                            "e" := Returned(Str("truee")), "f" := Threw]
    ensures InvokeBoolean(target, "a") == Some(true) && InvokeBoolean(target, "b") == Some(true)
    ensures InvokeBoolean(target, "c") == Some(false) && InvokeBoolean(target, "d") == Some(false)
    ensures InvokeBoolean(target, "e") == Some(false)
    ensures InvokeBoolean(target, "f") == None && InvokeBoolean(target, "g") == None
  {
  }

  /** The condition firstNonNullString accepts a value on. */
  predicate Qualifies(v: Option<string>) {
    v.Some? && !IsBlank(v.value)
  }

  /* ---------- firstNonNullString ---------- */

  /** The value of the first getter, in order, giving a non-blank string. */
  function FirstNonBlank(target: Obj, names: seq<string>): Option<string> {
    if names == [] then None
    else if Qualifies(InvokeString(target, names[0])) then InvokeString(target, names[0])
    else FirstNonBlank(target, names[1..])
  }

  /** names[i] is the first getter giving a non-blank string. */
  predicate FirstQualifyingAt(target: Obj, names: seq<string>, i: int) {
    && 0 <= i < |names|
    && Qualifies(InvokeString(target, names[i]))
    && forall j :: 0 <= j < i ==> !Qualifies(InvokeString(target, names[j]))
  }

  lemma {:induction false} FirstNonBlankIsFirstMatch(target: Obj, names: seq<string>)
    ensures FirstNonBlank(target, names).None? <==>
            forall i :: 0 <= i < |names| ==> !Qualifies(InvokeString(target, names[i]))
    ensures FirstNonBlank(target, names).Some? ==>
            exists i :: FirstQualifyingAt(target, names, i) && InvokeString(target, names[i]) == FirstNonBlank(target, names)
  {
    if names != [] && !Qualifies(InvokeString(target, names[0])) {
      var rest := names[1..];
      FirstNonBlankIsFirstMatch(target, rest);
      if FirstNonBlank(target, rest).Some? {
        var i :| FirstQualifyingAt(target, rest, i) && InvokeString(target, rest[i]) == FirstNonBlank(target, rest);
        assert FirstQualifyingAt(target, names, i + 1);
      }
      assert forall i :: 1 <= i < |names| ==> names[i] == rest[i - 1];
    } else if names != [] {
      assert FirstQualifyingAt(target, names, 0);
    }
  }

  method FirstNonNullString(target: Obj, names: seq<string>) returns (r: Result<string, LoadError>)
    ensures r.Ok? ==> exists i :: FirstQualifyingAt(target, names, i) && InvokeString(target, names[i]) == Some(r.value)
    ensures r.Err? ==> r.error == IllegalState &&
                       forall i :: 0 <= i < |names| ==> !Qualifies(InvokeString(target, names[i]))
    ensures r == if FirstNonBlank(target, names).Some? then Ok(FirstNonBlank(target, names).value) else Err(IllegalState)
  {
    FirstNonBlankIsFirstMatch(target, names);
    var i := 0;
    while i < |names|
      invariant 0 <= i <= |names|
      invariant forall j :: 0 <= j < i ==> !Qualifies(InvokeString(target, names[j]))
      invariant FirstNonBlank(target, names) == FirstNonBlank(target, names[i..])
    {
      var val := InvokeString(target, names[i]);
      if val.Some? && !IsBlank(val.value) {
        assert FirstQualifyingAt(target, names, i);
        return Ok(val.value);
      }
      assert names[i..][1..] == names[i + 1..];
      i := i + 1;
    }
    return Err(IllegalState);
  }

  /* ---------- firstBoolean ---------- */

  /** The value of the first getter, in order, giving a boolean; the default
      when none does. */
  function FirstBooleanValue(target: Obj, default: Option<bool>, names: seq<string>): (r: Option<bool>)
    ensures default.Some? ==> r.Some?
  {
    if names == [] then default
    else if InvokeBoolean(target, names[0]).Some? then InvokeBoolean(target, names[0])
    else FirstBooleanValue(target, default, names[1..])
  }

  /** names[i] is the first getter giving a boolean. */
  predicate FirstBooleanAt(target: Obj, names: seq<string>, i: int) {
    && 0 <= i < |names|
    && InvokeBoolean(target, names[i]).Some?
    && forall j :: 0 <= j < i ==> InvokeBoolean(target, names[j]).None?
  }

  lemma {:induction false} FirstBooleanIsFirstMatch(target: Obj, default: Option<bool>, names: seq<string>)
    ensures (forall i :: 0 <= i < |names| ==> InvokeBoolean(target, names[i]).None?) ==>
            FirstBooleanValue(target, default, names) == default
    ensures (exists i :: 0 <= i < |names| && InvokeBoolean(target, names[i]).Some?) ==>
            exists i :: FirstBooleanAt(target, names, i) &&
                        FirstBooleanValue(target, default, names) == InvokeBoolean(target, names[i])
  {
    if names != [] && InvokeBoolean(target, names[0]).None? {
      var rest := names[1..];
      FirstBooleanIsFirstMatch(target, default, rest);
      assert forall i :: 1 <= i < |names| ==> names[i] == rest[i - 1];
      if exists i :: 0 <= i < |names| && InvokeBoolean(target, names[i]).Some? {
        var k :| 0 <= k < |names| && InvokeBoolean(target, names[k]).Some?;
        assert InvokeBoolean(target, rest[k - 1]).Some?;
        var i :| FirstBooleanAt(target, rest, i) &&
                 FirstBooleanValue(target, default, rest) == InvokeBoolean(target, rest[i]);
        assert FirstBooleanAt(target, names, i + 1);
      }
    } else if names != [] {
      assert FirstBooleanAt(target, names, 0);
    }
  }

  method FirstBoolean(target: Obj, default: Option<bool>, names: seq<string>) returns (r: Option<bool>)
    ensures r == FirstBooleanValue(target, default, names)
    ensures (forall i :: 0 <= i < |names| ==> InvokeBoolean(target, names[i]).None?) ==> r == default
  {
    FirstBooleanIsFirstMatch(target, default, names);
    var i := 0;
    while i < |names|
      invariant 0 <= i <= |names|
      invariant forall j :: 0 <= j < i ==> InvokeBoolean(target, names[j]).None?
      invariant FirstBooleanValue(target, default, names) == FirstBooleanValue(target, default, names[i..])
    {
      var val := InvokeBoolean(target, names[i]);
      if val.Some? {
        return val;
      }
      assert names[i..][1..] == names[i + 1..];
      i := i + 1;
    }
    return default;
  }

  /* ---------- the flags ---------- */

  /** resolveEnabled: the first enabled-style getter, true when there is none. */
  function EnabledValue(target: Obj): bool {
    FirstBooleanValue(target, Some(true), ENABLED_GETTERS).value
  }

  /** resolveLocked: isAccountNonLocked decides when it answers; otherwise
      the first locked-style getter; otherwise not locked. */
  function LockedValue(target: Obj): bool {
    var nonLocked := InvokeBoolean(target, NON_LOCKED_GETTER);
    if nonLocked.Some? then !nonLocked.value
    else
      var locked := FirstBooleanValue(target, None, LOCKED_GETTERS);
      if locked.Some? then locked.value else false
  }

  method ResolveEnabled(target: Obj) returns (enabled: bool)
    ensures enabled == EnabledValue(target)
    ensures (forall i :: 0 <= i < |ENABLED_GETTERS| ==> InvokeBoolean(target, ENABLED_GETTERS[i]).None?) ==> enabled
  {
    var v := FirstBoolean(target, Some(true), ENABLED_GETTERS);
    enabled := v.value;
  }

  method ResolveLocked(target: Obj) returns (locked: bool)
    ensures locked == LockedValue(target)
    ensures InvokeBoolean(target, NON_LOCKED_GETTER).Some? ==>
              locked == !InvokeBoolean(target, NON_LOCKED_GETTER).value
    ensures InvokeBoolean(target, NON_LOCKED_GETTER).None? ==>
              (locked <==> exists i :: FirstBooleanAt(target, LOCKED_GETTERS, i) &&
                                       InvokeBoolean(target, LOCKED_GETTERS[i]) == Some(true))
  {
    FirstBooleanIsFirstMatch(target, None, LOCKED_GETTERS);
    var nonLocked := InvokeBoolean(target, NON_LOCKED_GETTER);
    if nonLocked.Some? {
      return !nonLocked.value;
    }
    var l := FirstBoolean(target, None, LOCKED_GETTERS);
    if l.Some? {
      return l.value;
    }
    return false;
  }

  /* ---------- the authorities ---------- */

  /** Maps every object to prefix + its first non-blank name; None when one
      of them has none (the IllegalStateException ends the stream). */
  function Names(objs: seq<Obj>, getters: seq<string>, prefix: string): (r: Option<seq<string>>)
    ensures r.Some? <==> forall i :: 0 <= i < |objs| ==> FirstNonBlank(objs[i], getters).Some?
    ensures r.Some? ==> |r.value| == |objs| &&
                        forall i :: 0 <= i < |objs| ==> r.value[i] == prefix + FirstNonBlank(objs[i], getters).value
  {
    if objs == [] then Some([])
    else
      var name := FirstNonBlank(objs[0], getters);
      var rest := Names(objs[1..], getters, prefix);
      assert forall i :: 1 <= i < |objs| ==> objs[i] == objs[1..][i - 1];
      if name.None? || rest.None? then None
      else Some([prefix + name.value] + rest.value)
  }

  /** safeStream(r.getAuthorities()): a null collection is empty. */
  function RoleAuthorities(role: Role): seq<Obj> {
    if role.authorities.None? then [] else role.authorities.value
  }

  /** flatMap over the roles' authorities, role by role. */
  function AllAuthorities(roles: seq<Role>): seq<Obj> {
    if roles == [] then [] else RoleAuthorities(roles[0]) + AllAuthorities(roles[1..])
  }

  function RoleGetters(roles: seq<Role>): seq<Obj> {
    seq(|roles|, i requires 0 <= i < |roles| => roles[i].getters)
  }

  /** Every role has a non-blank name. */
  predicate AllRolesNamed(roles: seq<Role>) {
    forall i :: 0 <= i < |roles| ==> FirstNonBlank(roles[i].getters, ROLE_NAME_GETTERS).Some?
  }

  /** Every authority of every role has a non-blank name. */
  predicate AllAuthoritiesNamed(roles: seq<Role>) {
    forall j :: 0 <= j < |AllAuthorities(roles)| ==> FirstNonBlank(AllAuthorities(roles)[j], AUTHORITY_NAME_GETTERS).Some?
  }

  /** The granted authorities in stream order: "ROLE_" + each role's name,
      then the name of every authority of every role; a null role
      collection gives none. */
  function AuthorityList(roles: Option<seq<Role>>): (r: Option<seq<string>>)
    ensures roles.None? ==> r == Some([])
    ensures roles.Some? ==> (r.Some? <==> AllRolesNamed(roles.value) && AllAuthoritiesNamed(roles.value))
    ensures roles.Some? && r.Some? ==>
              var rs := roles.value;
              && |r.value| == |rs| + |AllAuthorities(rs)|
              && (forall i :: 0 <= i < |rs| ==>
                    r.value[i] == ROLE_PREFIX + FirstNonBlank(rs[i].getters, ROLE_NAME_GETTERS).value)
              && forall j :: 0 <= j < |AllAuthorities(rs)| ==>
                    r.value[|rs| + j] == FirstNonBlank(AllAuthorities(rs)[j], AUTHORITY_NAME_GETTERS).value
  {
    if roles.None? then Some([])
    else
      var roleNames := Names(RoleGetters(roles.value), ROLE_NAME_GETTERS, ROLE_PREFIX);
      var authorityNames := Names(AllAuthorities(roles.value), AUTHORITY_NAME_GETTERS, "");
      assert forall i :: 0 <= i < |roles.value| ==> RoleGetters(roles.value)[i] == roles.value[i].getters;
      if roleNames.None? || authorityNames.None? then
        assert !AllRolesNamed(roles.value) || !AllAuthoritiesNamed(roles.value) by {
          if roleNames.None? {
            var i :| 0 <= i < |roles.value| && FirstNonBlank(RoleGetters(roles.value)[i], ROLE_NAME_GETTERS).None?;
            assert FirstNonBlank(roles.value[i].getters, ROLE_NAME_GETTERS).None?;
          }
        }
        None
      else Some(roleNames.value + authorityNames.value)
  }

  /** Every authority of every role reaches the flattened stream. */
  lemma {:induction false} AllAuthoritiesContains(roles: seq<Role>, i: int, a: Obj)
    requires 0 <= i < |roles| && a in RoleAuthorities(roles[i])
    ensures a in AllAuthorities(roles)
  {
    if i > 0 {
      AllAuthoritiesContains(roles[1..], i - 1, a);
    }
  }

  /* ---------- loadUserByUsername ---------- */

  /** The user entity as reflection sees it: Lombok getters for its fields. */
  function UserObject(u: User): Obj {
    map["getUsername" := Returned(Str(u.username)), "getPasswordHash" := Returned(Str(u.passwordHash))]
  }

  function LoadSpec(users: map<string, User>, username: string): Result<SpringUser, LoadError> {
    if username !in users then Err(UsernameNotFound)
    else
      var u := users[username];
      var authorities := AuthorityList(u.roles);
      var name := FirstNonBlank(UserObject(u), USERNAME_GETTERS);
      var password := FirstNonBlank(UserObject(u), PASSWORD_GETTERS);
      if authorities.None? || name.None? || password.None? then Err(IllegalState)
      else Ok(SpringUser(name.value, password.value, set a | a in authorities.value,
                         !EnabledValue(UserObject(u)), LockedValue(UserObject(u))))
  }

  method LoadUserByUsername(users: map<string, User>, username: string) returns (r: Result<SpringUser, LoadError>)
    ensures r == LoadSpec(users, username)
  {
    if username !in users {
      return Err(UsernameNotFound);
    }
    var u := users[username];
    var authorities := AuthorityList(u.roles);
    if authorities.None? {
      return Err(IllegalState);
    }
    var target := UserObject(u);
    var name := FirstNonNullString(target, USERNAME_GETTERS);
    if name.Err? {
      return Err(name.error);
    }
    var password := FirstNonNullString(target, PASSWORD_GETTERS);
    if password.Err? {
      return Err(password.error);
    }
    var enabled := ResolveEnabled(target);
    var locked := ResolveLocked(target);
    return Ok(SpringUser(name.value, password.value, set a | a in authorities.value, !enabled, locked));
  }

  /* ---------- what the entity user gives ---------- */

  /** The user entity has none of the enabled or locked getters, so every
      loaded user is enabled and not locked. */
  lemma EntityUserIsEnabledAndUnlocked(users: map<string, User>, username: string)
    ensures LoadSpec(users, username).Ok? ==>
              !LoadSpec(users, username).value.disabled && !LoadSpec(users, username).value.accountLocked
  {
    if username in users {
      var target := UserObject(users[username]);
      FirstBooleanIsFirstMatch(target, Some(true), ENABLED_GETTERS);
      FirstBooleanIsFirstMatch(target, None, LOCKED_GETTERS);
    }
  }

  /** A stored user with a non-blank name and password hash loads as that
      name and hash, enabled and not locked, with the role and authority names
      as its authorities. */
  lemma EntityUserLoads(users: map<string, User>, username: string)
    requires username in users
    requires !IsBlank(users[username].username) && !IsBlank(users[username].passwordHash)
    requires AuthorityList(users[username].roles).Some?
    ensures var u := users[username];
            LoadSpec(users, username) ==
              Ok(SpringUser(u.username, u.passwordHash, set a | a in AuthorityList(u.roles).value, false, false))
  {
    var u := users[username];
    var target := UserObject(u);
    assert FirstNonBlank(target, USERNAME_GETTERS) == Some(u.username);
    assert FirstNonBlank(target, PASSWORD_GETTERS[1..]) == Some(u.passwordHash);
    FirstBooleanIsFirstMatch(target, Some(true), ENABLED_GETTERS);
    FirstBooleanIsFirstMatch(target, None, LOCKED_GETTERS);
  }

  /** An unknown name, and only an unknown name, is UsernameNotFoundException;
      every other failure is IllegalStateException. */
  lemma OnlyUnknownNamesAreNotFound(users: map<string, User>, username: string)
    ensures LoadSpec(users, username) == Err(UsernameNotFound) <==> username !in users
    ensures LoadSpec(users, username).Err? && username in users ==>
              LoadSpec(users, username).error == IllegalState
  {
  }

  /** A blank password hash cannot be mapped: none of the password getters
      gives a non-blank string. */
  lemma BlankPasswordIsIllegal(users: map<string, User>, username: string)
    requires username in users && IsBlank(users[username].passwordHash)
    ensures LoadSpec(users, username) == Err(IllegalState)
  {
    var target := UserObject(users[username]);
    FirstNonBlankIsFirstMatch(target, PASSWORD_GETTERS);
  }

  /** Every role contributes its "ROLE_" name, and every authority of every
      role its own name. */
  lemma RolesAndAuthoritiesAreGranted(roles: seq<Role>, i: int, a: Obj)
    requires AuthorityList(Some(roles)).Some?
    requires 0 <= i < |roles| && a in RoleAuthorities(roles[i])
    ensures ROLE_PREFIX + FirstNonBlank(roles[i].getters, ROLE_NAME_GETTERS).value in AuthorityList(Some(roles)).value
    ensures FirstNonBlank(a, AUTHORITY_NAME_GETTERS).Some?
    ensures FirstNonBlank(a, AUTHORITY_NAME_GETTERS).value in AuthorityList(Some(roles)).value
  {
    var l := AuthorityList(Some(roles)).value;
    assert l[i] == ROLE_PREFIX + FirstNonBlank(roles[i].getters, ROLE_NAME_GETTERS).value;
    AllAuthoritiesContains(roles, i, a);
    var all := AllAuthorities(roles);
    var j :| 0 <= j < |all| && all[j] == a;
    assert l[|roles| + j] == FirstNonBlank(a, AUTHORITY_NAME_GETTERS).value;
  }
}
