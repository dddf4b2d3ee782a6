/** Role: the security roles and the authority string Spring Security
    checks against (`hasRole('TRAINER')` looks for "ROLE_TRAINER"). */
module Role {
  import opened Wrappers
  import opened JavaLang

  datatype Role = Trainer | Trainee

  const AUTHORITY_PREFIX: string := "ROLE_"

  /** Enum.name(): the constant's identifier. */
  function Name(role: Role): string {
    match role
    case Trainer => "TRAINER"
    case Trainee => "TRAINEE"
  }

  /** Enum.valueOf(name); None stands for the IllegalArgumentException. */
  function ValueOf(name: string): (r: Option<Role>)
    ensures r.Some? ==> Name(r.value) == name
  {
    if name == "TRAINER" then Some(Trainer)
    else if name == "TRAINEE" then Some(Trainee)
    else None
  }

  /** asAuthority: "ROLE_" + name(). Stripping the prefix gives back the
      role, so the authority identifies the role. */
  function AsAuthority(role: Role): (authority: string)
    ensures StartsWith(authority, AUTHORITY_PREFIX)
    ensures ValueOf(authority[|AUTHORITY_PREFIX|..]) == Some(role)
  {
    StartsWithConcat(AUTHORITY_PREFIX, Name(role));
    AUTHORITY_PREFIX + Name(role)
  }

  /** Distinct roles produce distinct authorities. */
  lemma AsAuthorityInjective(r1: Role, r2: Role)
    requires r1 != r2
    ensures AsAuthority(r1) != AsAuthority(r2)
  {
    assert ValueOf(AsAuthority(r1)[5..]) != ValueOf(AsAuthority(r2)[5..]);
  }

  lemma AuthorityValues()
    ensures AsAuthority(Trainer) == "ROLE_TRAINER"
    ensures AsAuthority(Trainee) == "ROLE_TRAINEE"
  {
  }
}
