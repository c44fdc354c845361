/** User provisioning (shared/user_provisioning.py) over the user repository
    (shared/repositories/users.py): find the user by Entra id, then by email,
    else create one; the first user becomes the platform administrator, later
    ones join the organisation of their email domain.

    The repository is a map from email to user and a map from email to
    organisation; the latter stands for the rows userperm:<email>:<org>, and is
    looked up the way the source does it, as the first row of a range of row
    keys. Organisations come and go between calls, so each call gets its own
    directory from domain to organisation id. "" stands for an absent Entra id
    or name. Timestamps (last login, last sync) are left out. */
module Provisioning {
  import opened Wrappers
  import opened Strings
  import opened KeyOrder

  datatype Error = InvalidEmail | NoOrganization | AlreadyExists

  datatype UserType = Platform | Org

  /** `serial` is bookkeeping: how many users were created before this one. */
  datatype User = User(userType: UserType, isAdmin: bool, displayName: string, entraId: string, serial: nat)

  /** A colon would end the email inside a row key. */
  type Email = e: string | ':' !in e witness ""

  datatype Store = Store(users: map<Email, User>, orgOf: map<Email, string>, created: nat)

  datatype Request = Request(email: Email, entraId: string, name: string)

  datatype Provisioned = Provisioned(userType: UserType, isAdmin: bool, orgId: Option<string>, wasCreated: bool)

  /** get_organization_by_domain after str.lower; ids are never empty. */
  type Directory = string -> Option<string>

  ghost predicate RealIds(orgs: Directory) {
    forall d :: orgs(d).Some? ==> orgs(d).value != ""
  }

  predicate ValidEmail(email: string) {
    email != "" && '@' in email
  }

  lemma {:induction false} AtSplits(email: string)
    requires '@' in email
    ensures |Split(email, '@')| >= 2
  {
    if email[0] != '@' {
      AtSplits(email[1..]);
    }
  }

  /** The text between the first and the second '@'. */
  function DomainOf(email: string): string
    requires '@' in email
  {
    AtSplits(email);
    Split(email, '@')[1]
  }

  function DisplayName(req: Request): string {
    if req.name != "" then req.name else Split(req.email, '@')[0]
  }

  const EMPTY: Store := Store(map[], map[], 0)

  // --------------------------------------------------------- invariant

  /** Serial numbers and Entra ids each belong to one user. */
  ghost predicate NoneShared(users: map<Email, User>) {
    && (forall e, f :: e in users && f in users && users[e].serial == users[f].serial ==> e == f)
    && (forall e, f :: e in users && f in users && users[e].entraId == users[f].entraId != "" ==> e == f)
  }

  /** The first user is the administrator, the others belong to organisations. */
  ghost predicate RolesOk(u: User) {
    (u.serial == 0 <==> u.isAdmin) && (u.serial == 0 <==> u.userType == Platform)
  }

  ghost predicate FirstExists(users: map<Email, User>) {
    exists e :: e in users && users[e].serial == 0
  }

  ghost predicate UsersOk(users: map<Email, User>, created: nat) {
    && (forall e :: e in users ==> ValidEmail(e) && users[e].serial < created && RolesOk(users[e]))
    && NoneShared(users)
    && (created > 0 <==> users != map[])
    && (created > 0 ==> FirstExists(users))
  }

  ghost predicate OrgsOk(orgOf: map<Email, string>, users: map<Email, User>) {
    forall e :: e in orgOf ==> e in users && orgOf[e] != ""
  }

  ghost predicate Valid(s: Store) {
    UsersOk(s.users, s.created) && OrgsOk(s.orgOf, s.users)
  }

  // ---------------------------------------------------- repository steps

  ghost predicate HasEntra(s: Store, e: string, entraId: string) {
    e in s.users && s.users[e].entraId == entraId
  }

  ghost predicate SomeoneHas(s: Store, entraId: string) {
    entraId != "" && exists e :: HasEntra(s, e, entraId)
  }

  ghost function Holder(s: Store, entraId: string): (e: string)
    requires SomeoneHas(s, entraId)
    ensures HasEntra(s, e, entraId)
  {
    var e :| HasEntra(s, e, entraId); e
  }

  // the organisation lookup

  /** Row keys without the "userperm:" they all begin with. */
  function OrgKey(e: string, orgId: string): Key {
    Codes(e + ":" + orgId)
  }

  /** get_user_org_id's range: from email: up to email~. */
  predicate Listed(orgOf: map<Email, string>, email: string, e: string) {
    e in orgOf && InRange(OrgKey(e, orgOf[e]), Codes(email) + Codes(":"), Codes(email) + Codes("~"))
  }

  /** Another email whose row falls into the range of this one. */
  predicate Continues(e: string, email: string) {
    |email| < |e| && e[..|email|] == email && ';' <= e[|email|] <= '}'
  }

  /** Only then does the lookup see somebody else's row. */
  ghost predicate Shadowed(orgOf: map<Email, string>, email: string) {
    email !in orgOf && exists e :: e in orgOf && Continues(e, email)
  }

  lemma FrontOfCodes(text: string, front: string)
    requires |front| <= |text|
    ensures Codes(text)[..|front|] == Codes(front) <==> text[..|front|] == front
  {
    if Codes(text)[..|front|] == Codes(front) {
      forall i | 0 <= i < |front| ensures text[i] == front[i] {
        assert Codes(text)[..|front|][i] == Codes(front)[i];
      }
    }
  }

  lemma ListedIff(orgOf: map<Email, string>, email: Email, e: Email)
    requires e in orgOf
    ensures Listed(orgOf, email, e) <==> e == email || Continues(e, email)
  {
    var text := e + ":" + orgOf[e];
    var n := |email|;
    TildeRangeIff(Codes(email), Codes(text));
    if n < |text| {
      FrontOfCodes(text, email);
    }
    assert text[|e|] == ':';
    if n > |e| {
      assert email[|e|] in email;
    } else {
      assert text[..n] == e[..n];
      assert n < |e| ==> e[n] in e;
    }
  }

  /** An own row comes before everybody else's in the range. */
  lemma OwnRowIsFirst(email: Email, orgId: string, e: Email, otherId: string)
    requires Continues(e, email)
    ensures Less(OrgKey(email, orgId), OrgKey(e, otherId))
  {
    var a, b := OrgKey(email, orgId), OrgKey(e, otherId);
    assert a[..|email|] == Codes(email);
    assert b[..|email|] == Codes(e[..|email|]);
    assert a[|email|] == ':' as int && b[|email|] == e[|email|] as int;
    LessIff(a, b);
  }

  ghost predicate IsFirst(orgOf: map<Email, string>, email: string, e: string) {
    Listed(orgOf, email, e) && forall f :: Listed(orgOf, email, f) ==> !Less(OrgKey(f, orgOf[f]), OrgKey(e, orgOf[e]))
  }

  lemma FirstPart(e: Email, orgId: string)
    ensures Split(e + ":" + orgId, ':')[0] == e
  {
    SplitAfter(e, ":" + orgId, ':');
    assert e + ":" + orgId == e + (":" + orgId) && e + "" == e;
  }

  lemma OrgKeyIsInjective(e: Email, orgId: string, f: Email, otherId: string)
    requires OrgKey(e, orgId) == OrgKey(f, otherId)
    ensures e == f
  {
    var a, b := e + ":" + orgId, f + ":" + otherId;
    assert forall i :: 0 <= i < |a| ==> Codes(a)[i] == a[i] as int;
    assert |a| == |b|;
    forall i | 0 <= i < |a| ensures a[i] == b[i] {
      assert Codes(a)[i] == Codes(b)[i];
    }
    assert a == b;
    FirstPart(e, orgId);
    FirstPart(f, otherId);
  }

  lemma FirstIsUnique(orgOf: map<Email, string>, email: Email, e: string, f: string)
    requires IsFirst(orgOf, email, e) && IsFirst(orgOf, email, f)
    ensures e == f
  {
    LessIsTotal(OrgKey(e, orgOf[e]), OrgKey(f, orgOf[f]));
    OrgKeyIsInjective(e, orgOf[e], f, orgOf[f]);
  }

  lemma {:induction false} SomeFirst(orgOf: map<Email, string>, email: Email, among: set<string>) returns (e: string)
    requires {} < among <= orgOf.Keys && forall f :: f in among ==> Listed(orgOf, email, f)
    ensures e in among && forall f :: f in among ==> !Less(OrgKey(f, orgOf[f]), OrgKey(e, orgOf[e]))
  {
    var x: Email :| x in among;
    if among == {x} {
      e := x;
      LessIsIrreflexive(OrgKey(e, orgOf[e]));
    } else {
      var rest := SomeFirst(orgOf, email, among - {x});
      LessIsIrreflexive(OrgKey(x, orgOf[x]));
      if Less(OrgKey(x, orgOf[x]), OrgKey(rest, orgOf[rest])) {
        e := x;
        forall f | f in among && Less(OrgKey(f, orgOf[f]), OrgKey(e, orgOf[e])) ensures false {
          LessIsTransitive(OrgKey(f, orgOf[f]), OrgKey(e, orgOf[e]), OrgKey(rest, orgOf[rest]));
        }
      } else {
        e := rest;
      }
    }
  }

  lemma FirstExistsIff(orgOf: map<Email, string>, email: Email)
    ensures (exists e :: IsFirst(orgOf, email, e)) <==> exists e :: Listed(orgOf, email, e)
  {
    var listed := set e | e in orgOf && Listed(orgOf, email, e);
    if e :| Listed(orgOf, email, e) {
      assert e in listed;
      var first := SomeFirst(orgOf, email, listed);
      assert IsFirst(orgOf, email, first);
    }
  }

  /** get_user_org_id: the organisation of the first row in the range. That is
      the email's own, or its absence, exactly when it has one or no stored
      email continues it. */
  ghost function OrgLookup(orgOf: map<Email, string>, email: Email): (orgId: Option<string>)
    ensures orgId == (if email in orgOf then Some(orgOf[email]) else None) <==> !Shadowed(orgOf, email)
    ensures orgId.None? <==> email !in orgOf && !Shadowed(orgOf, email)
    ensures orgId.Some? ==> exists e :: IsFirst(orgOf, email, e) && orgId.value == orgOf[e]
  {
    OrgLookupFacts(orgOf, email);
    if e :| IsFirst(orgOf, email, e) then Some(orgOf[e]) else None
  }

  lemma OrgLookupFacts(orgOf: map<Email, string>, email: Email)
    ensures email in orgOf ==> forall e :: IsFirst(orgOf, email, e) ==> e == email
    ensures (exists e :: IsFirst(orgOf, email, e)) <==> email in orgOf || Shadowed(orgOf, email)
  {
    FirstExistsIff(orgOf, email);
    forall e | e in orgOf ensures Listed(orgOf, email, e) <==> e == email || Continues(e, email) {
      ListedIff(orgOf, email, e);
    }
    forall e | IsFirst(orgOf, email, e) && email in orgOf ensures e == email {
      if e != email {
        OwnRowIsFirst(email, orgOf[email], e, orgOf[e]);
      }
    }
    if e :| e in orgOf && Continues(e, email) {
      assert Listed(orgOf, email, e);
    }
  }

  function Created(s: Store, email: Email, name: string, userType: UserType, isAdmin: bool, entraId: string): Store {
    Store(s.users[email := User(userType, isAdmin, name, entraId, s.created)], s.orgOf, s.created + 1)
  }

  function Assigned(s: Store, email: Email, orgId: string): Store {
    s.(orgOf := s.orgOf[email := orgId])
  }

  function Backfilled(s: Store, email: Email, entraId: string): Store
    requires email in s.users
  {
    s.(users := s.users[email := s.users[email].(entraId := entraId)])
  }

  /** update_user_profile. A new address means a new row: inserted first,
      which fails if the address is taken, then the old one is deleted and the
      organisation moved over. */
  ghost function ProfileUpdated(s: Store, oldEmail: Email, newEmail: Email, name: string): Result<Store, Error>
    requires oldEmail in s.users
  {
    var u := s.users[oldEmail].(displayName := name);
    if oldEmail == newEmail then Ok(s.(users := s.users[oldEmail := u]))
    else if newEmail in s.users then Err(AlreadyExists)
    else
      Ok(s.(users := (s.users - {oldEmail})[newEmail := u],
            orgOf := OrgMoved(s.orgOf, oldEmail, newEmail)))
  }

  /** Whatever organisation the old address is looked up to goes to the new
      one; the old address's row for it is deleted if there is one. */
  ghost function OrgMoved(orgOf: map<Email, string>, oldEmail: Email, newEmail: Email): map<Email, string> {
    match OrgLookup(orgOf, oldEmail)
    case None => orgOf
    case Some(o) => if o == "" then orgOf else (orgOf - {oldEmail})[newEmail := o]
  }

  // ------------------------------------------------------ the procedure

  datatype Outcome = Outcome(store: Store, answer: Result<Provisioned, Error>)

  /** The last part of both lookup strategies: an ORG user without an
      organisation gets the one of the email's domain, or an error. */
  ghost function Settled(s: Store, email: Email, orgs: Directory): Outcome
    requires email in s.users && ValidEmail(email)
  {
    var u := s.users[email];
    if u.userType == Platform then Outcome(s, Ok(Provisioned(u.userType, u.isAdmin, None, false)))
    else if Truthy(OrgLookup(s.orgOf, email)) then
      Outcome(s, Ok(Provisioned(u.userType, u.isAdmin, OrgLookup(s.orgOf, email), false)))
    else match orgs(DomainOf(email))
      case None => Outcome(s, Err(NoOrganization))
      case Some(o) => Outcome(Assigned(s, email, o), Ok(Provisioned(u.userType, u.isAdmin, Some(o), false)))
  }

  ghost function FoundByEntra(s: Store, email: Email, req: Request, orgs: Directory): Outcome
    requires email in s.users && ValidEmail(email) && ValidEmail(req.email)
  {
    var u := s.users[email];
    var emailChanged := email != req.email;
    var nameChanged := req.name != "" && u.displayName != req.name;
    if emailChanged || nameChanged then
      match ProfileUpdated(s, email, req.email, if req.name != "" then req.name else u.displayName)
      case Err(error) => Outcome(s, Err(error))
      case Ok(s') => Settled(s', req.email, orgs)
    else Settled(s, email, orgs)
  }

  ghost function FoundByEmail(s: Store, req: Request, orgs: Directory): Outcome
    requires req.email in s.users && ValidEmail(req.email)
  {
    var s' :=
      if req.entraId != "" && s.users[req.email].entraId == "" then Backfilled(s, req.email, req.entraId) else s;
    Settled(s', req.email, orgs)
  }

  /** The store between create_user and assign_user_to_org. */
  function CreatedByDomain(s: Store, req: Request): Store {
    Created(s, req.email, DisplayName(req), Org, false, req.entraId)
  }

  function NotFound(s: Store, req: Request, orgs: Directory): Outcome
    requires ValidEmail(req.email)
  {
    if s.users == map[] then
      Outcome(Created(s, req.email, DisplayName(req), Platform, true, req.entraId),
              Ok(Provisioned(Platform, true, None, true)))
    else match orgs(DomainOf(req.email))
      case None => Outcome(s, Err(NoOrganization))
      case Some(o) =>
        Outcome(Assigned(CreatedByDomain(s, req), req.email, o), Ok(Provisioned(Org, false, Some(o), true)))
  }

  /** ensure_user_provisioned as a whole. */
  ghost function Provision(s: Store, req: Request, orgs: Directory): Outcome
    requires Valid(s)
  {
    if !ValidEmail(req.email) then Outcome(s, Err(InvalidEmail))
    else if SomeoneHas(s, req.entraId) then FoundByEntra(s, Holder(s, req.entraId), req, orgs)
    else if req.email in s.users then FoundByEmail(s, req, orgs)
    else NotFound(s, req, orgs)
  }

  /** The call stops after creating the user and before assigning it. */
  ghost predicate StopsAfterCreate(s: Store, req: Request, orgs: Directory)
    requires Valid(s)
  {
    && ValidEmail(req.email) && !SomeoneHas(s, req.entraId) && req.email !in s.users
    && s.users != map[] && orgs(DomainOf(req.email)).Some?
  }

  // ------------------------------------------------- the imperative form

  /** The first of some rows, as far as they are in the range. */
  ghost predicate FirstAmong(orgOf: map<Email, string>, email: string, among: set<Email>, first: Option<Email>) {
    match first
    case None => forall f :: f in among ==> !Listed(orgOf, email, f)
    case Some(e) =>
      && e in among && Listed(orgOf, email, e)
      && forall f :: f in among && Listed(orgOf, email, f) ==> !Less(OrgKey(f, orgOf[f]), OrgKey(e, orgOf[e]))
  }

  lemma OneMoreRow(orgOf: map<Email, string>, email: string, among: set<Email>, first: Option<Email>, e: Email)
    requires e in orgOf && FirstAmong(orgOf, email, among, first)
    ensures FirstAmong(orgOf, email, among + {e},
      if Listed(orgOf, email, e) && (first.None? || Less(OrgKey(e, orgOf[e]), OrgKey(first.value, orgOf[first.value])))
      then Some(e) else first)
  {
    LessIsIrreflexive(OrgKey(e, orgOf[e]));
    if first.Some? && Less(OrgKey(e, orgOf[e]), OrgKey(first.value, orgOf[first.value])) {
      forall f | f in among && Listed(orgOf, email, f) && Less(OrgKey(f, orgOf[f]), OrgKey(e, orgOf[e])) ensures false {
        LessIsTransitive(OrgKey(f, orgOf[f]), OrgKey(e, orgOf[e]), OrgKey(first.value, orgOf[first.value]));
      }
    }
  }

  lemma FirstAmongAll(orgOf: map<Email, string>, email: Email, first: Option<Email>)
    requires FirstAmong(orgOf, email, orgOf.Keys, first)
    ensures OrgLookup(orgOf, email) == if first.Some? then Some(orgOf[first.value]) else None
  {
    if first.Some? {
      assert IsFirst(orgOf, email, first.value);
      forall e | IsFirst(orgOf, email, e) ensures e == first.value {
        FirstIsUnique(orgOf, email, e, first.value);
      }
    }
  }

  class UserRepository {
    var users: map<Email, User>
    var orgOf: map<Email, string>
    var created: nat  // bookkeeping, numbers the users

    function Contents(): Store
      reads this
    {
      Store(users, orgOf, created)
    }

    constructor ()
      ensures Contents() == EMPTY
    {
      users, orgOf, created := map[], map[], 0;
    }

    method GetUserByEntraId(entraId: string) returns (email: Option<string>)
      requires entraId != ""
      ensures email.Some? <==> SomeoneHas(Contents(), entraId)
      ensures email.Some? ==> HasEntra(Contents(), email.value, entraId)
    {
      var todo := users.Keys;
      while todo != {}
        invariant todo <= users.Keys
        invariant forall e :: e in users.Keys - todo ==> users[e].entraId != entraId
      {
        var e :| e in todo;
        todo := todo - {e};
        if users[e].entraId == entraId {
          assert HasEntra(Contents(), e, entraId);
          return Some(e);
        }
      }
      return None;
    }

    method CreateUser(email: Email, name: string, userType: UserType, isAdmin: bool, entraId: string)
      modifies this
      ensures Contents() == Created(old(Contents()), email, name, userType, isAdmin, entraId)
    {
      users := users[email := User(userType, isAdmin, name, entraId, created)];
      created := created + 1;
    }

    method UpdateUserEntraId(email: Email, entraId: string)
      requires email in users
      modifies this`users
      ensures Contents() == Backfilled(old(Contents()), email, entraId)
    {
      users := users[email := users[email].(entraId := entraId)];
    }

    method UpdateUserProfile(oldEmail: Email, newEmail: Email, name: string) returns (r: Result<(), Error>)
      requires oldEmail in users
      modifies this`users, this`orgOf
      ensures r.Ok? ==> ProfileUpdated(old(Contents()), oldEmail, newEmail, name) == Ok(Contents())
      ensures r.Err? ==> ProfileUpdated(old(Contents()), oldEmail, newEmail, name) == Err(r.error) && unchanged(this)
    {
      var entity := users[oldEmail].(displayName := name);
      if oldEmail == newEmail {
        users := users[oldEmail := entity];
        return Ok(());
      }
      if newEmail in users {
        return Err(AlreadyExists);
      }
      users := users[newEmail := entity];
      users := users - {oldEmail};
      var orgId := GetUserOrgId(oldEmail);
      if Truthy(orgId) {
        if oldEmail in orgOf && orgOf[oldEmail] == orgId.value {
          orgOf := orgOf - {oldEmail};
        }
        orgOf := orgOf[newEmail := orgId.value];
      }
      assert orgOf == OrgMoved(old(orgOf), oldEmail, newEmail);
      assert users == (old(users) - {oldEmail})[newEmail := entity];
      return Ok(());
    }

    /** The rows of the range come in key order; the first one is taken. */
    method GetUserOrgId(email: Email) returns (orgId: Option<string>)
      ensures orgId == OrgLookup(orgOf, email)
    {
      var todo := orgOf.Keys;
      var first: Option<Email> := None;
      while todo != {}
        invariant todo <= orgOf.Keys
        invariant FirstAmong(orgOf, email, orgOf.Keys - todo, first)
      {
        var e :| e in todo;
        ghost var done := orgOf.Keys - todo;
        todo := todo - {e};
        assert orgOf.Keys - todo == done + {e};
        OneMoreRow(orgOf, email, done, first, e);
        if
          Listed(orgOf, email, e)
          && (first.None? || Less(OrgKey(e, orgOf[e]), OrgKey(first.value, orgOf[first.value])))
        {
          first := Some(e);
        }
      }
      assert orgOf.Keys - todo == orgOf.Keys;
      FirstAmongAll(orgOf, email, first);
      return if first.Some? then Some(orgOf[first.value]) else None;
    }

    method AssignUserToOrg(email: Email, orgId: string)
      modifies this`orgOf
      ensures Contents() == Assigned(old(Contents()), email, orgId)
    {
      orgOf := orgOf[email := orgId];
    }
  }

  /** _provision_org_relationship_by_domain, for the user both strategies
      found, with the organisation lookup before it. */
  method SettleOrg(repo: UserRepository, email: Email, orgs: Directory) returns (r: Result<Provisioned, Error>)
    requires email in repo.users && ValidEmail(email)
    modifies repo`orgOf
    ensures Outcome(repo.Contents(), r) == Settled(old(repo.Contents()), email, orgs)
  {
    var user := repo.users[email];
    var orgId: Option<string> := None;
    if user.userType == Org {
      orgId := repo.GetUserOrgId(email);
      if !Truthy(orgId) {
        var matched := orgs(DomainOf(email));
        if matched.None? {
          return Err(NoOrganization);
        }
        repo.AssignUserToOrg(email, matched.value);
        orgId := matched;
      }
    }
    return Ok(Provisioned(user.userType, user.isAdmin, orgId, false));
  }

  method EnsureUserProvisioned(repo: UserRepository, req: Request, orgs: Directory)
    returns (r: Result<Provisioned, Error>)
    requires Valid(repo.Contents())
    modifies repo
    ensures Outcome(repo.Contents(), r) == Provision(old(repo.Contents()), req, orgs)
  {
    if req.email == "" || '@' !in req.email {
      return Err(InvalidEmail);
    }
    if req.entraId != "" {
      var found := repo.GetUserByEntraId(req.entraId);
      if found.Some? {
        var email := found.value;
        assert email == Holder(repo.Contents(), req.entraId);
        var user := repo.users[email];
        if email != req.email || (req.name != "" && user.displayName != req.name) {
          var name := if req.name != "" then req.name else user.displayName;
          var updated := repo.UpdateUserProfile(email, req.email, name);
          if updated.Err? {
            return Err(updated.error);
          }
          email := req.email;
        }
        r := SettleOrg(repo, email, orgs);
        return;
      }
    }
    if req.email in repo.users {
      if req.entraId != "" && repo.users[req.email].entraId == "" {
        repo.UpdateUserEntraId(req.email, req.entraId);
      }
      r := SettleOrg(repo, req.email, orgs);
      return;
    }
    if |repo.users| == 0 {
      repo.CreateUser(req.email, DisplayName(req), Platform, true, req.entraId);
      return Ok(Provisioned(Platform, true, None, true));
    }
    var matched := orgs(DomainOf(req.email));
    if matched.None? {
      return Err(NoOrganization);
    }
    repo.CreateUser(req.email, DisplayName(req), Org, false, req.entraId);
    repo.AssignUserToOrg(req.email, matched.value);
    return Ok(Provisioned(Org, false, matched, true));
  }

  // ---------------------------------------------------- every run is sound

  lemma CreatedKeepsUsersOk(users: map<Email, User>, created: nat, email: Email, u: User)
    requires UsersOk(users, created) && ValidEmail(email) && email !in users
    requires u.serial == created && RolesOk(u)
    requires u.entraId != "" ==> forall e :: e in users ==> users[e].entraId != u.entraId
    ensures UsersOk(users[email := u], created + 1)
  {
    var users' := users[email := u];
    if created == 0 {
      assert email in users' && users'[email].serial == 0;
    } else {
      var e :| e in users && users[e].serial == 0;
      assert e in users' && users'[e].serial == 0;
    }
  }

  lemma CreatedKeepsValid(s: Store, email: Email, name: string, userType: UserType, isAdmin: bool, entraId: string)
    requires Valid(s) && ValidEmail(email) && email !in s.users && !SomeoneHas(s, entraId)
    requires isAdmin == (userType == Platform) == (s.created == 0)
    ensures Valid(Created(s, email, name, userType, isAdmin, entraId))
  {
    forall e | e in s.users && entraId != "" ensures s.users[e].entraId != entraId {
      assert !HasEntra(s, e, entraId);
    }
    CreatedKeepsUsersOk(s.users, s.created, email, User(userType, isAdmin, name, entraId, s.created));
  }

  lemma MovedUserSharesNothing(users: map<Email, User>, oldEmail: Email, newEmail: Email, u: User)
    requires NoneShared(users) && oldEmail in users && (newEmail == oldEmail || newEmail !in users)
    requires u.serial == users[oldEmail].serial && u.entraId == users[oldEmail].entraId
    ensures NoneShared((users - {oldEmail})[newEmail := u])
    ensures FirstExists(users) ==> FirstExists((users - {oldEmail})[newEmail := u])
  {
    var moved := (users - {oldEmail})[newEmail := u];
    if e :| e in users && users[e].serial == 0 {
      assert (if e == oldEmail then newEmail else e) in moved;
    }
  }

  lemma MovedKeepsUsersOk(users: map<Email, User>, created: nat, oldEmail: Email, newEmail: Email, u: User)
    requires UsersOk(users, created) && oldEmail in users && newEmail !in users && ValidEmail(newEmail)
    requires u == users[oldEmail].(displayName := u.displayName)
    ensures UsersOk((users - {oldEmail})[newEmail := u], created)
  {
    MovedUserSharesNothing(users, oldEmail, newEmail, u);
    assert newEmail in (users - {oldEmail})[newEmail := u];
  }

  lemma MovedKeepsValid(s: Store, oldEmail: Email, newEmail: Email, u: User)
    requires Valid(s) && oldEmail in s.users && newEmail !in s.users && ValidEmail(newEmail)
    requires u == s.users[oldEmail].(displayName := u.displayName)
    ensures Valid(Store((s.users - {oldEmail})[newEmail := u], OrgMoved(s.orgOf, oldEmail, newEmail), s.created))
  {
    MovedKeepsUsersOk(s.users, s.created, oldEmail, newEmail, u);
    FoundOrgIsTrue(s, oldEmail);
  }

  /** A user changed in place: the serial number stays, and the Entra id
      stays or is one that nobody has. */
  lemma ChangedUserSharesNothing(users: map<Email, User>, email: Email, u: User)
    requires NoneShared(users) && email in users && u.serial == users[email].serial
    requires u.entraId == users[email].entraId || forall e :: e in users ==> users[e].entraId != u.entraId
    ensures NoneShared(users[email := u])
    ensures FirstExists(users) ==> FirstExists(users[email := u])
  {
    if e :| e in users && users[e].serial == 0 {
      assert e in users[email := u] && users[email := u][e].serial == 0;
    }
  }

  lemma ChangedKeepsValid(s: Store, email: Email, u: User)
    requires Valid(s) && email in s.users
    requires RolesOk(u) && u.serial < s.created && NoneShared(s.users[email := u]) && FirstExists(s.users[email := u])
    ensures Valid(s.(users := s.users[email := u]))
  {
    assert email in s.users[email := u];
  }

  lemma RenamedKeepsValid(s: Store, email: Email, u: User)
    requires Valid(s) && email in s.users && u == s.users[email].(displayName := u.displayName)
    ensures Valid(s.(users := s.users[email := u]))
  {
    ChangedUserSharesNothing(s.users, email, u);
    ChangedKeepsValid(s, email, u);
  }

  lemma ProfileUpdatedKeepsValid(s: Store, oldEmail: Email, newEmail: Email, name: string)
    requires Valid(s) && oldEmail in s.users && ValidEmail(newEmail)
    ensures ProfileUpdated(s, oldEmail, newEmail, name).Ok? ==> Valid(ProfileUpdated(s, oldEmail, newEmail, name).value)
  {
    var u := s.users[oldEmail].(displayName := name);
    if newEmail == oldEmail {
      RenamedKeepsValid(s, oldEmail, u);
    } else if newEmail !in s.users {
      MovedKeepsValid(s, oldEmail, newEmail, u);
    }
  }

  /** Organisation ids are never empty, so what is found counts. */
  lemma FoundOrgIsTrue(s: Store, email: Email)
    requires Valid(s)
    ensures Truthy(OrgLookup(s.orgOf, email)) <==> OrgLookup(s.orgOf, email).Some?
  {
    if OrgLookup(s.orgOf, email).Some? {
      var e :| IsFirst(s.orgOf, email, e) && OrgLookup(s.orgOf, email).value == s.orgOf[e];
      assert s.orgOf[e] != "";
    }
  }

  lemma AssignedKeepsValid(s: Store, email: Email, orgId: string)
    requires Valid(s) && email in s.users && orgId != ""
    ensures Valid(Assigned(s, email, orgId))
  {
  }

  lemma SettledKeepsValid(s: Store, email: Email, orgs: Directory)
    requires Valid(s) && RealIds(orgs) && email in s.users
    ensures Valid(Settled(s, email, orgs).store)
    ensures var out := Settled(s, email, orgs); out.answer.Ok? ==> Sound(out.store, email, out.answer.value)
  {
    var u := s.users[email];
    FoundOrgIsTrue(s, email);
    assert RolesOk(u);
    if u.userType == Org && !Truthy(OrgLookup(s.orgOf, email)) && orgs(DomainOf(email)).Some? {
      AssignedKeepsValid(s, email, orgs(DomainOf(email)).value);
    }
  }

  /** What an answer says is what the store says about that user; and an ORG
      user's answer has an organisation: the user's own, except for a user who
      has none and whose lookup falls on a row of an email that continues this
      one. */
  ghost predicate Sound(s: Store, email: Email, p: Provisioned) {
    && email in s.users
    && p.userType == s.users[email].userType && p.isAdmin == s.users[email].isAdmin
    && (p.userType == Platform ==> p.isAdmin && p.orgId == None)
    && (p.userType == Org ==>
         && !p.isAdmin && Truthy(p.orgId) && p.orgId == OrgLookup(s.orgOf, email)
         && (!Shadowed(s.orgOf, email) ==> email in s.orgOf && p.orgId == Some(s.orgOf[email])))
  }

  lemma FoundByEntraIsSound(s: Store, req: Request, orgs: Directory)
    requires Valid(s) && RealIds(orgs) && ValidEmail(req.email) && SomeoneHas(s, req.entraId)
    ensures var out := FoundByEntra(s, Holder(s, req.entraId), req, orgs);
      Valid(out.store) && (out.answer.Ok? ==> Sound(out.store, req.email, out.answer.value))
  {
    var e := Holder(s, req.entraId);
    var name := if req.name != "" then req.name else s.users[e].displayName;
    ProfileUpdatedKeepsValid(s, e, req.email, name);
    var updated := ProfileUpdated(s, e, req.email, name);
    if updated.Ok? { SettledKeepsValid(updated.value, req.email, orgs); }
    SettledKeepsValid(s, e, orgs);
  }

  lemma FoundByEmailIsSound(s: Store, req: Request, orgs: Directory)
    requires Valid(s) && RealIds(orgs) && ValidEmail(req.email) && !SomeoneHas(s, req.entraId) && req.email in s.users
    ensures var out := FoundByEmail(s, req, orgs);
      Valid(out.store) && (out.answer.Ok? ==> Sound(out.store, req.email, out.answer.value))
  {
    if req.entraId != "" && s.users[req.email].entraId == "" {
      BackfilledKeepsValid(s, req.email, req.entraId);
      SettledKeepsValid(Backfilled(s, req.email, req.entraId), req.email, orgs);
    } else {
      SettledKeepsValid(s, req.email, orgs);
    }
  }

  lemma NotFoundIsSound(s: Store, req: Request, orgs: Directory)
    requires Valid(s) && RealIds(orgs) && ValidEmail(req.email) && !SomeoneHas(s, req.entraId) && req.email !in s.users
    ensures var out := NotFound(s, req, orgs);
      Valid(out.store) && (out.answer.Ok? ==> Sound(out.store, req.email, out.answer.value))
  {
    if s.users == map[] {
      CreatedKeepsValid(s, req.email, DisplayName(req), Platform, true, req.entraId);
    } else if orgs(DomainOf(req.email)).Some? {
      CreatedKeepsValid(s, req.email, DisplayName(req), Org, false, req.entraId);
      AssignedKeepsValid(CreatedByDomain(s, req), req.email, orgs(DomainOf(req.email)).value);
    }
  }

  lemma ProvisionIsSound(s: Store, req: Request, orgs: Directory)
    requires Valid(s) && RealIds(orgs)
    ensures Valid(Provision(s, req, orgs).store)
    ensures var out := Provision(s, req, orgs); out.answer.Ok? ==> Sound(out.store, req.email, out.answer.value)
  {
    if ValidEmail(req.email) {
      if SomeoneHas(s, req.entraId) {
        FoundByEntraIsSound(s, req, orgs);
      } else if req.email in s.users {
        FoundByEmailIsSound(s, req, orgs);
      } else {
        NotFoundIsSound(s, req, orgs);
      }
    }
  }

  lemma BackfilledKeepsValid(s: Store, email: Email, entraId: string)
    requires Valid(s) && email in s.users && entraId != "" && !SomeoneHas(s, entraId)
    ensures Valid(Backfilled(s, email, entraId))
  {
    var u := s.users[email].(entraId := entraId);
    forall e | e in s.users ensures s.users[e].entraId != entraId {
      assert !HasEntra(s, e, entraId);
    }
    ChangedUserSharesNothing(s.users, email, u);
    ChangedKeepsValid(s, email, u);
  }

  /** One call, finished or stopped between its two writes. */
  ghost predicate CallLeads(s: Store, s': Store, req: Request, orgs: Directory)
    requires Valid(s)
  {
    && RealIds(orgs)
    && (s' == Provision(s, req, orgs).store || (StopsAfterCreate(s, req, orgs) && s' == CreatedByDomain(s, req)))
  }

  ghost predicate Next(s: Store, s': Store) {
    Valid(s) && exists req, orgs :: CallLeads(s, s', req, orgs)
  }

  ghost predicate Run(run: seq<Store>) {
    run != [] && run[0] == EMPTY && forall k :: 0 < k < |run| ==> Next(run[k - 1], run[k])
  }

  lemma NextKeepsValid(s: Store, s': Store)
    requires Next(s, s')
    ensures Valid(s')
  {
    var req, orgs :| CallLeads(s, s', req, orgs);
    if s' == Provision(s, req, orgs).store {
      ProvisionIsSound(s, req, orgs);
    } else {
      CreatedKeepsValid(s, req.email, DisplayName(req), Org, false, req.entraId);
    }
  }

  lemma {:induction false} RunValid(run: seq<Store>, k: nat)
    requires Run(run) && k < |run|
    ensures Valid(run[k])
  {
    if k > 0 {
      RunValid(run, k - 1);
      NextKeepsValid(run[k - 1], run[k]);
    }
  }

  ghost predicate OnlyAdmin(s: Store, admin: string) {
    && admin in s.users && s.users[admin].serial == 0
    && forall e :: e in s.users ==>
         if e == admin then s.users[e].isAdmin && s.users[e].userType == Platform
         else !s.users[e].isAdmin && s.users[e].userType == Org
  }

  /** From an empty system, at every point of every run: once there are
      users, the one created first is the platform administrator and every
      other one is an ORG user. */
  lemma FirstUserIsTheAdmin(run: seq<Store>, k: nat)
    requires Run(run) && k < |run|
    ensures run[k].users == map[] || exists admin :: OnlyAdmin(run[k], admin)
  {
    RunValid(run, k);
    if run[k].users != map[] {
      var admin :| admin in run[k].users && run[k].users[admin].serial == 0;
      assert OnlyAdmin(run[k], admin);
    }
  }

  // ---------------------------------------------- what each case comes to

  /** A user who signs in with a new email is the same user: type, Entra id and
      the name unless a new one is given go along, and so does the organisation,
      whatever the domain of the new email. */
  lemma MovedUserKeepsOrg(s: Store, req: Request, orgs: Directory, e: Email)
    requires Valid(s) && ValidEmail(req.email) && req.email !in s.users
    requires req.entraId != "" && HasEntra(s, e, req.entraId)
    requires s.users[e].userType == Org && e in s.orgOf
    ensures var u := s.users[e];
      var moved := u.(displayName := if req.name == "" then u.displayName else req.name);
      Provision(s, req, orgs) == Outcome(
        Store((s.users - {e})[req.email := moved], (s.orgOf - {e})[req.email := s.orgOf[e]], s.created),
        Ok(Provisioned(Org, false, Some(s.orgOf[e]), false)))
  {
    assert Holder(s, req.entraId) == e;
    assert RolesOk(s.users[e]);
  }

  /** `rest` begins with another @, if there is one. */
  lemma PartsOfEmail(local: string, domain: string, rest: string)
    requires '@' !in local && '@' !in domain && (rest == "" || rest[0] == '@')
    ensures var email := local + ("@" + (domain + rest));
      && '@' in email && Split(email, '@')[0] == local && DomainOf(email) == domain
  {
    var email := local + ("@" + (domain + rest));
    assert email[|local|] == '@';
    SplitAfter(local, "@" + (domain + rest), '@');
    SplitAfter(domain, rest, '@');
    assert ("@" + (domain + rest))[1..] == domain + rest;
    assert local + "" == local && domain + "" == domain;
  }

  /** A new user, the email spelled out: the first one becomes the
      administrator; a later one joins the organisation of the part between the
      first @ and the next, if there is one, else there is an error and no user;
      the name is the given one, or the part before the first @. */
  lemma NewUserIs(s: Store, req: Request, orgs: Directory, local: string, domain: string, rest: string)
    requires Valid(s) && '@' !in local && '@' !in domain && (rest == "" || rest[0] == '@')
    requires req.email == local + ("@" + (domain + rest))
    requires req.email !in s.users && !SomeoneHas(s, req.entraId)
    ensures var name := if req.name == "" then local else req.name;
      Provision(s, req, orgs) ==
        if s.users == map[] then
          Outcome(Store(map[req.email := User(Platform, true, name, req.entraId, s.created)], s.orgOf, s.created + 1),
                  Ok(Provisioned(Platform, true, None, true)))
        else if orgs(domain).None? then Outcome(s, Err(NoOrganization))
        else
          Outcome(Store(s.users[req.email := User(Org, false, name, req.entraId, s.created)],
                        s.orgOf[req.email := orgs(domain).value], s.created + 1),
                  Ok(Provisioned(Org, false, Some(orgs(domain).value), true)))
  {
    PartsOfEmail(local, domain, rest);
  }

  lemma FoundCreatesNobody(s: Store, e: Email, req: Request, orgs: Directory)
    requires e in s.users && ValidEmail(e) && ValidEmail(req.email)
    ensures var out := FoundByEntra(s, e, req, orgs);
      && out.store.created == s.created && (out.answer.Ok? ==> !out.answer.value.wasCreated)
      && (out.store.users.Keys == s.users.Keys || out.store.users.Keys == s.users.Keys - {e} + {req.email})
  {
    var name := if req.name != "" then req.name else s.users[e].displayName;
    var updated := ProfileUpdated(s, e, req.email, name);
    if updated.Ok? && e != req.email {
      assert updated.value.users.Keys == s.users.Keys - {e} + {req.email};
    }
  }

  /** A call says that it has created a user exactly when it has, and then only
      one, of the given email; no other call changes which users there are, but
      for one that moves. */
  lemma CreatedIff(s: Store, req: Request, orgs: Directory)
    requires Valid(s)
    ensures var out := Provision(s, req, orgs);
      && (out.store.created == s.created + 1 <==> out.answer.Ok? && out.answer.value.wasCreated)
      && (out.store.created != s.created ==>
           req.email !in s.users && out.store.users.Keys == s.users.Keys + {req.email})
      && (out.store.created == s.created ==>
           || out.store.users.Keys == s.users.Keys
           || (SomeoneHas(s, req.entraId)
              && out.store.users.Keys == s.users.Keys - {Holder(s, req.entraId)} + {req.email}))
  {
    if ValidEmail(req.email) {
      if SomeoneHas(s, req.entraId) {
        FoundCreatesNobody(s, Holder(s, req.entraId), req, orgs);
      } else if req.email !in s.users {
        NewCreatesOne(s, req, orgs);
      }
    }
  }

  lemma NewCreatesOne(s: Store, req: Request, orgs: Directory)
    requires ValidEmail(req.email) && req.email !in s.users
    ensures var out := NotFound(s, req, orgs);
      if out.answer.Ok? then
        && out.answer.value.wasCreated && out.store.created == s.created + 1
        && out.store.users.Keys == s.users.Keys + {req.email}
      else out.store == s
  {
  }

  /** The user a call finds: by Entra id, else by email. */
  ghost predicate IsKnown(s: Store, req: Request) {
    SomeoneHas(s, req.entraId) || req.email in s.users
  }

  ghost function KnownAs(s: Store, req: Request): (e: Email)
    requires IsKnown(s, req)
    ensures e in s.users
  {
    if SomeoneHas(s, req.entraId) then Holder(s, req.entraId) else req.email
  }

  /** When a call is refused, exactly, and why: the email is none; or a known
      user moves to an email that is taken; or an ORG user without an
      organisation, old or new, has a domain that no organisation has. */
  lemma RefusedIff(s: Store, req: Request, orgs: Directory)
    requires Valid(s)
    ensures var answer := Provision(s, req, orgs).answer;
      && (answer == Err(InvalidEmail) <==> '@' !in req.email)
      && (answer == Err(AlreadyExists) <==>
           && '@' in req.email && req.email in s.users
           && SomeoneHas(s, req.entraId) && !HasEntra(s, req.email, req.entraId))
      && (answer == Err(NoOrganization) <==>
           && '@' in req.email && answer != Err(AlreadyExists) && orgs(DomainOf(req.email)).None?
           && s.users != map[]
           && (IsKnown(s, req) ==>
                && s.users[KnownAs(s, req)].userType == Org
                && !Truthy(OrgLookup(s.orgOf, KnownAs(s, req))) && !Truthy(OrgLookup(s.orgOf, req.email))))
      && (answer.Err? ==> Provision(s, req, orgs).store.created == s.created)
      && (answer.Err? && !SomeoneHas(s, req.entraId) && req.email !in s.users ==> Provision(s, req, orgs).store == s)
  {
    if SomeoneHas(s, req.entraId) {
      assert HasEntra(s, Holder(s, req.entraId), req.entraId);
      assert HasEntra(s, req.email, req.entraId) ==> Holder(s, req.entraId) == req.email;
    }
  }

  lemma FoundByEntraAfter(s: Store, e: Email, req: Request, orgs: Directory)
    requires e in s.users && ValidEmail(e) && ValidEmail(req.email) && FoundByEntra(s, e, req, orgs).answer.Ok?
    ensures var u := s.users[e];
      FoundByEntra(s, e, req, orgs).store.users ==
        (s.users - {e})[req.email := u.(displayName := if req.name == "" then u.displayName else req.name)]
  {
    var u := s.users[e];
    if e == req.email {
      assert (s.users - {e})[e := u.(displayName := if req.name == "" then u.displayName else req.name)] ==
        s.users[e := u.(displayName := if req.name == "" then u.displayName else req.name)];
    }
  }

  /** What a successful call makes of a user it finds by Entra id: the user takes
      the new email, and the name if one is given. Nobody else changes. */
  lemma KnownByEntraAfter(s: Store, req: Request, orgs: Directory, e: Email)
    requires Valid(s) && req.entraId != "" && HasEntra(s, e, req.entraId) && Provision(s, req, orgs).answer.Ok?
    ensures var u := s.users[e];
      Provision(s, req, orgs).store.users ==
        (s.users - {e})[req.email := u.(displayName := if req.name == "" then u.displayName else req.name)]
  {
    assert Holder(s, req.entraId) == e;
    FoundByEntraAfter(s, e, req, orgs);
  }

  /** And of one it finds by email: it takes the Entra id, if it has none. */
  lemma KnownByEmailAfter(s: Store, req: Request, orgs: Directory)
    requires Valid(s) && !SomeoneHas(s, req.entraId) && req.email in s.users
    ensures var u := s.users[req.email];
      Provision(s, req, orgs).store.users ==
        s.users[req.email := u.(entraId := if u.entraId == "" then req.entraId else u.entraId)]
  {
  }

  // ------------------------------------------- repetition and repair

  /** Where a successful call leaves the user it is about: nobody else has
      the Entra id, and the user has one if the call gave one. */
  ghost predicate Landed(s: Store, req: Request) {
    && req.email in s.users
    && (forall e :: HasEntra(s, e, req.entraId) && req.entraId != "" ==> e == req.email)
    && (req.entraId != "" ==> s.users[req.email].entraId != "")
  }

  lemma EntraIdStays(s: Store, email: Email, req: Request, orgs: Directory)
    requires ValidEmail(email) && HasEntra(s, email, req.entraId) && ValidEmail(req.email)
    requires FoundByEntra(s, email, req, orgs).answer.Ok?
    ensures HasEntra(FoundByEntra(s, email, req, orgs).store, req.email, req.entraId)
  {
  }

  lemma AfterFoundByEntra(s: Store, req: Request, orgs: Directory)
    requires Valid(s) && RealIds(orgs) && ValidEmail(req.email) && SomeoneHas(s, req.entraId)
    requires FoundByEntra(s, Holder(s, req.entraId), req, orgs).answer.Ok?
    ensures Landed(FoundByEntra(s, Holder(s, req.entraId), req, orgs).store, req)
  {
    FoundByEntraIsSound(s, req, orgs);
    EntraIdStays(s, Holder(s, req.entraId), req, orgs);
    HolderHasLanded(FoundByEntra(s, Holder(s, req.entraId), req, orgs).store, req);
  }

  lemma HolderHasLanded(s: Store, req: Request)
    requires Valid(s) && req.entraId != "" && HasEntra(s, req.email, req.entraId)
    ensures Landed(s, req)
  {
  }

  lemma AfterFoundByEmail(s: Store, req: Request, orgs: Directory)
    requires Valid(s) && RealIds(orgs) && ValidEmail(req.email) && !SomeoneHas(s, req.entraId) && req.email in s.users
    ensures Landed(FoundByEmail(s, req, orgs).store, req)
  {
    var s' := FoundByEmail(s, req, orgs).store;
    forall e | HasEntra(s', e, req.entraId) && req.entraId != "" && e != req.email ensures false {
      assert HasEntra(s, e, req.entraId);
    }
  }

  lemma AfterNotFound(s: Store, req: Request, orgs: Directory)
    requires Valid(s) && ValidEmail(req.email) && !SomeoneHas(s, req.entraId) && req.email !in s.users
    requires NotFound(s, req, orgs).answer.Ok?
    ensures Landed(NotFound(s, req, orgs).store, req)
  {
    var s' := NotFound(s, req, orgs).store;
    forall e | HasEntra(s', e, req.entraId) && req.entraId != "" && e != req.email ensures false {
      assert HasEntra(s, e, req.entraId);
    }
  }

  lemma AfterSuccess(s: Store, req: Request, orgs: Directory)
    requires Valid(s) && RealIds(orgs) && Provision(s, req, orgs).answer.Ok?
    ensures ValidEmail(req.email) && Landed(Provision(s, req, orgs).store, req)
  {
    if SomeoneHas(s, req.entraId) {
      AfterFoundByEntra(s, req, orgs);
    } else if req.email in s.users {
      AfterFoundByEmail(s, req, orgs);
    } else {
      AfterNotFound(s, req, orgs);
    }
  }

  /** The repeated call would still change the display name: the first call
      found the user by email, which backfills the Entra id but not the name;
      the second finds it by Entra id and does change the name. */
  ghost predicate NameIsBehind(s: Store, req: Request) {
    && SomeoneHas(s, req.entraId) && req.email in s.users
    && req.name != "" && s.users[req.email].displayName != req.name
  }

  /** Repeating a successful call, whatever has become of the organisations:
      the same answer, not created this time; no user comes or goes and no
      organisation changes; and nothing at all changes exactly when the
      display name is not behind. */
  lemma RepeatedCall(s: Store, req: Request, orgs: Directory, later: Directory)
    requires Valid(s) && RealIds(orgs) && Provision(s, req, orgs).answer.Ok?
    ensures Valid(Provision(s, req, orgs).store)
    ensures var first := Provision(s, req, orgs);
      var second := Provision(first.store, req, later);
      && second.answer == Ok(first.answer.value.(wasCreated := false))
      && second.store.users.Keys == first.store.users.Keys && second.store.orgOf == first.store.orgOf
      && (second.store == first.store <==> !NameIsBehind(first.store, req))
  {
    ProvisionIsSound(s, req, orgs);
    AfterSuccess(s, req, orgs);
    var first := Provision(s, req, orgs);
    RepeatOnSound(first.store, req, first.answer.value, later);
  }

  lemma SettledOnSound(s: Store, email: Email, p: Provisioned, later: Directory)
    requires ValidEmail(email) && Sound(s, email, p)
    ensures Settled(s, email, later) == Outcome(s, Ok(p.(wasCreated := false)))
  {
  }

  lemma RepeatOnSound(s: Store, req: Request, p: Provisioned, later: Directory)
    requires Valid(s) && ValidEmail(req.email) && Sound(s, req.email, p)
    requires Landed(s, req)
    ensures var second := Provision(s, req, later);
      && second.answer == Ok(p.(wasCreated := false))
      && second.store.users.Keys == s.users.Keys && second.store.orgOf == s.orgOf
      && (second.store == s <==> !NameIsBehind(s, req))
  {
    SettledOnSound(s, req.email, p, later);
    if NameIsBehind(s, req) {
      assert Holder(s, req.entraId) == req.email;
      var renamed := s.(users := s.users[req.email := s.users[req.email].(displayName := req.name)]);
      assert ProfileUpdated(s, req.email, req.email, req.name) == Ok(renamed);
      assert renamed.users[req.email].displayName == req.name;
      SettledOnSound(renamed, req.email, p, later);
    }
  }

  /** A call that stopped after creating the user is made good by the next
      one, the store ending up as if the first had not stopped, exactly when no
      email with an organisation continues this one with a character from ';' to
      '}'. Otherwise the next call answers with that other user's organisation
      and changes nothing. */
  lemma NextCallRepairs(s: Store, req: Request, orgs: Directory)
    requires Valid(s) && RealIds(orgs) && StopsAfterCreate(s, req, orgs)
    ensures var whole := Provision(s, req, orgs);
      var stopped := CreatedByDomain(s, req);
      && Valid(stopped) && whole.answer.Ok?
      && var next := Provision(stopped, req, orgs);
      && (next == Outcome(whole.store, Ok(whole.answer.value.(wasCreated := false))) <==> !Shadowed(s.orgOf, req.email))
      && (Shadowed(s.orgOf, req.email) ==>
           next == Outcome(stopped, Ok(Provisioned(Org, false, OrgLookup(s.orgOf, req.email), false))))
  {
    StoppedIsFound(s, req, orgs);
    NextSettles(s, req, orgs);
    if Shadowed(s.orgOf, req.email) {
      assert req.email !in CreatedByDomain(s, req).orgOf;
    }
  }

  /** The next call finds the user by either strategy and only has to settle. */
  lemma StoppedIsFound(s: Store, req: Request, orgs: Directory)
    requires Valid(s) && StopsAfterCreate(s, req, orgs)
    ensures var stopped := CreatedByDomain(s, req);
      Valid(stopped) && Provision(stopped, req, orgs) == Settled(stopped, req.email, orgs)
  {
    var stopped := CreatedByDomain(s, req);
    CreatedKeepsValid(s, req.email, DisplayName(req), Org, false, req.entraId);
    if req.entraId != "" {
      assert HasEntra(stopped, req.email, req.entraId);
      assert Holder(stopped, req.entraId) == req.email;
    }
  }

  /** What the next call does about the organisation. */
  lemma NextSettles(s: Store, req: Request, orgs: Directory)
    requires Valid(s) && RealIds(orgs) && StopsAfterCreate(s, req, orgs)
    ensures var stopped := CreatedByDomain(s, req);
      var o := orgs(DomainOf(req.email)).value;
      Settled(stopped, req.email, orgs) ==
        if Shadowed(s.orgOf, req.email) then
          Outcome(stopped, Ok(Provisioned(Org, false, OrgLookup(s.orgOf, req.email), false)))
        else Outcome(Assigned(stopped, req.email, o), Ok(Provisioned(Org, false, Some(o), false)))
  {
    FoundOrgIsTrue(s, req.email);
  }

  // ------------------------------------------------------- two instances

  function OneDomain(domain: string, orgId: string): Directory {
    (d: string) => if d == domain then Some(orgId) else None
  }

  const TWO_USERS: Store := Store(
    map["ann@x.com" := User(Platform, true, "ann", "", 0), "bob@x.com" := User(Org, false, "bob", "", 1)],
    map["bob@x.com" := "com"], 2)

  const BOB: Request := Request("bob@x.co", "", "")

  lemma OneUserIsValid(email: Email, name: string)
    requires ValidEmail(email)
    ensures Valid(Store(map[email := User(Platform, true, name, "", 0)], map[], 1))
  {
    CreatedKeepsValid(EMPTY, email, name, Platform, true, "");
  }

  lemma TwoAreValid(ann: Email, bob: Email)
    requires ValidEmail(ann) && ValidEmail(bob) && ann != bob
    ensures Valid(Store(
      map[ann := User(Platform, true, "ann", "", 0), bob := User(Org, false, "bob", "", 1)], map[bob := "com"], 2))
  {
    var one := Store(map[ann := User(Platform, true, "ann", "", 0)], map[], 1);
    OneUserIsValid(ann, "ann");
    CreatedKeepsValid(one, bob, "bob", Org, false, "");
  }

  lemma TwoUsersAreValid()
    ensures Valid(TWO_USERS)
  {
    assert "ann@x.com"[3] == '@' && "bob@x.com"[3] == '@';
    TwoAreValid("ann@x.com", "bob@x.com");
  }

  lemma BobIsShadowed()
    ensures Shadowed(TWO_USERS.orgOf, BOB.email)
  {
    assert "bob@x.com"[..8] == "bob@x.co" && Continues("bob@x.com", "bob@x.co");
    assert "bob@x.com" in TWO_USERS.orgOf;
  }

  /** bob@x.com belongs to an organisation, and the call that creates bob@x.co
      stops: the next call puts bob@x.co into bob@x.com's organisation. */
  lemma OtherUsersOrgIsTaken()
    ensures var orgs := OneDomain("x.co", "co");
      && Valid(TWO_USERS) && StopsAfterCreate(TWO_USERS, BOB, orgs)
      && Valid(CreatedByDomain(TWO_USERS, BOB))
      && Provision(CreatedByDomain(TWO_USERS, BOB), BOB, orgs).answer == Ok(Provisioned(Org, false, Some("com"), false))
  {
    var orgs := OneDomain("x.co", "co");
    TwoUsersAreValid();
    DomainOfBob();
    BobIsShadowed();
    NextCallRepairs(TWO_USERS, BOB, orgs);
  }

  lemma DomainOfBob()
    ensures '@' in BOB.email && DomainOf(BOB.email) == "x.co"
  {
    PartsOfEmail("bob", "x.co", "");
    assert BOB.email == "bob" + ("@" + ("x.co" + ""));
  }

  const OLD_NAME: Store := Store(map["a@b" := User(Platform, true, "old", "", 0)], map[], 1)
  const NEW_NAME: Request := Request("a@b", "E1", "new")

  lemma OldNameIsValid()
    ensures Valid(OLD_NAME)
  {
    assert "a@b"[1] == '@';
    OneUserIsValid("a@b", "old");
  }

  /** A user found by email keeps the old name, and the repeated call, which
      finds it by Entra id, changes it. */
  lemma RepeatedCallChangesTheName(orgs: Directory)
    requires RealIds(orgs)
    ensures Valid(OLD_NAME) && Valid(Provision(OLD_NAME, NEW_NAME, orgs).store)
    ensures var first := Provision(OLD_NAME, NEW_NAME, orgs);
      && first.answer.Ok? && NameIsBehind(first.store, NEW_NAME)
      && first.store.users["a@b"].displayName == "old"
      && "a@b" in Provision(first.store, NEW_NAME, orgs).store.users
      && Provision(first.store, NEW_NAME, orgs).store.users["a@b"].displayName == "new"
  {
    OldNameIsValid();
    assert "a@b"[1] == '@';
    var first := Provision(OLD_NAME, NEW_NAME, orgs);
    ProvisionIsSound(OLD_NAME, NEW_NAME, orgs);
    assert HasEntra(first.store, "a@b", "E1");
    assert Holder(first.store, "E1") == "a@b";
  }
}
