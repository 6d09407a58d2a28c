/** `RegisterSerializer`: field validation and the user it creates. */
module UserSerializers {
  import opened Common
  import Text
  import opened UserModels
  import opened Schema
  import opened Store

  /** The limit of `AbstractUser.username`. */
  const USERNAME_MAX_LENGTH: nat := 150
  /** `min_length` of the password field. */
  const PASSWORD_MIN_LENGTH: nat := 8

  /** The raw request body; an absent key is `None`. */
  datatype RegisterRequest = RegisterRequest(username: Option<string>, email: Option<string>, password: Option<string>)

  datatype RegField = UsernameField | EmailField | PasswordField

  /** A character field's value passes `CharField`: present, not blank once
      surrounding whitespace is trimmed, and free of U+0000. The cleaned
      value is the trimmed text. */
  predicate Present(v: Option<string>) {
    v.Some? && Text.CharFieldAccepts(v.value)
  }

  /** The username passes when present, at most 150 characters once trimmed,
      and not already in use (`validate_username`). */
  predicate UsernameAccepted(db: Db, v: Option<string>) {
    Present(v) && |Text.Strip(v.value)| <= USERNAME_MAX_LENGTH && !UsernameTaken(db, Text.Strip(v.value))
  }

  /** The e-mail passes when present and not already in use (`validate_email`). */
  predicate EmailAccepted(db: Db, v: Option<string>) {
    Present(v) && !EmailTaken(db, Text.Strip(v.value))
  }

  /** The password passes when present and at least 8 characters once trimmed. */
  predicate PasswordAccepted(v: Option<string>) {
    Present(v) && |Text.Strip(v.value)| >= PASSWORD_MIN_LENGTH
  }

  /** `is_valid()`: the fields that fail, each checked on its own. */
  function RegistrationErrors(db: Db, req: RegisterRequest): (errors: set<RegField>)
    ensures UsernameField in errors <==> !UsernameAccepted(db, req.username)
    ensures EmailField in errors <==> !EmailAccepted(db, req.email)
    ensures PasswordField in errors <==> !PasswordAccepted(req.password)
  {
    var byUsername: set<RegField> := if UsernameAccepted(db, req.username) then {} else {UsernameField};
    var byEmail: set<RegField> := if EmailAccepted(db, req.email) then {} else {EmailField};
    var byPassword: set<RegField> := if PasswordAccepted(req.password) then {} else {PasswordField};
    byUsername + byEmail + byPassword
  }

  datatype RegisterReply = Registered(id: UserId) | RegisterInvalid(errors: set<RegField>)

  datatype RegisterOutcome = RegisterOutcome(db: Db, reply: RegisterReply)

  /** The user an accepted registration stores. */
  function NewUser(req: RegisterRequest): User
    requires req.username.Some? && req.email.Some?
  {
    User(Text.Strip(req.username.value), NormalizeEmail(Text.Strip(req.email.value)))
  }

  /** The database with user `x` appended and its `UserStatus` row created. */
  function WithUser(db: Db, x: User): Db {
    db.(users := db.users + [x], presence := db.presence[|db.users| + 1 := INITIAL_PRESENCE])
  }

  /** Validation, then `create`: one user with the cleaned username and the
      cleaned e-mail as `create_user` normalises it, and (through the
      `post_save` hook) its offline status row. */
  function RegisterStep(db: Db, req: RegisterRequest): RegisterOutcome {
    var errors := RegistrationErrors(db, req);
    if errors != {} then RegisterOutcome(db, RegisterInvalid(errors))
    else RegisterOutcome(WithUser(db, NewUser(req)), Registered(|db.users| + 1))
  }

  /** A rejected registration changes nothing; an accepted one adds exactly
      one user, with the trimmed username and the normalised trimmed e-mail, who starts offline and
      never seen, and leaves every existing user and every other table alone. */
  lemma RegisterEffects(db: Db, req: RegisterRequest)
    ensures var r := RegisterStep(db, req);
      && (r.reply.RegisterInvalid? <==> RegistrationErrors(db, req) != {})
      && (r.reply.RegisterInvalid? ==> r.db == db && r.reply.errors == RegistrationErrors(db, req))
    ensures var r := RegisterStep(db, req);
      r.reply.Registered? ==>
        && r.reply.id == |db.users| + 1 && |r.db.users| == |db.users| + 1
        && r.db.users[..|db.users|] == db.users
        && r.db.users[|db.users|].username == Text.Strip(req.username.value)
        && r.db.users[|db.users|].email == NormalizeEmail(Text.Strip(req.email.value))
        && PresenceOf(r.db, r.reply.id) == INITIAL_PRESENCE
        && r.db.presence == db.presence[|db.users| + 1 := INITIAL_PRESENCE]
        && r.db.chats == db.chats && r.db.messages == db.messages && r.db.statuses == db.statuses
        && r.db.readStates == db.readStates && r.db.pins == db.pins
  {
    var r := RegisterStep(db, req);
    if r.reply.Registered? {
      assert r.db.users[..|db.users|] == db.users;
    }
  }

  /** A taken username or e-mail is always refused, whatever the other fields. */
  lemma DuplicatesRefused(db: Db, req: RegisterRequest)
    ensures req.username.Some? && UsernameTaken(db, Text.Strip(req.username.value)) ==>
      RegisterStep(db, req) == RegisterOutcome(db, RegisterInvalid(RegistrationErrors(db, req))) && UsernameField in RegistrationErrors(db, req)
    ensures req.email.Some? && EmailTaken(db, Text.Strip(req.email.value)) ==>
      RegisterStep(db, req) == RegisterOutcome(db, RegisterInvalid(RegistrationErrors(db, req))) && EmailField in RegistrationErrors(db, req)
  {
  }

  /** After an accepted registration its username is taken, and its raw
      address is taken exactly when it was stored as given. */
  lemma RegisteredIsTaken(db: Db, req: RegisterRequest)
    requires RegisterStep(db, req).reply.Registered?
    ensures var db' := RegisterStep(db, req).db;
      var e := Text.Strip(req.email.value);
      && db' == WithUser(db, NewUser(req))
      && UsernameTaken(db', Text.Strip(req.username.value))
      && (EmailTaken(db', e) <==> NormalizeEmail(e) == e)
      && Present(req.email) && PasswordAccepted(req.password)
  {
    assert RegistrationErrors(db, req) == {};
    TakenWithUser(db, NewUser(req), Text.Strip(req.username.value), Text.Strip(req.email.value));
  }

  /** A name or address is taken after appending `x` exactly when it was
      taken before or is `x`'s. */
  lemma TakenWithUser(db: Db, x: User, name: string, email: string)
    ensures UsernameTaken(WithUser(db, x), name) <==> UsernameTaken(db, name) || x.username == name
    ensures EmailTaken(WithUser(db, x), email) <==> EmailTaken(db, email) || x.email == email
  {
    var db' := WithUser(db, x);
    assert db'.users[|db.users|] == x;
    assert forall k :: 0 <= k < |db.users| ==> db'.users[k] == db.users[k];
  }

  /** The errors of a request whose username is refused and whose other
      fields are well formed: the username, and the e-mail when it is taken. */
  lemma UsernameRefusedErrors(db: Db, req: RegisterRequest)
    requires !UsernameAccepted(db, req.username) && Present(req.email) && PasswordAccepted(req.password)
    ensures RegistrationErrors(db, req) ==
      if EmailTaken(db, Text.Strip(req.email.value)) then {UsernameField, EmailField} else {UsernameField}
  {
    var errors := RegistrationErrors(db, req);
    forall f | f in errors
      ensures f == UsernameField || (f == EmailField && EmailTaken(db, Text.Strip(req.email.value)))
    {
      assert f.UsernameField? || f.EmailField? || f.PasswordField?;
    }
  }

  /** Replaying an accepted registration is refused on the username and
      changes nothing. It is refused on the e-mail exactly when the address
      was stored as given, that is when `normalize_email` left it alone: the
      check looks for the raw value, the table holds the normalised one. */
  lemma RegisterTwiceRefused(db: Db, req: RegisterRequest)
    requires RegisterStep(db, req).reply.Registered?
    ensures var db' := RegisterStep(db, req).db;
      var e := Text.Strip(req.email.value);
      RegisterStep(db', req) ==
        RegisterOutcome(db', RegisterInvalid(if NormalizeEmail(e) == e then {UsernameField, EmailField} else {UsernameField}))
  {
    RegisteredIsTaken(db, req);
    var db' := RegisterStep(db, req).db;
    UsernameRefusedErrors(db', req);
  }

  /** An address whose domain has an upper-case letter is not stored as
      given, so replaying its registration passes the e-mail check. */
  lemma UpperCaseDomainChanges(local: string, domain: string)
    requires local != [] && !Text.IsSpace(local[0])
    requires domain != [] && !Text.IsSpace(domain[|domain| - 1]) && '@' !in domain
    requires Text.Lower(domain) != domain
    ensures NormalizeEmail(local + ['@'] + domain) != local + ['@'] + domain
  {
    SplitAddress(local, domain);
    var e := local + ['@'] + domain;
    var k :| 0 <= k < |domain| && Text.Lower(domain)[k] != domain[k];
    assert e[|local| + 1 + k] == domain[k];
    assert Text.LowerAfter(e, |local|)[|local| + 1 + k] != e[|local| + 1 + k];
  }

  /** `CharField`'s null-character validator: a username, e-mail or password
      containing U+0000 is refused, whatever else it holds. */
  lemma NullCharacterRefused(db: Db, req: RegisterRequest)
    ensures req.username.Some? && '\0' in req.username.value ==> UsernameField in RegistrationErrors(db, req)
    ensures req.email.Some? && '\0' in req.email.value ==> EmailField in RegistrationErrors(db, req)
    ensures req.password.Some? && '\0' in req.password.value ==> PasswordField in RegistrationErrors(db, req)
  {
    forall v: string, k: nat | k < |v| && v[k] == '\0' ensures !Text.CharFieldAccepts(v) {
      Text.StripKeeps(v, k);
    }
  }

  /** A request that passes every field check is accepted. */
  lemma AcceptedWhenValid(db: Db, req: RegisterRequest)
    requires UsernameAccepted(db, req.username) && EmailAccepted(db, req.email) && PasswordAccepted(req.password)
    ensures RegisterStep(db, req) == RegisterOutcome(WithUser(db, NewUser(req)), Registered(|db.users| + 1))
  {
    assert RegistrationErrors(db, req) == {};
  }

  /** The e-mail a new account is checked against is the raw one, so a second
      account can end up with an address already stored: when `b@x.com` is
      stored, a registration with `b@X.com` passes and stores `b@x.com` again. */
  lemma DomainCaseDuplicatesEmail(db: Db, i: nat, local: string, d1: string, d2: string, name: string, password: string)
    requires local != [] && !Text.IsSpace(local[0]) && '\0' !in local
    requires d1 != [] && !Text.IsSpace(d1[|d1| - 1]) && '@' !in d1 && '\0' !in d1
    requires d2 != [] && !Text.IsSpace(d2[|d2| - 1]) && '@' !in d2
    requires Text.Lower(d1) == d2 && d1 != d2
    requires i < |db.users| && db.users[i].email == local + ['@'] + d2
    requires !EmailTaken(db, local + ['@'] + d1)
    requires name != [] && !Text.IsSpace(name[0]) && !Text.IsSpace(name[|name| - 1])
    requires |name| <= USERNAME_MAX_LENGTH && !UsernameTaken(db, name) && '\0' !in name
    requires password != [] && !Text.IsSpace(password[0]) && !Text.IsSpace(password[|password| - 1])
    requires '\0' !in password
    requires |password| >= PASSWORD_MIN_LENGTH
    ensures var r := RegisterStep(db, RegisterRequest(Some(name), Some(local + ['@'] + d1), Some(password)));
      r.reply.Registered? && r.db.users[i].email == r.db.users[|db.users|].email
  {
    var e1 := local + ['@'] + d1;
    var req := RegisterRequest(Some(name), Some(e1), Some(password));
    Text.StripUnpadded(name);
    Text.StripUnpadded(e1);
    Text.StripUnpadded(password);
    AcceptedWhenValid(db, req);
    Text.LowerIdempotent(d1);
    NormalizeEmailFoldsDomain(local, d1, d2);
    NormalizeEmailLowerDomain(local, d2);
    assert NewUser(req).email == local + ['@'] + d2;
    var db' := WithUser(db, NewUser(req));
    assert db'.users[i] == db.users[i] && db'.users[|db.users|] == NewUser(req);
  }

  lemma RegisterValid(db: Db, req: RegisterRequest)
    requires Valid(db)
    ensures Valid(RegisterStep(db, req).db)
  {
    if RegistrationErrors(db, req) == {} {
      AddUserValid(db, NewUser(req));
    }
  }

  /** The registration endpoint on the store. */
  method Register(store: Store, req: RegisterRequest) returns (reply: RegisterReply)
    requires store.Valid()
    modifies store`users, store`presence
    ensures store.Valid()
    ensures RegisterOutcome(store.Snapshot(), reply) == RegisterStep(old(store.Snapshot()), req)
  {
    var errors := RegistrationErrors(store.Snapshot(), req);
    if errors != {} {
      return RegisterInvalid(errors);
    }
    var id := store.CreateUser(Text.Strip(req.username.value), Text.Strip(req.email.value));
    reply := Registered(id);
  }
}
