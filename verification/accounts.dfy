/**
 * The rules of the account service, as functions: e-mail normalisation, the
 * row a registration stores, and the outcome of a profile update.
 */
module AccountRules {
  import opened Wrappers
  import opened Text
  import opened UserEntity

  datatype HttpStatus = BadRequest | Unauthorized | Conflict

  /** A ResponseStatusException: the HTTP status and the reason given. */
  datatype Failure = Failure(status: HttpStatus, reason: string)

  /** The profile update request; a null field means "leave as it is". */
  datatype UpdateMeRequest = UpdateMeRequest(
    name: Option<string>,
    avatarUrl: Option<string>,
    language: Option<string>,
    theme: Option<string>,
    sidebarVisible: Option<bool>)

  /** normalizeEmail: null becomes "", anything else is trimmed and lower-cased. */
  function NormalizeEmail(email: Option<string>): (r: string)
    ensures email.None? ==> r == []
    ensures r != [] ==> !IsJavaTrimChar(r[0]) && !IsJavaTrimChar(r[|r| - 1])
    ensures forall i :: 0 <= i < |r| ==> !('A' <= r[i] <= 'Z')
  {
    if email.None? then []
    else
      var t := JavaTrim(email.value);
      LowerKeepsTrimmedEnds(t);
      LowerHasNoUpperCase(t);
      ToLower(t)
  }

  /**
   * A normalised address is the lower-cased form of the given one with its
   * surrounding trim characters, and only those, taken off.
   */
  lemma NormalizeEmailMeaning(email: string)
    ensures exists t :: IsJavaTrimmed(email, t) && NormalizeEmail(Some(email)) == ToLower(t)
  {
    var t := JavaTrim(email);
    JavaTrimIsTrim(email);
    NormalizeEmailOfAddress(email);
    assert IsJavaTrimmed(email, t) && NormalizeEmail(Some(email)) == ToLower(t);
  }

  lemma LowerHasNoUpperCase(t: string)
    ensures var r := ToLower(t); forall i :: 0 <= i < |r| ==> !('A' <= r[i] <= 'Z')
  {
  }

  /** Lower-casing a string that neither begins nor ends with a trim character keeps it so. */
  lemma LowerKeepsTrimmedEnds(t: string)
    requires t != [] ==> !IsJavaTrimChar(t[0]) && !IsJavaTrimChar(t[|t| - 1])
    ensures var r := ToLower(t); r != [] ==> !IsJavaTrimChar(r[0]) && !IsJavaTrimChar(r[|r| - 1])
  {
    if t != [] {
      LowerKeepsTrimChars(t[0]);
      LowerKeepsTrimChars(t[|t| - 1]);
    }
  }

  /** Normalising a normalised address changes nothing. */
  lemma NormalizeEmailIdempotent(email: Option<string>)
    ensures NormalizeEmail(Some(NormalizeEmail(email))) == NormalizeEmail(email)
  {
    if email.Some? {
      var n := NormalizeEmail(email);
      NormalizeEmailOfAddress(email.value);
      NormalizeEmailOfAddress(n);
      TrimLowerIdempotent(email.value);
    } else {
      assert JavaTrim([]) == [];
    }
  }

  lemma NormalizeEmailOfAddress(s: string)
    ensures NormalizeEmail(Some(s)) == ToLower(JavaTrim(s))
  {
  }

  /** The row register saves, after the entity's prePersist has run and before an id is assigned. */
  function RegisteredUser(name: string, email: string, hash: string, createdNow: Instant, updatedNow: Instant): UserData {
    PersistDefaults(
      UserData(None, Some(JavaTrim(name)), Some(email), Some(hash), None, Some("pt"), Some("light"), Some(true), None, None),
      createdNow, updatedNow)
  }

  /** A registered user has a trimmed name, the given address, no avatar, the default preferences and both timestamps. */
  lemma RegisteredUserShape(name: string, email: string, hash: string, createdNow: Instant, updatedNow: Instant)
    ensures var u := RegisteredUser(name, email, hash, createdNow, updatedNow);
      && u.name.Some? && JavaTrim(u.name.value) == u.name.value && |u.name.value| <= |name|
      && u.email == Some(email) && u.passwordHash == Some(hash) && u.avatarUrl.None?
      && u.language == Some("pt") && u.theme == Some("light") && u.sidebarVisible == Some(true)
      && u.createdAt == Some(createdNow) && u.updatedAt == Some(updatedNow)
  {
    var given := UserData(None, Some(JavaTrim(name)), Some(email), Some(hash), None, Some("pt"), Some("light"), Some(true), None, None);
    DefaultsPresent();
    PersistDefaultsKeepsSetValues(given, createdNow, updatedNow);
    JavaTrimIdempotent(name);
  }

  /** A name given for an update that is blank once trimmed. */
  predicate NameRejected(name: Option<string>) {
    name.Some? && JavaIsBlank(JavaTrim(name.value))
  }

  /** A language or theme value as compared: trimmed and lower-cased. */
  function Choice(value: string): string {
    ToLower(JavaTrim(value))
  }

  predicate LanguageRejected(language: Option<string>) {
    language.Some? && Choice(language.value) != "pt" && Choice(language.value) != "en"
  }

  predicate ThemeRejected(theme: Option<string>) {
    theme.Some? && Choice(theme.value) != "light" && Choice(theme.value) != "dark"
  }

  /** The name after an update: a given name, trimmed; otherwise the current one. */
  function NameAfter(current: Option<string>, given: Option<string>): Option<string> {
    if given.Some? then Some(JavaTrim(given.value)) else current
  }

  /** The avatar after an update: a given avatar, trimmed, or null when blank; otherwise the current one. */
  function AvatarAfter(current: Option<string>, given: Option<string>): Option<string> {
    if given.None? then current
    else if JavaIsBlank(JavaTrim(given.value)) then None
    else Some(JavaTrim(given.value))
  }

  /** A language or theme after an update: a given value, trimmed and lower-cased; otherwise the current one. */
  function ChoiceAfter(current: Option<string>, given: Option<string>): Option<string> {
    if given.Some? then Some(Choice(given.value)) else current
  }

  /**
   * The outcome of an update request on a stored user: the first rule the
   * request breaks, in the order name, language, theme; otherwise the user
   * with each non-null request field applied.
   */
  function ApplyUpdate(u: UserData, req: UpdateMeRequest): Result<UserData, Failure> {
    if NameRejected(req.name) then Err(Failure(BadRequest, "Name cannot be blank"))
    else if LanguageRejected(req.language) then Err(Failure(BadRequest, "Invalid language"))
    else if ThemeRejected(req.theme) then Err(Failure(BadRequest, "Invalid theme"))
    else Ok(u.(
      name := NameAfter(u.name, req.name),
      avatarUrl := AvatarAfter(u.avatarUrl, req.avatarUrl),
      language := ChoiceAfter(u.language, req.language),
      theme := ChoiceAfter(u.theme, req.theme),
      sidebarVisible := if req.sidebarVisible.Some? then req.sidebarVisible else u.sidebarVisible))
  }

  /** An update fails exactly when one of the three rules is broken, and always as a bad request. */
  lemma UpdateFailsOnlyOnBrokenRule(u: UserData, req: UpdateMeRequest)
    ensures ApplyUpdate(u, req).Err? <==> NameRejected(req.name) || LanguageRejected(req.language) || ThemeRejected(req.theme)
    ensures ApplyUpdate(u, req).Err? ==> ApplyUpdate(u, req).error.status == BadRequest
  {
  }

  /** Null request fields leave their values untouched; identity, credentials and timestamps never change. */
  lemma UpdateKeepsNullFields(u: UserData, req: UpdateMeRequest)
    requires ApplyUpdate(u, req).Ok?
    ensures var r := ApplyUpdate(u, req).value;
      && (req.name.None? ==> r.name == u.name)
      && (req.avatarUrl.None? ==> r.avatarUrl == u.avatarUrl)
      && (req.language.None? ==> r.language == u.language)
      && (req.theme.None? ==> r.theme == u.theme)
      && (req.sidebarVisible.None? ==> r.sidebarVisible == u.sidebarVisible)
      && r.id == u.id && r.email == u.email && r.passwordHash == u.passwordHash
      && r.createdAt == u.createdAt && r.updatedAt == u.updatedAt
  {
  }

  /** A name that passes the rule is stored trimmed and is not blank. */
  lemma UpdatedNameIsTrimmed(current: Option<string>, given: Option<string>)
    requires given.Some? && !NameRejected(given)
    ensures var n := NameAfter(current, given);
      n.Some? && !JavaIsBlank(n.value) && JavaTrim(n.value) == n.value
  {
    JavaTrimIdempotent(given.value);
  }

  /** A blank avatar is stored as null; any other is stored trimmed and is not blank. */
  lemma UpdatedAvatarIsTrimmedOrNull(current: Option<string>, given: Option<string>)
    requires given.Some?
    ensures var a := AvatarAfter(current, given);
      && (JavaIsBlank(JavaTrim(given.value)) <==> a.None?)
      && (a.Some? ==> !JavaIsBlank(a.value) && JavaTrim(a.value) == a.value)
  {
    JavaTrimIdempotent(given.value);
  }

  /** After a successful update a given language is "pt" or "en" and a given theme "light" or "dark". */
  lemma UpdateLanguageAndTheme(u: UserData, req: UpdateMeRequest)
    requires ApplyUpdate(u, req).Ok?
    ensures var r := ApplyUpdate(u, req).value;
      && (req.language.Some? ==> r.language == Some("pt") || r.language == Some("en"))
      && (req.theme.Some? ==> r.theme == Some("light") || r.theme == Some("dark"))
  {
  }

  /** The saved row: the update timestamp is refreshed only when some field actually changed. */
  function Saved(before: UserData, after: UserData, now: Instant): (r: UserData)
    ensures SameExceptUpdatedAt(r, after)
    ensures after == before ==> r == before
    ensures after != before ==> r.updatedAt == Some(now)
  {
    if after == before then before else Touched(after, now)
  }
}

/**
 * The account service: registration, login, the current user's profile and
 * its update. Users are kept in a map from e-mail address to stored row; the
 * password encoder is a pair of functions given when the service is made.
 */
module Accounts {
  import opened Wrappers
  import opened Text
  import opened UserEntity
  import opened AccountRules

  /** Each row is stored under its own e-mail address and has a password hash and an id. */
  ghost predicate WellKeyed(users: map<string, UserData>) {
    forall e :: e in users ==> users[e].email == Some(e) && users[e].passwordHash.Some? && users[e].id.Some?
  }

  /** Storing a row with a hash and an id under its own address keeps the table well keyed. */
  lemma StoreKeepsWellKeyed(users: map<string, UserData>, e: string, u: UserData)
    requires WellKeyed(users)
    requires u.email == Some(e) && u.passwordHash.Some? && u.id.Some?
    ensures WellKeyed(users[e := u])
  {
  }

  /** The name step of updateMe: a given name is trimmed and must not be blank. */
  method UpdatedName(current: Option<string>, given: Option<string>) returns (r: Result<Option<string>, Failure>)
    ensures r.Err? <==> NameRejected(given)
    ensures r.Err? ==> r.error == Failure(BadRequest, "Name cannot be blank")
    ensures r.Ok? ==> r.value == NameAfter(current, given)
  {
    if given.None? {
      return Ok(current);
    }
    var name := JavaTrim(given.value);
    if JavaIsBlank(name) {
      return Err(Failure(BadRequest, "Name cannot be blank"));
    }
    r := Ok(Some(name));
  }

  /** The avatar step of updateMe: a given avatar is trimmed, and a blank one clears it. */
  method UpdatedAvatar(current: Option<string>, given: Option<string>) returns (r: Option<string>)
    ensures r == AvatarAfter(current, given)
  {
    r := current;
    if given.Some? {
      var avatar := JavaTrim(given.value);
      r := if JavaIsBlank(avatar) then None else Some(avatar);
    }
  }

  /**
   * The language and theme steps of updateMe: a given value is trimmed and
   * lower-cased and must be one of the two allowed values.
   */
  method UpdatedChoice(current: Option<string>, given: Option<string>, first: string, second: string, reason: string)
    returns (r: Result<Option<string>, Failure>)
    ensures r.Err? <==> given.Some? && Choice(given.value) != first && Choice(given.value) != second
    ensures r.Err? ==> r.error == Failure(BadRequest, reason)
    ensures r.Ok? ==> r.value == ChoiceAfter(current, given)
    ensures r.Ok? && given.Some? ==> r.value == Some(first) || r.value == Some(second)
  {
    if given.None? {
      return Ok(current);
    }
    var value := ToLower(JavaTrim(given.value));
    if value != first && value != second {
      return Err(Failure(BadRequest, reason));
    }
    r := Ok(Some(value));
  }

  /** The account store and the password encoder's encode/matches pair. */
  class AuthService {
    /** The users table, keyed by the (unique) e-mail column. */
    var users: map<string, UserData>
    /** The next identity value the database hands out. */
    var nextId: nat
    const encode: string -> string
    const matches: (string, string) -> bool

    ghost predicate Valid()
      reads this
    {
      WellKeyed(users)
    }

    constructor (encode: string -> string, matches: (string, string) -> bool)
      ensures Valid() && users == map[] && nextId == 1
      ensures this.encode == encode && this.matches == matches
    {
      users := map[];
      nextId := 1;
      this.encode := encode;
      this.matches := matches;
    }

    /**
     * The new User entity register builds: trimmed name, the address, the hash
     * and the default preferences, then prePersist, then the identity value.
     */
    static method NewRow(name: string, address: string, hash: string, id: nat, createdNow: Instant, updatedNow: Instant)
      returns (saved: UserData)
      ensures saved == RegisteredUser(name, address, hash, createdNow, updatedNow).(id := Some(id))
    {
      var user := new User();
      user.name := Some(JavaTrim(name));
      user.email := Some(address);
      user.passwordHash := Some(hash);
      user.language := Some("pt");
      user.theme := Some("light");
      user.sidebarVisible := Some(true);
      assert user.Snapshot() == UserData(None, Some(JavaTrim(name)), Some(address), Some(hash), None, Some("pt"), Some("light"), Some(true), None, None);
      user.PrePersist(createdNow, updatedNow);
      user.id := Some(id);
      saved := user.Snapshot();
    }

    /**
     * register: refuses an address already in use; otherwise stores a new user
     * built as RegisteredUser with the next id. The clock reads of the entity's
     * prePersist are the parameters createdNow and updatedNow.
     */
    method Register(name: string, email: Option<string>, password: string, createdNow: Instant, updatedNow: Instant)
      returns (r: Result<UserData, Failure>)
      requires Valid()
      modifies this
      ensures Valid()
      ensures NormalizeEmail(email) in old(users) ==>
        r == Err(Failure(Conflict, "Email already in use")) && users == old(users) && nextId == old(nextId)
      ensures NormalizeEmail(email) !in old(users) ==>
        && r == Ok(RegisteredUser(name, NormalizeEmail(email), encode(password), createdNow, updatedNow).(id := Some(old(nextId))))
        && users == old(users)[NormalizeEmail(email) := r.value]
        && nextId == old(nextId) + 1
    {
      var address := NormalizeEmail(email);
      if address in users {
        return Err(Failure(Conflict, "Email already in use"));
      }
      var saved := NewRow(name, address, encode(password), nextId, createdNow, updatedNow);
      assert saved.email == Some(address) && saved.passwordHash.Some? && saved.id.Some?;
      StoreKeepsWellKeyed(users, address, saved);
      users := users[address := saved];
      nextId := nextId + 1;
      r := Ok(saved);
    }

    /** login: an unknown address and a wrong password fail alike. */
    method Login(email: Option<string>, password: string) returns (r: Result<UserData, Failure>)
      requires Valid()
      ensures r.Ok? <==> NormalizeEmail(email) in users && matches(password, users[NormalizeEmail(email)].passwordHash.value)
      ensures r.Ok? ==> r.value == users[NormalizeEmail(email)]
      ensures r.Err? ==> r.error == Failure(Unauthorized, "Invalid credentials")
    {
      var address := NormalizeEmail(email);
      if address !in users {
        return Err(Failure(Unauthorized, "Invalid credentials"));
      }
      var user := users[address];
      if !matches(password, user.passwordHash.value) {
        return Err(Failure(Unauthorized, "Invalid credentials"));
      }
      r := Ok(user);
    }

    /** me: the stored user for the (normalised) address. */
    method Me(email: Option<string>) returns (r: Result<UserData, Failure>)
      ensures r.Ok? <==> NormalizeEmail(email) in users
      ensures r.Ok? ==> r.value == users[NormalizeEmail(email)]
      ensures r.Err? ==> r.error == Failure(Unauthorized, "User not found")
    {
      var address := NormalizeEmail(email);
      if address !in users {
        return Err(Failure(Unauthorized, "User not found"));
      }
      r := Ok(users[address]);
    }

    /**
     * updateMe: applies the request field by field to the stored user and saves
     * it; a broken rule aborts before the save, so nothing is stored. The clock
     * read of the entity's preUpdate is the parameter now.
     */
    method UpdateMe(email: Option<string>, req: UpdateMeRequest, now: Instant) returns (r: Result<UserData, Failure>)
      requires Valid()
      modifies this
      ensures Valid()
      ensures nextId == old(nextId)
      ensures NormalizeEmail(email) !in old(users) ==>
        r == Err(Failure(Unauthorized, "User not found")) && users == old(users)
      ensures NormalizeEmail(email) in old(users) && ApplyUpdate(old(users)[NormalizeEmail(email)], req).Err? ==>
        r == Err(ApplyUpdate(old(users)[NormalizeEmail(email)], req).error) && users == old(users)
      ensures NormalizeEmail(email) in old(users) && ApplyUpdate(old(users)[NormalizeEmail(email)], req).Ok? ==>
        && r == Ok(Saved(old(users)[NormalizeEmail(email)], ApplyUpdate(old(users)[NormalizeEmail(email)], req).value, now))
        && users == old(users)[NormalizeEmail(email) := r.value]
    {
      var address := NormalizeEmail(email);
      if address !in users {
        return Err(Failure(Unauthorized, "User not found"));
      }
      var before := users[address];
      var name := UpdatedName(before.name, req.name);
      if name.Err? {
        return Err(name.error);
      }
      var avatar := UpdatedAvatar(before.avatarUrl, req.avatarUrl);
      var language := UpdatedChoice(before.language, req.language, "pt", "en", "Invalid language");
      if language.Err? {
        return Err(language.error);
      }
      var theme := UpdatedChoice(before.theme, req.theme, "light", "dark", "Invalid theme");
      if theme.Err? {
        return Err(theme.error);
      }
      var sidebar := before.sidebarVisible;
      if req.sidebarVisible.Some? {
        sidebar := req.sidebarVisible;
      }
      var user := before.(name := name.value, avatarUrl := avatar, language := language.value, theme := theme.value, sidebarVisible := sidebar);
      assert ApplyUpdate(before, req) == Ok(user);
      var saved := Saved(before, user, now);
      assert saved.email == Some(address) && saved.passwordHash.Some? && saved.id.Some?;
      StoreKeepsWellKeyed(users, address, saved);
      users := users[address := saved];
      r := Ok(saved);
    }
  }
}
