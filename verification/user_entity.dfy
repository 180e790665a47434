/**
 * The user entity and its persistence callbacks: before the first insert,
 * missing preferences get their defaults and the timestamps are set; before
 * each update, the update timestamp is refreshed. Clock reads are parameters.
 */
module UserEntity {
  import opened Wrappers
  import opened Text

  /** A LocalDateTime, as an abstract instant. */
  type Instant = int

  /** The persistent state of a user; every field is nullable, as in the entity. */
  datatype UserData = UserData(
    id: Option<nat>,
    name: Option<string>,
    email: Option<string>,
    passwordHash: Option<string>,
    avatarUrl: Option<string>,
    language: Option<string>,
    theme: Option<string>,
    sidebarVisible: Option<bool>,
    createdAt: Option<Instant>,
    updatedAt: Option<Instant>)

  /** A field that is null or only whitespace (Java's isBlank). */
  predicate IsNullOrBlank(s: Option<string>) {
    s.None? || JavaIsBlank(s.value)
  }

  /** Language and theme given to a user who has none. */
  const DefaultLanguage := "pt"
  const DefaultTheme := "light"

  /** A string in the sense of a non-null, non-blank field value. */
  predicate IsPresent(s: Option<string>) {
    s.Some? && !JavaIsBlank(s.value)
  }

  /**
   * prePersist as a function of the state before the insert: the creation
   * and update instants are read from the clock (createdNow, updatedNow).
   */
  function PersistDefaults(u: UserData, createdNow: Instant, updatedNow: Instant): UserData {
    u.(createdAt := if u.createdAt.None? then Some(createdNow) else u.createdAt,
       language := if IsNullOrBlank(u.language) then Some(DefaultLanguage) else u.language,
       theme := if IsNullOrBlank(u.theme) then Some(DefaultTheme) else u.theme,
       sidebarVisible := if u.sidebarVisible.None? then Some(true) else u.sidebarVisible,
       updatedAt := if u.updatedAt.None? then Some(updatedNow) else u.updatedAt)
  }

  /** The default language and theme are not blank. */
  lemma DefaultsPresent()
    ensures IsPresent(Some(DefaultLanguage)) && IsPresent(Some(DefaultTheme))
  {
    assert !IsJavaWhitespace(DefaultLanguage[0]);
    assert !IsJavaWhitespace(DefaultTheme[0]);
  }

  /** The fields prePersist fills are all set afterwards, and language and theme are not blank. */
  lemma PersistDefaultsComplete(u: UserData, createdNow: Instant, updatedNow: Instant)
    ensures var r := PersistDefaults(u, createdNow, updatedNow);
      && IsPresent(r.language) && IsPresent(r.theme)
      && r.sidebarVisible.Some? && r.createdAt.Some? && r.updatedAt.Some?
  {
    assert !JavaIsBlank(DefaultLanguage) by { assert !IsJavaWhitespace(DefaultLanguage[0]); }
    assert !JavaIsBlank(DefaultTheme) by { assert !IsJavaWhitespace(DefaultTheme[0]); }
  }

  /** prePersist keeps every value already set (non-blank, for the two strings) and fills only the others. */
  lemma PersistDefaultsKeepsSetValues(u: UserData, createdNow: Instant, updatedNow: Instant)
    ensures var r := PersistDefaults(u, createdNow, updatedNow);
      && (IsPresent(u.language) ==> r.language == u.language)
      && (!IsPresent(u.language) ==> r.language == Some(DefaultLanguage))
      && (IsPresent(u.theme) ==> r.theme == u.theme)
      && (!IsPresent(u.theme) ==> r.theme == Some(DefaultTheme))
      && (u.sidebarVisible.Some? ==> r.sidebarVisible == u.sidebarVisible)
      && (u.sidebarVisible.None? ==> r.sidebarVisible == Some(true))
      && (u.createdAt.Some? ==> r.createdAt == u.createdAt)
      && (u.updatedAt.Some? ==> r.updatedAt == u.updatedAt)
      && r.id == u.id && r.name == u.name && r.email == u.email
      && r.passwordHash == u.passwordHash && r.avatarUrl == u.avatarUrl
  {
  }

  /** Running prePersist a second time, at any instants, changes nothing. */
  lemma PersistDefaultsIdempotent(u: UserData, createdNow: Instant, updatedNow: Instant, c2: Instant, u2: Instant)
    ensures PersistDefaults(PersistDefaults(u, createdNow, updatedNow), c2, u2) == PersistDefaults(u, createdNow, updatedNow)
  {
    PersistDefaultsComplete(u, createdNow, updatedNow);
  }

  /** a and b agree on every field except, possibly, the update instant. */
  predicate SameExceptUpdatedAt(a: UserData, b: UserData) {
    && a.id == b.id && a.name == b.name && a.email == b.email && a.passwordHash == b.passwordHash
    && a.avatarUrl == b.avatarUrl && a.language == b.language && a.theme == b.theme
    && a.sidebarVisible == b.sidebarVisible && a.createdAt == b.createdAt
  }

  /** preUpdate as a function of the state before the update. */
  function Touched(u: UserData, now: Instant): (r: UserData)
    ensures r.updatedAt == Some(now)
    ensures SameExceptUpdatedAt(r, u)
  {
    u.(updatedAt := Some(now))
  }

  /** The entity object whose callbacks the persistence provider invokes. */
  class User {
    var id: Option<nat>
    var name: Option<string>
    var email: Option<string>
    var passwordHash: Option<string>
    var avatarUrl: Option<string>
    var language: Option<string>
    var theme: Option<string>
    var sidebarVisible: Option<bool>
    var createdAt: Option<Instant>
    var updatedAt: Option<Instant>

    /** The current values of all fields. */
    function Snapshot(): UserData
      reads this
    {
      UserData(id, name, email, passwordHash, avatarUrl, language, theme, sidebarVisible, createdAt, updatedAt)
    }

    /** new User(): every field null. */
    constructor ()
      ensures Snapshot() == UserData(None, None, None, None, None, None, None, None, None, None)
    {
      id, name, email, passwordHash, avatarUrl := None, None, None, None, None;
      language, theme, sidebarVisible, createdAt, updatedAt := None, None, None, None, None;
    }

    /** prePersist: fills the defaults and timestamps that are still missing. */
    method PrePersist(createdNow: Instant, updatedNow: Instant)
      modifies this
      ensures Snapshot() == PersistDefaults(old(Snapshot()), createdNow, updatedNow)
    {
      if createdAt.None? {
        createdAt := Some(createdNow);
      }
      if language.None? || JavaIsBlank(language.value) {
        language := Some(DefaultLanguage);
      }
      if theme.None? || JavaIsBlank(theme.value) {
        theme := Some(DefaultTheme);
      }
      if sidebarVisible.None? {
        sidebarVisible := Some(true);
      }
      if updatedAt.None? {
        updatedAt := Some(updatedNow);
      }
    }

    /** preUpdate: refreshes the update timestamp and nothing else. */
    method PreUpdate(now: Instant)
      modifies this
      ensures Snapshot() == Touched(old(Snapshot()), now)
    {
      updatedAt := Some(now);
    }
  }
}
