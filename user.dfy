/**
 * The `User` model: its stored record, `has_secure_password` (abstracted to a
 * hashing parameter) and the validations run on every save.
 */
module UserModel {
  import opened Wrappers
  import opened RubyStrings

  /** An attached image; the URL `url_for` makes of it is left opaque. */
  datatype ImageRef = ImageRef(blob: nat)

  /**
   * The password hashing behind `has_secure_password`: `digest` stands for
   * creating a salted BCrypt digest and `matches` for `authenticate`.
   */
  datatype PasswordHasher = PasswordHasher(digest: string -> string, matches: (string, string) -> bool)

  /**
   * A digest made from a password authenticates that password, and is never
   * blank (a BCrypt digest is a 60-character string).
   */
  ghost predicate Sound(h: PasswordHasher) {
    && (forall p :: h.matches(h.digest(p), p))
    && (forall p :: !Blank(h.digest(p)))
  }

  /** A stored user row. The plaintext password is never stored. */
  datatype User = User(id: nat, name: string, email: string, passwordDigest: string, image: Option<ImageRef>)

  /**
   * The password state `has_secure_password` keeps on a record: the virtual
   * `password` (nil unless a non-empty string was assigned in this request)
   * and the `password_digest` column.
   */
  datatype Secret = Secret(password: Option<string>, digest: Option<string>)

  /** The attributes a save validates. */
  datatype Candidate = Candidate(name: Option<string>, email: Option<string>,
                                 secret: Secret, passwordConfirmation: Option<string>)

  /** The parameters `update` may assign: email is not among them. */
  datatype Changes = Changes(name: Param<string>, password: Param<string>,
                             passwordConfirmation: Param<string>, image: Param<ImageRef>)

  /** One validation error, in the order the validations are declared. */
  datatype UserError =
    | DigestMissing | PasswordTooLong | ConfirmationMismatch
    | NameBlank | EmailBlank | EmailTaken | EmailMalformed
    | PasswordBlank | PasswordTooShort | EmailChanged

  const MinPasswordLength := 6
  /** The cap `has_secure_password` puts on passwords. */
  const MaxPasswordLength := 72

  /** `errors.full_messages` for one error. */
  function FullMessage(e: UserError): string {
    match e
    case DigestMissing => "Password can't be blank"
    case PasswordTooLong => "Password is too long (maximum is 72 characters)"
    case ConfirmationMismatch => "Password confirmation doesn't match Password"
    case NameBlank => "Name can't be blank"
    case EmailBlank => "Email can't be blank"
    case EmailTaken => "Email has already been taken"
    case EmailMalformed => "Email must be a valid email format"
    case PasswordBlank => "Password can't be blank"
    case PasswordTooShort => "Password is too short (minimum is 6 characters)"
    case EmailChanged => "Email cannot be changed once set"
  }

  // ---------------------------------------------------------------------------
  // The email format /\A[\w+\-.]+@[a-zA-Z\d\-.]+\.[a-zA-Z]+\z/

  predicate IsLetter(c: char) {
    'a' <= c <= 'z' || 'A' <= c <= 'Z'
  }

  predicate IsDigit(c: char) {
    '0' <= c <= '9'
  }

  /** `[\w+\-.]`; Ruby's `\w` is ASCII letters, digits and underscore. */
  predicate IsLocalChar(c: char) {
    IsLetter(c) || IsDigit(c) || c == '_' || c == '+' || c == '-' || c == '.'
  }

  /** `[a-zA-Z\d\-.]` */
  predicate IsDomainChar(c: char) {
    IsLetter(c) || IsDigit(c) || c == '-' || c == '.'
  }

  predicate AllLocal(s: string) {
    forall i | 0 <= i < |s| :: IsLocalChar(s[i])
  }

  predicate AllDomain(s: string) {
    forall i | 0 <= i < |s| :: IsDomainChar(s[i])
  }

  predicate AllLetters(s: string) {
    forall i | 0 <= i < |s| :: IsLetter(s[i])
  }

  /** The regular expression read literally: some split of the whole string into the four parts. */
  ghost predicate MatchesEmailRegex(s: string) {
    exists i, j | 0 < i && i + 1 < j < |s| - 1 ::
      && s[i] == '@' && s[j] == '.'
      && AllLocal(s[..i])
      && AllDomain(s[i + 1..j])
      && AllLetters(s[j + 1..])
  }

  /** The part after the `@`: domain characters, the last `.` neither first nor last, letters after it. */
  predicate ValidDomain(d: string) {
    && AllDomain(d)
    && match LastIndexOf(d, '.')
       case None => false
       case Some(k) => 0 < k < |d| - 1 && AllLetters(d[k + 1..])
  }

  /** The email format check, by locating the `@` and the last `.`. */
  predicate ValidEmail(s: string) {
    match IndexOf(s, '@')
    case None => false
    case Some(i) => 0 < i && AllLocal(s[..i]) && ValidDomain(s[i + 1..])
  }

  lemma {:induction false} IndexOfFirst(s: string, c: char, i: nat)
    requires i < |s| && s[i] == c && c !in s[..i]
    ensures IndexOf(s, c) == Some(i)
  {
    if i > 0 {
      assert s[..i][0] == s[0];
      assert s[1..][..i - 1] == s[..i][1..];
      IndexOfFirst(s[1..], c, i - 1);
    }
  }

  lemma {:induction false} LastIndexOfLast(s: string, c: char, k: nat)
    requires k < |s| && s[k] == c && c !in s[k + 1..]
    ensures LastIndexOf(s, c) == Some(k)
    decreases |s|
  {
    if k < |s| - 1 {
      var s' := s[..|s| - 1];
      assert s[k + 1..][|s| - k - 2] == s[|s| - 1];
      assert s'[k + 1..] == s[k + 1..][..|s| - k - 2];
      LastIndexOfLast(s', c, k);
    }
  }

  lemma ValidEmailMatchesRegex(s: string)
    requires ValidEmail(s)
    ensures MatchesEmailRegex(s)
  {
    var i := IndexOf(s, '@').value;
    var d := s[i + 1..];
    var k := LastIndexOf(d, '.').value;
    var j := i + 1 + k;
    assert s[i + 1..j] == d[..k];
    assert s[j + 1..] == d[k + 1..];
    assert s[j] == d[k];
    assert AllDomain(s[i + 1..j]);
  }

  lemma {:induction false} DomainOfMatch(d: string, k: nat)
    requires 0 < k < |d| - 1 && d[k] == '.'
    requires AllDomain(d[..k]) && AllLetters(d[k + 1..])
    ensures ValidDomain(d)
  {
    var t := d[k + 1..];
    assert '.' !in t by {
      assert forall m | 0 <= m < |t| :: IsLetter(t[m]);
    }
    LastIndexOfLast(d, '.', k);
    forall m | 0 <= m < |d| ensures IsDomainChar(d[m]) {
      if m < k {
        assert d[m] == d[..k][m];
      } else if m > k {
        assert d[m] == t[m - k - 1];
      }
    }
  }

  lemma SplitIsValidEmail(s: string, i: nat, j: nat)
    requires 0 < i && i + 1 < j < |s| - 1
    requires s[i] == '@' && s[j] == '.'
    requires AllLocal(s[..i]) && AllDomain(s[i + 1..j]) && AllLetters(s[j + 1..])
    ensures ValidEmail(s)
  {
    var prefix := s[..i];
    assert '@' !in prefix by {
      assert forall m | 0 <= m < |prefix| :: IsLocalChar(prefix[m]);
    }
    IndexOfFirst(s, '@', i);
    var d := s[i + 1..];
    var k := j - i - 1;
    assert d[..k] == s[i + 1..j];
    assert d[k + 1..] == s[j + 1..];
    DomainOfMatch(d, k);
  }

  lemma RegexMatchIsValidEmail(s: string)
    requires MatchesEmailRegex(s)
    ensures ValidEmail(s)
  {
    var i, j :| 0 < i && i + 1 < j < |s| - 1
      && s[i] == '@' && s[j] == '.'
      && AllLocal(s[..i])
      && AllDomain(s[i + 1..j])
      && AllLetters(s[j + 1..]);
    SplitIsValidEmail(s, i, j);
  }

  /** The format check accepts exactly the strings the regular expression matches. */
  lemma ValidEmailIffRegex(s: string)
    ensures ValidEmail(s) <==> MatchesEmailRegex(s)
  {
    if ValidEmail(s) {
      ValidEmailMatchesRegex(s);
    }
    if MatchesEmailRegex(s) {
      RegexMatchIsValidEmail(s);
    }
  }

  /** An accepted email contains exactly one `@`. */
  lemma ValidEmailHasOneAt(s: string)
    requires ValidEmail(s)
    ensures '@' in s
    ensures forall m, n | 0 <= m < |s| && 0 <= n < |s| && s[m] == '@' && s[n] == '@' :: m == n
  {
    var i := IndexOf(s, '@').value;
    var d := s[i + 1..];
    forall m | 0 <= m < |s| && m != i ensures s[m] != '@' {
      if m < i {
        assert s[m] == s[..i][m];
        assert IsLocalChar(s[m]);
      } else {
        assert s[m] == d[m - i - 1];
        assert IsDomainChar(s[m]);
      }
    }
  }

  /** An accepted email ends in a `.` followed by one or more letters. */
  lemma ValidEmailEndsInLetters(s: string)
    requires ValidEmail(s)
    ensures LastIndexOf(s, '.').Some?
    ensures var j := LastIndexOf(s, '.').value; j < |s| - 1 && AllLetters(s[j + 1..])
  {
    DomainEndsInLetters(s, IndexOf(s, '@').value + 1);
  }

  /** If the part of `s` from `n` on is a valid domain, `s` ends in a `.` and letters. */
  lemma DomainEndsInLetters(s: string, n: nat)
    requires n <= |s| && ValidDomain(s[n..])
    ensures LastIndexOf(s, '.').Some?
    ensures var j := LastIndexOf(s, '.').value; j < |s| - 1 && AllLetters(s[j + 1..])
  {
    var k := LastIndexOf(s[n..], '.').value;
    assert s[n + k] == s[n..][k] && s[n + k + 1..] == s[n..][k + 1..];
    LastIndexOfLast(s, '.', n + k);
  }

  /** An accepted email is never blank. */
  lemma ValidEmailIsPresent(s: string)
    requires ValidEmail(s)
    ensures Present(Some(s))
  {
    var i := IndexOf(s, '@').value;
    assert !IsSpace(s[i]);
  }

  lemma InvalidEmailRejected()
    ensures !ValidEmail("invalidemail")
  {
    var s := "invalidemail";
    assert forall i | 0 <= i < |s| :: IsLetter(s[i]);
    NoAtRejected(s);
  }

  /** A string without an `@` is not an email. */
  lemma NoAtRejected(s: string)
    requires '@' !in s
    ensures !ValidEmail(s)
  {
  }

  lemma PlainEmailAccepted()
    ensures ValidEmail("a@x.com")
  {
    var s := "a@x.com";
    assert s[..1] == "a" && s[2..3] == "x" && s[4..] == "com";
    assert MatchesEmailRegex(s) by {
      assert s[1] == '@' && s[3] == '.';
    }
    RegexMatchIsValidEmail(s);
  }

  // ---------------------------------------------------------------------------
  // Validations

  /** `uniqueness: true`: another stored user (not the record itself) already has this email. */
  predicate EmailInUse(users: map<nat, User>, email: Option<string>, self: Option<nat>) {
    email.Some? && exists k | k in users :: users[k].email == email.value && Some(k) != self
  }

  /** The password must be present and between the two length bounds. */
  predicate PasswordAcceptable(p: Option<string>) {
    Present(p) && MinPasswordLength <= |p.value| <= MaxPasswordLength
  }

  /** `password_confirmation` is checked only when it was supplied and the password is not blank. */
  predicate ConfirmationMatches(c: Candidate) {
    !Present(c.secret.password) || c.passwordConfirmation.None?
    || c.passwordConfirmation.value == c.secret.password.value
  }

  /**
   * `errors` after `valid?`: `persisted` is None for `User.new(...).save` and
   * the stored row for `update`, where `email_unchanged` also runs.
   */
  function UserErrors(c: Candidate, users: map<nat, User>, persisted: Option<User>): seq<UserError> {
    var pw := c.secret.password;
    (if !Present(c.secret.digest) then [DigestMissing] else [])
    + (if Present(pw) && |pw.value| > MaxPasswordLength then [PasswordTooLong] else [])
    + (if !ConfirmationMatches(c) then [ConfirmationMismatch] else [])
    + (if !Present(c.name) then [NameBlank] else [])
    + (if !Present(c.email) then [EmailBlank] else [])
    + (if EmailInUse(users, c.email, if persisted.Some? then Some(persisted.value.id) else None)
       then [EmailTaken] else [])
    + (if !ValidEmail(c.email.GetOr("")) then [EmailMalformed] else [])
    + (if !Present(pw) then [PasswordBlank] else [])
    + (if |pw.GetOr("")| < MinPasswordLength then [PasswordTooShort] else [])
    + (if persisted.Some? && c.email != Some(persisted.value.email) then [EmailChanged] else [])
  }

  /** The digest error arises exactly when no digest is present. */
  lemma DigestMissingIff(c: Candidate, users: map<nat, User>, persisted: Option<User>)
    ensures DigestMissing in UserErrors(c, users, persisted) <==> !Present(c.secret.digest)
  {
  }

  /** A save succeeds exactly when every rule of the model holds. */
  lemma UserErrorsEmptyIff(c: Candidate, users: map<nat, User>, persisted: Option<User>)
    ensures UserErrors(c, users, persisted) == [] <==>
      && Present(c.name)
      && c.email.Some? && ValidEmail(c.email.value)
      && !EmailInUse(users, c.email, if persisted.Some? then Some(persisted.value.id) else None)
      && PasswordAcceptable(c.secret.password)
      && Present(c.secret.digest)
      && ConfirmationMatches(c)
      && (persisted.Some? ==> c.email == Some(persisted.value.email))
  {
    if c.email.Some? && ValidEmail(c.email.value) {
      ValidEmailIsPresent(c.email.value);
    }
  }

  /** A password shorter than six characters, blank or absent fails, on create and on update alike. */
  lemma ShortPasswordRejected(c: Candidate, users: map<nat, User>, persisted: Option<User>)
    requires c.secret.password.None? || Blank(c.secret.password.value)
             || |c.secret.password.value| < MinPasswordLength
    ensures UserErrors(c, users, persisted) != []
  {
    UserErrorsEmptyIff(c, users, persisted);
  }

  /** A supplied confirmation that differs from a non-blank password fails. */
  lemma ConfirmationMismatchRejected(c: Candidate, users: map<nat, User>, persisted: Option<User>)
    requires Present(c.secret.password) && c.passwordConfirmation.Some?
    requires c.passwordConfirmation.value != c.secret.password.value
    ensures ConfirmationMismatch in UserErrors(c, users, persisted)
  {
  }

  // ---------------------------------------------------------------------------
  // Assignment

  /**
   * `password=`: nil clears the password and the digest, an empty string
   * changes nothing, any other string becomes the password and is digested.
   */
  function AssignPassword(v: Param<string>, s: Secret, h: PasswordHasher): Secret {
    match v
    case Absent => s
    case Null => Secret(None, None)
    case Given(p) => if p == [] then s else Secret(Some(p), Some(h.digest(p)))
  }

  /**
   * With a sound hasher, assigning a password keeps it and a present digest
   * that authenticates it.
   */
  lemma AssignedPasswordAuthenticates(p: string, s: Secret, h: PasswordHasher)
    requires Sound(h) && p != []
    ensures var s' := AssignPassword(Given(p), s, h);
      s'.password == Some(p) && Present(s'.digest) && h.matches(s'.digest.value, p)
  {
  }

  /** The row a successful signup stores. */
  function NewUser(id: nat, c: Candidate, image: Option<ImageRef>): User {
    User(id, c.name.GetOr(""), c.email.GetOr(""), c.secret.digest.GetOr(""), image)
  }

  /** The candidate `update(changes)` validates: email is always the stored one. */
  function UpdateCandidate(u: User, ch: Changes, h: PasswordHasher): Candidate {
    Candidate(ch.name.Apply(Some(u.name)), Some(u.email),
              AssignPassword(ch.password, Secret(None, Some(u.passwordDigest)), h),
              ch.passwordConfirmation.ToOption())
  }

  /** The row after a successful `update(changes)`; a null image detaches it. */
  function Updated(u: User, ch: Changes, h: PasswordHasher): User {
    var c := UpdateCandidate(u, ch, h);
    User(u.id, c.name.GetOr(""), u.email, c.secret.digest.GetOr(""), ch.image.Apply(u.image))
  }

  /**
   * Applying the same changes to the updated row changes nothing more except
   * the digest, which BCrypt salts afresh on each assignment; with a sound
   * hasher both digests authenticate the password sent. Id and email never
   * change.
   */
  lemma UpdatedIdempotent(u: User, ch: Changes, h: PasswordHasher)
    ensures Updated(Updated(u, ch, h), ch, h).(passwordDigest := "") == Updated(u, ch, h).(passwordDigest := "")
    ensures Sound(h) && ch.password.Given? && ch.password.value != [] ==>
      && h.matches(Updated(u, ch, h).passwordDigest, ch.password.value)
      && h.matches(Updated(Updated(u, ch, h), ch, h).passwordDigest, ch.password.value)
    ensures Updated(u, ch, h).id == u.id && Updated(u, ch, h).email == u.email
  {
  }

  /** Because `update` cannot assign email, `email_unchanged` never fires on it. */
  lemma UpdateNeverChangesEmail(u: User, ch: Changes, users: map<nat, User>, h: PasswordHasher)
    ensures EmailChanged !in UserErrors(UpdateCandidate(u, ch, h), users, Some(u))
  {
  }

  /**
   * An update that leaves the password unassigned (absent, null or empty)
   * always fails: the presence rule applies on update too.
   */
  lemma UpdateWithoutPasswordRejected(u: User, ch: Changes, users: map<nat, User>, h: PasswordHasher)
    requires ch.password.Absent? || ch.password.Null? || ch.password == Given([])
    ensures PasswordBlank in UserErrors(UpdateCandidate(u, ch, h), users, Some(u))
  {
  }

  /** A null password clears the digest as well, so the digest check fails too. */
  lemma NullPasswordClearsDigest(u: User, ch: Changes, users: map<nat, User>, h: PasswordHasher)
    requires ch.password.Null?
    ensures DigestMissing in UserErrors(UpdateCandidate(u, ch, h), users, Some(u))
  {
  }

  /** A null name is assigned, not skipped, and fails the presence rule. */
  lemma NullNameRejected(u: User, ch: Changes, users: map<nat, User>, h: PasswordHasher)
    requires ch.name.Null?
    ensures NameBlank in UserErrors(UpdateCandidate(u, ch, h), users, Some(u))
  {
  }
}
