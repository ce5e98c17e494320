/** The user registration form: field cleaning of the four fields in their
    display order, the form-wide password match rule, the username uniqueness
    check of a model form, and `save`, which makes the new user staff and adds
    it to the `LimitedUsers` group when that group exists. */
module Forms {
  import opened Db

  datatype Option<T> = None | Some(value: T)

  datatype Result<T, E> = Success(value: T) | Failure(error: E)

  /** The form's fields, in `field_order`. */
  datatype Field = Username | Email | Password | PasswordConfirm

  /** A validation error: a required field left empty, a value shorter than
      the field's minimum length, the form-wide error raised by `clean`, or a
      username that already exists. */
  datatype FormError =
    | Required(field: Field)
    | TooShort(field: Field, minLength: nat, length: nat)
    | NonField(message: string)
    | Duplicate(field: Field)

  /** The posted values; an absent value is the empty string. */
  datatype Submission = Submission(username: string, email: string, password: string, passwordConfirm: string)

  /** The cleaned data: a field that failed its own validation is absent. */
  datatype CleanedData = CleanedData(
    username: Option<string>,
    email: Option<string>,
    password: Option<string>,
    passwordConfirm: Option<string>)

  /** The minimum length of the password field. */
  const PasswordMinLength: nat := 12

  /** The error `clean` raises when the two passwords differ. */
  const MismatchMessage: string := "Passwords do not match"

  /** Why `save` refuses to run: the submission has validation errors. */
  datatype SaveError = NotValidated

  /** The minimum length declared on each field (none but the password's). */
  function MinLength(f: Field): nat
  {
    if f == Password then PasswordMinLength else 0
  }

  /** One field's own validation: every field is required, then the minimum
      length applies. */
  function CleanField(f: Field, value: string): Result<string, FormError>
  {
    if value == "" then Failure(Required(f))
    else if |value| < MinLength(f) then Failure(TooShort(f, MinLength(f), |value|))
    else Success(value)
  }

  function Cleaned(r: Result<string, FormError>): Option<string>
  {
    if r.Success? then Some(r.value) else None
  }

  function ErrorsOf<T>(r: Result<T, FormError>): seq<FormError>
  {
    if r.Failure? then [r.error] else []
  }

  /** The cleaned data after the fields' own validation. */
  function CleanFields(s: Submission): CleanedData
  {
    CleanedData(
      Cleaned(CleanField(Username, s.username)),
      Cleaned(CleanField(Email, s.email)),
      Cleaned(CleanField(Password, s.password)),
      Cleaned(CleanField(PasswordConfirm, s.passwordConfirm)))
  }

  /** The fields' own errors, in field order. */
  function FieldErrors(s: Submission): seq<FormError>
  {
    ErrorsOf(CleanField(Username, s.username))
      + ErrorsOf(CleanField(Email, s.email))
      + ErrorsOf(CleanField(Password, s.password))
      + ErrorsOf(CleanField(PasswordConfirm, s.passwordConfirm))
  }

  /** A value Python treats as true: present and non-empty. */
  predicate Truthy(o: Option<string>)
  {
    o.Some? && o.value != ""
  }

  /** `UserRegistrationForm.clean`: raises the mismatch error when both
      passwords are present and differ; otherwise returns the cleaned data. */
  function Clean(cd: CleanedData): (r: Result<CleanedData, FormError>)
    ensures r.Failure? ==> cd.password != cd.passwordConfirm
  {
    if Truthy(cd.password) && Truthy(cd.passwordConfirm) && cd.password.value != cd.passwordConfirm.value
    then Failure(NonField(MismatchMessage))
    else Success(cd)
  }

  /** The model form's uniqueness check, run on the username when it was
      cleaned. */
  function UniqueErrors(cd: CleanedData, taken: set<string>): seq<FormError>
  {
    if cd.username.Some? && cd.username.value in taken then [Duplicate(Username)] else []
  }

  /** Every error of the form, given the usernames already in use. */
  function Errors(s: Submission, taken: set<string>): seq<FormError>
  {
    var cd := CleanFields(s);
    FieldErrors(s) + ErrorsOf(Clean(cd)) + UniqueErrors(cd, taken)
  }

  predicate IsValid(s: Submission, taken: set<string>)
  {
    Errors(s, taken) == []
  }

  /** The mismatch error is reported exactly when both passwords pass their own
      validation and differ; in particular never when either is missing. */
  lemma MismatchReportedIff(s: Submission, taken: set<string>)
    ensures NonField(MismatchMessage) in Errors(s, taken)
      <==> s.password != "" && |s.password| >= PasswordMinLength && s.passwordConfirm != "" && s.password != s.passwordConfirm
  {
  }

  /** `clean` never alters the cleaned data, and the only error it raises is
      the password mismatch. */
  lemma CleanReturnsData(cd: CleanedData)
    ensures Clean(cd).Success? ==> Clean(cd).value == cd
    ensures Clean(cd).Failure? ==> Clean(cd).error == NonField(MismatchMessage)
  {
  }

  /** Matching passwords pass `clean` whatever their length: the minimum
      length is the password field's own check, not `clean`'s. */
  lemma MatchingPasswordsPassClean(s: Submission)
    requires s.password == s.passwordConfirm
    ensures Clean(CleanFields(s)) == Success(CleanFields(s))
  {
  }

  /** A non-empty password shorter than 12 characters is rejected by its
      length, and then no mismatch is reported. */
  lemma ShortPasswordRejected(s: Submission, taken: set<string>)
    requires s.password != "" && |s.password| < PasswordMinLength
    ensures TooShort(Password, PasswordMinLength, |s.password|) in Errors(s, taken)
    ensures NonField(MismatchMessage) !in Errors(s, taken)
    ensures !IsValid(s, taken)
  {
  }

  /** An empty email is rejected as required. */
  lemma EmailRequired(s: Submission, taken: set<string>)
    requires s.email == ""
    ensures Required(Email) in Errors(s, taken)
    ensures !IsValid(s, taken)
  {
  }

  /** The form is valid exactly when every field is filled in, the password has
      at least 12 characters, the two passwords agree and the username is
      free; the cleaned data then holds the submitted values. */
  lemma RegistrationValidIff(s: Submission, taken: set<string>)
    ensures IsValid(s, taken) <==>
      && s.username != "" && s.username !in taken
      && s.email != ""
      && |s.password| >= PasswordMinLength
      && s.passwordConfirm == s.password
    ensures IsValid(s, taken) ==>
      CleanFields(s) == CleanedData(Some(s.username), Some(s.email), Some(s.password), Some(s.passwordConfirm))
  {
  }

  /** An ASCII letter in lower case; every other character is kept. */
  function LowerChar(c: char): char
  {
    if 'A' <= c <= 'Z' then (c as int + 32) as char else c
  }

  function Lower(s: string): string
  {
    seq(|s|, i requires 0 <= i < |s| => LowerChar(s[i]))
  }

  /** Lower casing keeps the length and every '@', and leaves no upper-case
      ASCII letter. */
  lemma LowerShape(t: string)
    ensures |Lower(t)| == |t|
    ensures forall i :: 0 <= i < |t| ==> (Lower(t)[i] == '@') == (t[i] == '@') && !('A' <= Lower(t)[i] <= 'Z')
  {
  }

  /** The position of the last `c` in `s`, or -1 when there is none. */
  function LastIndexOf(s: string, c: char): (r: int)
    ensures -1 <= r < |s|
    ensures r >= 0 ==> s[r] == c && forall i :: r < i < |s| ==> s[i] != c
    ensures r == -1 ==> forall i :: 0 <= i < |s| ==> s[i] != c
  {
    if s == [] then -1
    else if s[|s| - 1] == c then |s| - 1
    else LastIndexOf(s[..|s| - 1], c)
  }

  /** A position holding `c` with no `c` after it is the last one. */
  lemma {:induction false} LastIndexOfIs(s: string, c: char, k: nat)
    requires k < |s| && s[k] == c
    requires forall i :: k < i < |s| ==> s[i] != c
    ensures LastIndexOf(s, c) == k
  {
    if k < |s| - 1 {
      LastIndexOfIs(s[..|s| - 1], c, k);
    }
  }

  /** The user model's email normalisation, run by the model form's instance
      validation before the user is saved: the part after the last '@' is put
      in lower case; an address without '@' is kept. */
  function NormalizeEmail(email: string): (r: string)
    ensures |r| == |email|
  {
    var at := LastIndexOf(email, '@');
    if at < 0 then email else email[..at + 1] + Lower(email[at + 1..])
  }

  /** What lower casing does to one character. */
  lemma LowerCharFacts(c: char)
    ensures !('A' <= c <= 'Z') ==> LowerChar(c) == c
    ensures 'A' <= c <= 'Z' ==> LowerChar(c) as int == c as int + 32
    ensures !('A' <= LowerChar(c) <= 'Z')
    ensures (LowerChar(c) == '@') == (c == '@')
    ensures LowerChar(LowerChar(c)) == LowerChar(c)
  {
  }

  /** With an '@', normalisation keeps everything up to the last one and lower
      cases each character after it. */
  lemma NormalizedTail(email: string, at: nat)
    requires at == LastIndexOf(email, '@')
    ensures |NormalizeEmail(email)| == |email|
    ensures NormalizeEmail(email)[..at + 1] == email[..at + 1]
    ensures forall i :: at < i < |email| ==> NormalizeEmail(email)[i] == LowerChar(email[i])
  {
    var r := NormalizeEmail(email);
    var tail := email[at + 1..];
    assert r == email[..at + 1] + Lower(tail);
    forall i | at < i < |email|
      ensures r[i] == LowerChar(email[i])
    {
      assert r[i] == Lower(tail)[i - at - 1] && tail[i - at - 1] == email[i];
    }
  }

  /** Normalisation keeps the length and everything up to the last '@', which
      stays the last '@', and leaves no upper-case ASCII letter after it; an
      address without '@' is kept whole. */
  lemma NormalizeEmailShape(email: string)
    ensures |NormalizeEmail(email)| == |email|
    ensures LastIndexOf(NormalizeEmail(email), '@') == LastIndexOf(email, '@')
    ensures var at := LastIndexOf(email, '@');
      && NormalizeEmail(email)[..at + 1] == email[..at + 1]
      && (at >= 0 ==> forall i :: at < i < |email| ==> !('A' <= NormalizeEmail(email)[i] <= 'Z'))
      && (at < 0 ==> NormalizeEmail(email) == email)
  {
    var at := LastIndexOf(email, '@');
    NormalizeKeepsLastAt(email);
    if at >= 0 {
      NormalizedTail(email, at);
      forall i | at < i < |email|
        ensures !('A' <= NormalizeEmail(email)[i] <= 'Z')
      {
        LowerCharFacts(email[i]);
      }
    }
  }

  /** The last '@' of the normalised address is the last '@' of the posted
      one. */
  lemma NormalizeKeepsLastAt(email: string)
    ensures LastIndexOf(NormalizeEmail(email), '@') == LastIndexOf(email, '@')
  {
    var at := LastIndexOf(email, '@');
    if at >= 0 {
      NormalizedTail(email, at);
      var r := NormalizeEmail(email);
      forall i | at < i < |r|
        ensures r[i] != '@'
      {
        LowerCharFacts(email[i]);
      }
      assert r[at] == r[..at + 1][at] == email[..at + 1][at];
      LastIndexOfIs(r, '@', at);
    }
  }

  /** After the last '@', each upper-case ASCII letter becomes its lower-case
      form and every other character is kept: the domain is lower-cased and
      nothing else. */
  lemma NormalizeEmailLowersDomain(email: string)
    ensures var at := LastIndexOf(email, '@');
      at >= 0 ==> forall i :: at < i < |email| ==>
        && (!('A' <= email[i] <= 'Z') ==> NormalizeEmail(email)[i] == email[i])
        && ('A' <= email[i] <= 'Z' ==> NormalizeEmail(email)[i] as int == email[i] as int + 32)
  {
    var at := LastIndexOf(email, '@');
    if at >= 0 {
      NormalizedTail(email, at);
      forall i | at < i < |email|
        ensures !('A' <= email[i] <= 'Z') ==> NormalizeEmail(email)[i] == email[i]
        ensures 'A' <= email[i] <= 'Z' ==> NormalizeEmail(email)[i] as int == email[i] as int + 32
      {
        LowerCharFacts(email[i]);
      }
    }
  }

  /** Normalising twice gives what normalising once gives. */
  lemma NormalizeEmailIdempotent(email: string)
    ensures NormalizeEmail(NormalizeEmail(email)) == NormalizeEmail(email)
  {
    var r := NormalizeEmail(email);
    var at := LastIndexOf(email, '@');
    if at >= 0 {
      NormalizedTail(email, at);
      forall i | at < i < |email|
        ensures r[i] != '@' && LowerChar(r[i]) == r[i]
      {
        LowerCharFacts(email[i]);
      }
      assert r[at] == '@';
      LastIndexOfIs(r, '@', at);
      NormalizedTail(r, at);
      var n := NormalizeEmail(r);
      forall i | 0 <= i < |r|
        ensures n[i] == r[i]
      {
        if i <= at {
          assert n[..at + 1][i] == r[..at + 1][i];
        }
      }
    }
  }

  /** An address split after its last '@' keeps the first part and lower
      cases the second. */
  lemma NormalizeAtSplit(local: string, domain: string)
    requires |local| > 0 && local[|local| - 1] == '@' && '@' !in domain
    ensures NormalizeEmail(local + domain) == local + Lower(domain)
  {
    var e := local + domain;
    LastIndexOfIs(e, '@', |local| - 1);
    assert e[..|local|] == local && e[|local|..] == domain;
  }

  /** The domain is put in lower case and the local part is kept. */
  lemma NormalizeEmailExample()
    ensures NormalizeEmail("Ann@EXAMPLE.COM") == "Ann@example.com"
  {
    NormalizeAtSplit("Ann@", "EXAMPLE.COM");
    assert "Ann@" + "EXAMPLE.COM" == "Ann@EXAMPLE.COM";
    assert Lower("EXAMPLE.COM") == "example.com";
  }

  /** The user a valid submission describes before `save` touches groups: the
      posted username's row with the normalised email and the posted
      credential, made staff, active, not a superuser, without individual
      permissions. */
  function RegisteredUser(s: Submission): User
  {
    User(NormalizeEmail(s.email), s.password, true, false, true, {}, {})
  }

  /** `UserRegistrationForm.save`. An invalid submission is refused and nothing
      changes. Otherwise the user is built as staff; with `commit` it is stored
      under its username and joins `LimitedUsers` if, and only if, that group
      exists; without `commit` nothing is stored and no group is joined. */
  method Save(db: Store, s: Submission, commit: bool) returns (saved: Result<User, SaveError>)
    requires db.Valid()
    modifies db`users
    ensures db.Valid()
    ensures !IsValid(s, old(db.users).Keys) ==> saved == Failure(NotValidated) && db.users == old(db.users)
    ensures IsValid(s, old(db.users).Keys) ==> saved.Success? && saved.value.isStaff
    ensures IsValid(s, old(db.users).Keys) && commit ==>
      && saved.value == RegisteredUser(s).(groups := if LimitedUsers in db.groups then {LimitedUsers} else {})
      && db.users == old(db.users)[s.username := saved.value]
    ensures IsValid(s, old(db.users).Keys) && !commit ==>
      saved.value == RegisteredUser(s) && db.users == old(db.users)
  {
    if !IsValid(s, db.users.Keys) {
      return Failure(NotValidated);
    }
    RegistrationValidIff(s, db.users.Keys);
    var user := User(NormalizeEmail(s.email), "", false, false, true, {}, {});
    user := user.(password := s.password);
    user := user.(isStaff := true);
    if commit {
      db.users := db.users[s.username := user];
      if LimitedUsers in db.groups {
        user := user.(groups := user.groups + {LimitedUsers});
        db.users := db.users[s.username := user];
      }
    }
    saved := Success(user);
  }

  /** A committed registration adds exactly one user and leaves every other
      user untouched. */
  lemma CommitAddsOneUser(users: map<string, User>, s: Submission, u: User)
    requires IsValid(s, users.Keys)
    ensures |users[s.username := u]| == |users| + 1
    ensures forall n :: n in users ==> users[s.username := u][n] == users[n]
  {
  }
}
