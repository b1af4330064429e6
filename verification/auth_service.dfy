/**
 * Registration and credential checking of the authentication service
 * (auth.py), built on the user store. bcrypt is not modelled: the hash and
 * its check are a pair of functions the caller supplies, and the one law the
 * model relies on — a password checks against any hash made from it — is a
 * hypothesis of the lemmas that need it. The salt, which bcrypt draws at
 * random, is a parameter.
 */
module AuthService {
  import opened Wrappers
  import opened UserStore

  /** `bcrypt.hashpw` and `bcrypt.checkpw`, over the password's text. */
  datatype Hasher = Hasher(hashpw: (string, Bytes) -> Bytes, checkpw: (string, Bytes) -> bool)

  /** The verify law: a password checks against every hash made from it, whatever the salt. */
  ghost predicate ChecksOwnHashes(h: Hasher) {
    forall password, salt :: h.checkpw(password, h.hashpw(password, salt))
  }

  /** The lookup both operations start with, `find_user_by(email=email)`. */
  function EmailFilter(email: string): seq<KeywordArg> {
    [("email", StrV(email))]
  }

  /** No stored record has this email. */
  predicate EmailAbsent(db: DB, email: string) {
    forall j :: 0 <= j < |db.users| ==> db.users[j].email != StrV(email)
  }

  /** `users[k]` is the first record stored with this email. */
  ghost predicate FirstWithEmail(users: seq<User>, email: string, k: nat) {
    && k < |users|
    && users[k].email == StrV(email)
    && forall j :: 0 <= j < k ==> users[j].email != StrV(email)
  }

  /**
   * `find_user_by(email=email)` returns the first record stored with that
   * email, and raises NoResultFound when there is none.
   */
  lemma EmailLookup(db: DB, email: string)
    ensures EmailAbsent(db, email) ==> FindUserBy(db, EmailFilter(email)) == Failure(NoResultFound)
    ensures forall k: nat :: FirstWithEmail(db.users, email, k) ==> FindUserBy(db, EmailFilter(email)) == Success(db.users[k])
    ensures !EmailAbsent(db, email) ==> exists k: nat :: FirstWithEmail(db.users, email, k)
  {
    var filters := EmailFilter(email);
    assert AttrNamed(filters[0].0) == Some(Email);
    assert KnownNames(filters);
    forall j | 0 <= j < |db.users|
      ensures Satisfies(db.users[j], filters) <==> db.users[j].email == StrV(email)
    {
    }
    if !EmailAbsent(db, email) {
      var r := FirstMatchFrom(db.users, filters, 0);
      assert FirstWithEmail(db.users, email, r.value);
    }
    forall k: nat | FirstWithEmail(db.users, email, k)
      ensures FindUserBy(db, filters) == Success(db.users[k])
    {
      var i := Locate(db, filters).value;
      assert IsFirstMatch(db.users, filters, i);
      assert i == k;
    }
  }

  /**
   * `_hash_password`: the password hashed with a freshly drawn salt. Under
   * the verify law the password checks against the hash.
   */
  function HashPassword(h: Hasher, password: string, salt: Bytes): (r: Bytes)
    ensures ChecksOwnHashes(h) ==> h.checkpw(password, r)
  {
    h.hashpw(password, salt)
  }

  /**
   * `register_user`: an email already stored raises ValueError and stores
   * nothing; otherwise one record with the email and the password's hash is
   * appended and returned. A lookup error would also become ValueError.
   */
  function RegisterUser(db: DB, h: Hasher, salt: Bytes, email: string, password: string): (r: (Result<User, Error>, DB))
    ensures r.0.Success? <==> EmailAbsent(db, email)
    ensures r.0.Failure? ==> r.0.error == ValueError && r.1 == db
    ensures r.0.Success? ==>
              && r.1.users == db.users + [r.0.value]
              && r.0.value.email == StrV(email)
              && r.0.value.hashedPassword == BytesV(h.hashpw(password, salt))
  {
    EmailLookup(db, email);
    match FindUserBy(db, EmailFilter(email))
    case Success(_) => (Failure(ValueError), db)
    case Failure(NoResultFound) =>
      var (user, db') := AddUser(db, email, BytesV(HashPassword(h, password, salt)));
      (Success(user), db')
    case Failure(_) => (Failure(ValueError), db)
  }

  /**
   * `valid_login`: true exactly when the first record with this email holds
   * a byte-string hash the password checks against. A missing user, and any
   * exception (a hash that is not bytes makes `checkpw` raise), give false.
   * The store is not changed.
   */
  function ValidLogin(db: DB, h: Hasher, email: string, password: string): (r: bool)
    ensures r <==> exists k: nat :: && FirstWithEmail(db.users, email, k)
                                     && db.users[k].hashedPassword.BytesV?
                                     && h.checkpw(password, db.users[k].hashedPassword.b)
    ensures EmailAbsent(db, email) ==> !r
  {
    EmailLookup(db, email);
    match FindUserBy(db, EmailFilter(email))
    case Success(user) =>
      (match user.hashedPassword
       case BytesV(hashed) => h.checkpw(password, hashed)
       case _ => false)
    case Failure(_) => false
  }

  /** Under the verify law, a user just registered logs in with the same password. */
  lemma RegisteredUserCanLogIn(db: DB, h: Hasher, salt: Bytes, email: string, password: string)
    requires ChecksOwnHashes(h)
    ensures var r := RegisterUser(db, h, salt, email, password);
            r.0.Success? ==> ValidLogin(r.1, h, email, password)
  {
    var r := RegisterUser(db, h, salt, email, password);
    if r.0.Success? {
      var k := |db.users|;
      assert r.1.users[k] == r.0.value;
      forall j | 0 <= j < k
        ensures r.1.users[j].email != StrV(email)
      {
        assert r.1.users[j] == db.users[j];
      }
      assert FirstWithEmail(r.1.users, email, k);
      assert h.checkpw(password, h.hashpw(password, salt));
    }
  }

  /**
   * A hash stored as text, as `add_user`'s annotation allows, never logs in:
   * `checkpw` raises on it and `valid_login` answers false.
   */
  lemma TextHashNeverLogsIn(db: DB, h: Hasher, email: string, hashed: string, password: string)
    requires EmailAbsent(db, email)
    ensures var r := AddUser(db, email, StrV(hashed));
            !ValidLogin(r.1, h, email, password)
  {
    var r := AddUser(db, email, StrV(hashed));
    var k := |db.users|;
    forall k': nat | FirstWithEmail(r.1.users, email, k')
      ensures k' == k
    {
    }
  }

  /** The number of stored records with this email. */
  function CountEmail(users: seq<User>, email: string): nat {
    if |users| == 0 then 0
    else CountEmail(users[..|users| - 1], email) + (if users[|users| - 1].email == StrV(email) then 1 else 0)
  }

  lemma {:induction false} CountEmailAbsent(users: seq<User>, email: string)
    requires forall j :: 0 <= j < |users| ==> users[j].email != StrV(email)
    ensures CountEmail(users, email) == 0
  {
    if |users| > 0 {
      CountEmailAbsent(users[..|users| - 1], email);
    }
  }

  /**
   * Registering an email twice: the second call raises ValueError and
   * changes nothing, and the store holds exactly one record with that email.
   */
  lemma SecondRegistrationRefused(db: DB, h: Hasher, salt1: Bytes, salt2: Bytes, email: string,
                                  password1: string, password2: string)
    requires RegisterUser(db, h, salt1, email, password1).0.Success?
    ensures var db1 := RegisterUser(db, h, salt1, email, password1).1;
            && RegisterUser(db1, h, salt2, email, password2) == (Failure(ValueError), db1)
            && CountEmail(db1.users, email) == 1
  {
    var r := RegisterUser(db, h, salt1, email, password1);
    var db1 := r.1;
    CountEmailAbsent(db.users, email);
    assert db1.users[..|db1.users| - 1] == db.users;
    assert db1.users[|db.users|].email == StrV(email);
    assert !EmailAbsent(db1, email);
  }

  /** `Auth()` starts from an empty store, where the first registration succeeds and gets id 1. */
  lemma FirstRegistrationGetsIdOne(h: Hasher, salt: Bytes, email: string, password: string)
    ensures var r := RegisterUser(NewDB(), h, salt, email, password);
            r.0.Success? && r.0.value.id == IntV(1)
  {
  }
}
