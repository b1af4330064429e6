/**
 * The user store of the authentication service (db.py), as an immutable
 * sequence of user records in storage order. Each operation maps a store to
 * its result and the store after the call; the exceptions the source raises
 * become `Failure` values.
 */
module UserStore {
  import opened Wrappers

  type Bytes = seq<bv8>

  /** A Python value held by, or compared with, a User attribute. */
  datatype Value = IntV(i: int) | StrV(s: string) | BytesV(b: Bytes) | NoneV

  /** The mapped attributes of a User record. */
  datatype Attr = Id | Email | HashedPassword | SessionId | ResetToken

  /** The exceptions the store raises: SQLAlchemy's two, and Python's ValueError. */
  datatype Error = NoResultFound | InvalidRequestError | ValueError

  /** A User record; attributes are dynamically typed, as in Python. */
  datatype User = User(id: Value, email: Value, hashedPassword: Value, sessionId: Value, resetToken: Value)
  {
    function Get(a: Attr): Value {
      match a
      case Id => id
      case Email => email
      case HashedPassword => hashedPassword
      case SessionId => sessionId
      case ResetToken => resetToken
    }

    /** `setattr(user, a, v)`: attribute `a` becomes `v`, nothing else changes. */
    function Set(a: Attr, v: Value): (u: User)
      ensures u.Get(a) == v
      ensures forall b: Attr :: b != a ==> u.Get(b) == Get(b)
    {
      match a
      case Id => this.(id := v)
      case Email => this.(email := v)
      case HashedPassword => this.(hashedPassword := v)
      case SessionId => this.(sessionId := v)
      case ResetToken => this.(resetToken := v)
    }
  }

  /** The store: the user table's rows in storage order. */
  datatype DB = DB(users: seq<User>)

  /** A keyword argument: an attribute name and a value. */
  type KeywordArg = (string, Value)

  function AttrName(a: Attr): string {
    match a
    case Id => "id"
    case Email => "email"
    case HashedPassword => "hashed_password"
    case SessionId => "session_id"
    case ResetToken => "reset_token"
  }

  /** The attribute a keyword names, if User has one by that name. */
  function AttrNamed(name: string): (r: Option<Attr>)
    ensures r.Some? ==> AttrName(r.value) == name
    ensures r.None? ==> forall a: Attr :: AttrName(a) != name
  {
    if name == "id" then Some(Id)
    else if name == "email" then Some(Email)
    else if name == "hashed_password" then Some(HashedPassword)
    else if name == "session_id" then Some(SessionId)
    else if name == "reset_token" then Some(ResetToken)
    else None
  }

  /** Every keyword names an attribute of User. */
  predicate KnownNames(args: seq<KeywordArg>) {
    forall i :: 0 <= i < |args| ==> AttrNamed(args[i].0).Some?
  }

  /** `u` has every attribute value `filters` asks for (all names known). */
  predicate Satisfies(u: User, filters: seq<KeywordArg>) {
    forall i :: 0 <= i < |filters| ==> AttrNamed(filters[i].0).Some? && u.Get(AttrNamed(filters[i].0).value) == filters[i].1
  }

  /** `users[k]` is the first record, in storage order, that satisfies `filters`. */
  ghost predicate IsFirstMatch(users: seq<User>, filters: seq<KeywordArg>, k: nat) {
    && k < |users|
    && Satisfies(users[k], filters)
    && forall j :: 0 <= j < k ==> !Satisfies(users[j], filters)
  }

  /** `DB()`: the tables are dropped and created again, so no user is stored. */
  function NewDB(): (r: DB)
    ensures |r.users| == 0
  {
    DB([])
  }

  /** The largest integer id among `users`, if any. */
  function MaxRowId(users: seq<User>): (r: Option<int>)
    ensures r.None? ==> forall j :: 0 <= j < |users| ==> !users[j].id.IntV?
    ensures r.Some? ==> exists j :: 0 <= j < |users| && users[j].id == IntV(r.value)
    ensures r.Some? ==> forall j :: 0 <= j < |users| && users[j].id.IntV? ==> users[j].id.i <= r.value
  {
    if |users| == 0 then None
    else
      var rest := MaxRowId(users[..|users| - 1]);
      var last := users[|users| - 1].id;
      if !last.IntV? then rest
      else if rest.Some? && rest.value >= last.i then rest
      else Some(last.i)
  }

  /**
   * The id SQLite assigns to a new row of an integer primary key: one more
   * than the largest id present, or 1 when there is none. It differs from every stored id.
   */
  function NextRowId(users: seq<User>): (id: int)
    ensures forall j :: 0 <= j < |users| ==> users[j].id != IntV(id)
    ensures |users| == 0 ==> id == 1
  {
    match MaxRowId(users)
    case None => 1
    case Some(m) => m + 1
  }

  /**
   * `add_user`: appends one record with the given email and hash, a fresh id
   * and no session or reset token, and returns it. Email uniqueness is not
   * checked, and the hash is stored as given, whatever its type.
   */
  function AddUser(db: DB, email: string, hashedPassword: Value): (r: (User, DB))
    ensures r.1.users == db.users + [r.0]
    ensures r.0.email == StrV(email) && r.0.hashedPassword == hashedPassword
    ensures r.0.sessionId == NoneV && r.0.resetToken == NoneV
    ensures r.0.id.IntV? && forall j :: 0 <= j < |db.users| ==> db.users[j].id != r.0.id
  {
    var user := User(IntV(NextRowId(db.users)), StrV(email), hashedPassword, NoneV, NoneV);
    (user, DB(db.users + [user]))
  }

  /** The index of the first record, from index `k` on, that satisfies `filters`. */
  function FirstMatchFrom(users: seq<User>, filters: seq<KeywordArg>, k: nat): (r: Option<nat>)
    decreases |users| - k
    ensures r.Some? ==>
              && k <= r.value < |users| && Satisfies(users[r.value], filters)
              && forall j :: k <= j < r.value ==> !Satisfies(users[j], filters)
    ensures r.None? ==> forall j :: k <= j < |users| ==> !Satisfies(users[j], filters)
  {
    if k >= |users| then None
    else if Satisfies(users[k], filters) then Some(k)
    else FirstMatchFrom(users, filters, k + 1)
  }

  /**
   * Where `find_user_by(**filters)` finds its record: an unknown attribute
   * name is an InvalidRequestError whatever the store holds, and no matching
   * record is NoResultFound.
   */
  function Locate(db: DB, filters: seq<KeywordArg>): (r: Result<nat, Error>)
    ensures r.Success? <==> KnownNames(filters) && exists k: nat :: IsFirstMatch(db.users, filters, k)
    ensures r.Success? ==> IsFirstMatch(db.users, filters, r.value)
    ensures r == Failure(InvalidRequestError) <==> !KnownNames(filters)
    ensures r == Failure(NoResultFound)
            <==> KnownNames(filters) && forall j :: 0 <= j < |db.users| ==> !Satisfies(db.users[j], filters)
    ensures r.Failure? ==> r.error != ValueError
  {
    if !KnownNames(filters) then Failure(InvalidRequestError)
    else
      match FirstMatchFrom(db.users, filters, 0)
      case None => Failure(NoResultFound)
      case Some(k) =>
        assert IsFirstMatch(db.users, filters, k);
        Success(k)
  }

  /** `find_user_by(**filters)`: the first stored record equal to every filter value. */
  function FindUserBy(db: DB, filters: seq<KeywordArg>): (r: Result<User, Error>)
    ensures r.Success? ==> exists k: nat :: IsFirstMatch(db.users, filters, k) && r.value == db.users[k]
    ensures r == Failure(InvalidRequestError) <==> !KnownNames(filters)
    ensures r == Failure(NoResultFound)
            <==> KnownNames(filters) && forall j :: 0 <= j < |db.users| ==> !Satisfies(db.users[j], filters)
    ensures r.Failure? ==> r.error != ValueError
  {
    match Locate(db, filters)
    case Success(k) => Success(db.users[k])
    case Failure(e) => Failure(e)
  }

  /**
   * `u` becomes `v` by assigning `writes` in order: attributes no write names
   * keep their value, and each attribute takes the value of its last write.
   */
  ghost predicate AssignedFrom(u: User, v: User, writes: seq<KeywordArg>) {
    && KnownNames(writes)
    && (forall a: Attr :: (forall i :: 0 <= i < |writes| ==> AttrNamed(writes[i].0) != Some(a)) ==> v.Get(a) == u.Get(a))
    && (forall i :: 0 <= i < |writes| && (forall j :: i < j < |writes| ==> writes[j].0 != writes[i].0)
                   ==> v.Get(AttrNamed(writes[i].0).value) == writes[i].1)
  }

  /**
   * The loop of `update_user`: keyword arguments are assigned in order; the
   * first unknown name raises ValueError and leaves the assignments before it in place.
   */
  function Assign(u: User, updates: seq<KeywordArg>): (r: (User, Outcome<Error>))
    decreases |updates|
    ensures r.1.Pass? <==> KnownNames(updates)
    ensures r.1.Fail? ==> r.1.error == ValueError
    ensures r.1.Pass? ==> AssignedFrom(u, r.0, updates)
    ensures r.1.Fail? ==>
              exists i :: 0 <= i < |updates| && AttrNamed(updates[i].0).None? && AssignedFrom(u, r.0, updates[..i])
  {
    if |updates| == 0 then (u, Pass)
    else
      match AttrNamed(updates[0].0)
      case None =>
        assert AssignedFrom(u, u, updates[..0]);
        (u, Fail(ValueError))
      case Some(a) =>
        var r := Assign(u.Set(a, updates[0].1), updates[1..]);
        if r.1.Pass? then
          AssignedFromStep(u, a, r.0, updates);
          r
        else
          StoppedAssignmentStep(u, a, r.0, updates);
          r
  }

  /** A failed assignment of the rest, after a known first keyword, is a failed assignment of the whole. */
  lemma StoppedAssignmentStep(u: User, a: Attr, v: User, updates: seq<KeywordArg>)
    requires |updates| > 0 && AttrNamed(updates[0].0) == Some(a)
    ensures (exists i :: 0 <= i < |updates[1..]| && AttrNamed(updates[1..][i].0).None?
                         && AssignedFrom(u.Set(a, updates[0].1), v, updates[1..][..i]))
            ==> exists i :: 0 <= i < |updates| && AttrNamed(updates[i].0).None? && AssignedFrom(u, v, updates[..i])
  {
    if exists i :: 0 <= i < |updates[1..]| && AttrNamed(updates[1..][i].0).None?
                   && AssignedFrom(u.Set(a, updates[0].1), v, updates[1..][..i]) {
      var i :| 0 <= i < |updates[1..]| && AttrNamed(updates[1..][i].0).None?
               && AssignedFrom(u.Set(a, updates[0].1), v, updates[1..][..i]);
      assert updates[..i + 1][1..] == updates[1..][..i];
      AssignedFromStep(u, a, v, updates[..i + 1]);
      assert AttrNamed(updates[i + 1].0).None?;
    }
  }

  /** Assigning a known first keyword, then the rest, is assigning the whole sequence. */
  lemma AssignedFromStep(u: User, a: Attr, v: User, writes: seq<KeywordArg>)
    requires |writes| > 0 && AttrNamed(writes[0].0) == Some(a)
    ensures AssignedFrom(u.Set(a, writes[0].1), v, writes[1..]) ==> AssignedFrom(u, v, writes)
  {
    if !AssignedFrom(u.Set(a, writes[0].1), v, writes[1..]) {
      return;
    }
    var w := u.Set(a, writes[0].1);
    forall b: Attr | forall i :: 0 <= i < |writes| ==> AttrNamed(writes[i].0) != Some(b)
      ensures v.Get(b) == u.Get(b)
    {
      assert b != a;
      forall i | 0 <= i < |writes[1..]|
        ensures AttrNamed(writes[1..][i].0) != Some(b)
      {
        assert writes[1..][i] == writes[i + 1];
      }
    }
    forall i | 0 <= i < |writes| && (forall j :: i < j < |writes| ==> writes[j].0 != writes[i].0)
      ensures v.Get(AttrNamed(writes[i].0).value) == writes[i].1
    {
      if i == 0 {
        var b := AttrNamed(writes[0].0).value;
        forall j | 0 <= j < |writes[1..]|
          ensures AttrNamed(writes[1..][j].0) != Some(b)
        {
          assert writes[1..][j] == writes[j + 1];
        }
      } else {
        assert writes[1..][i - 1] == writes[i];
        forall j | i - 1 < j < |writes[1..]|
          ensures writes[1..][j].0 != writes[1..][i - 1].0
        {
          assert writes[1..][j] == writes[j + 1];
        }
      }
    }
  }

  /**
   * `update_user(user_id, **updates)`: finds the record by id (NoResultFound
   * if there is none), then assigns the keywords in order. An unknown name
   * raises ValueError after the earlier keywords were assigned; they are not
   * rolled back.
   */
  function UpdateUser(db: DB, userId: int, updates: seq<KeywordArg>): (r: (Outcome<Error>, DB))
    ensures |r.1.users| == |db.users|
    ensures (forall j :: 0 <= j < |db.users| ==> db.users[j].id != IntV(userId)) ==> r == (Fail(NoResultFound), db)
    ensures r.0.Fail? ==> r.0.error == NoResultFound || r.0.error == ValueError
    ensures (exists j :: 0 <= j < |db.users| && db.users[j].id == IntV(userId)) ==>
              exists k: nat :: WithId(db.users, userId, k) && UpdatedAt(db, r, k, updates)
  {
    IdFilterSelectsId(db.users, userId);
    match Locate(db, [("id", IntV(userId))])
    case Failure(e) => (Fail(e), db)
    case Success(k) =>
      var (u, outcome) := Assign(db.users[k], updates);
      var r := (outcome, DB(db.users[k := u]));
      assert WithId(db.users, userId, k) && UpdatedAt(db, r, k, updates);
      r
  }

  /** The filter `id=userId` selects exactly the records whose id is `userId`. */
  lemma IdFilterSelectsId(users: seq<User>, userId: int)
    ensures forall j :: 0 <= j < |users| ==> (Satisfies(users[j], [("id", IntV(userId))]) <==> users[j].id == IntV(userId))
  {
    var filters := [("id", IntV(userId))];
    forall j | 0 <= j < |users|
      ensures Satisfies(users[j], filters) <==> users[j].id == IntV(userId)
    {
      assert AttrNamed(filters[0].0) == Some(Id);
    }
  }

  /** `users[k]` is the first record whose id is `userId`. */
  ghost predicate WithId(users: seq<User>, userId: int, k: nat) {
    && k < |users|
    && users[k].id == IntV(userId)
    && forall j :: 0 <= j < k ==> users[j].id != IntV(userId)
  }

  /**
   * The call's outcome `r` changed record `k` of `db` by assigning `updates`
   * (all of them on success; those before the first unknown name on failure)
   * and left every other record alone.
   */
  ghost predicate UpdatedAt(db: DB, r: (Outcome<Error>, DB), k: nat, updates: seq<KeywordArg>) {
    && k < |db.users| == |r.1.users|
    && (forall j :: 0 <= j < |db.users| && j != k ==> r.1.users[j] == db.users[j])
    && (r.0.Pass? <==> KnownNames(updates))
    && (r.0.Pass? ==> AssignedFrom(db.users[k], r.1.users[k], updates))
    && (r.0.Fail? ==>
          && r.0.error == ValueError
          && exists i :: 0 <= i < |updates| && AttrNamed(updates[i].0).None?
                         && AssignedFrom(db.users[k], r.1.users[k], updates[..i]))
  }

  /** A freshly constructed store finds no user, whatever the filters. */
  lemma NewDBFindsNothing(filters: seq<KeywordArg>)
    ensures FindUserBy(NewDB(), filters).Failure?
  {
  }

  /** Looking up by the id of a record just added finds that record. */
  lemma AddedUserIsFoundById(db: DB, email: string, hashedPassword: Value)
    ensures var r := AddUser(db, email, hashedPassword);
            FindUserBy(r.1, [("id", r.0.id)]) == Success(r.0)
  {
    var r := AddUser(db, email, hashedPassword);
    var filters := [("id", r.0.id)];
    IdFilterSelectsId(r.1.users, r.0.id.i);
    assert r.1.users[|db.users|] == r.0;
    forall j | 0 <= j < |db.users|
      ensures !Satisfies(r.1.users[j], filters)
    {
      assert r.1.users[j] == db.users[j];
    }
    assert IsFirstMatch(r.1.users, filters, |db.users|);
  }

  /**
   * An unknown keyword after a known one: ValueError is raised, and the
   * earlier assignment stays on the record.
   */
  lemma UnknownKeywordKeepsEarlierAssignment(db: DB, token: string)
    requires db == DB([User(IntV(1), StrV("a@x.com"), BytesV([]), NoneV, NoneV)])
    ensures UpdateUser(db, 1, [("session_id", StrV(token)), ("color", IntV(7))])
            == (Fail(ValueError), DB([User(IntV(1), StrV("a@x.com"), BytesV([]), StrV(token), NoneV)]))
  {
    var updates := [("session_id", StrV(token)), ("color", IntV(7))];
    IdFilterSelectsId(db.users, 1);
    assert IsFirstMatch(db.users, [("id", IntV(1))], 0);
    assert Locate(db, [("id", IntV(1))]) == Success(0);
    var u := db.users[0].Set(SessionId, StrV(token));
    assert AttrNamed(updates[0].0) == Some(SessionId);
    assert AttrNamed(updates[1..][0].0) == None;
    assert Assign(u, updates[1..]) == (u, Fail(ValueError));
    assert Assign(db.users[0], updates) == (u, Fail(ValueError));
    assert UpdateUser(db, 1, updates) == (Fail(ValueError), DB(db.users[0 := u]));
    assert db.users[0 := u] == [User(IntV(1), StrV("a@x.com"), BytesV([]), StrV(token), NoneV)];
  }
}
