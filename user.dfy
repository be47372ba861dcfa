/** The record type the store holds in this application, Core/User.cs:
    a Guid key followed by four string properties, and what the generic
    store promises for it. */
module Users {
  import opened Wrappers
  import opened DotNetText
  import opened Codec
  import opened Store

  /** A User as the application sees it; `None` is a null string. */
  datatype User = User(
    id: Guid,
    userName: Option<string>,
    normalizedUserName: Option<string>,
    email: Option<string>,
    passwordHash: Option<string>)

  /** The properties of User in declaration order (Id, UserName,
      NormalizedUserName, Email, PasswordHash); Id is the key. */
  const UserSchema: Schema := Schema([GuidKind, StrKind, StrKind, StrKind, StrKind], 0)

  function StrField(s: Option<string>): Option<Value> {
    match s
    case None => None
    case Some(t) => Some(Str(t))
  }

  /** The string a conforming string property holds. */
  function StrOf(f: Option<Value>): Option<string>
    requires FieldConforms(StrKind, f)
  {
    match f
    case None => None
    case Some(v) => Some(v.s)
  }

  /** The property values of a User, as reflection reads them. */
  function ToRecord(u: User): (rec: Record)
    ensures Conforms(UserSchema.kinds, rec)
    ensures rec[UserSchema.id] == Some(GuidValue(u.id))
    ensures FromRecord(rec) == u
  {
    [Some(GuidValue(u.id)), StrField(u.userName), StrField(u.normalizedUserName),
     StrField(u.email), StrField(u.passwordHash)]
  }

  /** The User whose properties hold the values of a conforming record. */
  function FromRecord(rec: Record): User
    requires Conforms(UserSchema.kinds, rec)
  {
    assert FieldConforms(GuidKind, rec[0]);
    User(rec[0].value.g, StrOf(rec[1]), StrOf(rec[2]), StrOf(rec[3]), StrOf(rec[4]))
  }

  /** Every conforming record is the record of exactly one User. */
  lemma RecordOfUser(rec: Record)
    requires Conforms(UserSchema.kinds, rec)
    ensures ToRecord(FromRecord(rec)) == rec
  {
    var r := ToRecord(FromRecord(rec));
    forall i | 0 <= i < 5
      ensures r[i] == rec[i]
    {
      assert FieldConforms(UserSchema.kinds[i], rec[i]);
    }
  }

  /** A string property the file format carries back unchanged: null, or
      non-empty text without a tab that is not the literal "NULL". */
  predicate Faithful(s: Option<string>) {
    s.Some? ==> s.value != [] && NoTab(s.value) && s.value != NullText
  }

  predicate StorableUser(u: User) {
    Faithful(u.userName) && Faithful(u.normalizedUserName) && Faithful(u.email) && Faithful(u.passwordHash)
  }

  lemma StorableUserRecord(u: User)
    requires StorableUser(u)
    ensures StorableRecord(UserSchema.kinds, ToRecord(u))
    ensures forall i :: 0 <= i < |ToRecord(u)| ==> ToRecord(u)[i] != Some(Str(NullText))
  {
    var rec := ToRecord(u);
    forall i | 0 <= i < 5
      ensures Storable(rec[i]) && rec[i] != Some(Str(NullText))
    {
    }
  }

  /** A storable User reads back from its own encoding. */
  lemma UserRoundTrip(u: User)
    requires StorableUser(u)
    ensures Decode(UserSchema.kinds, Encode(ToRecord(u))) == Success(ToRecord(u))
  {
    StorableUserRecord(u);
    RoundTrip(UserSchema.kinds, ToRecord(u));
  }

  /** A User is stored in the file GetByIdAsync looks in for its Id. */
  lemma UserLocation(u: User)
    ensures GetFileLocation(UserSchema, ToRecord(u)) == IdLocation(u.id)
  {
    LocationOfGuidId(UserSchema, ToRecord(u), u.id);
  }

  /** CreateAsync then GetByIdAsync of the same Id returns the User created. */
  method CreateThenGetById(store: TextFileBasedStore, u: User) returns (r: Result<Option<Record>, Exception>)
    requires store.Valid() && StorableUser(u)
    modifies store
    ensures store.Valid()
    ensures r == Success(Some(ToRecord(u)))
  {
    store.Create(UserSchema, ToRecord(u));
    UserLocation(u);
    UserRoundTrip(u);
    r := store.GetById(UserSchema, u.id);
  }

  /** CreateAsync, DeleteAsync, then GetByIdAsync of the same Id finds nothing. */
  method CreateDeleteGetById(store: TextFileBasedStore, u: User) returns (r: Result<Option<Record>, Exception>)
    requires store.Valid()
    modifies store
    ensures store.Valid()
    ensures r == Success(None)
  {
    store.Create(UserSchema, ToRecord(u));
    store.Delete(UserSchema, ToRecord(u));
    store.Delete(UserSchema, ToRecord(u));
    UserLocation(u);
    r := store.GetById(UserSchema, u.id);
  }

  /** UpdateAsync as written, over a stored User with the same Id: reading
      back returns the new User exactly when its encoding is at most one
      character shorter than the old one, and throws InvalidOperationException
      otherwise. */
  method CreateUpdateGetById(store: TextFileBasedStore, u: User, v: User) returns (r: Result<Option<Record>, Exception>)
    requires store.Valid() && StorableUser(u) && StorableUser(v) && u.id == v.id
    modifies store
    ensures store.Valid()
    ensures r == Success(Some(ToRecord(v))) <==> |Encode(ToRecord(u))| <= |Encode(ToRecord(v))| + 1
    ensures |Encode(ToRecord(u))| > |Encode(ToRecord(v))| + 1 ==> r == Failure(InvalidOperationException)
  {
    store.Create(UserSchema, ToRecord(u));
    UserLocation(u);
    UserLocation(v);
    store.Update(UserSchema, ToRecord(v));
    StorableUserRecord(u);
    StorableUserRecord(v);
    if |Encode(ToRecord(u))| <= |Encode(ToRecord(v))| + 1 {
      UpdateShorterByOneReadsBack(UserSchema.kinds, ToRecord(u), ToRecord(v));
      UserRoundTrip(v);
      RoundTrip(UserSchema.kinds, ToRecord(v));
      assert ReadBack(ToRecord(v)) == ToRecord(v);
    } else {
      ShrinkingUpdateIsUnreadable(UserSchema.kinds, ToRecord(u), ToRecord(v));
    }
    r := store.GetById(UserSchema, v.id);
  }

  /** With the truncating write, reading back after an update always returns the new User. */
  method CreateUpdateTruncatingGetById(store: TextFileBasedStore, u: User, v: User) returns (r: Result<Option<Record>, Exception>)
    requires store.Valid() && StorableUser(u) && StorableUser(v) && u.id == v.id
    modifies store
    ensures store.Valid()
    ensures r == Success(Some(ToRecord(v)))
  {
    store.Create(UserSchema, ToRecord(u));
    UserLocation(v);
    store.UpdateTruncating(UserSchema, ToRecord(v));
    UserRoundTrip(v);
    r := store.GetById(UserSchema, v.id);
  }

  /** The records of a sequence of Users. */
  function Records(users: seq<User>): seq<Record> {
    seq(|users|, k requires 0 <= k < |users| => ToRecord(users[k]))
  }

  /** Creating storable Users with pairwise distinct Ids in a directory
      without `.usr` files leaves exactly one record file per User: the
      record files are the files GetByIdAsync opens for the Users' Ids,
      and each reads back as its User. */
  lemma CreatedUsersAllListed(files: map<string, string>, users: seq<User>)
    requires RecordFiles(files) == {}
    requires forall k :: 0 <= k < |users| ==> StorableUser(users[k])
    requires forall k, l :: 0 <= k < l < |users| ==> users[k].id != users[l].id
    ensures var dir := CreateAll(UserSchema, files, Records(users));
      && |RecordFiles(dir)| == |users|
      && (forall name :: name in RecordFiles(dir) <==> exists k :: 0 <= k < |users| && IdLocation(users[k].id) == name)
      && forall k :: 0 <= k < |users| ==>
           && IdLocation(users[k].id) in RecordFiles(dir)
           && Decode(UserSchema.kinds, dir[IdLocation(users[k].id)]) == Success(ToRecord(users[k]))
  {
    var items := Records(users);
    var dir := CreateAll(UserSchema, files, items);
    assert DistinctLocations(UserSchema, items) by {
      forall k, l | 0 <= k < l < |items|
        ensures GetFileLocation(UserSchema, items[k]) != GetFileLocation(UserSchema, items[l])
      {
        UserLocation(users[k]);
        UserLocation(users[l]);
        IdLocationInjective(users[k].id, users[l].id);
      }
    }
    CreateAllRecordFiles(UserSchema, files, items);
    LocationsCount(UserSchema, items);
    CreatedUsersRecordFiles(files, users);
    forall k | 0 <= k < |users|
      ensures IdLocation(users[k].id) in RecordFiles(dir)
      ensures Decode(UserSchema.kinds, dir[IdLocation(users[k].id)]) == Success(ToRecord(users[k]))
    {
      UserLocation(users[k]);
      LocationsMembers(UserSchema, items, IdLocation(users[k].id));
      CreateAllContents(UserSchema, files, items, k);
      UserRoundTrip(users[k]);
    }
  }

  /** The record files after the creates are exactly the Users' files. */
  lemma CreatedUsersRecordFiles(files: map<string, string>, users: seq<User>)
    requires RecordFiles(files) == {}
    ensures forall name :: name in RecordFiles(CreateAll(UserSchema, files, Records(users))) <==>
      exists k :: 0 <= k < |users| && IdLocation(users[k].id) == name
  {
    var items := Records(users);
    CreateAllRecordFiles(UserSchema, files, items);
    forall k | 0 <= k < |users|
      ensures GetFileLocation(UserSchema, items[k]) == IdLocation(users[k].id)
    {
      UserLocation(users[k]);
    }
    forall name
      ensures name in Locations(UserSchema, items) <==>
        exists k :: 0 <= k < |users| && IdLocation(users[k].id) == name
    {
      LocationsMembers(UserSchema, items, name);
    }
  }

  /** A listing of a directory whose record files are exactly the Users'
      files, each holding its User, holds exactly the Users' records. */
  lemma ListingOfUsers(dir: map<string, string>, users: seq<User>, order: seq<string>, results: seq<Record>)
    requires HoldsExactly(dir, users)
    requires ListedAs(UserSchema.kinds, dir, order, results)
    ensures |results| == |users|
    ensures forall k :: 0 <= k < |users| ==> ToRecord(users[k]) in results
    ensures forall j :: 0 <= j < |results| ==> exists k :: 0 <= k < |users| && results[j] == ToRecord(users[k])
  {
    ListingCount(UserSchema.kinds, dir, order, results);
    forall k | 0 <= k < |users|
      ensures ToRecord(users[k]) in results
    {
      assert IdLocation(users[k].id) in RecordFiles(dir);
      var j :| 0 <= j < |order| && order[j] == IdLocation(users[k].id);
      assert results[j] == ToRecord(users[k]);
    }
    forall j | 0 <= j < |results|
      ensures exists k :: 0 <= k < |users| && results[j] == ToRecord(users[k])
    {
      assert order[j] in order;
      assert order[j] in RecordFiles(dir);
      var k :| 0 <= k < |users| && IdLocation(users[k].id) == order[j];
      assert results[j] == ToRecord(users[k]);
    }
  }

  /** One more create extends the series by the next User's file. */
  lemma CreateAllNext(files: map<string, string>, users: seq<User>, i: nat)
    requires i < |users|
    ensures CreateAll(UserSchema, files, Records(users[..i + 1]))
      == CreateAll(UserSchema, files, Records(users[..i]))[GetFileLocation(UserSchema, ToRecord(users[i])) := Encode(ToRecord(users[i]))]
  {
    var rs := Records(users[..i + 1]);
    assert |rs| - 1 == i && rs[i] == ToRecord(users[i]);
    assert rs[..i] == Records(users[..i]);
  }

  /** The `.usr` files of `dir` are exactly the Users' files, one per
      User, each reading back as its User. */
  ghost predicate HoldsExactly(dir: map<string, string>, users: seq<User>) {
    && |RecordFiles(dir)| == |users|
    && (forall name :: name in RecordFiles(dir) <==> exists k :: 0 <= k < |users| && IdLocation(users[k].id) == name)
    && (forall k :: 0 <= k < |users| ==>
          IdLocation(users[k].id) in dir && Decode(UserSchema.kinds, dir[IdLocation(users[k].id)]) == Success(ToRecord(users[k])))
  }

  /** Every `.usr` file a directory of exactly the Users' files holds decodes. */
  lemma UsersFilesDecode(dir: map<string, string>, users: seq<User>)
    requires HoldsExactly(dir, users)
    ensures forall name :: name in RecordFiles(dir) ==> Decode(UserSchema.kinds, dir[name]).Success?
  {
    forall name | name in RecordFiles(dir)
      ensures Decode(UserSchema.kinds, dir[name]).Success?
    {
      var k :| 0 <= k < |users| && IdLocation(users[k].id) == name;
    }
  }

  /** The directory the creates leave holds exactly the Users. */
  lemma CreatedUsersHoldExactly(files: map<string, string>, users: seq<User>)
    requires RecordFiles(files) == {}
    requires forall k :: 0 <= k < |users| ==> StorableUser(users[k])
    requires forall k, l :: 0 <= k < l < |users| ==> users[k].id != users[l].id
    ensures HoldsExactly(CreateAll(UserSchema, files, Records(users)), users)
  {
    CreatedUsersAllListed(files, users);
  }

  /** CreateAsync for each User in turn. */
  method CreateEach(store: TextFileBasedStore, users: seq<User>)
    requires store.Valid()
    modifies store
    ensures store.Valid()
    ensures store.files == CreateAll(UserSchema, old(store.files), Records(users))
  {
    ghost var start := store.files;
    var i := 0;
    while i < |users|
      invariant 0 <= i <= |users|
      invariant store.Valid()
      invariant store.files == CreateAll(UserSchema, start, Records(users[..i]))
    {
      store.Create(UserSchema, ToRecord(users[i]));
      CreateAllNext(start, users, i);
      i := i + 1;
    }
    assert users[..|users|] == users;
  }

  /** CreateAsync for each of several storable Users with pairwise distinct
      Ids, in a directory without `.usr` files, then GetAllAsync: the listing
      succeeds and holds exactly the Users created, one record each. */
  method CreateAllThenGetAll(store: TextFileBasedStore, users: seq<User>)
      returns (r: Result<seq<Record>, Exception>, ghost order: seq<string>)
    requires store.Valid() && RecordFiles(store.files) == {}
    requires forall k :: 0 <= k < |users| ==> StorableUser(users[k])
    requires forall k, l :: 0 <= k < l < |users| ==> users[k].id != users[l].id
    modifies store
    ensures store.Valid()
    ensures r.Success? && |r.value| == |users|
    ensures forall k :: 0 <= k < |users| ==> ToRecord(users[k]) in r.value
    ensures forall i :: 0 <= i < |r.value| ==> exists k :: 0 <= k < |users| && r.value[i] == ToRecord(users[k])
  {
    ghost var start := store.files;
    CreateEach(store, users);
    CreatedUsersHoldExactly(start, users);
    UsersFilesDecode(store.files, users);
    r, order := store.GetAll(UserSchema);
    ListingOfUsers(store.files, users, order, r.value);
  }

  // ---------------------------------------------------------------------------
  // A concrete user

  /** The Guid 11111111-1111-1111-1111-111111111111. */
  const OnesGuid: Guid :=
    [1, 1, 1, 1, 1, 1, 1, 1, 1, 1, 1, 1, 1, 1, 1, 1,
     1, 1, 1, 1, 1, 1, 1, 1, 1, 1, 1, 1, 1, 1, 1, 1]

  const Alice: User :=
    User(OnesGuid, Some("alice"), Some("ALICE"), Some("alice@example.com"), Some("h4sh"))

  /** The same User renamed to "al". */
  const Al: User :=
    User(OnesGuid, Some("al"), Some("AL"), Some("alice@example.com"), Some("h4sh"))

  lemma OnesGuidText()
    ensures GuidToString(OnesGuid) == "11111111-1111-1111-1111-111111111111"
  {
    var t := GuidToString(OnesGuid);
    assert forall i | 0 <= i < 32 :: OnesGuid[i] == 1;
    assert forall i | 0 <= i < 36 :: t[i] == if IsHyphenPosition(i) then '-' else '1';
  }

  /** Alice is stored in `<her Id>.usr` (the Id's text is the one above),
      her file splits into one field per property, and it reads back unchanged. */
  lemma AliceFile()
    ensures GetFileLocation(UserSchema, ToRecord(Alice)) == IdLocation(OnesGuid)
    ensures |SplitRemoveEmpty(Encode(ToRecord(Alice)), Tab)| == 5
    ensures Decode(UserSchema.kinds, Encode(ToRecord(Alice))) == Success(ToRecord(Alice))
  {
    UserLocation(Alice);
    StorableUserRecord(Alice);
    SplitStorable(UserSchema.kinds, ToRecord(Alice));
    UserRoundTrip(Alice);
  }

  /** The text a string property is written as: the string, or "NULL" for null. */
  function StrText(s: Option<string>): string {
    if s.Some? then s.value else NullText
  }

  /** A User's file holds the text of its Id and of its four strings, in
      declaration order, each followed by a tab. */
  lemma UserContent(u: User)
    ensures Encode(ToRecord(u)) == GuidToString(u.id) + [Tab] + StrText(u.userName) + [Tab]
      + StrText(u.normalizedUserName) + [Tab] + StrText(u.email) + [Tab] + StrText(u.passwordHash) + [Tab]
  {
    JoinOfFive(Texts(ToRecord(u)));
    UserTexts(u);
  }

  lemma UserTexts(u: User)
    ensures Texts(ToRecord(u)) == [GuidToString(u.id), StrText(u.userName), StrText(u.normalizedUserName),
                                   StrText(u.email), StrText(u.passwordHash)]
  {
  }

  /** Alice's file, character for character. */
  lemma AliceContent()
    ensures Encode(ToRecord(Alice))
      == GuidToString(OnesGuid) + "\t" + "alice" + "\t" + "ALICE" + "\t" + "alice@example.com" + "\t" + "h4sh" + "\t"
  {
    UserContent(Alice);
  }

  /** Renaming Alice to "al" with UpdateAsync as written leaves a file that
      no longer reads: the old content's last characters survive. */
  lemma AliceRenamedIsUnreadable()
    ensures Decode(UserSchema.kinds, Overlay(Encode(ToRecord(Alice)), Encode(ToRecord(Al))))
      == Failure(InvalidOperationException)
  {
    var older, newer := Texts(ToRecord(Alice)), Texts(ToRecord(Al));
    forall i | 0 <= i < 5
      ensures |newer[i]| <= |older[i]|
    {
    }
    JoinShorter(older, newer);
    assert |newer[1]| + 3 == |older[1]|;
    StorableUserRecord(Alice);
    StorableUserRecord(Al);
    ShrinkingUpdateIsUnreadable(UserSchema.kinds, ToRecord(Alice), ToRecord(Al));
  }
}
