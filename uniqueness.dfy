/** The sign-up form's mock uniqueness check: a case-insensitive lookup of a
    username or an email in two fixed lists of registered values. */
module Uniqueness {
  import opened Text

  /** The registered usernames the mock check knows about. */
  const ExistingUsers: seq<string> := ["existinguser", "testuser"]

  /** The registered emails the mock check knows about. */
  const ExistingEmails: seq<string> := ["existing@email.com", "test@email.com"]

  /** `isUnique(field, value)`: a username or an email is taken exactly when it is,
      up to letter case, an entry of that field's list; any other field name is
      always reported free. */
  function IsUnique(field: string, value: string): (r: bool)
    ensures field == "username"
        ==> (!r <==> exists w :: w in ExistingUsers && SameUpToCase(value, w))
    ensures field == "email"
        ==> (!r <==> exists w :: w in ExistingEmails && SameUpToCase(value, w))
    ensures field != "username" && field != "email" ==> r
  {
    ListsAreLowerCase();
    ListedIffCaseVariant(ExistingUsers, value);
    ListedIffCaseVariant(ExistingEmails, value);
    if field == "username" then ToLower(value) !in ExistingUsers
    else if field == "email" then ToLower(value) !in ExistingEmails
    else true
  }

  /** Every listed value is already lower case. */
  lemma ListsAreLowerCase()
    ensures forall w :: w in ExistingUsers ==> IsLowerCase(w)
    ensures forall w :: w in ExistingEmails ==> IsLowerCase(w)
  {
    assert ExistingUsers[0] == "existinguser" && ExistingUsers[1] == "testuser";
    assert ExistingEmails[0] == "existing@email.com" && ExistingEmails[1] == "test@email.com";
  }

  /** Looking up the lower-cased value in a list of lower-case entries finds
      exactly the entries the value equals up to letter case. */
  lemma ListedIffCaseVariant(list: seq<string>, value: string)
    requires forall w :: w in list ==> IsLowerCase(w)
    ensures ToLower(value) in list <==> exists w :: w in list && SameUpToCase(value, w)
  {
    if ToLower(value) in list {
      var w := ToLower(value);
      ToLowerOfLowerCase(w);
      ToLowerEqualIff(value, w);
    }
    if exists w :: w in list && SameUpToCase(value, w) {
      var w :| w in list && SameUpToCase(value, w);
      ToLowerOfLowerCase(w);
      ToLowerEqualIff(value, w);
    }
  }

  /** A username is taken exactly when it lower-cases to one of the two listed names. */
  lemma UsernameTakenIff(value: string)
    ensures !IsUnique("username", value)
        <==> ToLower(value) == "existinguser" || ToLower(value) == "testuser"
  {
  }

  /** An email is taken exactly when it lower-cases to one of the two listed emails. */
  lemma EmailTakenIff(value: string)
    ensures !IsUnique("email", value)
        <==> ToLower(value) == "existing@email.com" || ToLower(value) == "test@email.com"
  {
  }

  /** Values that differ only in letter case get the same answer, for every field. */
  lemma UniqueIgnoresCase(field: string, a: string, b: string)
    requires SameUpToCase(a, b)
    ensures IsUnique(field, a) == IsUnique(field, b)
  {
    ToLowerEqualIff(a, b);
  }

  /** A differently cased registered username is taken. */
  lemma MixedCaseUsernameTaken()
    ensures !IsUnique("username", "TestUser")
  {
    assert LowerChar('T') == 't' && LowerChar('U') == 'u';
    assert SameUpToCase("TestUser", ExistingUsers[1]);
  }

  /** A differently cased registered email is taken. */
  lemma MixedCaseEmailTaken()
    ensures !IsUnique("email", "Existing@Email.COM")
  {
    assert LowerChar('E') == 'e' && LowerChar('C') == 'c';
    assert LowerChar('O') == 'o' && LowerChar('M') == 'm';
    assert SameUpToCase("Existing@Email.COM", ExistingEmails[0]);
  }

  /** An unlisted username is free. */
  lemma NewUsernameFree()
    ensures IsUnique("username", "newuser")
  {
    ToLowerOfLowerCase("newuser");
  }

  /** An unlisted email is free. */
  lemma NewEmailFree()
    ensures IsUnique("email", "new@x.com")
  {
    ToLowerOfLowerCase("new@x.com");
  }
}
