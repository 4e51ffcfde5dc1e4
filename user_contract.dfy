/**
 * The user registry (src/user/user-contract.ts): existence, create, read,
 * update and delete of user records in the shared ledger.
 */
module UserContract {
  import opened Records
  import opened Ledger

  /** `userExists`: a record of any kind is stored under the key. */
  function UserExists(stub: Stub, userId: string): (r: bool)
    reads stub
    ensures r <==> userId in stub.state
  {
    userId in stub.state
  }

  /** `createUser`: refuses an id already in use, otherwise stores the user under its id. */
  method CreateUser(stub: Stub, user: User) returns (r: Result<()>)
    modifies stub
    ensures user.id in old(stub.state) ==>
              r == Err(AlreadyExists(TheUser, user.id)) && stub.state == old(stub.state)
    ensures user.id !in old(stub.state) ==>
              r == Ok(()) && stub.state == old(stub.state)[user.id := UserRecord(user)]
    ensures r.Ok? ==> UserExists(stub, user.id)
    ensures Consistent(old(stub.state)) && (forall c | c in user.certificates :: HoldsCertificate(old(stub.state), c))
            ==> Consistent(stub.state)
  {
    if UserExists(stub, user.id) {
      return Err(AlreadyExists(TheUser, user.id));
    }
    ghost var before := stub.state;
    stub.PutState(user.id, UserRecord(user));
    if Consistent(before) && (forall c | c in user.certificates :: HoldsCertificate(before, c)) {
      PutKeepsConsistent(before, UserRecord(user));
    }
    r := Ok(());
  }

  /** `readUser`: the record stored under the key, of whatever kind, unchecked. */
  function ReadUser(stub: Stub, userId: string): (r: Result<Entity>)
    reads stub
    ensures r.Ok? <==> userId in stub.state
    ensures r.Ok? ==> r.value == stub.state[userId]
    ensures r.Err? ==> r.error == DoesNotExist(TheUser, userId)
  {
    if !UserExists(stub, userId) then Err(DoesNotExist(TheUser, userId))
    else Ok(stub.state[userId])
  }

  /** `updateUser`: replaces the whole record stored under the user's id; nothing is merged. */
  method UpdateUser(stub: Stub, user: User) returns (r: Result<()>)
    modifies stub
    ensures user.id !in old(stub.state) ==>
              r == Err(DoesNotExist(TheUser, user.id)) && stub.state == old(stub.state)
    ensures user.id in old(stub.state) ==>
              r == Ok(()) && stub.state == old(stub.state)[user.id := UserRecord(user)]
    ensures Consistent(old(stub.state)) && !HoldsCertificate(old(stub.state), user.id)
            && (forall c | c in user.certificates :: HoldsCertificate(old(stub.state), c))
            ==> Consistent(stub.state)
  {
    if !UserExists(stub, user.id) {
      return Err(DoesNotExist(TheUser, user.id));
    }
    ghost var before := stub.state;
    stub.PutState(user.id, UserRecord(user));
    if Consistent(before) && !HoldsCertificate(before, user.id)
       && (forall c | c in user.certificates :: HoldsCertificate(before, c)) {
      PutKeepsConsistent(before, UserRecord(user));
    }
    r := Ok(());
  }

  /** `deleteUser`: removes the key; courses and certificates naming the user are left as they are. */
  method DeleteUser(stub: Stub, userId: string) returns (r: Result<()>)
    modifies stub
    ensures userId !in old(stub.state) ==>
              r == Err(DoesNotExist(TheUser, userId)) && stub.state == old(stub.state)
    ensures userId in old(stub.state) ==>
              r == Ok(()) && stub.state == old(stub.state) - {userId}
    ensures !UserExists(stub, userId)
    ensures Consistent(old(stub.state)) && !HoldsCertificate(old(stub.state), userId) ==> Consistent(stub.state)
  {
    if !UserExists(stub, userId) {
      return Err(DoesNotExist(TheUser, userId));
    }
    ghost var before := stub.state;
    stub.DeleteState(userId);
    if Consistent(before) && !HoldsCertificate(before, userId) {
      DeleteKeepsConsistent(before, userId);
    }
    r := Ok(());
  }
}
