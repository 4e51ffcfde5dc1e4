/**
 * The world state the contracts share through `ctx.stub`: one flat map from
 * key to record, with single-key reads, writes and deletes.  Also the two
 * integrity properties the contracts are meant to keep.
 */
module Ledger {
  import opened Records

  type State = map<string, Entity>

  /** The chaincode stub: `getState` is a read of `state`, `putState` and `deleteState` change one key. */
  class Stub {
    var state: State

    constructor (initial: State)
      ensures state == initial
    {
      state := initial;
    }

    method PutState(key: string, value: Entity)
      modifies this
      ensures state == old(state)[key := value]
    {
      state := state[key := value];
    }

    method DeleteState(key: string)
      modifies this
      ensures state == old(state) - {key}
    {
      state := state - {key};
    }
  }

  predicate HoldsUser(s: State, k: string)
  {
    k in s && s[k].UserRecord?
  }

  predicate HoldsCourse(s: State, k: string)
  {
    k in s && s[k].CourseRecord?
  }

  predicate HoldsCertificate(s: State, k: string)
  {
    k in s && s[k].CertificateRecord?
  }

  /** Every record is stored under its own id. */
  predicate IdsMatchKeys(s: State)
  {
    forall k | k in s :: s[k].Id() == k
  }

  /** No user lists a certificate id that is not a stored certificate (no dangling reference). */
  predicate CertificatesResolve(s: State)
  {
    forall k, c | k in s && s[k].UserRecord? && c in s[k].user.certificates :: HoldsCertificate(s, c)
  }

  predicate Consistent(s: State)
  {
    IdsMatchKeys(s) && CertificatesResolve(s)
  }

  /**
   * Writing a record under its own id keeps the state consistent, unless it
   * replaces a certificate by another kind of record or is a user listing a
   * certificate that is not stored.
   */
  lemma PutKeepsConsistent(s: State, e: Entity)
    requires Consistent(s)
    requires HoldsCertificate(s, e.Id()) ==> e.CertificateRecord?
    requires e.UserRecord? ==> forall c | c in e.user.certificates :: HoldsCertificate(s, c)
    ensures Consistent(s[e.Id() := e])
  {
    var t := s[e.Id() := e];
    forall k, c | k in t && t[k].UserRecord? && c in t[k].user.certificates
      ensures HoldsCertificate(t, c)
    {
      if k == e.Id() {
        assert HoldsCertificate(s, c);
      } else {
        assert s[k] == t[k];
        assert HoldsCertificate(s, c);
      }
      if c != e.Id() {
        assert t[c] == s[c];
      }
    }
  }

  /** Deleting any key except a certificate keeps the state consistent. */
  lemma DeleteKeepsConsistent(s: State, key: string)
    requires Consistent(s)
    requires !HoldsCertificate(s, key)
    ensures Consistent(s - {key})
  {
    var t := s - {key};
    forall k, c | k in t && t[k].UserRecord? && c in t[k].user.certificates
      ensures HoldsCertificate(t, c)
    {
      assert s[k] == t[k];
      assert HoldsCertificate(s, c);
    }
  }
}
