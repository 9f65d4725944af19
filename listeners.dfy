/**
 * Profile auto-provisioning: the `post_save` receiver for accounts, over a
 * store that holds the account table and the profile table. A profile is
 * created only on the creation event, inside a savepoint; when saving it
 * fails the profile table returns to the savepoint and the error is
 * swallowed, so the account stays without a profile.
 */
module Listeners {
  import opened Wrappers
  import opened Profiles

  /** The ids of the stored accounts. */
  function UserIds(users: seq<User>): set<nat> {
    set u | u in users :: u.id
  }

  /** How many profiles point at the account `id`. */
  function ProfileCount(profiles: seq<Profile>, id: nat): (n: nat)
    ensures n <= |profiles|
    ensures n == 0 <==> forall p :: p in profiles ==> p.user != id
  {
    if profiles == [] then 0
    else (if profiles[0].user == id then 1 else 0) + ProfileCount(profiles[1..], id)
  }

  lemma {:induction false} ProfileCountAppend(profiles: seq<Profile>, p: Profile, id: nat)
    ensures ProfileCount(profiles + [p], id) == ProfileCount(profiles, id) + (if p.user == id then 1 else 0)
  {
    if profiles != [] {
      assert (profiles + [p])[1..] == profiles[1..] + [p];
      ProfileCountAppend(profiles[1..], p, id);
    }
  }

  /** The store's intended invariant: every account has exactly one profile and every profile an account. */
  ghost predicate OneProfileEach(users: seq<User>, profiles: seq<Profile>) {
    && (forall u :: u in users ==> ProfileCount(profiles, u.id) == 1)
    && (forall p :: p in profiles ==> p.user in UserIds(users))
  }

  /** Provisioning the profile of a newly created account keeps the invariant. */
  lemma ProvisioningKeepsOneProfileEach(users: seq<User>, profiles: seq<Profile>, u: User, now: int)
    requires OneProfileEach(users, profiles)
    requires u.id !in UserIds(users)
    ensures OneProfileEach(users + [u], profiles + [NewProfile(u, now)])
    ensures ProfileCount(profiles + [NewProfile(u, now)], u.id) == 1
  {
    var p := NewProfile(u, now);
    forall v | v in users + [u] ensures ProfileCount(profiles + [p], v.id) == 1 {
      ProfileCountAppend(profiles, p, v.id);
      if v != u {
        assert v in users;
        assert v.id != u.id;
      } else {
        assert forall q :: q in profiles ==> q.user != u.id;
      }
    }
  }

  /** When the profile save fails, the new account is left with no profile at all. */
  lemma FailedProvisioningLeavesNoProfile(users: seq<User>, profiles: seq<Profile>, u: User)
    requires OneProfileEach(users, profiles)
    requires u.id !in UserIds(users)
    ensures ProfileCount(profiles, u.id) == 0
    ensures !OneProfileEach(users + [u], profiles)
  {
    assert forall q :: q in profiles ==> q.user != u.id;
    assert u in users + [u];
  }

  /** Updating an account in place, with its id unchanged, keeps the invariant. */
  lemma UpdateKeepsOneProfileEach(users: seq<User>, profiles: seq<Profile>, k: nat, u: User)
    requires OneProfileEach(users, profiles)
    requires k < |users| && u.id == users[k].id
    ensures OneProfileEach(users[k := u], profiles)
  {
    assert UserIds(users[k := u]) == UserIds(users) by {
      forall id | id in UserIds(users) ensures id in UserIds(users[k := u]) {
        var v :| v in users && v.id == id;
        var i :| 0 <= i < |users| && users[i] == v;
        assert users[k := u][i].id == id;
      }
    }
    forall v | v in users[k := u] ensures ProfileCount(profiles, v.id) == 1 {
      var i :| 0 <= i < |users| && users[k := u][i] == v;
      assert v.id == users[i].id;
    }
  }

  /** The account and profile tables. */
  class Database {
    var users: seq<User>
    var profiles: seq<Profile>

    constructor ()
      ensures users == [] && profiles == []
    {
      users := [];
      profiles := [];
    }

    /**
     * The receiver `create_profile(sender, instance, created, ...)`.
     * `saveFails` says whether `profile.save()` raises; `now` is the clock.
     */
    method CreateProfile(instance: User, created: bool, saveFails: bool, now: int)
      modifies this
      ensures users == old(users)
      ensures profiles == if created && !saveFails then old(profiles) + [NewProfile(instance, now)] else old(profiles)
    {
      if created {
        var savepoint := profiles;
        var profile := NewProfile(instance, now);
        profiles := profiles + [profile];
        if saveFails {
          // The exception is logged and swallowed after the rollback.
          profiles := savepoint;
        }
      }
    }

    /** `instance.save()` on a new account: the row is inserted, then `post_save` fires with `created` true. */
    method InsertUser(u: User, saveFails: bool, now: int)
      requires u.id !in UserIds(users)
      modifies this
      ensures users == old(users) + [u]
      ensures profiles == if saveFails then old(profiles) else old(profiles) + [NewProfile(u, now)]
      ensures old(OneProfileEach(users, profiles)) && !saveFails ==> OneProfileEach(users, profiles)
      ensures saveFails ==> ProfileCount(profiles, u.id) == ProfileCount(old(profiles), u.id)
    {
      ghost var before, was := users, profiles;
      users := users + [u];
      CreateProfile(u, true, saveFails, now);
      if OneProfileEach(before, was) && !saveFails {
        ProvisioningKeepsOneProfileEach(before, was, u, now);
      }
    }

    /**
     * `instance.save()` on an existing account: row `k` is overwritten, then
     * `post_save` fires with `created` false, which leaves the profiles
     * (and so their username copies) as they were.
     */
    method UpdateUser(k: nat, u: User, now: int)
      requires k < |users| && u.id == users[k].id
      modifies this
      ensures users == old(users)[k := u]
      ensures profiles == old(profiles)
      ensures old(OneProfileEach(users, profiles)) ==> OneProfileEach(users, profiles)
    {
      ghost var before := users;
      users := users[k := u];
      CreateProfile(u, false, false, now);
      if OneProfileEach(before, profiles) {
        UpdateKeepsOneProfileEach(before, profiles, k, u);
      }
    }
  }
}
