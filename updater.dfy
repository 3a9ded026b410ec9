/** The per-user cache of managers (src/substitution_updater.py): a queue
    of at most ten managers in insertion order, searched by user name. */
module SubstitutionUpdaters {
  import opened Results
  import opened SubstitutionManagers

  /** The `maxlen` of the queue. */
  const MaxManagers: nat := 10

  /** `deque.append` on a queue bounded by `n`: the new element goes to the
      back, and a full queue first drops its front (its oldest) element. */
  function BoundedAppend<T>(q: seq<T>, x: T, n: nat): (r: seq<T>)
    requires 0 < n && |q| <= n
    ensures 0 < |r| <= n && r[|r| - 1] == x
    ensures |q| < n ==> |r| == |q| + 1 && r[..|q|] == q
    ensures |q| == n ==> |r| == n && r[..n - 1] == q[1..]
  {
    if |q| == n then q[1..] + [x] else q + [x]
  }

  /** The last `n` elements of a history, oldest first. */
  function Newest<T>(history: seq<T>, n: nat): (r: seq<T>)
    ensures |r| == if |history| <= n then |history| else n
    ensures |history| <= n ==> r == history
    ensures r == history[|history| - |r|..]
  {
    if |history| <= n then history else history[|history| - n..]
  }

  /** A bounded queue holds exactly the newest `n` of everything ever
      appended: appending to the queue is appending to the history. */
  lemma NewestAppend<T>(history: seq<T>, x: T, n: nat)
    requires 0 < n
    ensures Newest(history + [x], n) == BoundedAppend(Newest(history, n), x, n)
  {
    var h := history + [x];
    if |history| >= n {
      assert h[|h| - n..] == history[|history| - n..][1..] + [x];
    }
  }

  /** No two cached managers belong to the same user. */
  predicate UniqueUsernames(managers: seq<SubstitutionManager>) {
    forall i, j :: 0 <= i < j < |managers| ==> managers[i].loginUsername != managers[j].loginUsername
  }

  /** Position of the first manager of `loginUsername`, if any. */
  function FindByUsername(managers: seq<SubstitutionManager>, loginUsername: string): (r: Option<nat>)
    ensures r.Some? ==> r.value < |managers| && managers[r.value].loginUsername == loginUsername
    ensures r.Some? ==> forall k :: 0 <= k < r.value ==> managers[k].loginUsername != loginUsername
    ensures r.None? <==> forall k :: 0 <= k < |managers| ==> managers[k].loginUsername != loginUsername
  {
    if managers == [] then None
    else if managers[0].loginUsername == loginUsername then Some(0)
    else match FindByUsername(managers[1..], loginUsername)
      case None => None
      case Some(k) => Some(k + 1)
  }

  /** Appending the manager of a user not yet cached keeps the user names
      unique, whether or not the oldest entry is dropped. */
  lemma AppendKeepsUnique(managers: seq<SubstitutionManager>, m: SubstitutionManager)
    requires UniqueUsernames(managers) && |managers| <= MaxManagers
    requires forall k :: 0 <= k < |managers| ==> managers[k].loginUsername != m.loginUsername
    ensures UniqueUsernames(BoundedAppend(managers, m, MaxManagers))
  {
    var r := BoundedAppend(managers, m, MaxManagers);
    if |managers| == MaxManagers {
      assert forall k :: 0 <= k < |r| - 1 ==> r[k] == managers[k + 1];
    } else {
      assert forall k :: 0 <= k < |r| - 1 ==> r[k] == managers[k];
    }
  }

  class SubstitutionUpdater {
    var managers: seq<SubstitutionManager>
    /** Every manager ever appended, oldest first. */
    ghost var inserted: seq<SubstitutionManager>

    /** The queue is the newest ten of the managers ever appended. */
    ghost predicate Valid()
      reads this
    {
      managers == Newest(inserted, MaxManagers)
    }

    constructor ()
      ensures Valid() && managers == [] && inserted == []
    {
      managers := [];
      inserted := [];
    }

    /** `create_substitution_manager`: `fetched` is what the manager's
        `init` produced for this user, `None` when it failed. A failure
        leaves the cache alone; a success appends the new manager. */
    method CreateSubstitutionManager(loginUsername: string, fetched: Option<Records>)
      returns (r: Option<SubstitutionManager>)
      requires Valid()
      modifies this
      ensures Valid()
      ensures fetched.None? ==> r.None? && managers == old(managers) && inserted == old(inserted)
      ensures fetched.Some? ==>
        && r.Some? && fresh(r.value)
        && r.value.loginUsername == loginUsername
        && (forall x :: x in r.value.substitutions <==> x in fetched.value.substitutions)
        && r.value.news == fetched.value.news
        && inserted == old(inserted) + [r.value]
        && managers == BoundedAppend(old(managers), r.value, MaxManagers)
    {
      if fetched.None? {
        return None;
      }
      var manager := new SubstitutionManager.WithLogin(loginUsername, fetched.value.substitutions, fetched.value.news);
      NewestAppend(inserted, manager, MaxManagers);
      inserted := inserted + [manager];
      managers := BoundedAppend(managers, manager, MaxManagers);
      return Some(manager);
    }

    /** `get_substitution_manager`. The `example`/`example` account gets a
        fresh manager over `examples` and the cache is not touched. Otherwise
        the first cached manager of the user is returned, refreshed exactly
        when `stale` (the answer of its `check_updating_data`) holds, without
        reordering the cache; and when none is cached, a new manager is
        created from `fetched`. The password is never compared. */
    method GetSubstitutionManager(loginUsername: string, password: string, examples: Records,
                                  stale: bool, fetched: Option<Records>)
      returns (r: Option<SubstitutionManager>)
      requires Valid()
      modifies this, managers
      ensures Valid()
      ensures |managers| <= MaxManagers
      ensures UniqueUsernames(old(managers)) ==> UniqueUsernames(managers)
      ensures forall m :: m in old(managers) && Some(m) != r ==>
        m.substitutions == old(m.substitutions) && m.news == old(m.news) && m.updateCount == old(m.updateCount)
      ensures loginUsername == "example" && password == "example" ==>
        && r.Some? && fresh(r.value) && r.value.loginUsername == "example"
        && (forall x :: x in r.value.substitutions <==> x in examples.substitutions)
        && r.value.news == examples.news
        && managers == old(managers) && inserted == old(inserted)
        && (forall m :: m in old(managers) ==> m.updateCount == old(m.updateCount))
      ensures !(loginUsername == "example" && password == "example") ==>
        match FindByUsername(old(managers), loginUsername)
        case Some(k) =>
          && r == Some(old(managers)[k])
          && managers == old(managers) && inserted == old(inserted)
          && r.value.updateCount == old(r.value.updateCount) + (if stale then 1 else 0)
          && (!stale ==> r.value.substitutions == old(r.value.substitutions) && r.value.news == old(r.value.news))
          && (forall m :: m in old(managers) && m != r.value ==> m.updateCount == old(m.updateCount))
        case None =>
          && (forall m :: m in old(managers) ==> m.updateCount == old(m.updateCount))
          && (fetched.None? ==> r.None? && managers == old(managers) && inserted == old(inserted))
          && (fetched.Some? ==>
                && r.Some? && fresh(r.value) && r.value.loginUsername == loginUsername
                && (forall x :: x in r.value.substitutions <==> x in fetched.value.substitutions)
                && r.value.news == fetched.value.news
                && managers == BoundedAppend(old(managers), r.value, MaxManagers))
    {
      if loginUsername == "example" && password == "example" {
        var example := new SubstitutionManager.WithLogin(loginUsername, examples.substitutions, examples.news);
        return Some(example);
      }
      var i := 0;
      while i < |managers| && managers[i].loginUsername != loginUsername
        invariant 0 <= i <= |managers|
        invariant forall k :: 0 <= k < i ==> managers[k].loginUsername != loginUsername
      {
        i := i + 1;
      }
      if i < |managers| {
        var manager := managers[i];
        if stale {
          manager.UpdateData();
        }
        return Some(manager);
      }
      r := CreateSubstitutionManager(loginUsername, fetched);
      if r.Some? && UniqueUsernames(old(managers)) {
        AppendKeepsUnique(old(managers), r.value);
      }
    }
  }
}
