/**
 * The post-detail widget (src/questions-1319143): the store reducer, the
 * action creators and `getPost`, the request routine that shows a loader,
 * dispatches the outcome of one fetch and hides the loader from a 500 ms
 * timer once the fetch has settled.
 *
 * The network and the timer are events supplied by the caller: `Resolve`
 * and `Reject` stand for the fetch promise settling, `Tick` for the pending
 * `setTimeout` callback firing.
 */
module PostDetails {
  import opened Wrappers

  /** A post as returned by the API. */
  datatype Post = Post(userId: int, id: int, title: string, body: string)

  /** An action; `Other` is any object whose `type` is some other string. */
  datatype Action =
    | SetDetails(payload: Post)
    | ClearDetails
    | ShowLoader
    | HideLoader
    | Other(tag: string)
  {
    /** The action's `type` field. */
    function Type(): string {
      match this
      case SetDetails(_) => "SET_DETAILS"
      case ClearDetails => "CLEAR_DETAILS"
      case ShowLoader => "SHOW_LOADER"
      case HideLoader => "HIDE_LOADER"
      case Other(t) => t
    }

    /** The action's `payload` field; absent (undefined) unless it is a `SetDetails`. */
    function Payload(): Option<Post> {
      if SetDetails? then Some(payload) else None
    }
  }

  datatype Store = Store(isLoading: bool, details: Option<Post>)

  /** The store the widget starts with. */
  const DefaultStore := Store(false, None)

  lemma DefaultStoreIsEmpty()
    ensures !DefaultStore.isLoading && DefaultStore.details == None
  {
  }

  /** True when `t` is one of the four tags the reducer reacts to. */
  predicate IsKnownType(t: string) {
    t == "SET_DETAILS" || t == "CLEAR_DETAILS" || t == "SHOW_LOADER" || t == "HIDE_LOADER"
  }

  /**
   * The reducer. It tests the action's type string in the source's order and
   * returns a copy of the state with one field replaced, or the state itself.
   */
  function Reduce(state: Store, action: Action): (r: Store)
    ensures action.Type() == "SET_DETAILS" ==> r.details == action.Payload() && r.isLoading == state.isLoading
    ensures action.Type() == "CLEAR_DETAILS" ==> r.details == None && r.isLoading == state.isLoading
    ensures action.Type() == "SHOW_LOADER" ==> r.isLoading && r.details == state.details
    ensures action.Type() == "HIDE_LOADER" ==> !r.isLoading && r.details == state.details
    ensures !IsKnownType(action.Type()) ==> r == state
  {
    var t := action.Type();
    if t == "SET_DETAILS" then state.(details := action.Payload())
    else if t == "CLEAR_DETAILS" then state.(details := None)
    else if t == "SHOW_LOADER" then state.(isLoading := true)
    else if t == "HIDE_LOADER" then state.(isLoading := false)
    else state
  }

  /** Dispatching the same action twice has the effect of dispatching it once. */
  lemma ReduceIdempotent(state: Store, action: Action)
    ensures Reduce(Reduce(state, action), action) == Reduce(state, action)
  {
  }

  /** The store after dispatching every action of `log`, oldest first. */
  function ReduceAll(state: Store, log: seq<Action>): (r: Store)
  {
    if log == [] then state else Reduce(ReduceAll(state, log[..|log| - 1]), log[|log| - 1])
  }

  /** Dispatching `a + b` is dispatching `a`, then `b`. */
  lemma {:induction false} ReduceAllAppend(state: Store, a: seq<Action>, b: seq<Action>)
    ensures ReduceAll(state, a + b) == ReduceAll(ReduceAll(state, a), b)
    decreases |b|
  {
    if b == [] {
      assert a + b == a;
    } else {
      var b' := b[..|b| - 1];
      assert (a + b)[..|a + b| - 1] == a + b';
      ReduceAllAppend(state, a, b');
    }
  }

  /**
   * The loader flag after a log is decided by the last loader action in it:
   * it is on when the last one is `SHOW_LOADER`, off when it is `HIDE_LOADER`,
   * and unchanged when the log has none.
   */
  function LastLoaderAction(log: seq<Action>): (r: Option<bool>)
  {
    if log == [] then None
    else
      var t := log[|log| - 1].Type();
      if t == "SHOW_LOADER" then Some(true)
      else if t == "HIDE_LOADER" then Some(false)
      else LastLoaderAction(log[..|log| - 1])
  }

  lemma {:induction false} LoaderFollowsLastLoaderAction(state: Store, log: seq<Action>)
    ensures ReduceAll(state, log).isLoading ==
            match LastLoaderAction(log) case Some(on) => on case None => state.isLoading
    decreases |log|
  {
    if log != [] {
      LoaderFollowsLastLoaderAction(state, log[..|log| - 1]);
    }
  }

  /** An action `getPost` dispatches to report how the fetch settled. */
  predicate IsOutcome(a: Action) {
    a.SetDetails? || a == ClearDetails
  }

  /**
   * The shape of what one `getPost` call dispatches: `SHOW_LOADER`, then at
   * most one outcome, then `HIDE_LOADER` only after the outcome.
   */
  predicate IsGetPostLog(log: seq<Action>) {
    && 1 <= |log| <= 3
    && log[0] == ShowLoader
    && (|log| >= 2 ==> IsOutcome(log[1]))
    && (|log| == 3 ==> log[2] == HideLoader)
  }

  /**
   * What the view shows while a `getPost` call is under way: the loader is on
   * exactly until `HIDE_LOADER` is dispatched, and once the outcome is in the
   * details are the fetched post, or empty after a failure.
   */
  lemma GetPostLogEffect(state: Store, log: seq<Action>)
    requires IsGetPostLog(log)
    ensures ReduceAll(state, log).isLoading <==> HideLoader !in log
    ensures |log| == 1 ==> ReduceAll(state, log).details == state.details
    ensures |log| >= 2 ==> ReduceAll(state, log).details == log[1].Payload()
  {
    LoaderFollowsLastLoaderAction(state, log);
    assert log[..1] == [ShowLoader];
    if |log| >= 2 {
      assert log[..2][..1] == [ShowLoader];
      assert log[..2][1] == log[1];
    }
    if |log| == 3 {
      assert log[..2][..1] == [ShowLoader];
    }
  }

  /**
   * The state of one `getPost` call: the closure's `isRequestLoading` flag,
   * whether a `promiseClose` timeout is pending (`timerId`), the actions it
   * has dispatched so far and the store those actions were applied to.
   */
  class PostRequest {
    var isRequestLoading: bool
    var timerPending: bool
    var dispatched: seq<Action>
    var store: Store

    /** The store when the request started. */
    ghost var initial: Store
    /** Whether the fetch promise has settled. */
    ghost var fetchSettled: bool
    /** How many times the timeout has fired. */
    ghost var ticks: nat

    /** The invariant of a `getPost` call between events. */
    ghost predicate Valid()
      reads this
    {
      && store == ReduceAll(initial, dispatched)
      && isRequestLoading == !fetchSettled
      && IsGetPostLog(dispatched)
      && (isRequestLoading ==> |dispatched| == 1 && timerPending)
      && (!isRequestLoading ==> |dispatched| >= 2 && (timerPending <==> |dispatched| == 2))
      && (HideLoader in dispatched ==> ticks >= 1)
    }

    /** Neither the fetch nor the timer has anything left to do. */
    ghost predicate Finished()
      reads this
    {
      !isRequestLoading && !timerPending
    }

    /** Appends `a` to the dispatched actions and applies it to the store. */
    method Dispatch(a: Action)
      modifies this
      ensures dispatched == old(dispatched) + [a]
      ensures store == Reduce(old(store), a)
      ensures isRequestLoading == old(isRequestLoading) && timerPending == old(timerPending)
      ensures initial == old(initial) && fetchSettled == old(fetchSettled) && ticks == old(ticks)
    {
      dispatched := dispatched + [a];
      store := Reduce(store, a);
    }

    /** `promiseClose`: hides the loader once the request has settled, otherwise re-arms the timeout. */
    method PromiseClose()
      requires !timerPending
      modifies this
      ensures isRequestLoading == old(isRequestLoading)
      ensures !old(isRequestLoading) ==> dispatched == old(dispatched) + [HideLoader] && !timerPending
      ensures old(isRequestLoading) ==> dispatched == old(dispatched) && timerPending
      ensures store == ReduceAll(old(store), dispatched[|old(dispatched)|..])
      ensures initial == old(initial) && fetchSettled == old(fetchSettled) && ticks == old(ticks)
    {
      if !isRequestLoading {
        Dispatch(HideLoader);
        assert dispatched[|old(dispatched)|..] == [HideLoader];
        assert ReduceAll(old(store), [HideLoader]) == Reduce(ReduceAll(old(store), []), HideLoader);
        return;
      }
      timerPending := true;
      assert dispatched[|old(dispatched)|..] == [];
    }

    /** The synchronous part of `getPost`: show the loader, raise the flag, run `promiseClose` once and start the fetch. */
    constructor Start(current: Store)
      ensures Valid()
      ensures dispatched == [ShowLoader] && store == Reduce(current, ShowLoader) && store.isLoading
      ensures isRequestLoading && timerPending && ticks == 0
      ensures initial == current && !fetchSettled
    {
      isRequestLoading := false;
      timerPending := false;
      dispatched := [];
      store := current;
      initial := current;
      fetchSettled := false;
      ticks := 0;
      new;
      Dispatch(ShowLoader);
      assert ReduceAll(current, [ShowLoader]) == Reduce(ReduceAll(current, []), ShowLoader);
      isRequestLoading := true;
      PromiseClose();
    }

    /** The fetch resolves with `data`: dispatch `SET_DETAILS`, then lower the flag. */
    method Resolve(data: Post)
      requires Valid() && !fetchSettled
      modifies this
      ensures Valid()
      ensures dispatched == old(dispatched) + [SetDetails(data)]
      ensures store == Reduce(old(store), SetDetails(data))
      ensures !isRequestLoading && timerPending && ticks == old(ticks)
      ensures initial == old(initial) && fetchSettled
    {
      Dispatch(SetDetails(data));
      isRequestLoading := false;
      fetchSettled := true;
    }

    /** The fetch rejects (network error, bad JSON or abort): lower the flag, then dispatch `CLEAR_DETAILS`. */
    method Reject()
      requires Valid() && !fetchSettled
      modifies this
      ensures Valid()
      ensures dispatched == old(dispatched) + [ClearDetails]
      ensures store == Reduce(old(store), ClearDetails)
      ensures !isRequestLoading && timerPending && ticks == old(ticks)
      ensures initial == old(initial) && fetchSettled
    {
      isRequestLoading := false;
      fetchSettled := true;
      Dispatch(ClearDetails);
    }

    /** The pending timeout fires and runs `promiseClose`. */
    method Tick()
      requires Valid() && timerPending
      modifies this
      ensures Valid()
      ensures ticks == old(ticks) + 1 && isRequestLoading == old(isRequestLoading)
      ensures initial == old(initial) && fetchSettled == old(fetchSettled)
      ensures old(isRequestLoading) ==> dispatched == old(dispatched) && timerPending && store == old(store)
      ensures !old(isRequestLoading) ==>
                dispatched == old(dispatched) + [HideLoader] && Finished() && !store.isLoading
                && store.details == old(store).details
    {
      timerPending := false;
      ticks := ticks + 1;
      ghost var before := dispatched;
      PromiseClose();
      ReduceAllAppend(initial, before, dispatched[|before|..]);
      assert before + dispatched[|before|..] == dispatched;
    }
  }
}
