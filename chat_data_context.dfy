/** The application's chat state and the reducer that moves it between loading, error
    and loaded (context/ChatDataContext.tsx). The reducer never changes the state it is
    given: it returns a new one. */
module ChatDataContext {
  import opened Wrappers
  import opened Types

  /** `null` is `None`. */
  datatype ChatDataState = ChatDataState(
    wrappedData: Option<WrappedData>,
    isLoading: bool,
    error: Option<string>,
    chatName: Option<string>)

  /** The four actions, and `Unknown` for a dispatched object of any other `type`. */
  datatype ChatDataAction =
    | SetLoading(loading: bool)
    | SetError(message: Option<string>)
    | SetData(data: WrappedData, name: string)
    | Reset
    | Unknown(kind: string)

  const InitialState: ChatDataState := ChatDataState(None, false, None, None)

  /** `chatDataReducer`. */
  function Reduce(state: ChatDataState, action: ChatDataAction): ChatDataState
  {
    match action
    case SetLoading(loading) => state.(isLoading := loading, error := None)
    case SetError(message) => state.(error := message, isLoading := false)
    case SetData(data, name) =>
      state.(wrappedData := Some(data), chatName := Some(name), isLoading := false, error := None)
    case Reset => InitialState
    case Unknown(_) => state
  }

  /** The state after dispatching `actions` in order, as `useReducer` does. */
  function ReduceAll(state: ChatDataState, actions: seq<ChatDataAction>): ChatDataState
    decreases |actions|
  {
    if actions == [] then state else ReduceAll(Reduce(state, actions[0]), actions[1..])
  }

  /** What each action does, field by field; any other action changes nothing. */
  lemma ReduceFields(s: ChatDataState, a: ChatDataAction)
    ensures a.SetLoading? ==> var r := Reduce(s, a);
      r.isLoading == a.loading && r.error == None && r.wrappedData == s.wrappedData && r.chatName == s.chatName
    ensures a.SetError? ==> var r := Reduce(s, a);
      r.error == a.message && !r.isLoading && r.wrappedData == s.wrappedData && r.chatName == s.chatName
    ensures a.SetData? ==> var r := Reduce(s, a);
      r.wrappedData == Some(a.data) && r.chatName == Some(a.name) && !r.isLoading && r.error == None
    ensures a.Reset? ==> Reduce(s, a) == InitialState
    ensures a.Unknown? ==> Reduce(s, a) == s
  {
  }

  /** Data and chat name are present together, and the state is never loading and
      failed at once. */
  predicate Consistent(s: ChatDataState)
  {
    s.wrappedData.Some? == s.chatName.Some? && !(s.isLoading && s.error.Some?)
  }

  /** Every action keeps the state consistent. */
  lemma ReducePreservesConsistent(s: ChatDataState, a: ChatDataAction)
    requires Consistent(s)
    ensures Consistent(Reduce(s, a))
  {
  }

  /** Every state the application can reach from the initial state is consistent. */
  lemma ReachableFromInitial(actions: seq<ChatDataAction>)
    ensures Consistent(ReduceAll(InitialState, actions))
  {
    ReachableConsistent(InitialState, actions);
  }

  /** Actions taken from a consistent state lead to a consistent state. */
  lemma {:induction false} ReachableConsistent(s: ChatDataState, actions: seq<ChatDataAction>)
    requires Consistent(s)
    ensures Consistent(ReduceAll(s, actions))
    decreases |actions|
  {
    if actions != [] {
      ReducePreservesConsistent(s, actions[0]);
      ReachableConsistent(Reduce(s, actions[0]), actions[1..]);
    }
  }

  /** Dispatching the same action twice in a row is the same as dispatching it once. */
  lemma ReduceIdempotent(s: ChatDataState, a: ChatDataAction)
    ensures Reduce(Reduce(s, a), a) == Reduce(s, a)
  {
  }

  /** Whatever came before, a reset leaves the initial state. */
  lemma ResetForgets(s: ChatDataState, actions: seq<ChatDataAction>)
    ensures ReduceAll(s, actions + [Reset]) == InitialState
  {
    ReduceAllAppend(s, actions, [Reset]);
  }

  lemma {:induction false} ReduceAllAppend(s: ChatDataState, xs: seq<ChatDataAction>, ys: seq<ChatDataAction>)
    ensures ReduceAll(s, xs + ys) == ReduceAll(ReduceAll(s, xs), ys)
    decreases |xs|
  {
    if xs != [] {
      assert (xs + ys)[0] == xs[0];
      assert (xs + ys)[1..] == xs[1..] + ys;
      ReduceAllAppend(Reduce(s, xs[0]), xs[1..], ys);
    } else {
      assert xs + ys == ys;
    }
  }

  /** The data shown after a run of actions, read from the end: the latest `SetData`
      or `Reset` decides it; without either, the data from before stays. */
  function LatestData(before: Option<WrappedData>, actions: seq<ChatDataAction>): Option<WrappedData>
  {
    if actions == [] then before
    else
      match actions[|actions| - 1]
      case SetData(data, _) => Some(data)
      case Reset => None
      case _ => LatestData(before, actions[..|actions| - 1])
  }

  /** The reducer shows the data of the latest `SetData`, unless a `Reset` came after it. */
  lemma {:induction false} ReduceAllData(s: ChatDataState, actions: seq<ChatDataAction>)
    ensures ReduceAll(s, actions).wrappedData == LatestData(s.wrappedData, actions)
    decreases |actions|
  {
    if actions != [] {
      var init := actions[..|actions| - 1];
      var last := actions[|actions| - 1];
      assert actions == init + [last];
      ReduceAllAppend(s, init, [last]);
      ReduceAllData(s, init);
    }
  }
}
