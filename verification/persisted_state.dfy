/** The session-storage hook of src/lib/persistedState.ts: a piece of state
    that starts from what the browser's session storage holds under a key,
    is written back on every update, and can be cleared back to a default.
    Storage is a map from keys to stored items; whether a read, write or
    removal succeeds is a parameter, since the browser decides it. */
module PersistedState {

  /** What a key can hold: the JSON text of a value, the empty text, or a
      text that JSON.parse rejects. A JSON text is taken to read back as the
      value it was written from. */
  datatype Item<T> = Json(value: T) | EmptyText | Malformed

  type Store<T> = map<string, Item<T>>

  /** The argument of the setter: a new value, or a function of the
      previous one. */
  datatype Update<!T> = Value(v: T) | Updater(f: T -> T)

  /** The in-memory state together with the storage it mirrors. */
  datatype Session<T> = Session(store: Store<T>, state: T)

  /** The first state: the stored value when the read succeeds and finds a
      non-empty text that parses; otherwise the default. */
  function Init<T>(store: Store<T>, key: string, default: T, readOk: bool): (r: T)
    ensures readOk && key in store && store[key].Json? ==> r == store[key].value
    ensures !readOk || key !in store || !store[key].Json? ==> r == default
  {
    if !readOk || key !in store then default
    else match store[key]
      case Json(v) => v
      case EmptyText => default
      case Malformed => default
  }

  /** The value the setter settles on. */
  function NewValue<T>(prev: T, u: Update<T>): T {
    match u
    case Value(v) => v
    case Updater(f) => f(prev)
  }

  /** The setter: the state becomes the new value whatever happens to the
      write; a successful write stores it under the key and touches no other
      key, a failed one leaves storage as it was. */
  function Set<T>(s: Session<T>, key: string, u: Update<T>, writeOk: bool): (r: Session<T>)
    ensures r.state == NewValue(s.state, u)
    ensures writeOk ==> key in r.store && r.store[key] == Json(r.state)
    ensures forall k :: k != key ==> (k in r.store <==> k in s.store)
    ensures forall k :: k != key && k in s.store ==> r.store[k] == s.store[k]
    ensures !writeOk ==> r.store == s.store
  {
    var v := NewValue(s.state, u);
    Session(if writeOk then s.store[key := Json(v)] else s.store, v)
  }

  /** Clearing: a successful removal drops the key, a failed one leaves
      storage alone; either way the state returns to the default, which is
      not written to storage. */
  function Clear<T>(s: Session<T>, key: string, default: T, removeOk: bool): (r: Session<T>)
    ensures r.state == default
    ensures removeOk ==> key !in r.store
    ensures forall k :: k in r.store ==> k in s.store && r.store[k] == s.store[k]
    ensures forall k :: k != key && k in s.store ==> k in r.store
  {
    Session(if removeOk then s.store - {key} else s.store, default)
  }

  /** A function handed to the setter sees the latest state: it acts as the
      value it computes from that state, and two functions in a row compose,
      whether or not either write reaches storage. */
  lemma UpdaterSeesLatest<T>(s: Session<T>, key: string, f: T -> T, g: T -> T, ok1: bool, ok2: bool)
    ensures Set(s, key, Updater(f), ok1) == Set(s, key, Value(f(s.state)), ok1)
    ensures Set(Set(s, key, Updater(f), ok1), key, Updater(g), ok2).state == g(f(s.state))
  {
  }

  /** After a successful write, mounting again from the same storage brings
      back the value just set. */
  lemma SetThenRemount<T>(s: Session<T>, key: string, u: Update<T>, default: T)
    ensures Init(Set(s, key, u, true).store, key, default, true) == Set(s, key, u, true).state
  {
  }

  /** After a successful removal, mounting again gives the default, however
      the read goes. */
  lemma ClearThenRemount<T>(s: Session<T>, key: string, default: T, readOk: bool)
    ensures Init(Clear(s, key, default, true).store, key, default, readOk) == default
  {
  }

  /** A write under one key never changes what another key mounts as. */
  lemma SetKeepsOtherKeys<T>(s: Session<T>, key: string, other: string, u: Update<T>, writeOk: bool, default: T, readOk: bool)
    requires other != key
    ensures Init(Set(s, key, u, writeOk).store, other, default, readOk) == Init(s.store, other, default, readOk)
  {
  }

  /** A failed write is invisible to the component: the state is the same
      as after a successful one. */
  lemma WriteFailureInvisible<T>(s: Session<T>, key: string, u: Update<T>)
    ensures Set(s, key, u, false).state == Set(s, key, u, true).state
    ensures Set(s, key, u, false).store == s.store
  {
  }

  /** The state and the storage agree: mounting from the storage now would
      give the state held in memory. */
  ghost predicate Mirrors<T>(s: Session<T>, key: string, default: T) {
    Init(s.store, key, default, true) == s.state
  }

  /** One call of the setter or of the clear function, with whether its
      storage access succeeds. */
  datatype Op<!T> = SetOp(u: Update<T>, writeOk: bool) | ClearOp(removeOk: bool)

  predicate Succeeds<T>(op: Op<T>) {
    match op
    case SetOp(_, ok) => ok
    case ClearOp(ok) => ok
  }

  function Apply<T>(s: Session<T>, key: string, default: T, op: Op<T>): Session<T> {
    match op
    case SetOp(u, ok) => Set(s, key, u, ok)
    case ClearOp(ok) => Clear(s, key, default, ok)
  }

  /** The session after a sequence of calls, oldest first. */
  function Replay<T>(s: Session<T>, key: string, default: T, ops: seq<Op<T>>): Session<T>
    decreases |ops|
  {
    if |ops| == 0 then s
    else Apply(Replay(s, key, default, ops[..|ops| - 1]), key, default, ops[|ops| - 1])
  }

  /** The state the calls lead to, computed without any storage at all. */
  function StateAfter<T>(state: T, default: T, ops: seq<Op<T>>): T
    decreases |ops|
  {
    if |ops| == 0 then state
    else
      var prev := StateAfter(state, default, ops[..|ops| - 1]);
      match ops[|ops| - 1]
      case SetOp(u, _) => NewValue(prev, u)
      case ClearOp(_) => default
  }

  /** A freshly mounted session mirrors its storage. */
  lemma MountMirrors<T>(store: Store<T>, key: string, default: T)
    ensures Mirrors(Session(store, Init(store, key, default, true)), key, default)
  {
  }

  /** Each successful call keeps the storage mirroring the state. */
  lemma ApplyMirrors<T>(s: Session<T>, key: string, default: T, op: Op<T>)
    requires Succeeds(op)
    ensures Mirrors(Apply(s, key, default, op), key, default)
  {
    match op
    case SetOp(u, ok) => SetThenRemount(s, key, u, default);
    case ClearOp(ok) => ClearThenRemount(s, key, default, true);
  }

  /** As long as every storage access succeeds, a reload at any point
      restores the state the component held. */
  lemma {:induction false} ReplayMirrors<T>(s: Session<T>, key: string, default: T, ops: seq<Op<T>>)
    requires Mirrors(s, key, default)
    requires forall i :: 0 <= i < |ops| ==> Succeeds(ops[i])
    ensures Mirrors(Replay(s, key, default, ops), key, default)
  {
    if |ops| > 0 {
      var front := ops[..|ops| - 1];
      assert forall i :: 0 <= i < |front| ==> Succeeds(front[i]) by {
        forall i | 0 <= i < |front| ensures Succeeds(front[i]) {
          assert front[i] == ops[i];
        }
      }
      ReplayMirrors(s, key, default, front);
      ApplyMirrors(Replay(s, key, default, front), key, default, ops[|ops| - 1]);
    }
  }

  /** The in-memory state never depends on storage: whichever reads, writes
      and removals fail, it is what the calls alone make of it. */
  lemma {:induction false} ReplayState<T>(s: Session<T>, key: string, default: T, ops: seq<Op<T>>)
    ensures Replay(s, key, default, ops).state == StateAfter(s.state, default, ops)
  {
    if |ops| > 0 {
      ReplayState(s, key, default, ops[..|ops| - 1]);
    }
  }
}
