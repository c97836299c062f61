/** The per-name processing guard (`processingFiles`) shared by both
    scripts' `createOrUpdatePage`. A call whose base name is held returns at
    once; otherwise it marks the name before its first request and clears
    the mark when it finishes. A call is modelled by the sequence of steps
    it takes, and the guard's contents at any point by replaying the marks
    and clears that came before. */
module Guard {
  import opened Common

  /** One step of a guarded call: set the mark, send a request, clear the
      mark. */
  datatype Step<E> = Mark(key: string) | Send(request: E) | Unmark(key: string)

  /** The guard as intended: a name is held exactly while a call for it is
      in flight. */
  predicate Held(processing: set<string>, key: string) {
    key in processing
  }

  /** Property names that every plain object literal inherits from
      `Object.prototype`, each with a truthy value. */
  const InheritedKeys: set<string> := {
    "constructor", "__proto__", "hasOwnProperty", "isPrototypeOf",
    "propertyIsEnumerable", "toLocaleString", "toString", "valueOf",
    "__defineGetter__", "__defineSetter__", "__lookupGetter__", "__lookupSetter__"
  }

  /** The guard as written: `processingFiles` is a plain object, so the test
      `processingFiles[name]` also finds the inherited properties. */
  predicate HeldAsWritten(processing: set<string>, key: string) {
    key in processing || key in InheritedKeys
  }

  /** The written test differs from the intended one exactly on the
      inherited names: a file called `constructor` or `toString` looks held
      even though no call for it is running. */
  lemma HeldAsWrittenDiffers(processing: set<string>, key: string)
    ensures HeldAsWritten(processing, key) != Held(processing, key)
        <==> key in InheritedKeys && key !in processing
    ensures HeldAsWritten({}, "constructor") && !Held({}, "constructor")
  {
  }

  /** The guard after one step. */
  function Apply<E>(processing: set<string>, step: Step<E>): set<string> {
    match step
    case Mark(k) => processing + {k}
    case Send(_) => processing
    case Unmark(k) => processing - {k}
  }

  /** The guard after a sequence of steps. */
  function Replay<E>(processing: set<string>, steps: seq<Step<E>>): set<string>
    decreases |steps|
  {
    if |steps| == 0 then processing else Replay(Apply(processing, steps[0]), steps[1..])
  }

  /** Each request as a step. */
  function Sends<E>(requests: seq<E>): (steps: seq<Step<E>>)
    ensures |steps| == |requests|
    ensures forall i :: 0 <= i < |requests| ==> steps[i] == Send(requests[i])
  {
    if |requests| == 0 then [] else [Send(requests[0])] + Sends(requests[1..])
  }

  /** A call that got past the guard: mark, the requests, clear. */
  function Guarded<E>(key: string, requests: seq<E>): (steps: seq<Step<E>>)
    ensures |steps| == |requests| + 2
    ensures steps[0] == Mark(key) && steps[|steps| - 1] == Unmark(key)
    ensures forall i :: 0 < i < |steps| - 1 ==> steps[i] == Send(requests[i - 1])
  {
    [Mark(key)] + Sends(requests) + [Unmark(key)]
  }

  /** Requests leave the guard alone. */
  lemma {:induction false} ReplaySends<E>(processing: set<string>, steps: seq<Step<E>>)
    requires forall i :: 0 <= i < |steps| ==> steps[i].Send?
    ensures Replay(processing, steps) == processing
    decreases |steps|
  {
    if |steps| > 0 {
      ReplaySends(processing, steps[1..]);
    }
  }

  lemma {:induction false} ReplayAppend<E>(processing: set<string>, a: seq<Step<E>>, b: seq<Step<E>>)
    ensures Replay(processing, a + b) == Replay(Replay(processing, a), b)
    decreases |a|
  {
    if |a| > 0 {
      assert (a + b)[1..] == a[1..] + b;
      ReplayAppend(Apply(processing, a[0]), a[1..], b);
    } else {
      assert a + b == b;
    }
  }

  /** A call that got past the guard holds its key at every request it
      sends, and leaves the guard as it found it. */
  lemma GuardedHolds<E>(processing: set<string>, key: string, requests: seq<E>)
    requires !Held(processing, key)
    ensures var steps := Guarded(key, requests);
      && (forall i :: 0 <= i < |steps| && steps[i].Send? ==> Held(Replay(processing, steps[..i]), key))
      && Replay(processing, steps) == processing
  {
    var steps := Guarded(key, requests);
    var sends := Sends(requests);
    forall i | 0 <= i < |steps| && steps[i].Send?
      ensures Held(Replay(processing, steps[..i]), key)
    {
      assert 1 <= i;
      assert steps[..i] == [Mark(key)] + sends[..i - 1];
      assert steps[..i][1..] == sends[..i - 1];
      ReplaySends(processing + {key}, sends[..i - 1]);
    }
    assert steps == ([Mark(key)] + sends) + [Unmark(key)];
    ReplayAppend(processing, [Mark(key)] + sends, [Unmark(key)]);
    assert ([Mark(key)] + sends)[1..] == sends;
    ReplaySends(processing + {key}, sends);
  }
}
